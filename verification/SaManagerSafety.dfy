/** What every step of the security association manager keeps. */
module SaManagerSafety {
  import opened SaManager

  function Holders(threads: map<Tid, Thread>, e: EntryId): set<Tid> {
    set t | t in threads && threads[t].Holding? && threads[t].e == e
  }

  function Waiters(threads: map<Tid, Thread>, e: EntryId): set<Tid> {
    set t | t in threads && threads[t].Waiting? && threads[t].e == e
  }

  function Removers(threads: map<Tid, Thread>, e: EntryId): set<Tid> {
    set t | t in threads && (threads[t].Removing? || threads[t].Destroying?) && threads[t].e == e
  }

  function Woken(threads: map<Tid, Thread>, e: EntryId): set<Tid> {
    set t | t in threads && WokenOn(threads[t], e)
  }

  ghost predicate AtMostOne(ts: set<Tid>) {
    forall t, u | t in ts && u in ts :: t == u
  }

  /** The flags and the counter of an entry say exactly which threads are at it. */
  ghost predicate EntryOk(s: State, e: EntryId)
    requires e in s.entries
  {
    var en := s.entries[e];
    && (en.locked <==> Holders(s.threads, e) != {})
    && AtMostOne(Holders(s.threads, e))
    && en.waiting == |Waiters(s.threads, e)|
    && (en.awaitsDeletion <==> Removers(s.threads, e) != {})
    && AtMostOne(Removers(s.threads, e))
    && (e !in s.sas ==> en.awaitsDeletion)
    && e < s.nextId
  }

  ghost predicate ThreadOk(s: State, th: Thread) {
    && (!th.Idle? ==> th.e in s.entries && (th.Destroying? <==> th.e !in s.sas))
    // the second loop of wait_remove_entry need not look at the lock again
    && (th.Removing? && th.drained ==> !s.entries[th.e].locked)
  }

  /** Nobody could still reach the entry when it was destroyed. */
  predicate Clean(d: Destruction) {
    !d.locked && d.waiting == 0 && !d.listed && d.reachers == {}
  }

  ghost predicate DestroyedOk(s: State) {
    && (forall i | 0 <= i < |s.destroyed| ::
          Clean(s.destroyed[i]) && s.destroyed[i].e !in s.entries && s.destroyed[i].e < s.nextId)
    && (forall i, j | 0 <= i < j < |s.destroyed| :: s.destroyed[i].e != s.destroyed[j].e)
  }

  ghost predicate NoDuplicates(list: seq<EntryId>) {
    forall i, j | 0 <= i < j < |list| :: list[i] != list[j]
  }

  ghost predicate Core(s: State) {
    && NoDuplicates(s.sas)
    && (forall e | e in s.sas :: e in s.entries)
    && (forall e | e in s.entries :: EntryOk(s, e))
    && (forall t | t in s.threads :: ThreadOk(s, s.threads[t]))
    && DestroyedOk(s)
  }

  /** No wake-up is lost: whoever sleeps on the entry waits for a checkin, or for a
      thread that has been woken and will run. */
  ghost predicate Awake(s: State, e: EntryId) {
    Sleepers(s.threads, e) != {} ==> (e in s.entries && s.entries[e].locked) || Woken(s.threads, e) != {}
  }

  ghost predicate Inv(s: State) {
    Core(s) && forall e: EntryId :: Awake(s, e)
  }

  // ---- how one thread's move changes who is where ----

  function Toggle(ts: set<Tid>, t: Tid, present: bool): set<Tid> {
    if present then ts + {t} else ts - {t}
  }

  lemma Moved(threads: map<Tid, Thread>, t: Tid, th: Thread, e: EntryId)
    ensures Holders(threads[t := th], e) == Toggle(Holders(threads, e), t, th.Holding? && th.e == e)
    ensures Waiters(threads[t := th], e) == Toggle(Waiters(threads, e), t, th.Waiting? && th.e == e)
    ensures Removers(threads[t := th], e)
            == Toggle(Removers(threads, e), t, (th.Removing? || th.Destroying?) && th.e == e)
    ensures Woken(threads[t := th], e) == Toggle(Woken(threads, e), t, WokenOn(th, e))
    ensures Sleepers(threads[t := th], e) == Toggle(Sleepers(threads, e), t, SleepsOn(th, e))
  {
  }

  /** A thread that stays away from an entry changes nothing there. */
  lemma Away(threads: map<Tid, Thread>, t: Tid, th: Thread, e: EntryId)
    requires t in threads
    requires threads[t].Idle? || threads[t].e != e
    requires th.Idle? || th.e != e
    ensures Holders(threads[t := th], e) == Holders(threads, e)
    ensures Waiters(threads[t := th], e) == Waiters(threads, e)
    ensures Removers(threads[t := th], e) == Removers(threads, e)
    ensures Woken(threads[t := th], e) == Woken(threads, e)
    ensures Sleepers(threads[t := th], e) == Sleepers(threads, e)
  {
  }

  /** Two thread maps that differ only in who has been woken. */
  ghost predicate SamePlaces(a: map<Tid, Thread>, b: map<Tid, Thread>) {
    && a.Keys == b.Keys
    && forall t | t in a :: b[t] == a[t] || b[t] == Wake(a[t])
  }

  lemma SamePlacesSets(a: map<Tid, Thread>, b: map<Tid, Thread>, e: EntryId)
    requires SamePlaces(a, b)
    ensures Holders(a, e) == Holders(b, e) && Waiters(a, e) == Waiters(b, e) && Removers(a, e) == Removers(b, e)
    ensures Woken(a, e) <= Woken(b, e) && Sleepers(b, e) <= Sleepers(a, e)
  {
    forall t | t in a
      ensures b[t].Holding? == a[t].Holding? && b[t].Waiting? == a[t].Waiting? && b[t].Removing? == a[t].Removing?
      ensures b[t].Destroying? == a[t].Destroying? && (!a[t].Idle? ==> b[t].e == a[t].e)
    {
      assert b[t] == a[t] || b[t] == Wake(a[t]);
    }
  }

  /** Waking threads keeps everything, the no-lost-wake-up rule included. */
  lemma WakingKeepsCore(s: State, b: map<Tid, Thread>)
    requires Core(s) && SamePlaces(s.threads, b)
    ensures Core(s.(threads := b))
    ensures forall e: EntryId | Awake(s, e) :: Awake(s.(threads := b), e)
  {
    var s1 := s.(threads := b);
    forall e | e in s1.entries ensures EntryOk(s1, e) { SamePlacesSets(s.threads, b, e); assert EntryOk(s, e); }
    forall t | t in s1.threads ensures ThreadOk(s1, b[t]) { assert ThreadOk(s, s.threads[t]); }
    forall e: EntryId | Awake(s, e) ensures Awake(s1, e) { SamePlacesSets(s.threads, b, e); }
  }

  /** After a signal the rule holds for the signalled entry whatever it was before. */
  lemma SignalKeeps(s: State, e: EntryId, pick: Tid)
    requires Core(s) && ValidPick(s.threads, e, pick)
    ensures Core(s.(threads := Signal(s.threads, e, pick)))
    ensures Awake(s.(threads := Signal(s.threads, e, pick)), e)
    ensures forall x: EntryId | Awake(s, x) :: Awake(s.(threads := Signal(s.threads, e, pick)), x)
  {
    var b := Signal(s.threads, e, pick);
    WakingKeepsCore(s, b);
    if pick in Sleepers(s.threads, e) {
      assert pick in Woken(b, e);
    }
  }

  lemma BroadcastKeeps(s: State, e: EntryId)
    requires Core(s)
    ensures Core(s.(threads := Broadcast(s.threads, e)))
    ensures Sleepers(Broadcast(s.threads, e), e) == {}
    ensures Waiters(s.threads, e) <= Woken(Broadcast(s.threads, e), e)
    ensures forall x: EntryId | Awake(s, x) :: Awake(s.(threads := Broadcast(s.threads, e)), x)
  {
    var b := Broadcast(s.threads, e);
    assert SamePlaces(s.threads, b);
    WakingKeepsCore(s, b);
  }

  // ---- moves of one thread that touch one entry ----

  /** t, so far idle, moves to the entry e, whose record changes along; other entries see nothing. */
  lemma MoveKeepsOthers(s: State, t: Tid, th: Thread, e: EntryId, en: Entry)
    requires Core(s) && t in s.threads && e in s.entries
    requires !s.threads[t].Idle? ==> s.threads[t].e == e
    requires !th.Idle? ==> th.e == e
    ensures forall x | x in s.entries && x != e :: EntryOk(SetThread(SetEntry(s, e, en), t, th), x)
    ensures forall x: EntryId | x != e && Awake(s, x) :: Awake(SetThread(SetEntry(s, e, en), t, th), x)
  {
    var s1 := SetThread(SetEntry(s, e, en), t, th);
    forall x | x in s.entries && x != e ensures EntryOk(s1, x) { Away(s.threads, t, th, x); assert EntryOk(s, x); }
    forall x: EntryId | x != e && Awake(s, x) ensures Awake(s1, x) { Away(s.threads, t, th, x); }
  }

  lemma Single(ts: set<Tid>, t: Tid)
    requires AtMostOne(ts) && t in ts
    ensures ts == {t}
  {
  }

  lemma MoveKeepsCore(s: State, t: Tid, th: Thread, e: EntryId, en: Entry)
    requires Core(s) && t in s.threads && e in s.entries
    requires !s.threads[t].Idle? ==> s.threads[t].e == e
    requires !th.Idle? ==> th.e == e
    requires en.locked ==> s.entries[e].locked || !s.entries[e].awaitsDeletion
    requires EntryOk(SetThread(SetEntry(s, e, en), t, th), e)
    requires ThreadOk(SetThread(SetEntry(s, e, en), t, th), th)
    ensures Core(SetThread(SetEntry(s, e, en), t, th))
  {
    var s1 := SetThread(SetEntry(s, e, en), t, th);
    MoveKeepsOthers(s, t, th, e, en);
    forall u | u in s1.threads ensures ThreadOk(s1, s1.threads[u]) {
      if u != t {
        assert ThreadOk(s, s.threads[u]);
        if s.threads[u].Removing? && s.threads[u].e == e { assert u in Removers(s.threads, e); assert EntryOk(s, e); }
      }
    }
  }

  lemma WaiterJoins(threads: map<Tid, Thread>, t: Tid, th: Thread, e: EntryId)
    requires t in threads && threads[t].Idle? && th.Waiting? && th.e == e
    ensures Holders(threads[t := th], e) == Holders(threads, e) && Removers(threads[t := th], e) == Removers(threads, e)
    ensures |Waiters(threads[t := th], e)| == |Waiters(threads, e)| + 1
  {
    assert Waiters(threads[t := th], e) == Waiters(threads, e) + {t};
  }

  lemma HolderJoins(threads: map<Tid, Thread>, t: Tid, th: Thread, e: EntryId)
    requires t in threads && threads[t].Idle? && th.Holding? && th.e == e && Holders(threads, e) == {}
    ensures Waiters(threads[t := th], e) == Waiters(threads, e) && Removers(threads[t := th], e) == Removers(threads, e)
    ensures Holders(threads[t := th], e) == {t}
  {
    Moved(threads, t, th, e);
  }

  lemma LockedMoveEntry(s: State, t: Tid, th: Thread, e: EntryId, en: Entry)
    requires Core(s) && t in s.threads && e in s.sas && s.threads[t].Idle?
    requires !s.entries[e].awaitsDeletion && en.locked && en.awaitsDeletion == s.entries[e].awaitsDeletion
    requires if s.entries[e].locked then th.Waiting? && en.waiting == s.entries[e].waiting + 1
             else th.Holding? && en.waiting == s.entries[e].waiting
    requires th.e == e
    ensures EntryOk(SetThread(SetEntry(s, e, en), t, th), e) && ThreadOk(SetThread(SetEntry(s, e, en), t, th), th)
  {
    assert EntryOk(s, e);
    if th.Waiting? { WaiterJoins(s.threads, t, th, e); } else { HolderJoins(s.threads, t, th, e); }
  }

  /** t goes to sleep on a locked entry, or takes the lock: either way the entry is locked. */
  lemma LockedMoveKeeps(s: State, t: Tid, th: Thread, e: EntryId, en: Entry)
    requires Core(s) && t in s.threads && e in s.sas && s.threads[t].Idle?
    requires forall x: EntryId | x != e :: Awake(s, x)
    requires !s.entries[e].awaitsDeletion && en.locked && en.awaitsDeletion == s.entries[e].awaitsDeletion
    requires if s.entries[e].locked then th.Waiting? && en.waiting == s.entries[e].waiting + 1
             else th.Holding? && en.waiting == s.entries[e].waiting
    requires th.e == e
    ensures Inv(SetThread(SetEntry(s, e, en), t, th))
  {
    LockedMoveEntry(s, t, th, e, en);
    MoveKeepsCore(s, t, th, e, en);
    MoveKeepsOthers(s, t, th, e, en);
  }

  lemma HolderLeaves(threads: map<Tid, Thread>, t: Tid, e: EntryId)
    requires t in threads && threads[t] == Holding(e) && AtMostOne(Holders(threads, e))
    ensures Holders(threads, e) != {} && Holders(threads[t := Idle], e) == {}
    ensures Waiters(threads[t := Idle], e) == Waiters(threads, e)
            && Removers(threads[t := Idle], e) == Removers(threads, e)
            && Sleepers(threads[t := Idle], e) == Sleepers(threads, e)
  {
    assert t in Holders(threads, e);
    Single(Holders(threads, e), t);
    Moved(threads, t, Idle, e);
    assert t !in Waiters(threads, e) && t !in Removers(threads, e) && t !in Sleepers(threads, e);
  }

  /** t lets go of the entry. */
  lemma LetGoKeeps(s: State, t: Tid, e: EntryId, en: Entry)
    requires Core(s) && t in s.threads && e in s.sas
    requires s.threads[t].Idle? || (s.threads[t].Holding? && s.threads[t].e == e)
    requires en.waiting == s.entries[e].waiting && en.awaitsDeletion == s.entries[e].awaitsDeletion
    requires en.locked == (s.entries[e].locked && s.threads[t].Idle?)
    ensures Core(SetThread(SetEntry(s, e, en), t, Idle))
    ensures Sleepers(s.threads[t := Idle], e) == Sleepers(s.threads, e)
  {
    assert EntryOk(s, e);
    if s.threads[t].Holding? {
      HolderLeaves(s.threads, t, e);
    } else {
      assert s.threads[t := Idle] == s.threads;
    }
    MoveKeepsCore(s, t, Idle, e, en);
  }

  /** t lets go of the entry and signals its condition variable. */
  lemma SignalMoveKeeps(s: State, t: Tid, e: EntryId, en: Entry, pick: Tid)
    requires Core(s) && t in s.threads && e in s.sas
    requires forall x: EntryId | x != e :: Awake(s, x)
    requires s.threads[t].Idle? || (s.threads[t].Holding? && s.threads[t].e == e)
    requires ValidPick(s.threads, e, pick)
    requires en.waiting == s.entries[e].waiting && en.awaitsDeletion == s.entries[e].awaitsDeletion
    requires en.locked == (s.entries[e].locked && s.threads[t].Idle?)
    ensures Inv(SetEntry(s.(threads := Signal(s.threads[t := Idle], e, pick)), e, en))
  {
    var s0 := SetThread(SetEntry(s, e, en), t, Idle);
    LetGoKeeps(s, t, e, en);
    MoveKeepsOthers(s, t, Idle, e, en);
    SignalKeeps(s0, e, pick);
  }

  /** An idle thread finds the entry free or doomed, and signals. */
  lemma PassKeeps(s: State, t: Tid, e: EntryId, sa: Sa, pick: Tid)
    requires Core(s) && t in s.threads && s.threads[t].Idle? && e in s.sas
    requires forall x: EntryId | x != e :: Awake(s, x)
    requires ValidPick(s.threads, e, pick)
    ensures var s1 := s.(threads := Signal(s.threads[t := Idle], e, pick));
            var en := s.entries[e].(sa := sa);
            Inv(SetEntry(s1, e, en)) && (sa == s.entries[e].sa ==> SetEntry(s1, e, en) == s1)
  {
    SignalMoveKeeps(s, t, e, s.entries[e].(sa := sa), pick);
    assert s.entries[e := s.entries[e]] == s.entries;
  }

  /** wait_for_entry, entered by an idle thread or re-entered by one that just left its wait. */
  lemma WaitForEntryKeeps(s: State, t: Tid, e: EntryId, use: Use, pick: Tid)
    requires Core(s) && t in s.threads && s.threads[t].Idle? && e in s.sas
    requires forall x: EntryId | x != e :: Awake(s, x)
    requires ValidPick(s.threads, e, pick)
    ensures Inv(WaitForEntry(s, t, e, use, pick))
  {
    var en := s.entries[e];
    if en.locked && !en.awaitsDeletion {
      LockedMoveKeeps(s, t, Waiting(e, use, false), e, en.(waiting := en.waiting + 1));
    } else if !en.awaitsDeletion && use.Checkout? {
      LockedMoveKeeps(s, t, Holding(e), e, en.(locked := true));
    } else {
      var sa := if use.Update? && !en.awaitsDeletion
                then en.sa.(src := use.newSrc, dst := use.newDst, encap := use.newEncap)
                else en.sa;
      PassKeeps(s, t, e, sa, pick);
    }
  }

  lemma LeaveWaitEntry(s: State, t: Tid, e: EntryId)
    requires Core(s) && t in s.threads && s.threads[t].Waiting? && s.threads[t].e == e && e in s.sas
    ensures s.entries[e].waiting > 0 && EntryOk(LeaveWait(s, t, e), e)
  {
    assert EntryOk(s, e);
    assert t in Waiters(s.threads, e);
    Moved(s.threads, t, Idle, e);
  }

  lemma LeaveWaitKeeps(s: State, t: Tid)
    requires Inv(s) && t in s.threads && s.threads[t].Waiting? && s.threads[t].woken
    ensures var e := s.threads[t].e; e in s.sas && e in s.entries && Core(LeaveWait(s, t, e))
    ensures var e := s.threads[t].e; forall x: EntryId | x != e :: Awake(LeaveWait(s, t, e), x)
    ensures var e := s.threads[t].e; Sleepers(LeaveWait(s, t, e).threads, e) == Sleepers(s.threads, e)
  {
    var e := s.threads[t].e;
    assert ThreadOk(s, s.threads[t]) && EntryOk(s, e);
    LeaveWaitEntry(s, t, e);
    var en := s.entries[e].(waiting := s.entries[e].waiting - 1);
    assert Sleepers(s.threads[t := Idle], e) == Sleepers(s.threads, e);
    MoveKeepsCore(s, t, Idle, e, en);
    MoveKeepsOthers(s, t, Idle, e, en);
  }

  lemma CheckinKeeps(s: State, t: Tid, pick: Tid)
    requires Inv(s) && Enabled(s, Checkin(t, pick))
    ensures Inv(Apply(s, Checkin(t, pick)))
    ensures var e := s.threads[t].e;
            && e in s.sas && e in s.entries && s.entries[e].locked
            && var s1 := Apply(s, Checkin(t, pick)); e in s1.entries && !s1.entries[e].locked && s1.sas == s.sas
  {
    var e := s.threads[t].e;
    assert ThreadOk(s, s.threads[t]) && EntryOk(s, e);
    assert t in Holders(s.threads, e);
    SignalMoveKeeps(s, t, e, s.entries[e].(locked := false), pick);
  }

  // ---- removal ----

  lemma WithoutKeeps(list: seq<EntryId>, e: EntryId)
    requires NoDuplicates(list)
    ensures NoDuplicates(Without(list, e))
  {
    if list != [] {
      assert forall i | 0 < i < |list| :: list[i] != list[0];
      assert list[0] !in list[1..];
      WithoutKeeps(list[1..], e);
    }
  }

  /** A thread alone at its entry: nobody else refers to it. */
  lemma Alone(s: State, t: Tid)
    requires Core(s) && t in s.threads && (s.threads[t].Removing? || s.threads[t].Destroying?)
    requires var e := s.threads[t].e;
             e in s.entries && (e in s.sas ==> !s.entries[e].locked && s.entries[e].waiting == 0)
    ensures forall u | u in s.threads && u != t && !s.threads[u].Idle? :: s.threads[u].e != s.threads[t].e
    ensures Reachers(s.threads, t, s.threads[t].e) == {}
    ensures !s.entries[s.threads[t].e].locked && s.entries[s.threads[t].e].waiting == 0
  {
    var e := s.threads[t].e;
    assert EntryOk(s, e);
    assert t in Removers(s.threads, e);
    forall u | u in s.threads && u != t && !s.threads[u].Idle? ensures s.threads[u].e != e {
      assert ThreadOk(s, s.threads[u]);
      assert u !in Removers(s.threads, e);
      assert e in s.sas ==> u !in Holders(s.threads, e) && u !in Waiters(s.threads, e);
    }
    assert Holders(s.threads, e) == {} && Waiters(s.threads, e) == {};
  }

  lemma UnlinkKeepsEntries(s: State, t: Tid)
    requires Inv(s) && t in s.threads && s.threads[t].Removing? && s.threads[t].e in s.entries
    ensures var e := s.threads[t].e;
            var s1 := SetThread(s.(sas := Without(s.sas, e)), t, Destroying(e));
            (forall x | x in s1.entries :: EntryOk(s1, x)) && forall x: EntryId | x != e :: Awake(s1, x)
  {
    var e := s.threads[t].e;
    var s1 := SetThread(s.(sas := Without(s.sas, e)), t, Destroying(e));
    assert t in Removers(s.threads, e) && t !in Holders(s.threads, e) && t !in Waiters(s.threads, e);
    forall x | x in s1.entries && x != e ensures EntryOk(s1, x) {
      Away(s.threads, t, Destroying(e), x);
      assert EntryOk(s, x);
    }
    forall x: EntryId | x != e ensures Awake(s1, x) { Away(s.threads, t, Destroying(e), x); assert Awake(s, x); }
    Moved(s.threads, t, Destroying(e), e);
    assert Removers(s1.threads, e) == Removers(s.threads, e);
    assert Waiters(s1.threads, e) == Waiters(s.threads, e);
    assert EntryOk(s, e);
  }

  /** A remover that finds the entry free unlinks it. */
  lemma UnlinkKeeps(s: State, t: Tid)
    requires Inv(s) && t in s.threads && s.threads[t].Removing?
    requires var e := s.threads[t].e; e in s.entries && !s.entries[e].locked && s.entries[e].waiting == 0
    ensures var e := s.threads[t].e; Inv(SetThread(s.(sas := Without(s.sas, e)), t, Destroying(e)))
  {
    var e := s.threads[t].e;
    var s1 := SetThread(s.(sas := Without(s.sas, e)), t, Destroying(e));
    WithoutKeeps(s.sas, e);
    Alone(s, t);
    assert EntryOk(s, e);
    UnlinkKeepsEntries(s, t);
    forall u | u in s1.threads ensures ThreadOk(s1, s1.threads[u]) { assert ThreadOk(s, s.threads[u]); }
  }

  lemma DestroyKeepsEntries(s: State, t: Tid)
    requires Inv(s) && t in s.threads && s.threads[t].Destroying? && s.threads[t].e in s.entries
    ensures var s1 := DestroyEntry(s, t, s.threads[t].e);
            (forall x | x in s1.entries :: EntryOk(s1, x)) && forall x: EntryId :: Awake(s1, x)
  {
    var e := s.threads[t].e;
    var s1 := DestroyEntry(s, t, e);
    Alone(s, t);
    forall x | x in s1.entries ensures EntryOk(s1, x) { Away(s.threads, t, Idle, x); assert EntryOk(s, x); }
    forall x: EntryId | x != e ensures Awake(s1, x) { Away(s.threads, t, Idle, x); assert Awake(s, x); }
  }

  lemma DestroyKeepsThreads(s: State, t: Tid)
    requires Core(s) && t in s.threads && s.threads[t].Destroying? && s.threads[t].e in s.entries
             && s.threads[t].e !in s.sas
    ensures var s1 := DestroyEntry(s, t, s.threads[t].e);
            DestroyedOk(s1) && forall u | u in s1.threads :: ThreadOk(s1, s1.threads[u])
  {
    var e := s.threads[t].e;
    var s1 := DestroyEntry(s, t, e);
    Alone(s, t);
    assert EntryOk(s, e);
    forall u | u in s1.threads ensures ThreadOk(s1, s1.threads[u]) { assert ThreadOk(s, s.threads[u]); }
  }

  lemma DestroyKeeps(s: State, t: Tid)
    requires Inv(s) && t in s.threads && s.threads[t].Destroying?
    ensures s.threads[t].e in s.entries && Inv(DestroyEntry(s, t, s.threads[t].e))
  {
    var e := s.threads[t].e;
    assert ThreadOk(s, s.threads[t]) && EntryOk(s, e);
    DestroyKeepsThreads(s, t);
    DestroyKeepsEntries(s, t);
  }

  /** The remover goes (back) to sleep, either with the lock held by someone or with a waiter woken. */
  lemma RemoverSleepsKeeps(s: State, t: Tid, drained: bool)
    requires Inv(s) && t in s.threads && s.threads[t].Removing? && s.threads[t].e in s.entries
    requires var e := s.threads[t].e;
             if drained then !s.entries[e].locked && Waiters(s.threads, e) * Woken(s.threads, e) != {}
             else s.entries[e].locked
    ensures var th := s.threads[t]; Inv(SetThread(s, t, Removing(th.e, th.why, drained, false)))
  {
    var th := s.threads[t];
    var e, en, th1 := th.e, s.entries[th.e], Removing(th.e, th.why, drained, false);
    assert ThreadOk(s, th) && EntryOk(s, e);
    assert SetEntry(s, e, en) == s by { assert s.entries[e := en] == s.entries; }
    assert t in Removers(s.threads, e) && t !in Waiters(s.threads, e) && t !in Holders(s.threads, e);
    Moved(s.threads, t, th1, e);
    assert Removers(s.threads[t := th1], e) == Removers(s.threads, e);
    assert Waiters(s.threads[t := th1], e) == Waiters(s.threads, e);
    MoveKeepsCore(s, t, th1, e, en);
    MoveKeepsOthers(s, t, th1, e, en);
    if drained {
      var w :| w in Waiters(s.threads, e) * Woken(s.threads, e);
      assert w in Woken(s.threads[t := th1], e);
    }
  }

  lemma DestroyAtOnce(s: State, t: Tid, e: EntryId)
    requires e in s.entries && t in s.threads
    ensures DestroyEntry(SetThread(s, t, Destroying(e)), t, e) == DestroyEntry(s, t, e)
  {
    assert Reachers(s.threads[t := Destroying(e)], t, e) == Reachers(s.threads, t, e);
  }

  lemma BroadcastAndSleepKeeps(s: State, t: Tid)
    requires Inv(s) && t in s.threads && s.threads[t].Removing? && s.threads[t].woken && s.threads[t].e in s.entries
    requires var e := s.threads[t].e; !s.entries[e].locked && s.entries[e].waiting > 0
    ensures var th := s.threads[t];
            Inv(SetThread(s.(threads := Broadcast(s.threads, th.e)), t, Removing(th.e, th.why, true, false)))
  {
    var e := s.threads[t].e;
    var b := Broadcast(s.threads, e);
    BroadcastKeeps(s, e);
    assert EntryOk(s, e);
    assert Waiters(b, e) == Waiters(s.threads, e);
    assert Waiters(b, e) * Woken(b, e) == Waiters(b, e);
    RemoverSleepsKeeps(s.(threads := b), t, true);
  }

  lemma FinishKeeps(s: State, t: Tid)
    requires Inv(s) && t in s.threads && s.threads[t].Removing? && s.threads[t].e in s.entries
    requires var e := s.threads[t].e; !s.entries[e].locked && s.entries[e].waiting == 0
    ensures var e := s.threads[t].e; Inv(DestroyEntry(s.(sas := Without(s.sas, e)), t, e))
  {
    var e := s.threads[t].e;
    var s1 := s.(sas := Without(s.sas, e));
    UnlinkKeeps(s, t);
    DestroyKeeps(SetThread(s1, t, Destroying(e)), t);
    DestroyAtOnce(s1, t, e);
  }

  lemma RemoverPlace(s: State, t: Tid)
    requires Core(s) && t in s.threads && s.threads[t].Removing?
    ensures s.threads[t].e in s.entries && s.threads[t].e in s.sas
    ensures s.threads[t].drained ==> !s.entries[s.threads[t].e].locked
    ensures s.entries[s.threads[t].e].awaitsDeletion
  {
    assert ThreadOk(s, s.threads[t]) && EntryOk(s, s.threads[t].e);
    assert t in Removers(s.threads, s.threads[t].e);
  }

  lemma DrainKeeps(s: State, t: Tid)
    requires Inv(s) && t in s.threads && s.threads[t].Removing? && s.threads[t].woken
    ensures s.threads[t].e in s.entries
    ensures var th := s.threads[t]; Inv(Drain(s, t, th.e, th.why, th.drained))
  {
    RemoverPlace(s, t);
    var th := s.threads[t];
    if !th.drained && s.entries[th.e].locked {
      RemoverSleepsKeeps(s, t, false);
    } else if s.entries[th.e].waiting > 0 {
      BroadcastAndSleepKeeps(s, t);
    } else if th.why.ForDelete? {
      UnlinkKeeps(s, t);
    } else {
      FinishKeeps(s, t);
    }
  }

  /** Where Drain leaves the thread, and that it never adds to the list or to the entries. */
  lemma DrainResult(s: State, t: Tid, e: EntryId, why: Remover, drained: bool)
    requires e in s.entries && t in s.threads
    ensures var s1 := Drain(s, t, e, why, drained);
            && s1.threads.Keys == s.threads.Keys
            && (s1.threads[t].Idle? || s1.threads[t].Removing? || s1.threads[t].Destroying?)
            && (forall x | x in s1.entries :: x in s.entries)
            && (forall x | x in s1.entries && x in s.sas && s1.threads[t].Idle? :: x in s1.sas)
  {
  }

  lemma MarkKeeps(s: State, t: Tid, e: EntryId, why: Remover)
    requires Inv(s) && t in s.threads && s.threads[t].Idle? && e in s.sas && !s.entries[e].awaitsDeletion
    ensures Inv(SetThread(SetEntry(s, e, s.entries[e].(awaitsDeletion := true)), t, Removing(e, why, false, true)))
  {
    var th, en1 := Removing(e, why, false, true), s.entries[e].(awaitsDeletion := true);
    assert EntryOk(s, e);
    assert t !in Waiters(s.threads, e) && t !in Holders(s.threads, e);
    Moved(s.threads, t, th, e);
    assert Removers(s.threads[t := th], e) == {t};
    assert Waiters(s.threads[t := th], e) == Waiters(s.threads, e);
    MoveKeepsCore(s, t, th, e, en1);
    MoveKeepsOthers(s, t, th, e, en1);
    assert t in Woken(s.threads[t := th], e);
  }

  lemma BeginRemoveKeeps(s: State, t: Tid, e: EntryId, why: Remover)
    requires Inv(s) && t in s.threads && s.threads[t].Idle? && e in s.sas
    ensures e in s.entries && Inv(BeginRemove(s, t, e, why))
  {
    var en := s.entries[e];
    if !en.awaitsDeletion {
      MarkKeeps(s, t, e, why);
      DrainKeeps(SetThread(SetEntry(s, e, en.(awaitsDeletion := true)), t, Removing(e, why, false, true)), t);
    }
  }

  lemma {:induction false} FlushKeeps(s: State, t: Tid, rest: seq<EntryId>)
    requires Inv(s) && t in s.threads && s.threads[t].Idle?
    requires forall e | e in rest && e in s.entries :: e in s.sas
    ensures Inv(FlushFrom(s, t, rest))
    decreases |rest|
  {
    if rest != [] {
      if rest[0] !in s.entries {
        FlushKeeps(s, t, rest[1..]);
      } else {
        BeginRemoveKeeps(s, t, rest[0], ForFlush);
        var en := s.entries[rest[0]];
        DrainResult(SetThread(SetEntry(s, rest[0], en.(awaitsDeletion := true)), t,
                              Removing(rest[0], ForFlush, false, true)),
                    t, rest[0], ForFlush, false);
        var s1 := BeginRemove(s, t, rest[0], ForFlush);
        if s1.threads[t].Idle? { FlushKeeps(s1, t, rest[1..]); }
      }
    }
  }

  lemma AfterListed(list: seq<EntryId>, e: EntryId)
    ensures forall x | x in After(list, e) :: x in list
  {
  }

  lemma ResumeRemoverKeeps(s: State, t: Tid)
    requires Inv(s) && t in s.threads && s.threads[t].Removing? && s.threads[t].woken
    ensures s.threads[t].e in s.entries && Inv(ResumeRemover(s, t))
  {
    var th := s.threads[t];
    DrainKeeps(s, t);
    DrainResult(s, t, th.e, th.why, th.drained);
    var s1 := Drain(s, t, th.e, th.why, th.drained);
    if th.why.ForFlush? && s1.threads[t].Idle? {
      AfterListed(s.sas, th.e);
      FlushKeeps(s1, t, After(s.sas, th.e));
    }
  }

  // ---- the remaining steps ----

  /** Changing the SA inside an entry moves nobody. */
  lemma SaChangeKeeps(s: State, e: EntryId, sa: Sa)
    requires Inv(s) && e in s.entries
    ensures Inv(SetEntry(s, e, s.entries[e].(sa := sa)))
  {
    var s1 := SetEntry(s, e, s.entries[e].(sa := sa));
    forall x | x in s1.entries ensures EntryOk(s1, x) { assert EntryOk(s, x); }
    forall t | t in s1.threads ensures ThreadOk(s1, s1.threads[t]) { assert ThreadOk(s, s.threads[t]); }
    forall x: EntryId ensures Awake(s1, x) { assert Awake(s, x); }
  }

  /** No thread knows the id of the next entry yet, and no list or record holds it. */
  lemma NextIdIsNew(s: State)
    requires Core(s)
    ensures s.nextId !in s.entries && s.nextId !in s.sas
    ensures forall t | t in s.threads && !s.threads[t].Idle? :: s.threads[t].e != s.nextId
    ensures Holders(s.threads, s.nextId) == {} && Waiters(s.threads, s.nextId) == {}
            && Removers(s.threads, s.nextId) == {}
  {
    forall e | e in s.entries ensures e < s.nextId { assert EntryOk(s, e); }
    forall t | t in s.threads && !s.threads[t].Idle? ensures s.threads[t].e != s.nextId {
      assert ThreadOk(s, s.threads[t]);
    }
  }

  /** A new entry goes to the head of the list. */
  lemma InsertKeeps(s: State, sa: Sa)
    requires Inv(s)
    ensures Inv(Insert(s, sa))
  {
    var n, s1 := s.nextId, Insert(s, sa);
    NextIdIsNew(s);
    forall t | t in s.threads ensures ThreadOk(s1, s.threads[t]) { assert ThreadOk(s, s.threads[t]); }
    forall x | x in s1.entries ensures EntryOk(s1, x) { if x != n { assert EntryOk(s, x); } }
    forall x: EntryId ensures Awake(s1, x) { assert Awake(s, x); }
    assert forall i | 0 <= i < |s.sas| :: s.sas[i] != n;
  }

  lemma ReservationKeeps(s: State, reserved: set<nat>)
    requires Inv(s)
    ensures Inv(s.(reserved := reserved))
  {
    var s1 := s.(reserved := reserved);
    forall x | x in s1.entries ensures EntryOk(s1, x) { assert EntryOk(s, x); }
    forall t | t in s1.threads ensures ThreadOk(s1, s1.threads[t]) { assert ThreadOk(s, s.threads[t]); }
    forall x: EntryId ensures Awake(s1, x) { assert Awake(s, x); }
  }

  lemma AddSaKeeps(s: State, a: Step)
    requires Inv(s) && a.AddSa? && Enabled(s, a)
    ensures Inv(Apply(s, a))
  {
    if a.update {
      ReservationKeeps(s, s.reserved - {a.sa.spi});
      InsertKeeps(s.(reserved := s.reserved - {a.sa.spi}), a.sa);
    } else {
      InsertKeeps(s, a.sa);
    }
  }

  lemma ExpireKeeps(s: State, a: Step)
    requires Inv(s) && a.Expire? && Enabled(s, a)
    ensures Inv(Apply(s, a))
  {
    if a.e in s.sas && a.e in s.entries && s.entries[a.e].sa.spi == a.spi {
      var sa := ExpireSa(s.entries[a.e].sa, a.hard);
      SaChangeKeeps(s, a.e, sa);
      if a.hard { BeginRemoveKeeps(SetEntry(s, a.e, s.entries[a.e].(sa := sa)), a.t, a.e, ForExpiry); }
    }
  }

  lemma DelSaKeeps(s: State, a: Step)
    requires Inv(s) && a.DelSa? && Enabled(s, a)
    ensures Inv(Apply(s, a))
  {
    var f := FindFirst(s.sas, s.entries, BySpiSrcDst(a.spi, a.src, a.dst));
    if f.None? || s.entries[f.value].awaitsDeletion { ReservationKeeps(s, s.reserved - {a.spi}); }
    else { BeginRemoveKeeps(s, a.t, f.value, ForDelete); }
  }

  lemma AcquireKeeps(s: State, a: Step)
    requires Inv(s) && a.Acquire? && Enabled(s, a)
    ensures Inv(Apply(s, a))
  {
    var f := FindFirst(s.sas, s.entries, a.key);
    if f.Some? { WaitForEntryKeeps(s, a.t, f.value, a.use, a.pick); }
  }

  lemma ResumeKeeps(s: State, a: Step)
    requires Inv(s) && a.Resume? && Enabled(s, a)
    ensures Inv(Apply(s, a))
  {
    if s.threads[a.t].Removing? {
      ResumeRemoverKeeps(s, a.t);
    } else {
      LeaveWaitKeeps(s, a.t);
      WaitForEntryKeeps(LeaveWait(s, a.t, s.threads[a.t].e), a.t, s.threads[a.t].e, s.threads[a.t].use, a.pick);
    }
  }

  /** Every step keeps the invariant. */
  lemma StepKeeps(s: State, a: Step)
    requires Inv(s) && Enabled(s, a)
    ensures Inv(Apply(s, a))
  {
    match a
    case GetSpi(_, spi) => ReservationKeeps(s, s.reserved + {spi});
    case AddSa(_, _, _) => AddSaKeeps(s, a);
    case Acquire(_, _, _, _) => AcquireKeeps(s, a);
    case Traffic(t, hard) => SaChangeKeeps(s, s.threads[t].e, ExpireSa(s.entries[s.threads[t].e].sa, hard));
    case Checkin(t, pick) => CheckinKeeps(s, t, pick);
    case DelSa(_, _, _, _) => DelSaKeeps(s, a);
    case Expire(_, _, _, _) => ExpireKeeps(s, a);
    case Flush(t) => FlushKeeps(s, t, s.sas);
    case Resume(_, _) => ResumeKeeps(s, a);
    case Destroy(t) => DestroyKeeps(s, t);
    case Spurious(t) => WakingKeepsCore(s, s.threads[t := Wake(s.threads[t])]);
    case Stutter =>
  }

  lemma {:induction false} RunKeeps(states: seq<State>, steps: seq<Step>, i: nat)
    requires IsRun(states, steps) && i < |states|
    ensures Inv(states[i])
  {
    if i > 0 {
      RunKeeps(states, steps, i - 1);
      assert Follows(states, steps, i - 1);
      StepKeeps(states[i - 1], steps[i - 1]);
    } else {
      forall e: EntryId ensures Awake(states[0], e) { assert Sleepers(states[0].threads, e) == {}; }
    }
  }

  // ---- what this means for a run ----

  /** In every interleaving at most one thread has an SA checked out, and the SA it holds is
      still installed, so that its checkin finds the entry. */
  lemma ExclusiveCheckout(states: seq<State>, steps: seq<Step>, i: nat, t: Tid, u: Tid)
    requires IsRun(states, steps) && i < |states|
    requires t in states[i].threads && states[i].threads[t].Holding?
    ensures states[i].threads[t].e in states[i].sas && states[i].threads[t].e in states[i].entries
    ensures states[i].entries[states[i].threads[t].e].locked
    ensures u in states[i].threads && states[i].threads[u] == states[i].threads[t] ==> u == t
  {
    RunKeeps(states, steps, i);
    var e := states[i].threads[t].e;
    assert ThreadOk(states[i], states[i].threads[t]) && EntryOk(states[i], e);
    assert t in Holders(states[i].threads, e);
    assert u in states[i].threads && states[i].threads[u] == states[i].threads[t]
           ==> u in Holders(states[i].threads, e);
  }

  /** In every interleaving an entry is destroyed at most once, and when it is, it is unlocked,
      nobody waits for it, it is out of the list and no other thread can reach it. */
  lemma DestroyedOnceAndUnreachable(states: seq<State>, steps: seq<Step>, i: nat, j: nat, k: nat)
    requires IsRun(states, steps) && i < |states| && j < |states[i].destroyed| && k < |states[i].destroyed|
    ensures Clean(states[i].destroyed[j])
    ensures states[i].destroyed[j].e == states[i].destroyed[k].e ==> j == k
    ensures states[i].destroyed[j].e !in states[i].entries && states[i].destroyed[j].e !in states[i].sas
  {
    RunKeeps(states, steps, i);
  }

  /** Only one thread at a time is removing or destroying an entry, it is the one that set
      awaits_deletion, and an unlinked entry is known to that thread only. */
  lemma OneRemover(states: seq<State>, steps: seq<Step>, i: nat, t: Tid, u: Tid)
    requires IsRun(states, steps) && i < |states|
    requires t in states[i].threads && (states[i].threads[t].Removing? || states[i].threads[t].Destroying?)
    requires u in states[i].threads && u != t && !states[i].threads[u].Idle?
    requires states[i].threads[u].e == states[i].threads[t].e
    ensures states[i].threads[u].Holding? || states[i].threads[u].Waiting?
    ensures states[i].threads[t].Removing? && states[i].threads[t].e in states[i].sas
  {
    RunKeeps(states, steps, i);
    var e := states[i].threads[t].e;
    assert ThreadOk(states[i], states[i].threads[t]) && ThreadOk(states[i], states[i].threads[u])
           && EntryOk(states[i], e);
    assert t in Removers(states[i].threads, e);
    assert u !in Removers(states[i].threads, e);
  }

  /** No wake-up is lost: in every reachable state a thread that sleeps on an entry has the entry
      checked out by somebody, or some thread on that entry has been woken. */
  lemma NoLostWakeup(states: seq<State>, steps: seq<Step>, i: nat, t: Tid)
    requires IsRun(states, steps) && i < |states|
    requires t in states[i].threads && (states[i].threads[t].Waiting? || states[i].threads[t].Removing?)
    requires !states[i].threads[t].woken
    ensures exists u | u in states[i].threads :: states[i].threads[u] == Holding(states[i].threads[t].e)
                                              || WokenOn(states[i].threads[u], states[i].threads[t].e)
  {
    RunKeeps(states, steps, i);
    var e := states[i].threads[t].e;
    assert t in Sleepers(states[i].threads, e);
    assert Awake(states[i], e);
    assert ThreadOk(states[i], states[i].threads[t]) && EntryOk(states[i], e);
    if Woken(states[i].threads, e) != {} {
      var u :| u in Woken(states[i].threads, e);
      assert WokenOn(states[i].threads[u], e);
    } else {
      var u :| u in Holders(states[i].threads, e);
      assert states[i].threads[u] == Holding(e);
    }
  }
}
