/** Removal of an SA finishes on every fair run of the manager. */
module SaManagerLiveness {
  import opened SaManager
  import opened SaManagerSafety

  // ---- what one mutex-held region, run by `who`, can do to the rest ----

  predicate Asleep(th: Thread) {
    (th.Waiting? || th.Removing?) && !th.woken
  }

  ghost predicate Logged(destroyed: seq<Destruction>, e: EntryId) {
    exists i :: 0 <= i < |destroyed| && destroyed[i].e == e
  }

  /** Once an entry awaits deletion its lock is not taken again and nobody queues up for it. */
  ghost predicate Settles(s: State, s1: State, e: EntryId)
    requires e in s.entries
  {
    e in s1.entries && s.entries[e].awaitsDeletion ==>
      && s1.entries[e].awaitsDeletion
      && (s1.entries[e].locked ==> s.entries[e].locked)
      && s1.entries[e].waiting <= s.entries[e].waiting
  }

  ghost predicate Region(s: State, s1: State, who: Tid) {
    && s.threads.Keys == s1.threads.Keys
    // other threads are at most woken
    && (forall x | x in s.threads && x != who ::
          s1.threads[x] == s.threads[x] || (Asleep(s.threads[x]) && s1.threads[x] == Wake(s.threads[x])))
    && (forall e | e in s.entries :: Settles(s, s1, e))
    // entries only vanish by being destroyed, and never return to the list
    && (forall e | e in s.entries && e !in s1.entries :: Logged(s1.destroyed, e))
    && s.destroyed <= s1.destroyed
    && s.nextId <= s1.nextId
    && (forall e | e in s1.sas :: e in s.sas || e >= s.nextId)
    && (forall e | e in s1.entries :: e in s.entries || e >= s.nextId)
  }

  lemma RegionTrans(a: State, b: State, c: State, who: Tid)
    requires Region(a, b, who) && Region(b, c, who)
    requires forall e | e in a.entries :: e < a.nextId
    ensures Region(a, c, who)
  {
    forall x | x in a.threads && x != who
      ensures c.threads[x] == a.threads[x] || (Asleep(a.threads[x]) && c.threads[x] == Wake(a.threads[x]))
    {
      assert b.threads[x] == a.threads[x] || (Asleep(a.threads[x]) && b.threads[x] == Wake(a.threads[x]));
    }
    forall e | e in a.entries ensures Settles(a, c, e) {
      assert Settles(a, b, e);
      if e in b.entries { assert Settles(b, c, e); }
    }
    forall e | e in a.entries && e !in c.entries ensures Logged(c.destroyed, e) {
      if e !in b.entries {
        assert Logged(b.destroyed, e);
        var i :| 0 <= i < |b.destroyed| && b.destroyed[i].e == e;
        assert c.destroyed[i].e == e;
      }
    }
  }

  lemma WaitForEntryRegion(s: State, t: Tid, e: EntryId, use: Use, pick: Tid)
    requires e in s.entries && t in s.threads && !Asleep(s.threads[t])
    ensures Region(s, WaitForEntry(s, t, e, use, pick), t)
  {
  }

  lemma LeaveWaitRegion(s: State, t: Tid, e: EntryId)
    requires e in s.entries && t in s.threads
    ensures Region(s, LeaveWait(s, t, e), t)
  {
  }

  lemma DestroyRegion(s: State, t: Tid, e: EntryId)
    requires e in s.entries && t in s.threads
    ensures Region(s, DestroyEntry(s, t, e), t)
  {
    var s1 := DestroyEntry(s, t, e);
    assert s1.destroyed[|s.destroyed|].e == e;
  }

  lemma DrainRegion(s: State, t: Tid, e: EntryId, why: Remover, drained: bool)
    requires e in s.entries && t in s.threads
    ensures Region(s, Drain(s, t, e, why, drained), t)
  {
    if (drained || !s.entries[e].locked) && s.entries[e].waiting == 0 {
      DestroyRegion(s.(sas := Without(s.sas, e)), t, e);
    }
  }

  lemma BeginRemoveRegion(s: State, t: Tid, e: EntryId, why: Remover)
    requires e in s.entries && t in s.threads && (forall x | x in s.entries :: x < s.nextId)
    ensures Region(s, BeginRemove(s, t, e, why), t)
  {
    if !s.entries[e].awaitsDeletion {
      var s1 := SetThread(SetEntry(s, e, s.entries[e].(awaitsDeletion := true)), t, Removing(e, why, false, true));
      DrainRegion(s1, t, e, why, false);
      RegionTrans(s, s1, BeginRemove(s, t, e, why), t);
    }
  }

  lemma {:induction false} FlushRegion(s: State, t: Tid, rest: seq<EntryId>)
    requires t in s.threads && (forall x | x in s.entries :: x < s.nextId)
    ensures Region(s, FlushFrom(s, t, rest), t)
    decreases |rest|
  {
    if rest != [] {
      if rest[0] !in s.entries {
        FlushRegion(s, t, rest[1..]);
      } else {
        var s1 := BeginRemove(s, t, rest[0], ForFlush);
        BeginRemoveRegion(s, t, rest[0], ForFlush);
        if s1.threads[t].Idle? {
          FlushRegion(s1, t, rest[1..]);
          RegionTrans(s, s1, FlushFrom(s, t, rest), t);
        }
      }
    }
  }

  function Actor(a: Step): Tid {
    if a.Stutter? then 0 else a.t
  }

  lemma ResumeRegion(s: State, a: Step)
    requires Inv(s) && a.Resume? && Enabled(s, a)
    ensures Region(s, Apply(s, a), a.t)
  {
    var t, e := a.t, s.threads[a.t].e;
    forall x | x in s.entries ensures x < s.nextId { assert EntryOk(s, x); }
    if s.threads[t].Removing? {
      var th := s.threads[t];
      var s1 := Drain(s, t, e, th.why, th.drained);
      DrainRegion(s, t, e, th.why, th.drained);
      if th.why.ForFlush? && s1.threads[t].Idle? {
        FlushRegion(s1, t, After(s.sas, e));
        RegionTrans(s, s1, Apply(s, a), t);
      }
    } else {
      LeaveWaitRegion(s, t, e);
      WaitForEntryRegion(LeaveWait(s, t, e), t, e, s.threads[t].use, a.pick);
      RegionTrans(s, LeaveWait(s, t, e), Apply(s, a), t);
    }
  }

  lemma SaChangeRegion(s: State, t: Tid, e: EntryId, sa: Sa)
    requires e in s.entries
    ensures Region(s, SetEntry(s, e, s.entries[e].(sa := sa)), t)
  {
  }

  lemma ExpireRegion(s: State, a: Step)
    requires Inv(s) && a.Expire? && Enabled(s, a)
    ensures Region(s, Apply(s, a), a.t)
  {
    forall x | x in s.entries ensures x < s.nextId { assert EntryOk(s, x); }
    if a.e in s.sas && a.e in s.entries && s.entries[a.e].sa.spi == a.spi {
      var sa := ExpireSa(s.entries[a.e].sa, a.hard);
      SaChangeRegion(s, a.t, a.e, sa);
      if a.hard {
        var s1 := SetEntry(s, a.e, s.entries[a.e].(sa := sa));
        BeginRemoveRegion(s1, a.t, a.e, ForExpiry);
        RegionTrans(s, s1, BeginRemove(s1, a.t, a.e, ForExpiry), a.t);
      }
    }
  }

  lemma AddSaRegion(s: State, a: Step)
    requires Inv(s) && a.AddSa? && Enabled(s, a)
    ensures Region(s, Apply(s, a), a.t)
  {
    NextIdIsNew(s);
  }

  lemma CheckinRegion(s: State, a: Step)
    requires a.Checkin? && Enabled(s, a)
    ensures Region(s, Apply(s, a), a.t)
  {
  }

  lemma DelSaRegion(s: State, a: Step)
    requires Inv(s) && a.DelSa? && Enabled(s, a)
    ensures Region(s, Apply(s, a), a.t)
  {
    forall x | x in s.entries ensures x < s.nextId { assert EntryOk(s, x); }
    var f := FindFirst(s.sas, s.entries, BySpiSrcDst(a.spi, a.src, a.dst));
    if f.Some? { BeginRemoveRegion(s, a.t, f.value, ForDelete); }
  }

  lemma FlushStepRegion(s: State, t: Tid)
    requires Inv(s) && t in s.threads
    ensures Region(s, FlushFrom(s, t, s.sas), t)
  {
    forall x | x in s.entries ensures x < s.nextId { assert EntryOk(s, x); }
    FlushRegion(s, t, s.sas);
  }

  lemma AcquireRegion(s: State, a: Step)
    requires a.Acquire? && Enabled(s, a)
    ensures Region(s, Apply(s, a), a.t)
  {
    var f := FindFirst(s.sas, s.entries, a.key);
    if f.Some? { WaitForEntryRegion(s, a.t, f.value, a.use, a.pick); }
  }

  /** Steps that leave the list and the entries alone. */
  lemma SmallStepRegion(s: State, a: Step)
    requires Enabled(s, a) && (a.GetSpi? || a.Spurious? || a.Stutter?)
    ensures Region(s, Apply(s, a), Actor(a))
  {
  }

  lemma StepRegion(s: State, a: Step)
    requires Inv(s) && Enabled(s, a)
    ensures Region(s, Apply(s, a), Actor(a))
  {
    match a
    case GetSpi(_, _) => SmallStepRegion(s, a);
    case AddSa(_, _, _) => AddSaRegion(s, a);
    case Acquire(_, _, _, _) => AcquireRegion(s, a);
    case Traffic(t, hard) => SaChangeRegion(s, t, s.threads[t].e, ExpireSa(s.entries[s.threads[t].e].sa, hard));
    case Checkin(_, _) => CheckinRegion(s, a);
    case DelSa(_, _, _, _) => DelSaRegion(s, a);
    case Expire(_, _, _, _) => ExpireRegion(s, a);
    case Flush(t) => FlushStepRegion(s, t);
    case Resume(_, _) => ResumeRegion(s, a);
    case Destroy(t) => DestroyRegion(s, t, s.threads[t].e);
    case Spurious(_) => SmallStepRegion(s, a);
    case Stutter => SmallStepRegion(s, a);
  }

  // ---- fair behaviours ----

  ghost predicate StepOk(b: nat -> State, a: nat -> Step, i: nat) {
    Enabled(b(i), a(i)) && b(i + 1) == Apply(b(i), a(i))
  }

  /** An infinite run. */
  ghost predicate IsBehaviour(b: nat -> State, a: nat -> Step) {
    Init(b(0)) && forall i: nat :: StepOk(b, a, i)
  }

  /** The thread can go on by itself: it holds an SA it will check in, it has been woken, or
      it is about to destroy what it unlinked. */
  ghost predicate Ready(s: State, t: Tid) {
    t in s.threads && !s.threads[t].Idle? && !Asleep(s.threads[t])
  }

  predicate Acts(a: Step, t: Tid) {
    (a.Checkin? || a.Resume? || a.Destroy?) && a.t == t
  }

  /** Every thread that can go on eventually does: holders check in, woken threads get the mutex. */
  ghost predicate Fair(b: nat -> State, a: nat -> Step) {
    forall i: nat, t: Tid | Ready(b(i), t) :: exists j: nat :: i <= j && Acts(a(j), t)
  }

  lemma {:induction false} BehaviourInv(b: nat -> State, a: nat -> Step, i: nat)
    requires IsBehaviour(b, a)
    ensures Inv(b(i))
  {
    if i == 0 {
      forall e: EntryId ensures Awake(b(0), e) { assert Sleepers(b(0).threads, e) == {}; }
    } else {
      BehaviourInv(b, a, i - 1);
      assert StepOk(b, a, i - 1);
      StepKeeps(b(i - 1), a(i - 1));
    }
  }

  /** Nobody else moves a thread that is ready. */
  lemma ReadyStays(s: State, a: Step, t: Tid)
    requires Inv(s) && Enabled(s, a) && Ready(s, t) && !Acts(a, t)
    ensures t in Apply(s, a).threads && Apply(s, a).threads[t] == s.threads[t]
  {
    StepRegion(s, a);
    if Actor(a) == t && !a.Stutter? {
      assert a.Traffic? || a.Spurious?;
    }
  }

  lemma {:induction false} ReadyUntil(b: nat -> State, a: nat -> Step, i: nat, j: nat, t: Tid)
    requires IsBehaviour(b, a) && i <= j && Ready(b(i), t)
    requires forall k: nat | i <= k < j :: !Acts(a(k), t)
    ensures t in b(j).threads && b(j).threads[t] == b(i).threads[t]
  {
    if i < j {
      ReadyUntil(b, a, i, j - 1, t);
      BehaviourInv(b, a, j - 1);
      assert StepOk(b, a, j - 1);
      ReadyStays(b(j - 1), a(j - 1), t);
    }
  }

  lemma {:induction false} FirstAct(a: nat -> Step, i: nat, n: nat, t: Tid) returns (j: nat)
    requires i <= n && Acts(a(n), t)
    ensures i <= j <= n && Acts(a(j), t)
    ensures forall k: nat | i <= k < j :: !Acts(a(k), t)
    decreases n - i
  {
    if Acts(a(i), t) { j := i; } else { j := FirstAct(a, i + 1, n, t); }
  }

  /** A ready thread does act, from exactly the place it is at. */
  lemma WillAct(b: nat -> State, a: nat -> Step, i: nat, t: Tid) returns (j: nat)
    requires IsBehaviour(b, a) && Fair(b, a) && Ready(b(i), t)
    ensures i <= j && Acts(a(j), t)
    ensures t in b(j).threads && b(j).threads[t] == b(i).threads[t]
  {
    var n: nat :| i <= n && Acts(a(n), t);
    j := FirstAct(a, i, n, t);
    ReadyUntil(b, a, i, j, t);
  }

  // ---- the removal finishes ----

  ghost predicate Pending(s: State, t: Tid, e: EntryId) {
    t in s.threads && s.threads[t].Removing? && s.threads[t].e == e
  }

  ghost predicate Gone(s: State, e: EntryId) {
    e !in s.sas && e < s.nextId
  }

  /** How much still stands between a remover and the entry. */
  function Obstacles(s: State, e: EntryId): nat {
    if e in s.entries then (if s.entries[e].locked then 1 else 0) + s.entries[e].waiting else 0
  }

  lemma PendingFacts(s: State, t: Tid, e: EntryId)
    requires Inv(s) && Pending(s, t, e)
    ensures e in s.entries && e in s.sas && s.entries[e].awaitsDeletion && e < s.nextId
  {
    RemoverPlace(s, t);
    assert EntryOk(s, e);
  }

  /** While the remover does not run, it stays where it is and no obstacle is added. */
  lemma PendingStep(s: State, a: Step, t: Tid, e: EntryId)
    requires Inv(s) && Enabled(s, a) && Pending(s, t, e) && !Acts(a, t)
    ensures Pending(Apply(s, a), t, e) && Obstacles(Apply(s, a), e) <= Obstacles(s, e)
  {
    PendingFacts(s, t, e);
    StepRegion(s, a);
    StepKeeps(s, a);
    var s1 := Apply(s, a);
    if Actor(a) == t && !a.Stutter? { assert a.Spurious?; }
    PendingFacts(s1, t, e);
    assert Settles(s, s1, e);
  }

  lemma PendingAt(b: nat -> State, a: nat -> Step, i: nat, t: Tid, e: EntryId)
    requires IsBehaviour(b, a) && Pending(b(i), t, e)
    ensures Gone(b(i + 1), e) || (Pending(b(i + 1), t, e) && Obstacles(b(i + 1), e) <= Obstacles(b(i), e))
  {
    StepAt(b, a, i);
    PendingOrGone(b(i), a(i), t, e);
  }

  lemma GoneAt(b: nat -> State, a: nat -> Step, i: nat, e: EntryId)
    requires IsBehaviour(b, a) && Gone(b(i), e)
    ensures Gone(b(i + 1), e)
  {
    StepAt(b, a, i);
    StepRegion(b(i), a(i));
  }

  lemma {:induction false} PendingUntil(b: nat -> State, a: nat -> Step, i: nat, j: nat, t: Tid, e: EntryId)
    requires IsBehaviour(b, a) && i <= j && Pending(b(i), t, e)
    ensures Gone(b(j), e) || (Pending(b(j), t, e) && Obstacles(b(j), e) <= Obstacles(b(i), e))
  {
    if i < j {
      PendingUntil(b, a, i, j - 1, t, e);
      if Gone(b(j - 1), e) { GoneAt(b, a, j - 1, e); } else { PendingAt(b, a, j - 1, t, e); }
    }
  }

  lemma StepAt(b: nat -> State, a: nat -> Step, i: nat)
    requires IsBehaviour(b, a)
    ensures Inv(b(i)) && Enabled(b(i), a(i)) && b(i + 1) == Apply(b(i), a(i)) && Inv(b(i + 1))
  {
    BehaviourInv(b, a, i);
    BehaviourInv(b, a, i + 1);
    assert StepOk(b, a, i);
  }

  /** 0 if a holder or a woken waiter will remove an obstacle by itself, 1 if the remover has to wake the waiters
      first. */
  function Blocked(s: State, e: EntryId): nat {
    if (e in s.entries && s.entries[e].locked) || Waiters(s.threads, e) * Woken(s.threads, e) != {} then 0 else 1
  }

  /** A remover that finds the entry free takes it out of the list. */
  lemma RemoverFinds(s: State, a: Step, t: Tid, e: EntryId)
    requires Inv(s) && Enabled(s, a) && Pending(s, t, e) && Acts(a, t) && Obstacles(s, e) == 0
    ensures Gone(Apply(s, a), e)
  {
    PendingFacts(s, t, e);
    var th := s.threads[t];
    var s0 := Drain(s, t, e, th.why, th.drained);
    DrainRegion(s, t, e, th.why, th.drained);
    assert e !in s0.sas;
    if th.why.ForFlush? && s0.threads[t].Idle? {
      forall x | x in s0.entries ensures x < s0.nextId { assert x in s.entries; assert EntryOk(s, x); }
      FlushRegion(s0, t, After(s.sas, e));
    }
  }

  lemma WaitersWoken(s: State, t: Tid, e: EntryId)
    requires Core(s) && Pending(s, t, e) && e in s.entries && s.entries[e].waiting > 0
    ensures var threads := Broadcast(s.threads, e)[t := Removing(e, s.threads[t].why, true, false)];
            Waiters(threads, e) * Woken(threads, e) != {}
  {
    BroadcastKeeps(s, e);
    assert EntryOk(s, e);
    var w :| w in Waiters(s.threads, e);
    assert w in Woken(Broadcast(s.threads, e), e) && w in Waiters(Broadcast(s.threads, e), e);
    var threads := Broadcast(s.threads, e)[t := Removing(e, s.threads[t].why, true, false)];
    assert w in Waiters(threads, e) * Woken(threads, e);
  }

  /** Otherwise it sleeps on while somebody holds the entry, and wakes everybody when only waiters are left. */
  lemma RemoverSleeps(s: State, a: Step, t: Tid, e: EntryId)
    requires Inv(s) && Enabled(s, a) && Pending(s, t, e) && Acts(a, t) && Obstacles(s, e) > 0
    ensures var s1 := Apply(s, a);
            Pending(s1, t, e) && Obstacles(s1, e) == Obstacles(s, e) && Blocked(s1, e) == 0
  {
    PendingFacts(s, t, e);
    RemoverPlace(s, t);
    var th := s.threads[t];
    if s.entries[e].locked {
      assert Apply(s, a) == SetThread(s, t, Removing(e, th.why, false, false));
    } else {
      assert Apply(s, a) == SetThread(s.(threads := Broadcast(s.threads, e)), t, Removing(e, th.why, true, false));
      WaitersWoken(s, t, e);
    }
  }

  lemma PendingOrGone(s: State, a: Step, t: Tid, e: EntryId)
    requires Inv(s) && Enabled(s, a) && Pending(s, t, e)
    ensures var s1 := Apply(s, a);
            Gone(s1, e) || (Pending(s1, t, e) && Obstacles(s1, e) <= Obstacles(s, e))
  {
    if !Acts(a, t) { PendingStep(s, a, t, e); }
    else if Obstacles(s, e) == 0 { RemoverFinds(s, a, t, e); }
    else { RemoverSleeps(s, a, t, e); }
  }

  /** A checkin, or a waiter giving up, removes an obstacle. */
  lemma ObstacleLeaves(s: State, a: Step, t: Tid, e: EntryId, u: Tid)
    requires Inv(s) && Enabled(s, a) && Pending(s, t, e) && Acts(a, u)
    requires u in s.threads && (s.threads[u] == Holding(e) || (s.threads[u].Waiting? && WokenOn(s.threads[u], e)))
    ensures Pending(Apply(s, a), t, e) && Obstacles(Apply(s, a), e) < Obstacles(s, e)
  {
    PendingFacts(s, t, e);
    PendingStep(s, a, t, e);
    assert EntryOk(s, e);
    if s.threads[u].Holding? {
      assert u in Holders(s.threads, e);
    } else {
      assert u in Waiters(s.threads, e);
    }
  }

  /** With nobody holding the entry and no waiter woken, the woken thread is the remover itself. */
  lemma RemoverIsWoken(s: State, t: Tid, e: EntryId)
    requires Inv(s) && Pending(s, t, e) && Blocked(s, e) == 1
    ensures s.threads[t].woken
  {
    PendingFacts(s, t, e);
    assert EntryOk(s, e) && Awake(s, e);
    assert t in Removers(s.threads, e);
    forall v | v in Woken(s.threads, e) ensures v == t {
      assert v !in Waiters(s.threads, e) * Woken(s.threads, e);
      assert v in Removers(s.threads, e);
    }
    assert Woken(s.threads, e) != {} ==> t in Woken(s.threads, e);
    assert !s.threads[t].woken ==> t in Sleepers(s.threads, e);
  }

  /** The thread whose next move brings the removal forward. */
  lemma Mover(s: State, t: Tid, e: EntryId) returns (u: Tid)
    requires Inv(s) && Pending(s, t, e)
    ensures Ready(s, u)
    ensures if Obstacles(s, e) > 0 && Blocked(s, e) == 0
            then s.threads[u] == Holding(e) || (s.threads[u].Waiting? && WokenOn(s.threads[u], e))
            else u == t
  {
    PendingFacts(s, t, e);
    assert EntryOk(s, e);
    if s.entries[e].locked {
      u :| u in Holders(s.threads, e);
    } else if Waiters(s.threads, e) * Woken(s.threads, e) != {} {
      u :| u in Waiters(s.threads, e) * Woken(s.threads, e);
    } else {
      u := t;
      RemoverIsWoken(s, t, e);
    }
  }

  /** The mover's next step lowers what stands in the way, or ends the removal. */
  lemma Advance(s: State, s1: State, a: Step, t: Tid, e: EntryId, u: Tid, n: nat, blocked: nat)
    requires Inv(s) && Enabled(s, a) && s1 == Apply(s, a) && Pending(s, t, e) && Acts(a, u)
    requires Obstacles(s, e) <= n
    requires if n > 0 && blocked == 0
             then u in s.threads && (s.threads[u] == Holding(e) || (s.threads[u].Waiting? && WokenOn(s.threads[u], e)))
             else u == t
    ensures Gone(s1, e) || (Pending(s1, t, e)
                            && (Obstacles(s1, e) < n || (Obstacles(s1, e) == n && Blocked(s1, e) < blocked)))
  {
    if n > 0 && blocked == 0 { ObstacleLeaves(s, a, t, e, u); }
    else if Obstacles(s, e) == 0 { RemoverFinds(s, a, t, e); }
    else { RemoverSleeps(s, a, t, e); }
  }

  lemma AdvanceAt(b: nat -> State, a: nat -> Step, j: nat, t: Tid, e: EntryId, u: Tid, n: nat, blocked: nat)
    requires IsBehaviour(b, a) && Pending(b(j), t, e) && Acts(a(j), u) && Obstacles(b(j), e) <= n
    requires if n > 0 && blocked == 0
             then u in b(j).threads
                  && (b(j).threads[u] == Holding(e) || (b(j).threads[u].Waiting? && WokenOn(b(j).threads[u], e)))
             else u == t
    ensures Gone(b(j + 1), e) || (Pending(b(j + 1), t, e) && (Obstacles(b(j + 1), e) < n
                                 || (Obstacles(b(j + 1), e) == n && Blocked(b(j + 1), e) < blocked)))
  {
    StepAt(b, a, j);
    Advance(b(j), b(j + 1), a(j), t, e, u, n, blocked);
  }

  /** From any point of the removal there is a later one where less stands in the way, or it is over. */
  lemma Closer(b: nat -> State, a: nat -> Step, i: nat, t: Tid, e: EntryId) returns (k: nat)
    requires IsBehaviour(b, a) && Fair(b, a) && Pending(b(i), t, e)
    ensures i <= k
    ensures Gone(b(k), e) || (Pending(b(k), t, e) && (Obstacles(b(k), e) < Obstacles(b(i), e)
                             || (Obstacles(b(k), e) == Obstacles(b(i), e) && Blocked(b(k), e) < Blocked(b(i), e))))
  {
    BehaviourInv(b, a, i);
    var u := Mover(b(i), t, e);
    var j := WillAct(b, a, i, u);
    PendingUntil(b, a, i, j, t, e);
    if Pending(b(j), t, e) && Obstacles(b(j), e) <= Obstacles(b(i), e) {
      AdvanceAt(b, a, j, t, e, u, Obstacles(b(i), e), Blocked(b(i), e));
      k := j + 1;
    } else {
      k := j;
    }
  }

  /** On a fair run every removal that has begun takes its entry out of the list. */
  lemma {:induction false} LeavesList(b: nat -> State, a: nat -> Step, i: nat, t: Tid, e: EntryId) returns (j: nat)
    requires IsBehaviour(b, a) && Fair(b, a) && Pending(b(i), t, e)
    ensures i <= j && Gone(b(j), e)
    decreases Obstacles(b(i), e), Blocked(b(i), e)
  {
    j := Closer(b, a, i, t, e);
    if !Gone(b(j), e) { j := LeavesList(b, a, j, t, e); }
  }

  lemma DestroyAt(b: nat -> State, a: nat -> Step, n: nat, u: Tid, e: EntryId)
    requires IsBehaviour(b, a) && u in b(n).threads && b(n).threads[u] == Destroying(e) && Acts(a(n), u)
    ensures e !in b(n + 1).entries
  {
    assert StepOk(b, a, n);
  }

  /** An unlinked entry that still exists is destroyed by the next step of the thread that has it. */
  lemma LastStep(b: nat -> State, a: nat -> Step, k: nat, e: EntryId) returns (j: nat)
    requires IsBehaviour(b, a) && Fair(b, a) && e !in b(k).sas && e in b(k).entries
    ensures k < j && e !in b(j).entries
  {
    BehaviourInv(b, a, k);
    assert EntryOk(b(k), e);
    var u :| u in Removers(b(k).threads, e);
    assert ThreadOk(b(k), b(k).threads[u]);
    var n := WillAct(b, a, k, u);
    DestroyAt(b, a, n, u, e);
    j := n + 1;
  }

  /** Removal finishes: on every fair run an entry that a thread has begun to remove leaves the list
      and is destroyed, however the other threads interleave. */
  lemma RemovalFinishes(b: nat -> State, a: nat -> Step, i: nat, t: Tid, e: EntryId) returns (j: nat)
    requires IsBehaviour(b, a) && Fair(b, a) && Pending(b(i), t, e)
    ensures i <= j && e !in b(j).sas && e !in b(j).entries && Logged(b(j).destroyed, e)
  {
    BehaviourInv(b, a, i);
    PendingFacts(b(i), t, e);
    j := LeavesList(b, a, i, t, e);
    if e in b(j).entries { j := LastStep(b, a, j, e); }
    RegionUntil(b, a, i, j, e);
  }

  lemma {:induction false} RegionUntil(b: nat -> State, a: nat -> Step, i: nat, j: nat, e: EntryId)
    requires IsBehaviour(b, a) && i <= j && e in b(i).entries
    ensures e < b(j).nextId
    ensures e !in b(j).entries ==> Logged(b(j).destroyed, e) && e !in b(j).sas
  {
    StepAt(b, a, j);
    if i == j {
      assert EntryOk(b(i), e);
    } else {
      RegionUntil(b, a, i, j - 1, e);
      StepAt(b, a, j - 1);
      StepRegion(b(j - 1), a(j - 1));
      GoneOnce(b(j - 1), b(j), Actor(a(j - 1)), e);
    }
  }

  lemma GoneOnce(s: State, s1: State, who: Tid, e: EntryId)
    requires Region(s, s1, who) && Core(s) && Core(s1) && e < s.nextId
    requires e !in s.entries ==> Logged(s.destroyed, e) && e !in s.sas
    ensures e < s1.nextId && (e !in s1.entries ==> Logged(s1.destroyed, e) && e !in s1.sas)
  {
    if Logged(s.destroyed, e) { StaysLogged(s.destroyed, s1.destroyed, e); }
  }

  lemma StaysLogged(log: seq<Destruction>, more: seq<Destruction>, e: EntryId)
    requires log <= more && Logged(log, e)
    ensures Logged(more, e)
  {
    var x :| 0 <= x < |log| && log[x].e == e;
    assert more[x].e == e;
  }

  lemma RunRegion(states: seq<State>, steps: seq<Step>, i: nat)
    requires IsRun(states, steps) && i < |steps|
    ensures Inv(states[i]) && Region(states[i], states[i + 1], Actor(steps[i]))
  {
    RunKeeps(states, steps, i);
    assert Follows(states, steps, i);
    StepRegion(states[i], steps[i]);
  }

  lemma {:induction false} IdsGrow(states: seq<State>, steps: seq<Step>, i: nat, j: nat)
    requires IsRun(states, steps) && i <= j < |states|
    ensures states[i].nextId <= states[j].nextId
  {
    if i < j {
      IdsGrow(states, steps, i, j - 1);
      RunRegion(states, steps, j - 1);
    }
  }

  /** Over any stretch of a run: once awaits_deletion is set the lock is never taken again and the
      number of waiters only goes down. */
  lemma {:induction false} DeletionSettles(states: seq<State>, steps: seq<Step>, i: nat, j: nat, e: EntryId)
    requires IsRun(states, steps) && i <= j < |states|
    requires e in states[i].entries && states[i].entries[e].awaitsDeletion && e in states[j].entries
    ensures Settles(states[i], states[j], e)
  {
    if i < j {
      RunKeeps(states, steps, i);
      assert EntryOk(states[i], e);
      IdsGrow(states, steps, i, j - 1);
      RunRegion(states, steps, j - 1);
      DeletionSettles(states, steps, i, j - 1, e);
      assert Settles(states[j - 1], states[j], e);
    }
  }
}
