/** Which SA a thread gets, what becomes of an SA while it is installed, and which entries are removed. */
module SaManagerCheckout {
  import opened Words
  import opened SaManager
  import opened SaManagerSafety
  import opened SaManagerLiveness

  // ---- what a step does to the SAs ----

  /** No SA changes, and none is new. */
  ghost predicate SasKept(s: State, s1: State) {
    forall e | e in s1.entries :: e in s.entries && s1.entries[e].sa == s.entries[e].sa
  }

  lemma BeginRemoveSas(s: State, t: Tid, e: EntryId, why: Remover)
    requires e in s.entries
    ensures SasKept(s, BeginRemove(s, t, e, why))
  {
  }

  lemma {:induction false} FlushSas(s: State, t: Tid, rest: seq<EntryId>)
    requires t in s.threads
    ensures SasKept(s, FlushFrom(s, t, rest))
    decreases |rest|
  {
    if rest != [] {
      if rest[0] !in s.entries {
        FlushSas(s, t, rest[1..]);
      } else {
        var s1 := BeginRemove(s, t, rest[0], ForFlush);
        BeginRemoveSas(s, t, rest[0], ForFlush);
        if s1.threads[t].Idle? { FlushSas(s1, t, rest[1..]); }
      }
    }
  }

  lemma ResumeRemoverSas(s: State, t: Tid)
    requires t in s.threads && s.threads[t].Removing? && s.threads[t].e in s.entries
    ensures SasKept(s, ResumeRemover(s, t))
  {
    var th := s.threads[t];
    var s1 := Drain(s, t, th.e, th.why, th.drained);
    if th.why.ForFlush? && s1.threads[t].Idle? { FlushSas(s1, t, After(s.sas, th.e)); }
  }

  /** The entry is free to be taken. */
  predicate Free(en: Entry) {
    !en.locked && !en.awaitsDeletion
  }

  /** The update of the entry that takes effect in a step, at once or after the updating thread had to wait. */
  function Updating(s: State, a: Step, e: EntryId): Option<Use>
    requires Enabled(s, a) && e in s.entries
  {
    if !Free(s.entries[e]) then None
    else if a.Acquire? && a.use.Update? && FindFirst(s.sas, s.entries, a.key) == Some(e) then Some(a.use)
    else if a.Resume? && s.threads[a.t].Waiting? && s.threads[a.t].e == e && s.threads[a.t].use.Update? then
      Some(s.threads[a.t].use)
    else None
  }

  /** The limit, hard or soft, on which the step expires the SA: its holder has reached it, or the timer names the entry
      and its SPI. */
  function Expiring(s: State, a: Step, e: EntryId): Option<bool>
    requires Enabled(s, a) && e in s.entries
  {
    if a.Traffic? && s.threads[a.t] == Holding(e) then Some(a.hard)
    else if a.Expire? && a.e == e && e in s.sas && a.spi == s.entries[e].sa.spi then Some(a.hard)
    else None
  }

  /** SPI, reqid and direction never change; addresses and encapsulation are those of the last update, if any. */
  ghost predicate Since(sa: Sa, sb: Sa, update: Option<Use>) {
    && sb.spi == sa.spi && sb.reqid == sa.reqid && sb.inbound == sa.inbound
    && (if update.Some? && update.value.Update?
        then sb.src == update.value.newSrc && sb.dst == update.value.newDst && sb.encap == update.value.newEncap
        else sb.src == sa.src && sb.dst == sa.dst && sb.encap == sa.encap)
  }

  /** The expiry flags change only by expiring: the hard limit sets one, the soft limit the other unless the hard one
      came first. */
  ghost predicate SaMoves(sa: Sa, sb: Sa, update: Option<Use>, hard: Option<bool>) {
    && Since(sa, sb, update)
    && (sb.hardExpired <==> sa.hardExpired || hard == Some(true))
    && (sb.softExpired <==> sa.softExpired || (hard == Some(false) && !sa.hardExpired))
  }

  lemma AcquireSas(s: State, a: Step, e: EntryId)
    requires a.Acquire? && Enabled(s, a) && e in s.entries
    ensures e in Apply(s, a).entries
    ensures SaMoves(s.entries[e].sa, Apply(s, a).entries[e].sa, Updating(s, a, e), None)
  {
  }

  lemma ResumeSas(s: State, a: Step, e: EntryId)
    requires a.Resume? && Enabled(s, a) && e in s.entries && e in Apply(s, a).entries
    ensures SaMoves(s.entries[e].sa, Apply(s, a).entries[e].sa, Updating(s, a, e), None)
  {
    if s.threads[a.t].Removing? { ResumeRemoverSas(s, a.t); }
  }

  lemma RemovingSas(s: State, a: Step, e: EntryId)
    requires (a.DelSa? || a.Expire? || a.Flush? || a.Destroy?) && Enabled(s, a)
    requires e in s.entries && e in Apply(s, a).entries
    ensures SaMoves(s.entries[e].sa, Apply(s, a).entries[e].sa, None, Expiring(s, a, e))
  {
    if a.Flush? {
      FlushSas(s, a.t, s.sas);
    } else if a.DelSa? {
      var f := FindFirst(s.sas, s.entries, BySpiSrcDst(a.spi, a.src, a.dst));
      if f.Some? { BeginRemoveSas(s, a.t, f.value, ForDelete); }
    } else if a.Expire? && a.hard && a.e in s.sas && a.e in s.entries && s.entries[a.e].sa.spi == a.spi {
      BeginRemoveSas(SetEntry(s, a.e, s.entries[a.e].(sa := ExpireSa(s.entries[a.e].sa, true))), a.t, a.e, ForExpiry);
    }
  }

  lemma OtherSas(s: State, a: Step, e: EntryId)
    requires (a.GetSpi? || a.Traffic? || a.Checkin? || a.Spurious? || a.Stutter?) && Enabled(s, a) && e in s.entries
    ensures e in Apply(s, a).entries
    ensures SaMoves(s.entries[e].sa, Apply(s, a).entries[e].sa, None, Expiring(s, a, e))
  {
  }

  lemma AddSas(s: State, a: Step, e: EntryId)
    requires Core(s) && a.AddSa? && Enabled(s, a) && e in s.entries
    ensures e in Apply(s, a).entries && Apply(s, a).entries[e].sa == s.entries[e].sa
  {
    NextIdIsNew(s);
  }

  /** What any step does to an installed SA. */
  lemma StepMoves(s: State, a: Step, e: EntryId)
    requires Inv(s) && Enabled(s, a) && e in s.entries && e in Apply(s, a).entries
    ensures SaMoves(s.entries[e].sa, Apply(s, a).entries[e].sa, Updating(s, a, e), Expiring(s, a, e))
  {
    if a.Acquire? {
      AcquireSas(s, a, e);
    } else if a.Resume? {
      ResumeSas(s, a, e);
    } else if a.DelSa? || a.Expire? || a.Flush? || a.Destroy? {
      RemovingSas(s, a, e);
    } else if a.AddSa? {
      AddSas(s, a, e);
    } else {
      OtherSas(s, a, e);
    }
  }

  // ---- where a thread goes from an entry ----

  /** A thread that waits for an entry or holds it stays with it until it is idle again: it gets what it asked for. */
  ghost predicate StaysAt(th: Thread, th1: Thread) {
    || th1.Idle?
    || (th.Holding? && th1 == th)
    || (th.Waiting? && th1.Waiting? && th1.e == th.e && th1.use == th.use)
    || (th.Waiting? && th.use.Checkout? && th1 == Holding(th.e))
  }

  lemma OwnStep(s: State, a: Step)
    requires Enabled(s, a) && !a.Stutter? && a.t in s.threads && (s.threads[a.t].Waiting? || s.threads[a.t].Holding?)
    ensures a.t in Apply(s, a).threads && StaysAt(s.threads[a.t], Apply(s, a).threads[a.t])
  {
  }

  lemma StepStays(s: State, a: Step, t: Tid)
    requires Inv(s) && Enabled(s, a) && t in s.threads && (s.threads[t].Waiting? || s.threads[t].Holding?)
    ensures t in Apply(s, a).threads && StaysAt(s.threads[t], Apply(s, a).threads[t])
  {
    StepRegion(s, a);
    if !a.Stutter? && a.t == t { OwnStep(s, a); }
  }

  // ---- over every run ----

  /** The thread is not idle in any state after the i-th up to the j-th. */
  ghost predicate BusySince(states: seq<State>, t: Tid, i: nat, j: nat) {
    j < |states| && forall k | i < k <= j :: t in states[k].threads && !states[k].threads[t].Idle?
  }

  /** The last update of an entry that took effect in the steps from i to j. */
  ghost function LastUpdate(states: seq<State>, steps: seq<Step>, e: EntryId, i: nat, j: nat): (u: Option<Use>)
    requires j <= |steps| < |states|
    ensures u.Some? ==> u.value.Update?
    decreases j
  {
    if j <= i then None
    else if e in states[j - 1].entries && Enabled(states[j - 1], steps[j - 1])
            && Updating(states[j - 1], steps[j - 1], e).Some?
    then Updating(states[j - 1], steps[j - 1], e)
    else LastUpdate(states, steps, e, i, j - 1)
  }

  /** The thread has not left the entry it found. */
  ghost predicate With(s: State, t: Tid, e: EntryId, use: Use) {
    && t in s.threads && e in s.entries
    && (|| (s.threads[t].Waiting? && s.threads[t].e == e && s.threads[t].use == use)
        || (use.Checkout? && s.threads[t] == Holding(e)))
  }

  lemma WithStep(s: State, a: Step, t: Tid, e: EntryId, use: Use)
    requires Inv(s) && Enabled(s, a) && With(s, t, e, use)
    requires t in Apply(s, a).threads && !Apply(s, a).threads[t].Idle?
    ensures With(Apply(s, a), t, e, use)
    ensures SaMoves(s.entries[e].sa, Apply(s, a).entries[e].sa, Updating(s, a, e), Expiring(s, a, e))
  {
    StepStays(s, a, t);
    StepKeeps(s, a);
    assert ThreadOk(Apply(s, a), Apply(s, a).threads[t]);
    StepMoves(s, a, e);
  }

  lemma AcquireWith(s: State, a: Step, e: EntryId)
    requires Inv(s) && Enabled(s, a) && a.Acquire? && !Apply(s, a).threads[a.t].Idle?
    requires FindFirst(s.sas, s.entries, a.key) == Some(e)
    ensures With(Apply(s, a), a.t, e, a.use) && Apply(s, a).entries[e].sa == s.entries[e].sa
  {
  }

  lemma {:induction false} StaysWith(states: seq<State>, steps: seq<Step>, i: nat, j: nat, e: EntryId)
    requires IsRun(states, steps) && i < j < |states| && steps[i].Acquire? && BusySince(states, steps[i].t, i, j)
    requires FindFirst(states[i].sas, states[i].entries, steps[i].key) == Some(e)
    ensures With(states[j], steps[i].t, e, steps[i].use)
    ensures Since(states[i].entries[e].sa, states[j].entries[e].sa, LastUpdate(states, steps, e, i + 1, j))
    decreases j
  {
    var t := steps[i].t;
    RunKeeps(states, steps, j - 1);
    assert Follows(states, steps, j - 1);
    assert !states[j].threads[t].Idle?;
    if j == i + 1 {
      AcquireWith(states[i], steps[i], e);
    } else {
      StaysWith(states, steps, i, j - 1, e);
      WithStep(states[j - 1], steps[j - 1], t, e, steps[i].use);
    }
  }

  /** Not idle after its call, the thread has found something. */
  lemma BusyFound(s: State, a: Step)
    requires Enabled(s, a) && a.Acquire? && a.t in Apply(s, a).threads && !Apply(s, a).threads[a.t].Idle?
    ensures FindFirst(s.sas, s.entries, a.key).Some?
  {
  }

  /** checkout_by_reqid, in every interleaving: whoever holds an SA, at once or after any number of waits, holds one
      with the reqid and the direction asked for. */
  lemma CheckoutByReqid(states: seq<State>, steps: seq<Step>, i: nat, j: nat, reqid: nat, inbound: bool)
    requires IsRun(states, steps) && i < j < |states| && steps[i].Acquire? && steps[i].key == ByReqid(reqid, inbound)
    requires BusySince(states, steps[i].t, i, j) && states[j].threads[steps[i].t].Holding?
    ensures var e := states[j].threads[steps[i].t].e;
            && e in states[j].entries && e in states[j].sas
            && states[j].entries[e].sa.reqid == reqid && states[j].entries[e].sa.inbound == inbound
  {
    assert Follows(states, steps, i);
    RunKeeps(states, steps, j);
    BusyFound(states[i], steps[i]);
    StaysWith(states, steps, i, j, FindFirst(states[i].sas, states[i].entries, steps[i].key).value);
    assert ThreadOk(states[j], states[j].threads[steps[i].t]);
  }

  /** checkout_by_spi: the SA has the SPI asked for; it still has the destination if and only if no update took effect
      while the thread was waiting or holding it, or the last that did named the same destination. */
  lemma CheckoutBySpi(states: seq<State>, steps: seq<Step>, i: nat, j: nat, spi: nat, dst: Host)
    requires IsRun(states, steps) && i < j < |states| && steps[i].Acquire? && steps[i].key == BySpiDst(spi, dst)
    requires BusySince(states, steps[i].t, i, j) && states[j].threads[steps[i].t].Holding?
    ensures var e := states[j].threads[steps[i].t].e;
            var last := LastUpdate(states, steps, e, i + 1, j);
            && e in states[j].entries && e in states[j].sas && states[j].entries[e].sa.spi == spi
            && (states[j].entries[e].sa.dst == dst <==> last.None? || last.value.newDst == dst)
  {
    assert Follows(states, steps, i);
    RunKeeps(states, steps, j);
    BusyFound(states[i], steps[i]);
    StaysWith(states, steps, i, j, FindFirst(states[i].sas, states[i].entries, steps[i].key).value);
    assert ThreadOk(states[j], states[j].threads[steps[i].t]);
  }

  // ---- what is found ----

  /** The place of the entry found: no entry in front of it matches. */
  lemma {:induction false} FoundAt(list: seq<EntryId>, entries: map<EntryId, Entry>, k: Key) returns (n: nat)
    requires FindFirst(list, entries, k).Some?
    ensures n < |list| && list[n] == FindFirst(list, entries, k).value
    ensures forall m | 0 <= m < n && list[m] in entries :: !Matches(entries[list[m]].sa, k)
  {
    if list[0] in entries && Matches(entries[list[0]].sa, k) {
      n := 0;
    } else {
      var m := FoundAt(list[1..], entries, k);
      n := m + 1;
      assert forall i | 1 <= i < n :: list[i] == list[1..][i - 1];
    }
  }

  /** A call by reqid that gets its SA at once gets the first installed one that is not hard-expired and has the reqid
      and the direction. */
  lemma FirstByReqid(s: State, a: Step, reqid: nat, inbound: bool) returns (n: nat)
    requires Inv(s) && Enabled(s, a) && a.Acquire? && a.key == ByReqid(reqid, inbound)
    requires a.t in Apply(s, a).threads && Apply(s, a).threads[a.t].Holding?
    ensures n < |s.sas| && s.sas[n] in s.entries && Apply(s, a).threads[a.t].e == s.sas[n]
    ensures var sa := s.entries[s.sas[n]].sa; sa.reqid == reqid && sa.inbound == inbound && !sa.hardExpired
    ensures forall m | 0 <= m < n && s.sas[m] in s.entries ::
              var sa := s.entries[s.sas[m]].sa; sa.reqid != reqid || sa.inbound != inbound || sa.hardExpired
  {
    n := FoundAt(s.sas, s.entries, a.key);
  }

  lemma FirstBySpi(s: State, a: Step, spi: nat, dst: Host) returns (n: nat)
    requires Inv(s) && Enabled(s, a) && a.Acquire? && a.key == BySpiDst(spi, dst)
    requires a.t in Apply(s, a).threads && Apply(s, a).threads[a.t].Holding?
    ensures n < |s.sas| && s.sas[n] in s.entries && Apply(s, a).threads[a.t].e == s.sas[n]
    ensures var sa := s.entries[s.sas[n]].sa; sa.spi == spi && sa.dst == dst && !sa.hardExpired
    ensures forall m | 0 <= m < n && s.sas[m] in s.entries ::
              var sa := s.entries[s.sas[m]].sa; sa.spi != spi || sa.dst != dst || sa.hardExpired
  {
    n := FoundAt(s.sas, s.entries, a.key);
  }

  /** update_sa, in every interleaving: when the call is over, at once or after any number of waits, the SA it found by
      SPI and addresses has the new addresses and encapsulation and is otherwise as it was just before; or the entry
      awaits deletion and the SA is as it was. */
  lemma UpdateTakesEffect(states: seq<State>, steps: seq<Step>, i: nat, j: nat, e: EntryId)
    requires IsRun(states, steps) && i <= j < |steps| && steps[i].Acquire? && steps[i].use.Update?
    requires FindFirst(states[i].sas, states[i].entries, steps[i].key) == Some(e)
    requires BusySince(states, steps[i].t, i, j)
    requires steps[i].t in states[j + 1].threads && states[j + 1].threads[steps[i].t].Idle?
    ensures e in states[i].entries && e in states[j].entries && e in states[j + 1].entries
    ensures var key, sa := steps[i].key, states[i].entries[e].sa;
            key.BySpiSrcDst? && sa.spi == key.spi && sa.src == key.src && sa.dst == key.dst
    ensures var use, sa, sb := steps[i].use, states[j].entries[e].sa, states[j + 1].entries[e].sa;
            && sb.spi == states[i].entries[e].sa.spi
            && if states[j].entries[e].awaitsDeletion then sb == sa
               else sb == Sa(sa.spi, use.newSrc, use.newDst, sa.reqid, sa.inbound, use.newEncap, sa.softExpired,
                             sa.hardExpired)
  {
    assert Follows(states, steps, i) && Follows(states, steps, j);
    RunKeeps(states, steps, j);
    if i == j {
      UpdateEnds(states[i], steps[i], steps[i].t, e, steps[i].use);
    } else {
      StaysWith(states, steps, i, j, e);
      UpdateEnds(states[j], steps[j], steps[i].t, e, steps[i].use);
    }
  }

  /** The step in which an updating thread becomes idle. */
  lemma UpdateEnds(s: State, a: Step, t: Tid, e: EntryId, use: Use)
    requires Inv(s) && Enabled(s, a) && use.Update? && e in s.entries && t in s.threads
    requires || With(s, t, e, use)
             || (a.Acquire? && a.t == t && a.use == use && FindFirst(s.sas, s.entries, a.key) == Some(e))
    requires t in Apply(s, a).threads && Apply(s, a).threads[t].Idle?
    ensures e in Apply(s, a).entries
    ensures var sa, sb := s.entries[e].sa, Apply(s, a).entries[e].sa;
            if s.entries[e].awaitsDeletion then sb == sa
            else sb == Sa(sa.spi, use.newSrc, use.newDst, sa.reqid, sa.inbound, use.newEncap, sa.softExpired,
                          sa.hardExpired)
  {
    StepRegion(s, a);
    assert !a.Stutter? && a.t == t;
  }

  // ---- what is removed ----

  /** The entry is gone, or a thread is removing it. */
  predicate Doomed(s: State, e: EntryId) {
    e !in s.entries || s.entries[e].awaitsDeletion
  }

  lemma BeginRemoveDooms(s: State, t: Tid, e: EntryId, why: Remover, x: EntryId)
    requires e in s.entries && x in s.entries
    ensures Doomed(BeginRemove(s, t, e, why), x) <==> Doomed(s, x) || x == e
  {
  }

  lemma DeletedFor(s: State, a: Step, e: EntryId)
    requires Enabled(s, a) && a.DelSa? && e in s.entries && !Doomed(s, e) && Doomed(Apply(s, a), e)
    ensures var sa := s.entries[e].sa; e in s.sas && sa.spi == a.spi && sa.src == a.src && sa.dst == a.dst
  {
    var f := FindFirst(s.sas, s.entries, BySpiSrcDst(a.spi, a.src, a.dst));
    if f.Some? { BeginRemoveDooms(s, a.t, f.value, ForDelete, e); }
  }

  lemma ExpiredFor(s: State, a: Step, e: EntryId)
    requires Enabled(s, a) && a.Expire? && e in s.entries && !Doomed(s, e) && Doomed(Apply(s, a), e)
    ensures a.hard && a.e == e && e in s.sas && s.entries[e].sa.spi == a.spi
  {
    if a.hard && a.e in s.sas && a.e in s.entries && s.entries[a.e].sa.spi == a.spi {
      var s1 := SetEntry(s, a.e, s.entries[a.e].(sa := ExpireSa(s.entries[a.e].sa, true)));
      BeginRemoveDooms(s1, a.t, a.e, ForExpiry, e);
    }
  }

  lemma ResumedFor(s: State, a: Step, e: EntryId)
    requires Inv(s) && Enabled(s, a) && a.Resume? && e in s.entries && !Doomed(s, e) && Doomed(Apply(s, a), e)
    ensures s.threads[a.t].Removing? && s.threads[a.t].why.ForFlush?
  {
    if s.threads[a.t].Removing? { RemoverPlace(s, a.t); }
  }

  lemma NothingElseRemoves(s: State, a: Step, e: EntryId)
    requires Inv(s) && Enabled(s, a) && !a.DelSa? && !a.Expire? && !a.Resume? && !a.Flush?
    requires e in s.entries && !Doomed(s, e)
    ensures !Doomed(Apply(s, a), e)
  {
    if a.Destroy? {
      assert ThreadOk(s, s.threads[a.t]) && EntryOk(s, e);
    } else if a.AddSa? {
      NextIdIsNew(s);
    }
  }

  /** A step removes an entry only because the SA was deleted by its SPI and addresses, because it hard-expired by the
      timer that names it with its SPI, or because all are flushed. */
  lemma RemovedFor(s: State, a: Step, e: EntryId)
    requires Inv(s) && Enabled(s, a) && e in s.entries && !Doomed(s, e) && Doomed(Apply(s, a), e)
    ensures var sa := s.entries[e].sa;
            || (a.DelSa? && e in s.sas && sa.spi == a.spi && sa.src == a.src && sa.dst == a.dst)
            || (a.Expire? && a.hard && a.e == e && e in s.sas && sa.spi == a.spi)
            || a.Flush?
            || (a.Resume? && s.threads[a.t].Removing? && s.threads[a.t].why.ForFlush?)
  {
    if a.DelSa? {
      DeletedFor(s, a, e);
    } else if a.Expire? {
      ExpiredFor(s, a, e);
    } else if a.Resume? {
      ResumedFor(s, a, e);
    } else if !a.Flush? {
      NothingElseRemoves(s, a, e);
    }
  }

  /** del_sa removes the first installed SA with the SPI and the addresses, if there is one. */
  lemma DelSaRemoves(s: State, a: Step, n: nat)
    requires Inv(s) && Enabled(s, a) && a.DelSa? && n < |s.sas| && s.sas[n] in s.entries
    requires var sa := s.entries[s.sas[n]].sa; sa.spi == a.spi && sa.src == a.src && sa.dst == a.dst
    requires forall m | 0 <= m < n && s.sas[m] in s.entries ::
               var sa := s.entries[s.sas[m]].sa; sa.spi != a.spi || sa.src != a.src || sa.dst != a.dst
    ensures Doomed(Apply(s, a), s.sas[n])
  {
    var key := BySpiSrcDst(a.spi, a.src, a.dst);
    assert s.sas[n] in s.sas;
    var k := FoundAt(s.sas, s.entries, key);
    assert k == n;
    BeginRemoveDooms(s, a.t, s.sas[n], ForDelete, s.sas[n]);
  }

  /** add_sa puts the SA at the head of the list, free, unless one with the same SPI and addresses is installed. */
  lemma AddSaInstalls(s: State, a: Step)
    requires Inv(s) && Enabled(s, a) && a.AddSa?
    ensures var s1 := Apply(s, a);
            if exists e | e in s.sas ::
                 && e in s.entries && s.entries[e].sa.spi == a.sa.spi && s.entries[e].sa.src == a.sa.src
                 && s.entries[e].sa.dst == a.sa.dst
            then s1.sas == s.sas && s1.entries == s.entries
            else && s1.sas == [s.nextId] + s.sas && s.nextId !in s.entries && s.nextId in s1.entries
                 && s1.entries[s.nextId].sa == a.sa && Free(s1.entries[s.nextId])
                 && forall e | e in s.entries :: e in s1.entries && s1.entries[e] == s.entries[e]
  {
    NextIdIsNew(s);
    assert forall e | e in s.sas :: e in s.entries;
  }
}
