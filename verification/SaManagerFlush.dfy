/** flush_sas reaches every SA that was installed when it began, whatever others do to the list while it waits. */
module SaManagerFlush {
  import opened SaManager
  import opened SaManagerSafety
  import opened SaManagerLiveness
  import opened SaManagerCheckout

  // ---- the order of the list ----

  lemma {:induction false} AfterIsTail(list: seq<EntryId>, x: EntryId) returns (k: nat)
    ensures k <= |list| && After(list, x) == list[k..]
    ensures x in list ==> k > 0 && list[k - 1] == x
  {
    if list == [] {
      k := 0;
    } else if list[0] == x {
      k := 1;
    } else {
      var n := AfterIsTail(list[1..], x);
      k := n + 1;
      assert list[1..][n..] == list[k..];
    }
  }

  lemma {:induction false} AfterLater(list: seq<EntryId>, p: nat, q: nat)
    requires p < q < |list| && NoDuplicates(list)
    ensures list[q] in After(list, list[p])
  {
    if p > 0 {
      assert NoDuplicates(list[1..]);
      AfterLater(list[1..], p - 1, q - 1);
    } else {
      assert list[q] == list[1..][q - 1];
    }
  }

  lemma {:induction false} AfterWithout(list: seq<EntryId>, x: EntryId, y: EntryId, z: EntryId)
    requires z != x && z != y && y in After(list, x)
    ensures y in After(Without(list, z), x)
  {
    if list[0] == x {
      assert Without(list, z) == [x] + Without(list[1..], z);
    } else {
      AfterWithout(list[1..], x, y, z);
      assert Without(list, z) == (if list[0] == z then [] else [list[0]]) + Without(list[1..], z);
      if list[0] != z {
        assert Without(list, z)[1..] == Without(list[1..], z);
      } else {
        assert Without(list, z) == Without(list[1..], z);
      }
    }
  }

  /** What is left of the list is in the order it had. */
  ghost predicate Thinned(list: seq<EntryId>, left: seq<EntryId>) {
    && (forall x | x in left :: x in list)
    && (forall x, y | x in left && y in left && y in After(list, x) :: y in After(left, x))
  }

  lemma WithoutThins(list: seq<EntryId>, z: EntryId)
    ensures Thinned(list, Without(list, z))
  {
    var left := Without(list, z);
    forall x, y | x in left && y in left && y in After(list, x) ensures y in After(left, x) {
      AfterWithout(list, x, y, z);
    }
  }

  lemma BeginRemoveThins(s: State, t: Tid, e: EntryId, why: Remover)
    requires e in s.entries
    ensures Thinned(s.sas, BeginRemove(s, t, e, why).sas)
  {
    WithoutThins(s.sas, e);
  }

  lemma {:induction false} FlushThins(s: State, t: Tid, rest: seq<EntryId>)
    requires t in s.threads
    ensures Thinned(s.sas, FlushFrom(s, t, rest).sas)
    decreases |rest|
  {
    if rest != [] {
      if rest[0] !in s.entries {
        FlushThins(s, t, rest[1..]);
      } else {
        var s1 := BeginRemove(s, t, rest[0], ForFlush);
        BeginRemoveThins(s, t, rest[0], ForFlush);
        if s1.threads[t].Idle? { FlushThins(s1, t, rest[1..]); }
      }
    }
  }

  lemma ResumeThins(s: State, t: Tid)
    requires t in s.threads && s.threads[t].Removing? && s.threads[t].e in s.entries
    ensures Thinned(s.sas, ResumeRemover(s, t).sas)
  {
    var th := s.threads[t];
    var s1 := Drain(s, t, th.e, th.why, th.drained);
    WithoutThins(s.sas, th.e);
    if th.why.ForFlush? && s1.threads[t].Idle? { FlushThins(s1, t, After(s.sas, th.e)); }
  }

  lemma ExpireThins(s: State, a: Step)
    requires Enabled(s, a) && a.Expire?
    ensures Thinned(s.sas, Apply(s, a).sas)
  {
    if a.e in s.sas && a.e in s.entries {
      var s1 := SetEntry(s, a.e, s.entries[a.e].(sa := ExpireSa(s.entries[a.e].sa, a.hard)));
      BeginRemoveThins(s1, a.t, a.e, ForExpiry);
    }
  }

  lemma DelSaThins(s: State, a: Step)
    requires Enabled(s, a) && a.DelSa?
    ensures Thinned(s.sas, Apply(s, a).sas)
  {
    var f := FindFirst(s.sas, s.entries, BySpiSrcDst(a.spi, a.src, a.dst));
    if f.Some? { BeginRemoveThins(s, a.t, f.value, ForDelete); }
  }

  lemma OthersThin(s: State, a: Step)
    requires Enabled(s, a) && !a.Expire? && !a.DelSa? && !a.Flush? && !a.AddSa?
    ensures Thinned(s.sas, Apply(s, a).sas)
  {
    if a.Resume? && s.threads[a.t].Removing? {
      ResumeThins(s, a.t);
    } else {
      assert Apply(s, a).sas == s.sas;
    }
  }

  /** A step thins the list, or puts a new entry in front. */
  lemma StepThins(s: State, a: Step)
    requires Enabled(s, a)
    ensures Thinned(s.sas, Apply(s, a).sas) || Apply(s, a).sas == [s.nextId] + s.sas
  {
    if a.Expire? {
      ExpireThins(s, a);
    } else if a.DelSa? {
      DelSaThins(s, a);
    } else if a.Flush? {
      FlushThins(s, a.t, s.sas);
    } else if !a.AddSa? {
      OthersThin(s, a);
    }
  }

  lemma StaysAfter(s: State, a: Step, x: EntryId, y: EntryId)
    requires Inv(s) && Enabled(s, a)
    requires x in s.sas && x in Apply(s, a).sas && y in Apply(s, a).sas && y in After(s.sas, x)
    ensures y in After(Apply(s, a).sas, x)
  {
    StepThins(s, a);
    NextIdIsNew(s);
    assert ([s.nextId] + s.sas)[1..] == s.sas;
  }

  // ---- one stretch of flush_entries ----

  ghost predicate InOrder(list: seq<EntryId>, rest: seq<EntryId>) {
    forall p, q | 0 <= p < q < |rest| && rest[p] in list && rest[q] in list :: rest[q] in After(list, rest[p])
  }

  lemma DoomedInFlush(s: State, t: Tid, rest: seq<EntryId>, y: EntryId)
    requires Inv(s) && t in s.threads && Doomed(s, y)
    ensures Doomed(FlushFrom(s, t, rest), y)
  {
    forall x | x in s.entries ensures x < s.nextId { assert EntryOk(s, x); }
    FlushSas(s, t, rest);
    FlushRegion(s, t, rest);
    if y in s.entries { assert Settles(s, FlushFrom(s, t, rest), y); }
  }

  /** Where the thread stands after beginning to remove an entry. */
  lemma BeginRemoveStands(s: State, t: Tid, e: EntryId)
    requires Inv(s) && t in s.threads && s.threads[t].Idle? && e in s.sas
    ensures e in s.entries
    ensures var s1 := BeginRemove(s, t, e, ForFlush);
            && Inv(s1) && t in s1.threads && Doomed(s1, e) && Thinned(s.sas, s1.sas) && SasKept(s, s1)
            && (!s1.threads[t].Idle? ==> && s1.threads[t].Removing? && s1.threads[t].e == e
                                         && s1.threads[t].why.ForFlush? && s1.sas == s.sas)
            && (forall x | x in s1.entries && x in s.sas && s1.threads[t].Idle? :: x in s1.sas)
  {
    BeginRemoveKeeps(s, t, e, ForFlush);
    BeginRemoveThins(s, t, e, ForFlush);
    BeginRemoveSas(s, t, e, ForFlush);
    BeginRemoveDooms(s, t, e, ForFlush, e);
  }

  /** Everything ahead is doomed, or still ahead of the entry the thread waits for. */
  ghost predicate Swept(s: State, t: Tid, ys: seq<EntryId>) {
    && t in s.threads
    && (s.threads[t].Idle? ==> forall y | y in ys :: Doomed(s, y))
    && (!s.threads[t].Idle? ==> && s.threads[t].Removing? && s.threads[t].why.ForFlush?
                                && forall y | y in ys :: Doomed(s, y) || y in After(s.sas, s.threads[t].e))
  }

  lemma {:induction false} FlushSweeps(s: State, t: Tid, rest: seq<EntryId>)
    requires Inv(s) && t in s.threads && s.threads[t].Idle? && InOrder(s.sas, rest)
    requires forall e | e in rest && e in s.entries :: e in s.sas
    ensures Swept(FlushFrom(s, t, rest), t, rest)
    decreases |rest|
  {
    if rest != [] {
      if rest[0] !in s.entries {
        FlushSweeps(s, t, rest[1..]);
        DoomedInFlush(s, t, rest[1..], rest[0]);
      } else {
        BeginRemoveStands(s, t, rest[0]);
        var s1 := BeginRemove(s, t, rest[0], ForFlush);
        if s1.threads[t].Idle? {
          StaysInOrder(s.sas, s1.sas, rest);
          FlushSweeps(s1, t, rest[1..]);
          DoomedInFlush(s1, t, rest[1..], rest[0]);
        } else {
          AheadOrDoomed(s, s1, t, rest);
        }
      }
    }
  }

  lemma StaysInOrder(list: seq<EntryId>, left: seq<EntryId>, rest: seq<EntryId>)
    requires rest != [] && InOrder(list, rest) && Thinned(list, left)
    ensures InOrder(left, rest[1..])
  {
    forall p, q | 0 <= p < q < |rest| - 1 && rest[1..][p] in left && rest[1..][q] in left
      ensures rest[1..][q] in After(left, rest[1..][p])
    {
      assert rest[1..][p] == rest[p + 1] && rest[1..][q] == rest[q + 1];
    }
  }

  lemma AheadOrDoomed(s: State, s1: State, t: Tid, rest: seq<EntryId>)
    requires rest != [] && InOrder(s.sas, rest) && rest[0] in s.sas && s1.sas == s.sas && SasKept(s, s1)
    requires forall e | e in rest && e in s.entries :: e in s.sas
    requires Doomed(s1, rest[0]) && t in s1.threads && s1.threads[t].Removing? && s1.threads[t].e == rest[0]
             && s1.threads[t].why.ForFlush?
    ensures Swept(s1, t, rest)
  {
    forall y | y in rest ensures Doomed(s1, y) || y in After(s1.sas, rest[0]) {
      var q :| 0 <= q < |rest| && rest[q] == y;
      if q > 0 && !Doomed(s1, y) { assert rest[q] in s.sas && rest[0] in s.sas; }
    }
  }

  // ---- over every run ----

  lemma TailInOrder(list: seq<EntryId>, k: nat)
    requires NoDuplicates(list) && k <= |list|
    ensures InOrder(list, list[k..])
  {
    forall p, q | 0 <= p < q < |list[k..]| ensures list[k..][q] in After(list, list[k..][p]) {
      AfterLater(list, k + p, k + q);
    }
  }

  lemma DoomedStays(s: State, a: Step, y: EntryId)
    requires Inv(s) && Enabled(s, a) && Doomed(s, y) && y < s.nextId
    ensures Doomed(Apply(s, a), y)
  {
    StepRegion(s, a);
    if y in s.entries { assert Settles(s, Apply(s, a), y); }
  }

  /** The flushing thread's own steps: woken, asleep again, or on to the next entries. */
  lemma OwnStepSweeps(s: State, a: Step, ys: seq<EntryId>)
    requires Inv(s) && Enabled(s, a) && !a.Stutter? && a.t in s.threads && !s.threads[a.t].Idle?
    requires Swept(s, a.t, ys) && forall y | y in ys :: y < s.nextId
    ensures Swept(Apply(s, a), a.t, ys)
  {
    var t, x, s2 := a.t, s.threads[a.t].e, Apply(s, a);
    RemoverPlace(s, t);
    forall y | y in ys && Doomed(s, y) ensures Doomed(s2, y) { DoomedStays(s, a, y); }
    if a.Resume? {
      var s1 := Drain(s, t, x, ForFlush, s.threads[t].drained);
      DrainKeeps(s, t);
      if s1.threads[t].Idle? {
        DrainResult(s, t, x, ForFlush, s.threads[t].drained);
        WithoutThins(s.sas, x);
        var k := AfterIsTail(s.sas, x);
        TailInOrder(s.sas, k);
        AfterListed(s.sas, x);
        ThinnedOrder(s.sas, s1.sas, After(s.sas, x));
        FlushSweeps(s1, t, After(s.sas, x));
        forall y | y in ys && y in After(s.sas, x)
          ensures Doomed(s2, y) || (!s2.threads[t].Idle? && y in After(s2.sas, s2.threads[t].e)) { }
      }
    }
  }

  lemma ThinnedOrder(list: seq<EntryId>, left: seq<EntryId>, rest: seq<EntryId>)
    requires InOrder(list, rest) && Thinned(list, left)
    ensures InOrder(left, rest)
  {
  }

  /** Steps of others. */
  lemma OtherStepSweeps(s: State, a: Step, t: Tid, ys: seq<EntryId>)
    requires Inv(s) && Enabled(s, a) && (a.Stutter? || a.t != t) && t in s.threads && !s.threads[t].Idle?
    requires Swept(s, t, ys) && forall y | y in ys :: y < s.nextId
    ensures Swept(Apply(s, a), t, ys)
  {
    var s2 := Apply(s, a);
    StepRegion(s, a);
    StepKeeps(s, a);
    RemoverPlace(s, t);
    RemoverPlace(s2, t);
    forall y | y in ys ensures Doomed(s2, y) || y in After(s2.sas, s2.threads[t].e) {
      if Doomed(s, y) {
        DoomedStays(s, a, y);
      } else if !Doomed(s2, y) {
        assert EntryOk(s2, y);
        StaysAfter(s, a, s.threads[t].e, y);
      }
    }
  }

  lemma {:induction false} SweepsOn(states: seq<State>, steps: seq<Step>, i: nat, j: nat)
    requires IsRun(states, steps) && i < j < |states| && steps[i].Flush? && BusySince(states, steps[i].t, i, j - 1)
    ensures Swept(states[j], steps[i].t, states[i].sas) && forall y | y in states[i].sas :: y < states[j].nextId
    decreases j
  {
    var t, ys := steps[i].t, states[i].sas;
    RunKeeps(states, steps, j - 1);
    assert Follows(states, steps, j - 1);
    StepRegion(states[j - 1], steps[j - 1]);
    if j == i + 1 {
      forall y | y in ys ensures y < states[i].nextId { assert EntryOk(states[i], y); }
      TailInOrder(ys, 0);
      assert ys[0..] == ys;
      FlushSweeps(states[i], t, ys);
    } else {
      SweepsOn(states, steps, i, j - 1);
      assert !states[j - 1].threads[t].Idle?;
      if steps[j - 1].Stutter? || steps[j - 1].t != t {
        OtherStepSweeps(states[j - 1], steps[j - 1], t, ys);
      } else {
        OwnStepSweeps(states[j - 1], steps[j - 1], ys);
      }
    }
  }

  /** In every interleaving: when flush returns, every SA that was installed when it was called is gone or is being
      removed by another thread, however often it had to wait and whatever was added and deleted meanwhile. */
  lemma FlushReachesAll(states: seq<State>, steps: seq<Step>, i: nat, j: nat, e: EntryId)
    requires IsRun(states, steps) && i < j < |states| && steps[i].Flush? && e in states[i].sas
    requires BusySince(states, steps[i].t, i, j - 1)
    requires steps[i].t in states[j].threads && states[j].threads[steps[i].t].Idle?
    ensures e !in states[j].entries || states[j].entries[e].awaitsDeletion
  {
    SweepsOn(states, steps, i, j);
  }
}
