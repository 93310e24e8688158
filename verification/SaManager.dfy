/** The security association manager of libipsec as a step system.

    Every region that the source runs between taking the manager's mutex and
    either releasing it or waiting on a condition variable is one atomic step.
    A thread that waits is recorded with the entry it waits on; `woken` says that
    a signal, a broadcast or a spurious wake-up has made it runnable again, so
    that it re-acquires the mutex in a later step. Entries carry unique ids,
    which stand for the addresses the source compares. */
module SaManager {
  import opened Words

  type Tid = nat
  type EntryId = nat
  type Host = nat

  datatype Sa = Sa(spi: nat, src: Host, dst: Host, reqid: nat, inbound: bool, encap: bool,
                   softExpired: bool, hardExpired: bool)

  datatype Entry = Entry(sa: Sa, locked: bool, waiting: nat, awaitsDeletion: bool)

  /** What a thread does once wait_for_entry hands it the entry. */
  datatype Use = Checkout | Update(newSrc: Host, newDst: Host, newEncap: bool) | Query

  /** Who called wait_remove_entry. */
  datatype Remover = ForDelete | ForExpiry | ForFlush

  datatype Thread =
    | Idle
    | Holding(e: EntryId)
    | Waiting(e: EntryId, use: Use, woken: bool)
      // `drained` is set once the first loop of wait_remove_entry has been left
    | Removing(e: EntryId, why: Remover, drained: bool, woken: bool)
      // the entry is unlinked and the mutex released, destroy_entry comes next
    | Destroying(e: EntryId)

  /** What destroy_entry would have found at the moment it ran. */
  datatype Destruction = Destruction(e: EntryId, actor: Tid, locked: bool, waiting: nat, listed: bool,
                                     reachers: set<Tid>)

  datatype State = State(sas: seq<EntryId>, entries: map<EntryId, Entry>, nextId: EntryId,
                         threads: map<Tid, Thread>, reserved: set<nat>, destroyed: seq<Destruction>)

  /** The match callbacks given to find_first. */
  datatype Key =
    | ByReqid(reqid: nat, inbound: bool)
    | BySpiDst(spi: nat, dst: Host)
    | BySpiSrcDst(spi: nat, src: Host, dst: Host)

  predicate Matches(sa: Sa, k: Key) {
    match k
    case ByReqid(reqid, inbound) => sa.reqid == reqid && sa.inbound == inbound && !sa.hardExpired
    case BySpiDst(spi, dst) => sa.spi == spi && sa.dst == dst && !sa.hardExpired
    case BySpiSrcDst(spi, src, dst) => sa.spi == spi && sa.src == src && sa.dst == dst
  }

  /** linked_list_t.find_first: the first entry of the list that matches. */
  function FindFirst(list: seq<EntryId>, entries: map<EntryId, Entry>, k: Key): (r: Option<EntryId>)
    ensures r.Some? ==> r.value in list && r.value in entries && Matches(entries[r.value].sa, k)
    ensures r.None? ==> forall e | e in list && e in entries :: !Matches(entries[e].sa, k)
  {
    if list == [] then None
    else if list[0] in entries && Matches(entries[list[0]].sa, k) then Some(list[0])
    else FindFirst(list[1..], entries, k)
  }

  /** The list without e, the order of the others kept. */
  function Without(list: seq<EntryId>, e: EntryId): (r: seq<EntryId>)
    ensures forall x :: x in r <==> x in list && x != e
  {
    if list == [] then [] else (if list[0] == e then [] else [list[0]]) + Without(list[1..], e)
  }

  /** What the enumerator still has ahead of it when it stands on e. */
  function After(list: seq<EntryId>, e: EntryId): seq<EntryId> {
    if list == [] then [] else if list[0] == e then list[1..] else After(list[1..], e)
  }

  predicate SleepsOn(th: Thread, e: EntryId) {
    (th.Waiting? || th.Removing?) && th.e == e && !th.woken
  }

  predicate WokenOn(th: Thread, e: EntryId) {
    (th.Waiting? || th.Removing?) && th.e == e && th.woken
  }

  function Sleepers(threads: map<Tid, Thread>, e: EntryId): set<Tid> {
    set t | t in threads && SleepsOn(threads[t], e)
  }

  function Wake(th: Thread): Thread {
    if th.Waiting? || th.Removing? then th.(woken := true) else th
  }

  /** condvar->signal: wakes the sleeper the scheduler picks, if there is one. */
  function Signal(threads: map<Tid, Thread>, e: EntryId, pick: Tid): map<Tid, Thread> {
    if pick in Sleepers(threads, e) then threads[pick := Wake(threads[pick])] else threads
  }

  /** A pick is one of the sleepers whenever there are any. */
  predicate ValidPick(threads: map<Tid, Thread>, e: EntryId, pick: Tid) {
    Sleepers(threads, e) != {} ==> pick in Sleepers(threads, e)
  }

  /** condvar->broadcast: wakes every sleeper of the entry. */
  function Broadcast(threads: map<Tid, Thread>, e: EntryId): map<Tid, Thread> {
    map t | t in threads :: if SleepsOn(threads[t], e) then Wake(threads[t]) else threads[t]
  }

  function SetThread(s: State, t: Tid, th: Thread): State {
    s.(threads := s.threads[t := th])
  }

  function SetEntry(s: State, e: EntryId, en: Entry): State {
    s.(entries := s.entries[e := en])
  }

  /** wait_for_entry from the head of its loop, run by t, with what the caller does next. */
  function WaitForEntry(s: State, t: Tid, e: EntryId, use: Use, pick: Tid): State
    requires e in s.entries
  {
    var en := s.entries[e];
    if en.locked && !en.awaitsDeletion then
      SetThread(SetEntry(s, e, en.(waiting := en.waiting + 1)), t, Waiting(e, use, false))
    else if en.awaitsDeletion then
      s.(threads := Signal(s.threads[t := Idle], e, pick))
    else match use
      case Checkout => SetThread(SetEntry(s, e, en.(locked := true)), t, Holding(e))
      case Update(src, dst, encap) =>
        // locked, changed, unlocked and signalled without releasing the mutex
        SetEntry(s.(threads := Signal(s.threads[t := Idle], e, pick)), e,
                 en.(sa := en.sa.(src := src, dst := dst, encap := encap)))
      case Query => s.(threads := Signal(s.threads[t := Idle], e, pick))
  }

  /** A woken waiter returns from wait: the counter goes down before the loop head. */
  function LeaveWait(s: State, t: Tid, e: EntryId): State
    requires e in s.entries
  {
    var en := s.entries[e];
    SetThread(SetEntry(s, e, en.(waiting := if en.waiting > 0 then en.waiting - 1 else 0)), t, Idle)
  }

  /** Threads other than t that could still touch the entry. */
  function Reachers(threads: map<Tid, Thread>, t: Tid, e: EntryId): set<Tid> {
    set u | u in threads && u != t && !threads[u].Idle? && threads[u].e == e
  }

  function DestroyEntry(s: State, t: Tid, e: EntryId): State
    requires e in s.entries
  {
    var en := s.entries[e];
    s.(entries := s.entries - {e},
       threads := s.threads[t := Idle],
       destroyed := s.destroyed + [Destruction(e, t, en.locked, en.waiting, e in s.sas, Reachers(s.threads, t, e))])
  }

  /** The rest of wait_remove_entry for the thread t, which runs, up to its next wait;
      when both loops are left the entry is unlinked, and destroyed at once except by del_sa. */
  function Drain(s: State, t: Tid, e: EntryId, why: Remover, drained: bool): State
    requires e in s.entries
  {
    var en := s.entries[e];
    if !drained && en.locked then
      SetThread(s, t, Removing(e, why, false, false))
    else if en.waiting > 0 then
      SetThread(s.(threads := Broadcast(s.threads, e)), t, Removing(e, why, true, false))
    else
      var s1 := s.(sas := Without(s.sas, e));
      if why.ForDelete? then SetThread(s1, t, Destroying(e)) else DestroyEntry(s1, t, e)
  }

  /** wait_remove_entry from its start: nothing if another thread is already at it. */
  function BeginRemove(s: State, t: Tid, e: EntryId, why: Remover): State
    requires e in s.entries
  {
    var en := s.entries[e];
    if en.awaitsDeletion then s
    else
      var s1 := SetEntry(s, e, en.(awaitsDeletion := true));
      Drain(SetThread(s1, t, Removing(e, why, false, true)), t, e, why, false)
  }

  /** flush_entries over the part of the list the enumerator has not reached yet. */
  function FlushFrom(s: State, t: Tid, rest: seq<EntryId>): State
    requires t in s.threads
    decreases |rest|
  {
    if rest == [] then s
    else if rest[0] !in s.entries then FlushFrom(s, t, rest[1..])
    else
      var s1 := BeginRemove(s, t, rest[0], ForFlush);
      if s1.threads[t].Idle? then FlushFrom(s1, t, rest[1..]) else s1
  }

  /** A remover that was woken runs on. */
  function ResumeRemover(s: State, t: Tid): State
    requires t in s.threads && s.threads[t].Removing? && s.threads[t].e in s.entries
  {
    var th := s.threads[t];
    var s1 := Drain(s, t, th.e, th.why, th.drained);
    if th.why.ForFlush? && s1.threads[t].Idle? then FlushFrom(s1, t, After(s.sas, th.e)) else s1
  }

  /** ipsec_sa_t.expire: the flags only (events are the subject of SaLifetime). */
  function ExpireSa(sa: Sa, hard: bool): Sa {
    if hard then sa.(hardExpired := true)
    else if !sa.hardExpired then sa.(softExpired := true) else sa
  }

  /** create_entry and insert_first. */
  function Insert(s: State, sa: Sa): State {
    s.(sas := [s.nextId] + s.sas, entries := s.entries[s.nextId := Entry(sa, false, 0, false)], nextId := s.nextId + 1)
  }

  datatype Step =
    | GetSpi(t: Tid, spi: nat)
    | AddSa(t: Tid, sa: Sa, update: bool)
    | Acquire(t: Tid, key: Key, use: Use, pick: Tid)
    | Traffic(t: Tid, hard: bool)
    | Checkin(t: Tid, pick: Tid)
    | DelSa(t: Tid, spi: nat, src: Host, dst: Host)
    | Expire(t: Tid, e: EntryId, spi: nat, hard: bool)
    | Flush(t: Tid)
    | Resume(t: Tid, pick: Tid)
    | Destroy(t: Tid)
    | Spurious(t: Tid)
    | Stutter

  predicate InboundSpiInUse(s: State, spi: nat) {
    exists e | e in s.sas :: e in s.entries && s.entries[e].sa.spi == spi && s.entries[e].sa.inbound
  }

  /** When a step can be taken. Starting a call needs an idle thread; the callers of a
      checkout in the source do nothing with the manager before they check the SA in. */
  predicate Enabled(s: State, a: Step) {
    match a
    case GetSpi(t, spi) => t in s.threads && s.threads[t].Idle? && spi !in s.reserved && !InboundSpiInUse(s, spi)
    case AddSa(t, _, _) => t in s.threads && s.threads[t].Idle?
    case Acquire(t, key, use, pick) =>
      && t in s.threads && s.threads[t].Idle?
      && (use.Checkout? <==> !key.BySpiSrcDst?)
      && var f := FindFirst(s.sas, s.entries, key);
         f.Some? ==> ValidPick(s.threads, f.value, pick)
    case Traffic(t, _) => t in s.threads && s.threads[t].Holding? && s.threads[t].e in s.entries
    case Checkin(t, pick) => t in s.threads && s.threads[t].Holding? && ValidPick(s.threads, s.threads[t].e, pick)
    case DelSa(t, _, _, _) => t in s.threads && s.threads[t].Idle?
    case Expire(t, _, _, _) => t in s.threads && s.threads[t].Idle?
    case Flush(t) => t in s.threads && s.threads[t].Idle?
    case Resume(t, pick) =>
      && t in s.threads && (s.threads[t].Waiting? || s.threads[t].Removing?) && s.threads[t].woken
      && s.threads[t].e in s.entries
      && ValidPick(s.threads, s.threads[t].e, pick)
    case Destroy(t) => t in s.threads && s.threads[t].Destroying? && s.threads[t].e in s.entries
    case Spurious(t) => t in s.threads && (s.threads[t].Waiting? || s.threads[t].Removing?)
    case Stutter => true
  }

  function Apply(s: State, a: Step): State
    requires Enabled(s, a)
  {
    match a
    case GetSpi(_, spi) => s.(reserved := s.reserved + {spi})
    case AddSa(_, sa, update) =>
      var s1 := if update then s.(reserved := s.reserved - {sa.spi}) else s;
      if FindFirst(s.sas, s.entries, BySpiSrcDst(sa.spi, sa.src, sa.dst)).Some? then s1 else Insert(s1, sa)
    case Acquire(t, key, use, pick) =>
      var f := FindFirst(s.sas, s.entries, key);
      if f.None? then s else WaitForEntry(s, t, f.value, use, pick)
    case Traffic(t, hard) =>
      var e := s.threads[t].e;
      SetEntry(s, e, s.entries[e].(sa := ExpireSa(s.entries[e].sa, hard)))
    case Checkin(t, pick) =>
      var e := s.threads[t].e;
      if e in s.sas && e in s.entries && s.entries[e].locked then
        SetEntry(s.(threads := Signal(s.threads[t := Idle], e, pick)), e, s.entries[e].(locked := false))
      else SetThread(s, t, Idle)
    case DelSa(t, spi, src, dst) =>
      var f := FindFirst(s.sas, s.entries, BySpiSrcDst(spi, src, dst));
      if f.None? || s.entries[f.value].awaitsDeletion then s.(reserved := s.reserved - {spi})
      else BeginRemove(s, t, f.value, ForDelete)
    case Expire(t, e, spi, hard) =>
      if e in s.sas && e in s.entries && s.entries[e].sa.spi == spi then
        var s1 := SetEntry(s, e, s.entries[e].(sa := ExpireSa(s.entries[e].sa, hard)));
        if hard then BeginRemove(s1, t, e, ForExpiry) else s1
      else s
    case Flush(t) => FlushFrom(s, t, s.sas)
    case Resume(t, pick) =>
      if s.threads[t].Removing? then ResumeRemover(s, t)
      else WaitForEntry(LeaveWait(s, t, s.threads[t].e), t, s.threads[t].e, s.threads[t].use, pick)
    case Destroy(t) => DestroyEntry(s, t, s.threads[t].e)
    case Spurious(t) => SetThread(s, t, Wake(s.threads[t]))
    case Stutter => s
  }

  predicate Init(s: State) {
    && s.sas == [] && s.entries == map[] && s.nextId == 0 && s.reserved == {} && s.destroyed == []
    && forall t | t in s.threads :: s.threads[t].Idle?
  }

  /** The i-th step of a run is enabled and leads to the next state. */
  ghost predicate Follows(states: seq<State>, steps: seq<Step>, i: nat)
    requires i < |steps| < |states|
  {
    Enabled(states[i], steps[i]) && states[i + 1] == Apply(states[i], steps[i])
  }

  /** A finite run: every state follows from the one before by an enabled step. */
  ghost predicate IsRun(states: seq<State>, steps: seq<Step>) {
    && |states| == |steps| + 1
    && Init(states[0])
    && forall i | 0 <= i < |steps| :: Follows(states, steps, i)
  }
}
