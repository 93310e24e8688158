/** Expiration of an SA by traffic and by time (ipsec_sa.c and schedule_expiration/sa_expired). */
module SaLifetime {
  import opened Words

  datatype Limit = Limit(life: U64, rekey: U64)
  datatype Lifetime = Lifetime(time: Limit, bytes: Limit, packets: Limit)

  /** An expire event as the event relay sees it. */
  datatype Event = Event(hard: bool, at: nat, byTimer: bool)

  datatype Usage = Usage(packets: U64, bytes: U64, soft: bool, hard: bool, events: seq<Event>)

  function Expired(u: Usage, ev: Event): Usage {
    if ev.hard then
      if u.hard then u else u.(hard := true, events := u.events + [ev])
    else if u.hard || u.soft then u
    else u.(soft := true, events := u.events + [ev])
  }

  predicate Reached(limit: U64, value: U64) {
    limit != 0 && value >= limit
  }

  /** update_usestats, with the 64-bit counters it wraps. */
  function Used(u: Usage, lt: Lifetime, bytes: U32, now: nat): Usage {
    var v := u.(packets := (u.packets + 1) % TWO64, bytes := (u.bytes + bytes) % TWO64);
    if Reached(lt.packets.life, v.packets) || Reached(lt.bytes.life, v.bytes) then Expired(v, Event(true, now, false))
    else if Reached(lt.packets.rekey, v.packets) || Reached(lt.bytes.rekey, v.bytes) then
      Expired(v, Event(false, now, false))
    else v
  }

  /** The SA object: methods change its fields in the source's order. */
  class IpsecSa {
    const lifetime: Lifetime
    var packets: U64
    var bytes: U64
    var softExpired: bool
    var hardExpired: bool
    var raised: seq<Event>

    function View(): Usage
      reads this
    {
      Usage(packets, bytes, softExpired, hardExpired, raised)
    }

    constructor (lifetime: Lifetime)
      ensures View() == Usage(0, 0, false, false, []) && this.lifetime == lifetime
    {
      this.lifetime := lifetime;
      packets, bytes, softExpired, hardExpired, raised := 0, 0, false, false, [];
    }

    method Expire(hard: bool, now: nat, byTimer: bool)
      modifies this
      ensures View() == Expired(old(View()), Event(hard, now, byTimer))
    {
      if hard {
        if !hardExpired {
          hardExpired := true;
          raised := raised + [Event(true, now, byTimer)];
        }
      } else if !hardExpired && !softExpired {
        softExpired := true;
        raised := raised + [Event(false, now, byTimer)];
      }
    }

    method UpdateUsestats(n: U32, now: nat)
      modifies this
      ensures View() == Used(old(View()), lifetime, n, now)
    {
      packets := (packets + 1) % TWO64;
      bytes := (bytes + n) % TWO64;
      if lifetime.packets.life != 0 && packets >= lifetime.packets.life { Expire(true, now, false); return; }
      if lifetime.bytes.life != 0 && bytes >= lifetime.bytes.life { Expire(true, now, false); return; }
      if lifetime.packets.rekey != 0 && packets >= lifetime.packets.rekey { Expire(false, now, false); return; }
      if lifetime.bytes.rekey != 0 && bytes >= lifetime.bytes.rekey { Expire(false, now, false); return; }
    }
  }

  // ---- the timer ----

  /** A scheduled sa_expired job: due at a time, 0 or the seconds from the soft to the hard limit. */
  datatype Timer = NoTimer | Timer(due: nat, hardOffset: U32)

  /** schedule_expiration, with its truncations to 32 bits. */
  function Schedule(time: Limit, now: nat): Timer {
    if time.life == 0 then NoTimer
    else if time.life <= time.rekey || time.rekey == 0 then Timer(now + time.life % TWO32, 0)
    else Timer(now + time.rekey % TWO32, (time.life - time.rekey) % TWO32)
  }

  /** The delays handed to the scheduler fit its 32 bits. */
  predicate Representable(time: Limit) {
    if time.life <= time.rekey || time.rekey == 0 then time.life < TWO32
    else time.rekey < TWO32 && time.life - time.rekey < TWO32
  }

  /** The hard limit is scheduled for exactly `life` seconds after installation if and only if the
      delays fit 32 bits; every life below 2^32 is such a case. */
  lemma ScheduledForLife(time: Limit, now: nat)
    requires time.life != 0
    ensures var t := Schedule(time, now); t.due + t.hardOffset == now + time.life <==> Representable(time)
    ensures time.life < TWO32 ==> Representable(time)
  {
  }

  /** A lifetime of 2^32 seconds is cut to nothing: the SA expires at once. */
  lemma TruncatedLife(now: nat)
    ensures Schedule(Limit(TWO32, 0), now) == Timer(now, 0)
  {
  }

  datatype Sad = Sad(now: nat, installedAt: nat, installed: bool, timer: Timer, usage: Usage)

  datatype Step = Packet(bytes: U32) | Fire | Unlink | Tick

  function Install(lt: Lifetime, now: nat): Sad {
    Sad(now, now, true, Schedule(lt.time, now), Usage(0, 0, false, false, []))
  }

  /** Jobs run when they are due, so time does not pass one that is. A thread may use the SA as long
      as it is installed; a hard-expired SA is unlinked once nobody holds it, and del_sa may do so any time. */
  predicate Enabled(s: Sad, a: Step) {
    match a
    case Packet(_) => s.installed
    case Fire => s.timer.Timer? && s.timer.due <= s.now
    case Unlink => s.installed
    case Tick => s.timer.NoTimer? || s.now < s.timer.due
  }

  function Apply(lt: Lifetime, s: Sad, a: Step): Sad
    requires Enabled(s, a)
  {
    match a
    case Packet(n) => s.(usage := Used(s.usage, lt, n, s.now))
    case Fire =>
      if !s.installed then s.(timer := NoTimer)
      else if s.timer.hardOffset != 0 then
        s.(usage := Expired(s.usage, Event(false, s.now, true)), timer := Timer(s.now + s.timer.hardOffset, 0))
      else s.(usage := Expired(s.usage, Event(true, s.now, true)), timer := NoTimer)
    case Unlink => s.(installed := false)
    case Tick => s.(now := s.now + 1)
  }

  function Run(lt: Lifetime, s: Sad, steps: seq<Step>): Sad
    requires CanRun(lt, s, steps)
    decreases |steps|
  {
    if steps == [] then s else Run(lt, Apply(lt, s, steps[0]), steps[1..])
  }

  predicate CanRun(lt: Lifetime, s: Sad, steps: seq<Step>)
    decreases |steps|
  {
    steps != [] ==> Enabled(s, steps[0]) && CanRun(lt, Apply(lt, s, steps[0]), steps[1..])
  }

  /** At most one soft and one hard event, and no soft one after the hard one. */
  ghost predicate EventsOk(events: seq<Event>) {
    && |events| <= 2
    && (|events| == 2 ==> !events[0].hard && events[1].hard)
  }

  predicate TimerOk(time: Limit, s: Sad)
    requires s.timer.Timer?
  {
    && s.now <= s.timer.due && s.timer.due + s.timer.hardOffset == s.installedAt + time.life
    && (s.timer.hardOffset != 0 ==> s.timer.due == s.installedAt + time.rekey)
  }

  ghost predicate Inv(lt: Lifetime, s: Sad) {
    && EventsOk(s.usage.events)
    && (s.usage.hard <==> exists i | 0 <= i < |s.usage.events| :: s.usage.events[i].hard)
    && (s.usage.soft <==> exists i | 0 <= i < |s.usage.events| :: !s.usage.events[i].hard)
    && s.installedAt <= s.now
    && (lt.time.life != 0 && Representable(lt.time) ==>
          && (s.timer.Timer? ==> TimerOk(lt.time, s))
          && (s.installed && !s.usage.hard ==> s.timer.Timer?)
          && (forall i | 0 <= i < |s.usage.events| && s.usage.events[i].byTimer ::
                s.usage.events[i].at
                == s.installedAt + (if s.usage.events[i].hard then lt.time.life else lt.time.rekey)))
    && (lt.time.life == 0 ==> s.timer.NoTimer? && forall i | 0 <= i < |s.usage.events| :: !s.usage.events[i].byTimer)
  }

  lemma ExpiredKeeps(lt: Lifetime, s: Sad, ev: Event)
    requires Inv(lt, s)
    requires ev.byTimer ==> lt.time.life != 0
    requires ev.byTimer && Representable(lt.time)
             ==> ev.at == s.installedAt + (if ev.hard then lt.time.life else lt.time.rekey)
    ensures Inv(lt, s.(usage := Expired(s.usage, ev)))
  {
    var was, u := s.usage, Expired(s.usage, ev);
    if u.events != was.events {
      assert u.events[|was.events|] == ev;
      assert forall i | 0 <= i < |was.events| :: u.events[i] == was.events[i];
    }
  }

  lemma PacketKeeps(lt: Lifetime, s: Sad, n: U32)
    requires Inv(lt, s)
    ensures Inv(lt, s.(usage := Used(s.usage, lt, n, s.now)))
  {
    var v := s.(usage := s.usage.(packets := (s.usage.packets + 1) % TWO64, bytes := (s.usage.bytes + n) % TWO64));
    assert Inv(lt, v);
    var u := v.usage;
    if Reached(lt.packets.life, u.packets) || Reached(lt.bytes.life, u.bytes) {
      ExpiredKeeps(lt, v, Event(true, s.now, false));
    } else if Reached(lt.packets.rekey, u.packets) || Reached(lt.bytes.rekey, u.bytes) {
      ExpiredKeeps(lt, v, Event(false, s.now, false));
    }
  }

  lemma FireKeeps(lt: Lifetime, s: Sad)
    requires Inv(lt, s) && Enabled(s, Fire)
    ensures Inv(lt, Apply(lt, s, Fire))
  {
    if s.installed {
      var ev := Event(s.timer.hardOffset == 0, s.now, true);
      ExpiredKeeps(lt, s, ev);
      var v := s.(usage := Expired(s.usage, ev));
      assert Apply(lt, s, Fire) == v.(timer := if ev.hard then NoTimer else Timer(s.now + s.timer.hardOffset, 0));
    }
  }

  lemma StepKeeps(lt: Lifetime, s: Sad, a: Step)
    requires Inv(lt, s) && Enabled(s, a)
    ensures Inv(lt, Apply(lt, s, a))
  {
    match a
    case Packet(n) => PacketKeeps(lt, s, n);
    case Fire => FireKeeps(lt, s);
    case Unlink =>
    case Tick =>
  }

  lemma {:induction false} RunKeeps(lt: Lifetime, s: Sad, steps: seq<Step>)
    requires Inv(lt, s) && CanRun(lt, s, steps)
    ensures Inv(lt, Run(lt, s, steps)) && Run(lt, s, steps).installedAt == s.installedAt
    decreases |steps|
  {
    if steps != [] {
      StepKeeps(lt, s, steps[0]);
      RunKeeps(lt, Apply(lt, s, steps[0]), steps[1..]);
    }
  }

  /** For every interleaving of traffic, timer, removal and time: at most one soft and one hard event, no
      soft event after the hard one; with a time limit that fits the scheduler, the timer's hard event comes
      exactly `life` seconds after installation, its soft one exactly `rekey` seconds after it, and an SA
      still installed after its life is hard-expired, with or without a rekey time. */
  lemma LifetimeKept(lt: Lifetime, now: nat, steps: seq<Step>)
    requires CanRun(lt, Install(lt, now), steps)
    ensures var s := Run(lt, Install(lt, now), steps);
            && EventsOk(s.usage.events)
            && (lt.time.life != 0 && Representable(lt.time) ==>
                  && (s.installed && s.now > now + lt.time.life ==> s.usage.hard)
                  && (forall i | 0 <= i < |s.usage.events| && s.usage.events[i].byTimer ::
                        s.usage.events[i].at == now + (if s.usage.events[i].hard then lt.time.life else lt.time.rekey)))
            && (lt.time.life == 0 ==> forall i | 0 <= i < |s.usage.events| :: !s.usage.events[i].byTimer)
  {
    RunKeeps(lt, Install(lt, now), steps);
  }

  // ---- limits of traffic ----

  function PacketsOf(steps: seq<Step>): nat {
    if steps == [] then 0 else (if steps[0].Packet? then 1 else 0) + PacketsOf(steps[1..])
  }

  function BytesOf(steps: seq<Step>): nat {
    if steps == [] then 0 else (if steps[0].Packet? then steps[0].bytes else 0) + BytesOf(steps[1..])
  }

  predicate Over(limit: U64, n: nat) {
    0 < limit <= n
  }

  /** The 64-bit counter cannot have jumped over the limit. */
  predicate NotJumped(limit: U64, total: nat) {
    total < TWO64 || limit <= TWO64 - TWO32 + 1
  }

  /** A limit that has been passed has expired the SA, after k packets with so many bytes in total. */
  ghost predicate Metered(lt: Lifetime, u: Usage, k: nat, total: nat) {
    && u.packets == k % TWO64 && u.bytes == total % TWO64
    && (Over(lt.packets.life, k) ==> u.hard)
    && (Over(lt.bytes.life, total) && NotJumped(lt.bytes.life, total) ==> u.hard)
    && (Over(lt.packets.rekey, k) ==> u.soft || u.hard)
    && (Over(lt.bytes.rekey, total) && NotJumped(lt.bytes.rekey, total) ==> u.soft || u.hard)
  }

  /** What expired it, other than the timer, was a limit that has been passed. */
  ghost predicate Caused(lt: Lifetime, u: Usage, k: nat, total: nat) {
    forall i | 0 <= i < |u.events| && !u.events[i].byTimer :: Due(lt, u.events[i].hard, k, total)
  }

  /** A limit of the kind has been passed. */
  predicate Due(lt: Lifetime, hard: bool, k: nat, total: nat) {
    if hard then Over(lt.packets.life, k) || Over(lt.bytes.life, total)
    else Over(lt.packets.rekey, k) || Over(lt.bytes.rekey, total)
  }

  /** A counter that goes up by less than 2^32 stops at the limit or behind it, and does not do so before. */
  lemma Meets(limit: U64, total: nat, n: U32)
    ensures Over(limit, total + n) && NotJumped(limit, total + n) && !Over(limit, total)
            ==> Reached(limit, (total + n) % TWO64)
    ensures Reached(limit, (total + n) % TWO64) ==> Over(limit, total + n)
    ensures NotJumped(limit, total + n) ==> NotJumped(limit, total)
  {
  }

  lemma PacketsMeet(lt: Lifetime, k: nat)
    ensures Over(lt.packets.life, k + 1) && !Over(lt.packets.life, k) ==> Reached(lt.packets.life, (k + 1) % TWO64)
    ensures Over(lt.packets.rekey, k + 1) && !Over(lt.packets.rekey, k) ==> Reached(lt.packets.rekey, (k + 1) % TWO64)
  {
    if k < TWO64 - 1 {
      Meets(lt.packets.life, k, 1);
      Meets(lt.packets.rekey, k, 1);
    }
  }

  lemma CountOn(k: nat, total: nat, n: U32)
    ensures (k % TWO64 + 1) % TWO64 == (k + 1) % TWO64 && (total % TWO64 + n) % TWO64 == (total + n) % TWO64
  {
  }

  lemma PacketMeters(lt: Lifetime, u: Usage, n: U32, now: nat, k: nat, total: nat)
    requires Metered(lt, u, k, total)
    ensures Metered(lt, Used(u, lt, n, now), k + 1, total + n)
  {
    CountOn(k, total, n);
    PacketsMeet(lt, k);
    Meets(lt.bytes.life, total, n);
    Meets(lt.bytes.rekey, total, n);
  }

  lemma PacketCaused(lt: Lifetime, u: Usage, n: U32, now: nat, k: nat, total: nat)
    requires Caused(lt, u, k, total) && u.packets == k % TWO64 && u.bytes == total % TWO64
    ensures Caused(lt, Used(u, lt, n, now), k + 1, total + n)
  {
    var v := Used(u, lt, n, now);
    CountOn(k, total, n);
    Meets(lt.packets.life, k, 1);
    Meets(lt.packets.rekey, k, 1);
    Meets(lt.bytes.life, total, n);
    Meets(lt.bytes.rekey, total, n);
    forall i | 0 <= i < |v.events| && !v.events[i].byTimer ensures Due(lt, v.events[i].hard, k + 1, total + n) {
      if i < |u.events| {
        assert v.events[i] == u.events[i];
        assert Due(lt, u.events[i].hard, k, total);
      }
    }
  }

  lemma {:induction false} RunMeters(lt: Lifetime, s: Sad, steps: seq<Step>, k: nat, total: nat)
    requires CanRun(lt, s, steps) && Metered(lt, s.usage, k, total) && Caused(lt, s.usage, k, total)
    ensures Metered(lt, Run(lt, s, steps).usage, k + PacketsOf(steps), total + BytesOf(steps))
    ensures Caused(lt, Run(lt, s, steps).usage, k + PacketsOf(steps), total + BytesOf(steps))
    decreases |steps|
  {
    if steps != [] {
      var a := steps[0];
      if a.Packet? {
        PacketMeters(lt, s.usage, a.bytes, s.now, k, total);
        PacketCaused(lt, s.usage, a.bytes, s.now, k, total);
        RunMeters(lt, Apply(lt, s, a), steps[1..], k + 1, total + a.bytes);
      } else {
        RunMeters(lt, Apply(lt, s, a), steps[1..], k, total);
      }
    }
  }

  /** For every interleaving: an SA is hard-expired once it was used for as many packets as its limit, or as many bytes
      unless a limit near 2^64 was jumped over; an event that was not raised by the timer means that a limit of its kind
      has been passed. */
  lemma TrafficLimits(lt: Lifetime, now: nat, steps: seq<Step>)
    requires CanRun(lt, Install(lt, now), steps)
    ensures var u, k, total := Run(lt, Install(lt, now), steps).usage, PacketsOf(steps), BytesOf(steps);
            && (0 < lt.packets.life <= k ==> u.hard)
            && (0 < lt.bytes.life <= total && (total < TWO64 || lt.bytes.life <= TWO64 - TWO32 + 1) ==> u.hard)
            && (0 < lt.packets.rekey <= k ==> u.soft || u.hard)
            && (forall i | 0 <= i < |u.events| && !u.events[i].byTimer && u.events[i].hard ::
                  0 < lt.packets.life <= k || 0 < lt.bytes.life <= total)
            && (forall i | 0 <= i < |u.events| && !u.events[i].byTimer && !u.events[i].hard ::
                  0 < lt.packets.rekey <= k || 0 < lt.bytes.rekey <= total)
  {
    RunMeters(lt, Install(lt, now), steps, 0, 0);
  }

  /** Packets up to just below the limit, and one more that makes the counter wrap. */
  lemma {:induction false} Fill(lt: Lifetime, s: Sad, last: U32) returns (steps: seq<Step>)
    requires s.installed && !s.usage.hard && lt.packets.life == 0
    requires s.usage.bytes < lt.bytes.life && TWO64 <= lt.bytes.life - 1 + last
    ensures CanRun(lt, s, steps) && !Run(lt, s, steps).usage.hard
    ensures s.usage.bytes + BytesOf(steps) == lt.bytes.life - 1 + last
    decreases lt.bytes.life - s.usage.bytes
  {
    var left := lt.bytes.life - 1 - s.usage.bytes;
    if left == 0 {
      steps := [Packet(last)];
      assert steps[1..] == [];
      assert CanRun(lt, Apply(lt, s, Packet(last)), []);
    } else {
      var n: U32 := if left < TWO32 then left else TWO32 - 1;
      var s1 := Apply(lt, s, Packet(n));
      var rest := Fill(lt, s1, last);
      steps := [Packet(n)] + rest;
      assert steps[1..] == rest;
    }
  }

  /** A limit of bytes expires the SA in every run that passes it if and only if it is at most 2^64 - 2^32 + 1: above,
      packets can take the counter past 2^64 before it meets the limit. */
  lemma ByteLimitExact(lt: Lifetime, now: nat)
    requires lt.packets.life == 0 && lt.bytes.life > 0
    ensures (forall steps | CanRun(lt, Install(lt, now), steps) && BytesOf(steps) >= lt.bytes.life ::
               Run(lt, Install(lt, now), steps).usage.hard)
            <==> lt.bytes.life <= TWO64 - TWO32 + 1
  {
    if lt.bytes.life <= TWO64 - TWO32 + 1 {
      forall steps | CanRun(lt, Install(lt, now), steps) && BytesOf(steps) >= lt.bytes.life
        ensures Run(lt, Install(lt, now), steps).usage.hard
      {
        TrafficLimits(lt, now, steps);
      }
    } else {
      var steps := Fill(lt, Install(lt, now), TWO32 - 1);
      assert BytesOf(steps) >= lt.bytes.life;
    }
  }
}
