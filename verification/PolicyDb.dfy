/** The IPsec policy database (ipsec_policy_mgr.c, ipsec_policy.c): a list sorted by a pseudo-priority. */
module PolicyDb {
  import opened Bytes
  import opened Words
  import opened IpPackets

  const PRIO_BASE: int := 384

  datatype Class = Pass | Default | Routed | Fallback
  datatype Direction = In | Out | Fwd
  datatype Mark = Mark(value: U32, mask: U32)

  datatype Range = Range(from: seq<Byte>, to: seq<Byte>, fromPort: U16, toPort: U16, protocol: Byte)

  /** A traffic selector: a range of IPv4 or IPv6 addresses, ports and protocol. */
  type Selector = r: Range | |r.from| == |r.to| && (|r.from| == 4 || |r.from| == 16)
    witness Range(Zeros(4), Zeros(4), 0, 0, 0)

  // ---- netmasks ----

  /** The bits of an address, counted from the front. */
  function BitAt(s: seq<Byte>, k: nat): nat
    requires k < 8 * |s|
  {
    s[k / 8] / Pow2(7 - k % 8) % 2
  }

  /** The number of bits from the k-th on that both addresses have in common, plus k. */
  function CommonBits(from: seq<Byte>, to: seq<Byte>, k: nat): (n: nat)
    requires |from| == |to| && k <= 8 * |from|
    ensures k <= n <= 8 * |from|
    ensures forall i | k <= i < n :: BitAt(from, i) == BitAt(to, i)
    ensures n < 8 * |from| ==> BitAt(from, n) != BitAt(to, n)
    decreases 8 * |from| - k
  {
    if k == 8 * |from| || BitAt(from, k) != BitAt(to, k) then k else CommonBits(from, to, k + 1)
  }

  /** The netmask to_subnet reports: the length of the common prefix. */
  function Netmask(ts: Selector): (n: nat)
    ensures n <= 128
  {
    CommonBits(ts.from, ts.to, 0)
  }

  /** Behind the first bit that differs, one end has only zeros and the other only ones. */
  ghost predicate FullFrom(from: seq<Byte>, to: seq<Byte>, n: nat)
    requires |from| == |to|
  {
    forall i | n <= i < 8 * |from| :: BitAt(from, i) == 0 && BitAt(to, i) == 1
  }

  const NON_SUBNET_ADDRESS_RANGE: Byte := 255

  /** calc_netbits: what it returns and what it stores. */
  method CalcNetbits(ts: Selector) returns (netbits: Byte, stored: Byte)
    ensures netbits == Netmask(ts)
    ensures stored == if FullFrom(ts.from, ts.to, Netmask(ts) + 1) then netbits else NON_SUBNET_ADDRESS_RANGE
  {
    var size := |ts.from|;
    var prefix := true;
    netbits := size * 8;
    stored := netbits;
    var k := 0;
    while k < 8 * size
      invariant k <= 8 * size && stored == netbits
      invariant prefix ==> netbits == 8 * size && CommonBits(ts.from, ts.to, k) == Netmask(ts)
      invariant !prefix ==> netbits == Netmask(ts) < k
      invariant !prefix ==> forall i | netbits < i < k :: BitAt(ts.from, i) == 0 && BitAt(ts.to, i) == 1
    {
      if prefix {
        if BitAt(ts.from, k) != BitAt(ts.to, k) {
          netbits := k;
          stored := k;
          prefix := false;
        }
      } else if BitAt(ts.from, k) != 0 || BitAt(ts.to, k) == 0 {
        return netbits, NON_SUBNET_ADDRESS_RANGE;
      }
      k := k + 1;
    }
  }

  /** A range made from a subnet of n bits, as calc_range does, has the netmask n: the stored value need not be computed
      again. */
  lemma SubnetNetmask(ts: Selector, n: nat)
    requires n <= 8 * |ts.from| && FullFrom(ts.from, ts.to, n)
    requires forall i | 0 <= i < n :: BitAt(ts.from, i) == BitAt(ts.to, i)
    ensures Netmask(ts) == n
  {
    var m := Netmask(ts);
    assert !(m < n);
    assert n < 8 * |ts.from| ==> BitAt(ts.from, n) == 0 && BitAt(ts.to, n) == 1;
  }

  /** The port that to_subnet reports. */
  function SubnetPort(ts: Selector): U16 {
    if ts.toPort == ts.fromPort then ts.toPort else 0
  }

  function MaxOf(a: int, b: int): int {
    if a > b then a else b
  }

  // ---- priorities ----

  function ClassShift(c: Class): nat {
    match c
    case Pass => 1
    case Default => 2
    case Routed => 4
    case Fallback => 8
  }

  /** The arithmetic of calculate_priority in 32 bits, on the base of the class, the two masks and the two flags. */
  function PseudoPriority(base: U32, mask1: nat, mask2: nat, flags: nat): U32 {
    var p1 := (base - mask1) % TWO32;
    var p2 := (p1 - mask2) % TWO32;
    var p3 := (p2 * 4) % TWO32;
    (p3 + flags) % TWO32
  }

  /** calculate_priority: a small value is a high priority. */
  function Priority(c: Class, src: Selector, dst: Selector): U32 {
    PseudoPriority(PRIO_BASE * ClassShift(c), Netmask(src), Netmask(dst), Openness(src, dst))
  }

  function MaskSum(src: Selector, dst: Selector): nat {
    Netmask(src) + Netmask(dst)
  }

  /** 0 to 3: the lower the more specific the ports (first) and the protocol (second). */
  function Openness(src: Selector, dst: Selector): nat {
    (if MaxOf(SubnetPort(src), SubnetPort(dst)) != 0 then 0 else 2)
    + (if MaxOf(src.protocol, dst.protocol) != 0 then 0 else 1)
  }

  lemma NoUnderflow(base: U32, mask1: nat, mask2: nat, flags: nat)
    requires PRIO_BASE <= base <= 8 * PRIO_BASE && mask1 <= 128 && mask2 <= 128 && flags < 4
    ensures PseudoPriority(base, mask1, mask2, flags) == 4 * (base - mask1 - mask2) + flags
  {
    assert (base - mask1) % TWO32 == base - mask1;
    assert (base - mask1 - mask2) % TWO32 == base - mask1 - mask2;
  }

  /** The 32-bit arithmetic is exact for every pair of selectors: netmasks are at most 128, so at least 128 of the base
      is left, nothing underflows and classes never overlap. */
  lemma PriorityValue(c: Class, src: Selector, dst: Selector)
    ensures Priority(c, src, dst) == 4 * (PRIO_BASE * ClassShift(c) - MaskSum(src, dst)) + Openness(src, dst)
    ensures PRIO_BASE * ClassShift(c) - MaskSum(src, dst) >= 128
  {
    NoUnderflow(PRIO_BASE * ClassShift(c), Netmask(src), Netmask(dst), Openness(src, dst));
  }

  /** The order of the classes. */
  function Rank(c: Class): nat {
    match c
    case Pass => 0
    case Default => 1
    case Routed => 2
    case Fallback => 3
  }

  /** One of the two is for a single port other than zero. */
  predicate ForPort(src: Selector, dst: Selector) {
    (src.fromPort == src.toPort && src.toPort != 0) || (dst.fromPort == dst.toPort && dst.toPort != 0)
  }

  predicate ForProtocol(src: Selector, dst: Selector) {
    src.protocol != 0 || dst.protocol != 0
  }

  /** Ordering by the computed value is ordering by class, then by the larger mask sum, then by a port, then by a
      protocol. */
  lemma PriorityOrder(c1: Class, src1: Selector, dst1: Selector, c2: Class, src2: Selector, dst2: Selector)
    ensures Priority(c1, src1, dst1) < Priority(c2, src2, dst2) <==>
            || Rank(c1) < Rank(c2)
            || (c1 == c2 && MaskSum(src1, dst1) > MaskSum(src2, dst2))
            || (c1 == c2 && MaskSum(src1, dst1) == MaskSum(src2, dst2)
                && (|| (ForPort(src1, dst1) && !ForPort(src2, dst2))
                    || (ForPort(src1, dst1) == ForPort(src2, dst2)
                        && ForProtocol(src1, dst1) && !ForProtocol(src2, dst2))))
  {
    PriorityValue(c1, src1, dst1);
    PriorityValue(c2, src2, dst2);
  }

  // ---- policies ----

  datatype Policy = Policy(srcTs: Selector, dstTs: Selector, protocol: Byte, direction: Direction, reqid: U32,
                           mark: Mark, class_: Class)

  /** The arguments add_policy and del_policy share. */
  datatype Request = Request(srcTs: Selector, dstTs: Selector, direction: Direction, isIpsec: bool, reqid: U32,
                             mark: Mark, class_: Class, useEsp: bool, ipcomp: bool, tunnel: bool)

  predicate Ignored(r: Request) {
    !r.isIpsec || r.direction == Fwd
  }

  /** ipsec_policy_create succeeds. */
  predicate Supported(r: Request) {
    r.useEsp && !r.ipcomp && r.tunnel
  }

  function MakePolicy(r: Request): Policy {
    Policy(r.srcTs, r.dstTs, MaxOf(r.srcTs.protocol, r.dstTs.protocol), r.direction, r.reqid, r.mark, r.class_)
  }

  /** ipsec_policy_t.match. */
  predicate Matches(p: Policy, r: Request) {
    p.direction == r.direction && p.class_ == r.class_ && p.reqid == r.reqid && p.mark == r.mark
    && p.srcTs == r.srcTs && p.dstTs == r.dstTs
  }

  predicate MatchPort(ts: Selector, port: U16) {
    (ts.fromPort == 0 && ts.toPort == 0xffff) || (ts.fromPort == 0xffff && ts.toPort == 0)
    || ts.fromPort <= port <= ts.toPort
  }

  /** memcmp(a, b) <= 0 */
  predicate NotAbove(a: seq<Byte>, b: seq<Byte>) {
    a == [] || (b != [] && (a[0] < b[0] || (a[0] == b[0] && NotAbove(a[1..], b[1..]))))
  }

  predicate Includes(ts: Selector, addr: seq<Byte>) {
    |addr| == |ts.from| == |ts.to| && NotAbove(ts.from, addr) && NotAbove(addr, ts.to)
  }

  predicate MatchPacket(p: Policy, packet: IpPacket) {
    && (p.protocol == 0 || p.protocol == packet.nextHeader)
    && Includes(p.srcTs, packet.src) && MatchPort(p.srcTs, packet.ports.sport)
    && Includes(p.dstTs, packet.dst) && MatchPort(p.dstTs, packet.ports.dport)
  }

  /** find_by_packet's test of one policy. */
  predicate Applies(p: Policy, packet: IpPacket, inbound: bool, reqid: U32) {
    inbound == (p.direction == In) && MatchPacket(p, packet) && (reqid == 0 || reqid == p.reqid)
  }

  // ---- what matching means ----

  /** The address as a number, the first byte being the highest. */
  function Value(s: seq<Byte>): (n: nat)
    ensures n < Pow2(8 * |s|)
  {
    if s == [] then 0
    else
      Shifted(s[0], 8 * (|s| - 1), Value(s[1..]));
      s[0] * Pow2(8 * (|s| - 1)) + Value(s[1..])
  }

  lemma EightMore(k: nat)
    ensures Pow2(k + 8) == 256 * Pow2(k)
  {
    FourMore(k);
    FourMore(k + 4);
  }

  lemma FourMore(k: nat)
    ensures Pow2(k + 4) == 16 * Pow2(k)
  {
    assert Pow2(k + 4) == 2 * Pow2(k + 3) && Pow2(k + 3) == 2 * Pow2(k + 2);
    assert Pow2(k + 2) == 2 * Pow2(k + 1) && Pow2(k + 1) == 2 * Pow2(k);
  }

  lemma Shifted(b: Byte, k: nat, low: nat)
    requires low < Pow2(k)
    ensures b * Pow2(k) + low < (b + 1) * Pow2(k) <= Pow2(k + 8)
  {
    var p := Pow2(k);
    EightMore(k);
    assert (b + 1) * p == b * p + p;
    assert (b + 1) * p <= 256 * p;
  }

  lemma Above(a: Byte, b: Byte, k: nat, low: nat, other: nat)
    requires a < b && low < Pow2(k)
    ensures a * Pow2(k) + low < b * Pow2(k) + other
  {
    Shifted(a, k, low);
    assert (a + 1) * Pow2(k) <= b * Pow2(k);
  }

  /** memcmp on addresses of the same length compares their values. */
  lemma {:induction false} NotAboveByValue(a: seq<Byte>, b: seq<Byte>)
    requires |a| == |b|
    ensures NotAbove(a, b) <==> Value(a) <= Value(b)
  {
    if a != [] {
      var k := 8 * (|a| - 1);
      NotAboveByValue(a[1..], b[1..]);
      if a[0] < b[0] { Above(a[0], b[0], k, Value(a[1..]), Value(b[1..])); }
      if b[0] < a[0] { Above(b[0], a[0], k, Value(b[1..]), Value(a[1..])); }
    }
  }

  /** An address of the selector's family in its range, and a port in its range; 65535 to 0 stands for any port. */
  predicate Covers(ts: Selector, addr: seq<Byte>, port: U16) {
    && |addr| == |ts.from| && Value(ts.from) <= Value(addr) <= Value(ts.to)
    && (ts.fromPort <= port <= ts.toPort || (ts.fromPort == 65535 && ts.toPort == 0))
  }

  /** The packet is one of those a pair of selectors and a protocol, or zero for any, are for. */
  predicate Selected(src: Selector, dst: Selector, protocol: Byte, packet: IpPacket) {
    && Covers(src, packet.src, packet.ports.sport) && Covers(dst, packet.dst, packet.ports.dport)
    && (protocol == 0 || packet.nextHeader == protocol)
  }

  /** A policy applies if and only if its direction is the one asked for, its selectors cover source and destination
      with their ports, and protocol and reqid are the right ones or zero. */
  lemma AppliesExactly(p: Policy, packet: IpPacket, inbound: bool, reqid: U32)
    ensures Applies(p, packet, inbound, reqid) <==>
            && inbound == p.direction.In? && Selected(p.srcTs, p.dstTs, p.protocol, packet)
            && (reqid == 0 || p.reqid == reqid)
  {
    if |packet.src| == |p.srcTs.from| {
      NotAboveByValue(p.srcTs.from, packet.src);
      NotAboveByValue(packet.src, p.srcTs.to);
    }
    if |packet.dst| == |p.dstTs.from| {
      NotAboveByValue(p.dstTs.from, packet.dst);
      NotAboveByValue(packet.dst, p.dstTs.to);
    }
  }

  // ---- the list ----

  /** `serial` counts the adds, so that newer entries carry larger ones. */
  datatype Entry = Entry(priority: U32, policy: Policy, serial: nat)

  /** Sorted by priority, newest first among equals. */
  ghost predicate Sorted(list: seq<Entry>) {
    forall i, j | 0 <= i < j < |list| :: Before(list[i], list[j])
  }

  predicate Before(a: Entry, b: Entry) {
    a.priority < b.priority || (a.priority == b.priority && a.serial > b.serial)
  }

  ghost predicate SerialsBelow(list: seq<Entry>, n: nat) {
    forall i | 0 <= i < |list| :: list[i].serial < n
  }

  /** The place of the first entry whose priority is not below p. */
  function Place(list: seq<Entry>, p: U32): (k: nat)
    ensures k <= |list|
  {
    if list == [] || list[0].priority >= p then 0 else 1 + Place(list[1..], p)
  }

  function Inserted(list: seq<Entry>, e: Entry): seq<Entry> {
    list[..Place(list, e.priority)] + [e] + list[Place(list, e.priority)..]
  }

  predicate Hit(e: Entry, r: Request) {
    e.priority == Priority(r.class_, r.srcTs, r.dstTs) && Matches(e.policy, r)
  }

  /** The place of the first entry a delete request hits, or the length of the list. */
  function HitPlace(list: seq<Entry>, r: Request): (k: nat)
    ensures k <= |list|
  {
    if list == [] || Hit(list[0], r) then 0 else 1 + HitPlace(list[1..], r)
  }

  function Removed(list: seq<Entry>, r: Request): seq<Entry> {
    var k := HitPlace(list, r);
    if k < |list| then list[..k] + list[k + 1..] else list
  }

  datatype Db = Db(list: seq<Entry>, next: nat)

  function NewEntry(db: Db, r: Request): Entry {
    Entry(Priority(r.class_, r.srcTs, r.dstTs), MakePolicy(r), db.next)
  }

  function Added(db: Db, r: Request): Db {
    if Ignored(r) || !Supported(r) then db else Db(Inserted(db.list, NewEntry(db, r)), db.next + 1)
  }

  function Deleted(db: Db, r: Request): Db {
    if Ignored(r) then db else db.(list := Removed(db.list, r))
  }

  /** The first policy that applies. */
  function Found(list: seq<Entry>, packet: IpPacket, inbound: bool, reqid: U32): Option<Policy> {
    if list == [] then None
    else if Applies(list[0].policy, packet, inbound, reqid) then Some(list[0].policy)
    else Found(list[1..], packet, inbound, reqid)
  }

  class PolicyManager {
    var policies: seq<Entry>
    var serial: nat

    function View(): Db
      reads this
    {
      Db(policies, serial)
    }

    ghost predicate Valid()
      reads this
    {
      Sorted(policies) && SerialsBelow(policies, serial)
    }

    constructor ()
      ensures Valid() && View() == Db([], 0)
    {
      policies := [];
      serial := 0;
    }

    /** The loop of add_policy: in front of the first entry of no lower value. */
    method FindPlace(priority: U32) returns (i: nat)
      ensures i == Place(policies, priority)
    {
      i := 0;
      while i < |policies|
        invariant i <= |policies| && Place(policies, priority) == i + Place(policies[i..], priority)
      {
        if policies[i].priority >= priority {
          break;
        }
        assert policies[i..][1..] == policies[i + 1..];
        i := i + 1;
      }
    }

    method AddPolicy(r: Request) returns (ok: bool)
      requires Valid()
      modifies this
      ensures Valid() && View() == Added(old(View()), r) && ok == (Ignored(r) || Supported(r))
    {
      if !r.isIpsec || r.direction == Fwd {
        return true;
      }
      if !r.useEsp || r.ipcomp || !r.tunnel {
        return false;
      }
      var entry := NewEntry(View(), r);
      var i := FindPlace(entry.priority);
      InsertKeepsSorted(policies, entry);
      policies := policies[..i] + [entry] + policies[i..];
      serial := serial + 1;
      return true;
    }

    /** The loop of del_policy: the first entry with the priority and the arguments, or the end of the list. */
    method FindHit(r: Request) returns (i: nat)
      ensures i == HitPlace(policies, r)
    {
      var priority := Priority(r.class_, r.srcTs, r.dstTs);
      i := 0;
      while i < |policies|
        invariant i <= |policies| && HitPlace(policies, r) == i + HitPlace(policies[i..], r)
      {
        if policies[i].priority == priority && Matches(policies[i].policy, r) {
          break;
        }
        assert policies[i..][1..] == policies[i + 1..];
        i := i + 1;
      }
    }

    method DelPolicy(r: Request) returns (ok: bool)
      requires Valid()
      modifies this
      ensures Valid() && View() == Deleted(old(View()), r)
      ensures ok == (Ignored(r) || exists i | 0 <= i < |old(policies)| :: Hit(old(policies)[i], r))
    {
      if !r.isIpsec || r.direction == Fwd {
        return true;
      }
      var i := FindHit(r);
      HitPlaceHits(policies, r);
      RemoveKeepsSorted(policies, r, serial);
      if i == |policies| {
        return false;
      }
      policies := policies[..i] + policies[i + 1..];
      return true;
    }

    method FlushPolicies()
      modifies this
      ensures Valid() && View() == Db([], old(serial))
    {
      while policies != []
        invariant serial == old(serial)
        decreases |policies|
      {
        policies := policies[..|policies| - 1];
      }
    }

    /** find_by_packet: the matching policy of least numeric priority, the newest among equals. */
    method FindByPacket(packet: IpPacket, inbound: bool, reqid: U32) returns (r: Option<Policy>)
      requires Valid()
      ensures r.None? <==> forall i | 0 <= i < |policies| :: !Applies(policies[i].policy, packet, inbound, reqid)
      ensures r.Some? ==> exists b | 0 <= b < |policies| ::
                && policies[b].policy == r.value && Applies(r.value, packet, inbound, reqid)
                && forall i | 0 <= i < |policies| && i != b && Applies(policies[i].policy, packet, inbound, reqid) ::
                     Before(policies[b], policies[i])
      ensures r == Found(policies, packet, inbound, reqid)
    {
      var i := 0;
      while i < |policies|
        invariant i <= |policies| && Found(policies[i..], packet, inbound, reqid)
                                     == Found(policies, packet, inbound, reqid)
        invariant forall k | 0 <= k < i :: !Applies(policies[k].policy, packet, inbound, reqid)
      {
        var policy := policies[i].policy;
        if inbound == (policy.direction == In) && MatchPacket(policy, packet) {
          if reqid == 0 || reqid == policy.reqid {
            assert policies[i].policy == policy;
            return Some(policy);
          }
        }
        assert policies[i..][1..] == policies[i + 1..];
        i := i + 1;
      }
      return None;
    }
  }

  // ---- what the operations keep ----

  lemma {:induction false} PlaceSplits(list: seq<Entry>, p: U32)
    ensures forall i | 0 <= i < Place(list, p) :: list[i].priority < p
    ensures Place(list, p) < |list| ==> list[Place(list, p)].priority >= p
  {
    if list != [] && list[0].priority < p { PlaceSplits(list[1..], p); }
  }

  lemma InsertKeepsSorted(list: seq<Entry>, e: Entry)
    requires Sorted(list) && SerialsBelow(list, e.serial)
    ensures Sorted(Inserted(list, e)) && SerialsBelow(Inserted(list, e), e.serial + 1)
  {
    var k := Place(list, e.priority);
    PlaceSplits(list, e.priority);
    forall i | k <= i < |list| ensures Before(e, list[i]) {
      if i > k { assert Before(list[k], list[i]); }
    }
  }

  lemma RemoveKeepsSorted(list: seq<Entry>, r: Request, n: nat)
    requires Sorted(list) && SerialsBelow(list, n)
    ensures Sorted(Removed(list, r)) && SerialsBelow(Removed(list, r), n)
  {
  }

  datatype Op = Add(r: Request) | Del(r: Request) | Flush

  function Performed(db: Db, op: Op): Db {
    match op
    case Add(r) => Added(db, r)
    case Del(r) => Deleted(db, r)
    case Flush => db.(list := [])
  }

  function PerformedAll(db: Db, ops: seq<Op>): Db
    decreases |ops|
  {
    if ops == [] then db else PerformedAll(Performed(db, ops[0]), ops[1..])
  }

  /** After any sequence of adds, deletes and flushes the list is sorted, newest first among equals. */
  lemma {:induction false} AlwaysSorted(db: Db, ops: seq<Op>)
    requires Sorted(db.list) && SerialsBelow(db.list, db.next)
    ensures Sorted(PerformedAll(db, ops).list) && SerialsBelow(PerformedAll(db, ops).list, PerformedAll(db, ops).next)
    decreases |ops|
  {
    if ops != [] {
      var db1 := Performed(db, ops[0]);
      match ops[0] {
        case Add(r) => InsertKeepsSorted(db.list, NewEntry(db, r));
        case Del(r) => RemoveKeepsSorted(db.list, r, db.next);
        case Flush =>
      }
      AlwaysSorted(db1, ops[1..]);
    }
  }

  lemma {:induction false} FirstHit(list: seq<Entry>, r: Request, k: nat)
    requires k < |list| && Hit(list[k], r) && forall i | 0 <= i < k :: !Hit(list[i], r)
    ensures HitPlace(list, r) == k
  {
    if k > 0 { FirstHit(list[1..], r, k - 1); }
  }

  lemma {:induction false} HitPlaceHits(list: seq<Entry>, r: Request)
    ensures HitPlace(list, r) < |list| <==> exists i | 0 <= i < |list| :: Hit(list[i], r)
  {
    if list != [] && !Hit(list[0], r) {
      HitPlaceHits(list[1..], r);
      if HitPlace(list[1..], r) < |list[1..]| {
        var i :| 0 <= i < |list[1..]| && Hit(list[1..][i], r);
        assert Hit(list[i + 1], r);
      } else {
        assert forall i | 0 < i < |list| :: list[i] == list[1..][i - 1];
      }
    }
  }

  /** An add followed by a delete with the same arguments restores the list exactly, if and only if the add did not
      fail or nothing installed matches the request: a delete after a failed add takes away an older match. */
  lemma DeleteUndoesAdd(db: Db, r: Request)
    ensures Deleted(Added(db, r), r).list == db.list
            <==> Ignored(r) || Supported(r) || forall i | 0 <= i < |db.list| :: !Hit(db.list[i], r)
  {
    if !Ignored(r) {
      if Supported(r) {
        var e := NewEntry(db, r);
        var k := Place(db.list, e.priority);
        var list := Inserted(db.list, e);
        PlaceSplits(db.list, e.priority);
        assert list[k] == e && Hit(e, r);
        FirstHit(list, r, k);
        assert list[..k] == db.list[..k] && list[k + 1..] == db.list[k..];
      } else {
        HitPlaceHits(db.list, r);
      }
    }
  }

  lemma {:induction false} FoundIn(a: seq<Entry>, b: seq<Entry>, packet: IpPacket, inbound: bool, reqid: U32)
    ensures Found(a + b, packet, inbound, reqid)
            == if exists i | 0 <= i < |a| :: Applies(a[i].policy, packet, inbound, reqid)
               then Found(a, packet, inbound, reqid) else Found(b, packet, inbound, reqid)
  {
    if a == [] {
      assert a + b == b;
    } else {
      assert (a + b)[1..] == a[1..] + b;
      FoundIn(a[1..], b, packet, inbound, reqid);
      if !Applies(a[0].policy, packet, inbound, reqid) {
        if i: nat :| 0 < i < |a| && Applies(a[i].policy, packet, inbound, reqid) {
          assert a[1..][i - 1] == a[i];
        }
      }
    }
  }

  /** A policy that is added is found for exactly the packets its request selects, unless an older one of smaller value
      applies; for any other packet what is found is what was found before. */
  lemma AddedIsFound(db: Db, r: Request, packet: IpPacket, inbound: bool, reqid: U32)
    requires !Ignored(r) && Supported(r) && Sorted(db.list)
    ensures var now, was := Found(Added(db, r).list, packet, inbound, reqid), Found(db.list, packet, inbound, reqid);
            if || inbound != r.direction.In? || (reqid != 0 && reqid != r.reqid)
               || !Selected(r.srcTs, r.dstTs, MaxOf(r.srcTs.protocol, r.dstTs.protocol), packet)
               || Outranked(db.list, r, packet, inbound, reqid)
            then now == was
            else now.Some? && now.value.srcTs == r.srcTs && now.value.dstTs == r.dstTs && now.value.mark == r.mark
                 && now.value.reqid == r.reqid && now.value.direction == r.direction && now.value.class_ == r.class_
  {
    var e := NewEntry(db, r);
    var k := Place(db.list, e.priority);
    var a, b := db.list[..k], db.list[k..];
    PlaceSplits(db.list, e.priority);
    AppliesExactly(e.policy, packet, inbound, reqid);
    Assembled(a, e, b);
    assert db.list == a + b;
    FoundIn(a, b, packet, inbound, reqid);
    FoundIn(a, [e] + b, packet, inbound, reqid);
    OutrankedInFront(db.list, r, packet, inbound, reqid, k);
  }

  /** Forward policies, those that are not for IPsec, and those for anything but ESP in tunnel mode without compression
      are not installed; the first two are not deleted either. */
  lemma NotInstalled(db: Db, r: Request)
    ensures Added(db, r) == db <==> r.direction.Fwd? || !r.isIpsec || !r.useEsp || r.ipcomp || !r.tunnel
    ensures r.direction.Fwd? || !r.isIpsec ==> Deleted(db, r) == db
  {
  }

  lemma Assembled(a: seq<Entry>, e: Entry, b: seq<Entry>)
    ensures a + [e] + b == a + ([e] + b) && ([e] + b)[1..] == b
  {
  }

  /** An installed policy of smaller value applies. */
  ghost predicate Outranked(list: seq<Entry>, r: Request, packet: IpPacket, inbound: bool, reqid: U32) {
    exists i | 0 <= i < |list| ::
      list[i].priority < Priority(r.class_, r.srcTs, r.dstTs) && Applies(list[i].policy, packet, inbound, reqid)
  }

  lemma OutrankedInFront(list: seq<Entry>, r: Request, packet: IpPacket, inbound: bool, reqid: U32, k: nat)
    requires Sorted(list) && k == Place(list, Priority(r.class_, r.srcTs, r.dstTs))
    ensures Outranked(list, r, packet, inbound, reqid)
            <==> exists i | 0 <= i < k :: Applies(list[..k][i].policy, packet, inbound, reqid)
  {
    PlaceSplits(list, Priority(r.class_, r.srcTs, r.dstTs));
    if i: nat :| i < |list| && list[i].priority < Priority(r.class_, r.srcTs, r.dstTs)
                 && Applies(list[i].policy, packet, inbound, reqid)
    {
      assert list[..k][i] == list[i];
    }
  }

  ghost predicate Each(list: seq<Entry>, ok: Entry -> bool) {
    forall i | 0 <= i < |list| :: ok(list[i])
  }

  /** What holds of every new entry holds of every entry. */
  lemma {:induction false} AlwaysEach(db: Db, ops: seq<Op>, ok: Entry -> bool)
    requires Each(db.list, ok) && forall d: Db, r: Request :: ok(NewEntry(d, r))
    ensures Each(PerformedAll(db, ops).list, ok)
    decreases |ops|
  {
    if ops != [] {
      AlwaysEach(Performed(db, ops[0]), ops[1..], ok);
    }
  }

  /** The value of an entry is that of its own policy. */
  predicate Priced(e: Entry) {
    e.priority == Priority(e.policy.class_, e.policy.srcTs, e.policy.dstTs)
  }

  lemma HitIsSame(e: Entry, r: Request)
    requires Priced(e)
    ensures Hit(e, r) <==> SameAs(e.policy, r)
  {
  }

  /** Everything a request names is the same in the policy. */
  predicate SameAs(p: Policy, r: Request) {
    p == Policy(r.srcTs, r.dstTs, p.protocol, r.direction, r.reqid, r.mark, r.class_)
  }

  /** Over any adds, deletes and flushes: a delete takes away one policy that is the same in everything the request
      names, if there is one, and leaves all others as they were. */
  lemma DeletesTheSame(ops: seq<Op>, r: Request)
    requires !Ignored(r)
    ensures var list, left := PerformedAll(Db([], 0), ops).list, Deleted(PerformedAll(Db([], 0), ops), r).list;
            if exists i | 0 <= i < |list| :: SameAs(list[i].policy, r)
            then exists k | 0 <= k < |list| :: SameAs(list[k].policy, r) && left == list[..k] + list[k + 1..]
            else left == list
  {
    AlwaysEach(Db([], 0), ops, Priced);
    DeletesOne(PerformedAll(Db([], 0), ops), r);
  }

  lemma DeletesOne(db: Db, r: Request)
    requires !Ignored(r) && Each(db.list, Priced)
    ensures var list, left := db.list, Deleted(db, r).list;
            if exists i | 0 <= i < |list| :: SameAs(list[i].policy, r)
            then exists k | 0 <= k < |list| :: SameAs(list[k].policy, r) && left == list[..k] + list[k + 1..]
            else left == list
  {
    var list := db.list;
    HitPlaceHits(list, r);
    if HitPlace(list, r) < |list| {
      AtHitPlace(list, r);
      HitIsSame(list[HitPlace(list, r)], r);
    }
    if i: nat :| i < |list| && SameAs(list[i].policy, r) {
      HitIsSame(list[i], r);
    }
  }

  lemma {:induction false} AtHitPlace(list: seq<Entry>, r: Request)
    requires HitPlace(list, r) < |list|
    ensures Hit(list[HitPlace(list, r)], r)
  {
    if list != [] && !Hit(list[0], r) { AtHitPlace(list[1..], r); }
  }
}
