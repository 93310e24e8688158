/** What was built as an IP packet is parsed as what it was built from. */
module IpReadBack {
  import opened Bytes
  import opened Words
  import opened IpPackets

  // ---- IPv4 ----

  /** A header of 20 to 60 bytes in front of n bytes, with the lengths of section 3.1 of RFC 791: the first in words of
      four bytes, the other the total. */
  predicate V4Header(head: seq<Byte>, n: nat) {
    |head| >= 20 && head[0] / 16 == 4 && |head| == 4 * (head[0] % 16) && GetU16(head, 2) == |head| + n
  }

  /** The lower 13 bits of the third word: not the start of what was fragmented. */
  predicate LaterFragment(head: seq<Byte>)
    requires |head| >= 20
  {
    GetU16(head, 6) % 0x2000 != 0
  }

  /** The whole packet a header, its ports and its payload make. */
  function V4Packet(head: seq<Byte>, body: seq<Byte>, ports: Ports): IpPacket
    requires |head| >= 20
  {
    IpPacket(4, head[12..16], head[16..20], ports, head + body, body, head[9])
  }

  lemma V4Parts(head: seq<Byte>, body: seq<Byte>, pad: seq<Byte>)
    requires V4Header(head, |body|)
    ensures var raw := head + body + pad;
            && |raw| >= 20 && raw[..20] == head[..20] && raw[12..16] == head[12..16] && raw[16..20] == head[16..20]
            && Trimmed(raw) == head + body && Skip(head + body, |head|) == body
  {
    var raw := head + body + pad;
    assert forall i | 0 <= i < 20 :: raw[i] == head[i];
    assert raw[..|head| + |body|] == head + body;
  }

  lemma OffsetInBytes(head: seq<Byte>)
    requires |head| >= 20
    ensures LaterFragment(head) <==> !(head[6] % 32 == 0 && head[7] == 0)
  {
  }

  /** Addresses, payload, protocol and ports of a packet are the ones it was built from, whatever padding follows it.
      Ports are read from UDP (17) and TCP (6), not from a later fragment; a packet whose transport header is cut
      short is refused. */
  lemma ReadBackV4(head: seq<Byte>, body: seq<Byte>, pad: seq<Byte>)
    requires V4Header(head, |body|)
    ensures var p := Parse(head + body + pad);
            if LaterFragment(head) || (head[9] != 17 && head[9] != 6) then p == Some(V4Packet(head, body, Ports(0, 0)))
            else if |body| < (if head[9] == 17 then 8 else 20) then p == None
            else p == Some(V4Packet(head, body, Ports(GetU16(body, 0), GetU16(body, 2))))
  {
    V4Parts(head, body, pad);
    OffsetInBytes(head);
    var raw := head + body + pad;
    assert forall i | 0 <= i < 20 :: raw[i] == raw[..20][i] && head[i] == head[..20][i];
  }

  // ---- IPv6 ----

  /** An extension header: one that gives its length in units of eight bytes behind the first eight, or a fragment
      header of eight bytes (sections 4.3 to 4.6 of RFC 8200). */
  datatype Extension = Sized(kind: Byte, content: seq<Byte>) | Fragment(reserved: Byte, content: seq<Byte>)

  predicate Proper(x: Extension) {
    match x
    case Sized(kind, content) => kind in {0, 43, 60, 135, 139, 140} && |content| % 8 == 6 && |content| < 2048
    case Fragment(_, content) => |content| == 6
  }

  function Kind(x: Extension): Byte {
    if x.Fragment? then 44 else x.kind
  }

  function EncodeExtension(x: Extension, next: Byte): (b: seq<Byte>)
    requires Proper(x)
    ensures |b| == 2 + |x.content|
  {
    match x
    case Sized(_, content) => [next, (|content| - 6) / 8] + content
    case Fragment(reserved, content) => [next, reserved] + content
  }

  predicate AllProper(xs: seq<Extension>) {
    forall x <- xs :: Proper(x)
  }

  /** The type of what comes first. */
  function Leading(xs: seq<Extension>, proto: Byte): Byte {
    if xs == [] then proto else Kind(xs[0])
  }

  /** Each header names the type of the one behind it. */
  function EncodeChain(xs: seq<Extension>, proto: Byte): seq<Byte>
    requires AllProper(xs)
  {
    if xs == [] then [] else EncodeExtension(xs[0], Leading(xs[1..], proto)) + EncodeChain(xs[1..], proto)
  }

  /** One of them says that the packet is a fragment. */
  predicate Fragmented(xs: seq<Extension>) {
    exists x <- xs :: x.Fragment?
  }

  predicate UpperLayer(proto: Byte) {
    proto !in {0, 43, 44, 60, 135, 139, 140}
  }

  /** The length byte counts the content. */
  lemma CountsEights(n: nat)
    requires n % 8 == 6
    ensures 8 * ((n - 6) / 8 + 1) == n + 2
  {
  }

  lemma StepBy(x: Extension, next: Byte, rest: seq<Byte>)
    requires Proper(x)
    ensures var b := EncodeExtension(x, next) + rest;
            && |b| >= 2 && b[0] == next && SkipBy(Kind(x), b) == 2 + |x.content| && Skip(b, 2 + |x.content|) == rest
  {
    var b := EncodeExtension(x, next) + rest;
    if x.Sized? {
      CountsEights(|x.content|);
      assert b[1] == (|x.content| - 6) / 8;
    }
  }

  lemma StepOver(x: Extension, next: Byte, rest: seq<Byte>, fragment: bool)
    requires Proper(x)
    ensures WalkV6(Kind(x), EncodeExtension(x, next) + rest, fragment) == WalkV6(next, rest, fragment || x.Fragment?)
  {
    StepBy(x, next, rest);
    WalkOn(Kind(x), EncodeExtension(x, next) + rest, fragment);
  }

  /** The walk steps over any chain of extension headers and ends at what is behind them. */
  lemma {:induction false} WalkChain(xs: seq<Extension>, proto: Byte, body: seq<Byte>, fragment: bool)
    requires AllProper(xs)
    ensures WalkV6(Leading(xs, proto), EncodeChain(xs, proto) + body, fragment)
            == WalkV6(proto, body, fragment || Fragmented(xs))
    decreases |xs|
  {
    if xs == [] {
      assert [] + body == body;
    } else {
      var next, rest := Leading(xs[1..], proto), EncodeChain(xs[1..], proto);
      Assoc(EncodeExtension(xs[0], next), rest, body);
      StepOver(xs[0], next, rest + body, fragment);
      WalkChain(xs[1..], proto, body, fragment || xs[0].Fragment?);
      assert xs == [xs[0]] + xs[1..];
      assert Fragmented(xs) <==> xs[0].Fragment? || Fragmented(xs[1..]);
    }
  }

  /** A base header of 40 bytes in front of n bytes of the given type. */
  predicate V6Header(head: seq<Byte>, n: nat, leading: Byte) {
    |head| == 40 && head[0] / 16 == 6 && GetU16(head, 4) == n && head[6] == leading
  }

  function V6Packet(head: seq<Byte>, chain: seq<Byte>, body: seq<Byte>, proto: Byte, ports: Ports): IpPacket
    requires |head| == 40
  {
    IpPacket(6, head[8..24], head[24..40], ports, head + chain + body, body, proto)
  }

  lemma V6Parts(head: seq<Byte>, rest: seq<Byte>, pad: seq<Byte>)
    requires |head| == 40 && head[0] / 16 == 6 && GetU16(head, 4) == |rest|
    ensures var raw := head + rest + pad;
            && |raw| >= 40 && raw[..40] == head && raw[8..24] == head[8..24] && raw[24..40] == head[24..40]
            && Trimmed(raw) == head + rest && Skip(head + rest, 40) == rest
  {
    var raw := head + rest + pad;
    assert forall i | 0 <= i < 40 :: raw[i] == head[i];
    assert raw[..40 + |rest|] == head + rest;
  }

  /** The same for IPv6, behind any chain of extension headers. Ports are not read from a fragment, nor from less than
      two bytes, which are no longer looked at. */
  lemma ReadBackV6(head: seq<Byte>, xs: seq<Extension>, proto: Byte, body: seq<Byte>, pad: seq<Byte>)
    requires AllProper(xs) && UpperLayer(proto)
    requires V6Header(head, |EncodeChain(xs, proto)| + |body|, Leading(xs, proto))
    ensures var chain := EncodeChain(xs, proto);
            var p := Parse(head + chain + body + pad);
            if Fragmented(xs) || |body| < 2 || (proto != 17 && proto != 6) then
              p == Some(V6Packet(head, chain, body, proto, Ports(0, 0)))
            else if |body| < (if proto == 17 then 8 else 20) then p == None
            else p == Some(V6Packet(head, chain, body, proto, Ports(GetU16(body, 0), GetU16(body, 2))))
  {
    var chain := EncodeChain(xs, proto);
    Assoc(head, chain, body);
    V6Parts(head, chain + body, pad);
    WalkChain(xs, proto, body, false);
    var raw := head + chain + body + pad;
    assert forall i | 0 <= i < 40 :: raw[i] == raw[..40][i];
  }
}
