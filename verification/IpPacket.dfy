/** Parsing of inner IP packets (ip_packet.c): trimming to the length in the header and the walk over IPv6 extension
    headers. */
module IpPackets {
  import opened Bytes
  import opened Words

  const IPPROTO_TCP: Byte := 6
  const IPPROTO_UDP: Byte := 17

  datatype Ports = Ports(sport: U16, dport: U16)

  /** The parsed packet: addresses, the trimmed encoding, where the payload starts and what it is. */
  datatype IpPacket = IpPacket(version: Byte, src: seq<Byte>, dst: seq<Byte>, ports: Ports,
                               packet: seq<Byte>, payload: seq<Byte>, nextHeader: Byte)

  /** parse_transport_header. */
  function TransportPorts(payload: seq<Byte>, proto: Byte): Option<Ports> {
    if proto == IPPROTO_UDP then
      if |payload| < 8 then None else Some(Ports(GetU16(payload, 0), GetU16(payload, 2)))
    else if proto == IPPROTO_TCP then
      if |payload| < 20 then None else Some(Ports(GetU16(payload, 0), GetU16(payload, 2)))
    else Some(Ports(0, 0))
  }

  datatype Upper = Upper(proto: Byte, payload: seq<Byte>, ports: Ports)

  predicate IsExtension(proto: Byte) {
    proto == 0 || proto == 43 || proto == 60 || proto == 135 || proto == 139 || proto == 140
  }

  /** The extension-header walk as a recursion: what is reached, unless the transport header is cut short. */
  function WalkV6(proto: Byte, payload: seq<Byte>, fragment: bool): Option<Upper>
    decreases |payload|
  {
    if |payload| < 2 then Some(Upper(proto, payload, Ports(0, 0)))
    else if proto == 44 then WalkV6(payload[0], Skip(payload, 8), true)
    else if IsExtension(proto) then
      var len: int := payload[1];
      WalkV6(payload[0], Skip(payload, 8 * (len + 1)), fragment)
    else if fragment then Some(Upper(proto, payload, Ports(0, 0)))
    else
      var p := TransportPorts(payload, proto);
      if p.None? then None else Some(Upper(proto, payload, p.value))
  }

  /** An extension header is skipped by its length, a fragment header by 8 bytes. */
  function SkipBy(proto: Byte, payload: seq<Byte>): (n: nat)
    requires |payload| >= 2
    ensures n > 0
  {
    var len: int := payload[1];
    if proto == 44 then 8 else 8 * (len + 1)
  }

  lemma WalkOn(proto: Byte, payload: seq<Byte>, fragment: bool)
    requires |payload| >= 2 && (proto == 44 || IsExtension(proto))
    ensures WalkV6(proto, payload, fragment)
            == WalkV6(payload[0], Skip(payload, SkipBy(proto, payload)), fragment || proto == 44)
  {
  }

  /** parse_transport_header_v6. */
  method ParseTransportV6(packet: seq<Byte>) returns (r: Option<Upper>)
    requires |packet| >= 40
    ensures r == WalkV6(packet[6], Skip(packet, 40), false)
  {
    ghost var goal := WalkV6(packet[6], Skip(packet, 40), false);
    var fragment := false;
    var proto := packet[6];
    var payload := Skip(packet, 40);
    while |payload| >= 2
      invariant WalkV6(proto, payload, fragment) == goal
      decreases |payload|
    {
      if proto == 44 || IsExtension(proto) {
        WalkOn(proto, payload, fragment);
        var n := SkipBy(proto, payload);
        fragment := fragment || proto == 44;
        proto := payload[0];
        payload := Skip(payload, n);
        continue;
      }
      if fragment {
        return Some(Upper(proto, payload, Ports(0, 0)));
      }
      var p := TransportPorts(payload, proto);
      if p.None? {
        return None;
      }
      return Some(Upper(proto, payload, p.value));
    }
    return Some(Upper(proto, payload, Ports(0, 0)));
  }

  function BaseHeader(version: Byte): nat {
    if version == 4 then 20 else 40
  }

  /** What the header says the packet's length is. */
  function HeaderLength(packet: seq<Byte>): nat
    requires |packet| >= 6
  {
    if packet[0] / 16 == 4 then GetU16(packet, 2) else 40 + GetU16(packet, 4)
  }

  function Trimmed(packet: seq<Byte>): seq<Byte>
    requires |packet| >= 6
  {
    packet[..Min(|packet|, HeaderLength(packet))]
  }

  /** ip_packet_create. */
  function Parse(packet: seq<Byte>): Option<IpPacket> {
    if |packet| < 1 then None
    else
      var version := packet[0] / 16;
      if version == 4 then
        if |packet| < 20 then None
        else
          var trimmed := Trimmed(packet);
          var hl: int := packet[0] % 16;
          var payload := Skip(trimmed, hl * 4);
          var first := packet[6] % 32 == 0 && packet[7] == 0;
          var ports := if first then TransportPorts(payload, packet[9]) else Some(Ports(0, 0));
          if ports.None? then None
          else Some(IpPacket(4, packet[12..16], packet[16..20], ports.value, trimmed, payload, packet[9]))
      else if version == 6 then
        if |packet| < 40 then None
        else
          var trimmed := Trimmed(packet);
          var up := WalkV6(packet[6], Skip(trimmed, 40), false);
          if up.None? then None
          else
            var u := up.value;
            Some(IpPacket(6, packet[8..24], packet[24..40], u.ports, trimmed, u.payload, u.proto))
      else None
  }

  /** What a caller can rely on: the encoding is the front of the input that the header covers, the payload is the end
      of the encoding, addresses come from the header, and ports other than zero are those in front of a TCP or UDP
      payload. */
  predicate TakenFrom(p: IpPacket, raw: seq<Byte>) {
    && |raw| >= BaseHeader(p.version) && p.version == raw[0] / 16 && (p.version == 4 || p.version == 6)
    && p.packet == raw[..Min(|raw|, HeaderLength(raw))]
    && EndOf(p.payload, p.packet)
    && p.src == (if p.version == 4 then raw[12..16] else raw[8..24])
    && p.dst == (if p.version == 4 then raw[16..20] else raw[24..40])
    && (p.ports == Ports(0, 0) || PortsOf(p))
  }

  predicate PortsOf(p: IpPacket) {
    && (p.nextHeader == IPPROTO_UDP || p.nextHeader == IPPROTO_TCP)
    && |p.payload| >= (if p.nextHeader == IPPROTO_UDP then 8 else 20)
    && p.ports == Ports(GetU16(p.payload, 0), GetU16(p.payload, 2))
  }

  predicate EndOf(e: seq<Byte>, s: seq<Byte>) {
    |e| <= |s| && e == s[|s| - |e|..]
  }

  lemma EndBehindSkip(e: seq<Byte>, s: seq<Byte>, n: nat)
    requires EndOf(e, Skip(s, n))
    ensures EndOf(e, s)
  {
  }

  /** The walk ends at a payload that is the end of the one it started with, and reads ports only from TCP or UDP. */
  lemma {:induction false} WalkEnds(proto: Byte, payload: seq<Byte>, fragment: bool)
    requires WalkV6(proto, payload, fragment).Some?
    ensures var up := WalkV6(proto, payload, fragment).value;
            && EndOf(up.payload, payload)
            && (up.ports == Ports(0, 0) || TransportPorts(up.payload, up.proto) == Some(up.ports))
    decreases |payload|
  {
    if |payload| >= 2 && (proto == 44 || IsExtension(proto)) {
      var n := SkipBy(proto, payload);
      WalkOn(proto, payload, fragment);
      var up := WalkV6(payload[0], Skip(payload, n), fragment || proto == 44);
      WalkEnds(payload[0], Skip(payload, n), fragment || proto == 44);
      EndBehindSkip(up.value.payload, payload, n);
    }
  }

  /** The IPv4 branch of ip_packet_create. */
  method CreateV4(packet: seq<Byte>) returns (r: Option<IpPacket>)
    requires |packet| >= 1 && packet[0] / 16 == 4
    ensures r == Parse(packet) && (r.Some? ==> TakenFrom(r.value, packet))
  {
    if |packet| < 20 {
      return None;
    }
    var trimmed := packet[..Min(|packet|, GetU16(packet, 2))];
    var words: int := packet[0] % 16;
    var payload := Skip(trimmed, words * 4);
    var ports := Ports(0, 0);
    if packet[6] % 32 == 0 && packet[7] == 0 {
      var found := TransportPorts(payload, packet[9]);
      if found.None? {
        return None;
      }
      ports := found.value;
    }
    return Some(IpPacket(4, packet[12..16], packet[16..20], ports, trimmed, payload, packet[9]));
  }

  /** The IPv6 branch. */
  method CreateV6(packet: seq<Byte>) returns (r: Option<IpPacket>)
    requires |packet| >= 1 && packet[0] / 16 == 6
    ensures r == Parse(packet) && (r.Some? ==> TakenFrom(r.value, packet))
  {
    if |packet| < 40 {
      return None;
    }
    var trimmed := packet[..Min(|packet|, 40 + GetU16(packet, 4))];
    var up := ParseTransportV6(trimmed);
    if up.None? {
      return None;
    }
    WalkEnds(packet[6], Skip(trimmed, 40), false);
    EndBehindSkip(up.value.payload, trimmed, 40);
    var u := up.value;
    return Some(IpPacket(6, packet[8..24], packet[24..40], u.ports, trimmed, u.payload, u.proto));
  }

  /** ip_packet_create: the rule of the version decides, and what is accepted is taken from the input. */
  method Create(packet: seq<Byte>) returns (r: Option<IpPacket>)
    ensures r.Some? ==> TakenFrom(r.value, packet)
    ensures r == Parse(packet)
  {
    if |packet| < 1 {
      return None;
    }
    var version := packet[0] / 16;
    if version == 4 {
      r := CreateV4(packet);
    } else if version == 6 {
      r := CreateV6(packet);
    } else {
      r := None;
    }
  }

  /** The encoding of a parsed packet is the part of the input the header covers; anything behind it,
      such as traffic flow confidentiality padding, is cut off. */
  lemma ParseTrims(raw: seq<Byte>)
    requires Parse(raw).Some?
    ensures |raw| >= 20 && Parse(raw).value.packet == raw[..Min(|raw|, HeaderLength(raw))]
    ensures Parse(raw).value.version == 4 || Parse(raw).value.version == 6
    ensures Parse(raw).value.version == raw[0] / 16
    ensures Parse(raw).value.version == 6 ==> |Parse(raw).value.packet| >= 40
  {
  }

  lemma TrimmedIsStable(raw: seq<Byte>)
    requires |raw| >= 20 && (raw[0] / 16 == 4 || (raw[0] / 16 == 6 && |raw| >= 40))
    requires |Trimmed(raw)| >= BaseHeader(raw[0] / 16)
    ensures Trimmed(Trimmed(raw)) == Trimmed(raw) && HeaderLength(Trimmed(raw)) == HeaderLength(raw)
  {
  }

  /** Parsing an already trimmed packet gives the same packet, if and only if its header did not claim a
      length shorter than the base header itself. */
  lemma ReparseSame(raw: seq<Byte>)
    requires Parse(raw).Some?
    ensures var p := Parse(raw).value; Parse(p.packet) == Some(p) <==> |p.packet| >= BaseHeader(p.version)
  {
    ParseTrims(raw);
    var p := Parse(raw).value;
    if |p.packet| >= BaseHeader(p.version) {
      TrimmedIsStable(raw);
      assert forall i | 0 <= i < |p.packet| :: p.packet[i] == raw[i];
      assert p.src == if p.version == 4 then p.packet[12..16] else p.packet[8..24];
      assert p.dst == if p.version == 4 then p.packet[16..20] else p.packet[24..40];
    } else if |p.packet| >= 1 {
      assert p.packet[0] == raw[0];
    }
  }

  /** An IPv4 header with a zero total length parses, but what it leaves cannot be parsed again. */
  lemma ReparseCanFail()
    ensures exists raw: seq<Byte> :: Parse(raw).Some? && Parse(Parse(raw).value.packet).None?
  {
    var raw: seq<Byte> := [0x45] + Zeros(19);
    assert GetU16(raw, 2) == 0;
    assert Trimmed(raw) == [];
    assert Parse(raw).Some?;
  }
}
