/** ESP encapsulation and decapsulation (esp_packet.c). */
module EspPackets {
  import opened Bytes
  import opened Words
  import opened IpPackets
  import W = ReplayWindow

  const IPPROTO_IPIP: Byte := 4
  const IPPROTO_IPV6: Byte := 41
  const IPPROTO_NONE: Byte := 59

  datatype Status = Success | Failed | ParseError | VerifyError | NotFound

  /** An AEAD transform with its key: sizes and the two directions on (associated data, IV, text); the text a
      sealed message consists of is the ciphertext followed by the ICV. */
  datatype Aead = Aead(block: nat, ivLen: nat, icvLen: nat,
                       seal: (seq<Byte>, seq<Byte>, seq<Byte>) -> Option<seq<Byte>>,
                       open: (seq<Byte>, seq<Byte>, seq<Byte>) -> Option<seq<Byte>>)

  ghost predicate Correct(a: Aead) {
    && a.block > 0
    && forall aad: seq<Byte>, iv: seq<Byte>, p: seq<Byte> | a.seal(aad, iv, p).Some? ::
         |a.seal(aad, iv, p).value| == |p| + a.icvLen && a.open(aad, iv, a.seal(aad, iv, p).value) == Some(p)
  }

  /** The IV generator of the transform: an IV of the right length for a sequence number, or a failure. */
  type IvGen = U32 -> Option<seq<Byte>>

  ghost predicate IvsFit(a: Aead, gen: IvGen) {
    forall n: U32 | gen(n).Some? :: |gen(n).value| == a.ivLen
  }

  // ---- padding ----

  /** Padding bytes 1, 2, 3, ... as section 2.4 of RFC 4303 defines them. */
  function PadBytes(n: nat): (p: seq<Byte>)
    ensures |p| == n
  {
    seq(n, i requires 0 <= i => (i + 1) % 256)
  }

  method GeneratePadding(padding: array<Byte>)
    modifies padding
    ensures padding[..] == PadBytes(padding.Length)
  {
    var i := 0;
    while i < padding.Length
      invariant i <= padding.Length && padding[..i] == PadBytes(padding.Length)[..i]
    {
      padding[i] := (i + 1) % 256;
      i := i + 1;
    }
  }

  method CheckPadding(padding: seq<Byte>) returns (ok: bool)
    ensures ok <==> padding == PadBytes(|padding|)
  {
    var i := 0;
    while i < |padding|
      invariant i <= |padding| && padding[..i] == PadBytes(|padding|)[..i]
    {
      if padding[i] != (i + 1) % 256 {
        assert padding[i] != PadBytes(|padding|)[i];
        return false;
      }
      i := i + 1;
    }
    return true;
  }

  /** How much padding encrypt adds: up to the block size, then on to a 4-byte boundary. */
  function PadLength(payloadLen: nat, block: nat, ivLen: nat): nat
    requires block > 0
  {
    var p := PadLen(payloadLen + 2, block);
    p + PadLen(ivLen + payloadLen + 2 + p, 4)
  }

  function Plaintext(payload: seq<Byte>, block: nat, ivLen: nat, nextHeader: Byte): seq<Byte>
    requires block > 0
  {
    var n := PadLength(|payload|, block, ivLen);
    payload + PadBytes(n) + [n % 256, nextHeader]
  }

  datatype Inner = Inner(packet: IpPacket, nextHeader: Byte)

  /** What remove_padding strips off the end of a plaintext, before the payload is looked at. */
  function Unpadded(plain: seq<Byte>): Option<seq<Byte>> {
    if |plain| < 2 then None
    else
      var n: int := plain[|plain| - 2];
      if |plain| - 2 < n then None
      else if plain[|plain| - 2 - n..|plain| - 2] != PadBytes(n) then None
      else Some(plain[..|plain| - 2 - n])
  }

  function RemovePadding(plain: seq<Byte>): Option<Inner> {
    var u := Unpadded(plain);
    if u.None? then None
    else
      var p := Parse(u.value);
      if p.None? then None else Some(Inner(p.value, plain[|plain| - 1]))
  }

  // ---- one packet out ----

  datatype Sent = Sent(status: Status, last: U32, data: seq<Byte>)

  /** encrypt as a function of the context's last number: what number is used up and what is sent. */
  function Encrypted(a: Aead, gen: Option<IvGen>, last: U32, spi: U32, payload: seq<Byte>, nextHeader: Byte): Sent
    requires a.block > 0
  {
    if last == UINT32_MAX then Sent(Failed, last, [])
    else
      var n := last + 1;
      if gen.None? then Sent(NotFound, n, [])
      else if gen.value(n).None? then Sent(Failed, n, [])
      else
        var aad := PutU32(spi) + PutU32(n);
        var iv := gen.value(n).value;
        var text := a.seal(aad, iv, Plaintext(payload, a.block, a.ivLen, nextHeader));
        if text.None? then Sent(Failed, n, []) else Sent(Success, n, aad + iv + text.value)
  }

  // ---- one packet in ----

  datatype Rx = Rx(highest: U32, seen: set<U32>)

  datatype Received = Received(status: Status, rx: Rx, inner: Option<Inner>)

  predicate WellFormed(a: Aead, data: seq<Byte>)
    requires a.block > 0
  {
    |data| >= 8 + a.ivLen + a.icvLen && (|data| - 8 - a.ivLen - a.icvLen) % a.block == 0
  }

  /** The plaintext a well-formed packet authenticates to, if it does. */
  function Opened(a: Aead, data: seq<Byte>): Option<seq<Byte>>
    requires a.block > 0 && WellFormed(a, data)
  {
    a.open(data[..8], data[8..8 + a.ivLen], data[8 + a.ivLen..])
  }

  /** decrypt as a function of what the receiver has seen. */
  ghost function Decrypted(a: Aead, rx: Rx, data: seq<Byte>): Received
    requires a.block > 0
  {
    if !WellFormed(a, data) then Received(ParseError, rx, None)
    else
      var seqno := GetU32(data, 4);
      if !W.Acceptable(rx.highest, rx.seen, seqno) then Received(VerifyError, rx, None)
      else
        var plain := Opened(a, data);
        if plain.None? then Received(Failed, rx, None)
        else
          var rx1 := Rx(W.Max(rx.highest, seqno), rx.seen + {seqno});
          var inner := RemovePadding(plain.value);
          if inner.None? then Received(ParseError, rx1, None) else Received(Success, rx1, inner)
  }

  /** The next header of a payload, or of a dummy packet. */
  function HeaderFor(payload: Option<IpPacket>): Byte {
    if payload.None? then IPPROTO_NONE
    else if payload.value.version == 4 then IPPROTO_IPIP
    else IPPROTO_IPV6
  }

  class EspPacket {
    var data: seq<Byte>
    var payload: Option<IpPacket>
    var nextHeader: Byte

    /** esp_packet_create_from_payload. */
    constructor FromPayload(payload: Option<IpPacket>)
      ensures data == [] && this.payload == payload
      ensures nextHeader == if payload.None? then 59 else if payload.value.version == 4 then 4 else 41
    {
      data := [];
      this.payload := payload;
      nextHeader := HeaderFor(payload);
    }

    /** esp_packet_create_from_packet. */
    constructor FromPacket(data: seq<Byte>)
      ensures this.data == data && payload == None && nextHeader == IPPROTO_NONE
    {
      this.data := data;
      payload := None;
      nextHeader := IPPROTO_NONE;
    }

    function Encoding(): seq<Byte>
      reads this
    {
      if payload.None? then [] else payload.value.packet
    }

    method Encrypt(ctx: W.EspContext, a: Aead, gen: Option<IvGen>, spi: U32) returns (status: Status)
      requires ctx.Valid() && a.block > 0
      modifies this`data, ctx`lastSeqno
      ensures ctx.Valid()
      ensures var s := if ctx.inbound then Sent(Failed, old(ctx.lastSeqno), [])
                       else Encrypted(a, gen, old(ctx.lastSeqno), spi, Encoding(), nextHeader);
              status == s.status && data == s.data && ctx.lastSeqno == s.last
    {
      data := [];
      var ok, seqno := ctx.NextSeqno();
      if !ok {
        return Failed;
      }
      if gen.None? {
        return NotFound;
      }
      // plaintext = payload, padding, pad_length, next_header
      var body := Encoding();
      var plainlen := |body| + 2;
      var padlen := PadLen(plainlen, a.block);
      padlen := padlen + PadLen(a.ivLen + plainlen + padlen, 4);

      var aad := PutU32(spi) + PutU32(seqno);
      var iv := gen.value(seqno);
      if iv.None? {
        return Failed;
      }
      var padding: array<Byte> := new Byte[padlen];
      GeneratePadding(padding);
      var padByte: Byte := padlen % 256;
      var trailer: seq<Byte> := [padByte, nextHeader];
      var plain: seq<Byte> := body + padding[..] + trailer;
      var text := a.seal(aad, iv.value, plain);
      if text.Some? {
        data := aad + iv.value + text.value;
        return Success;
      }
      return Failed;
    }

    method StripPadding(plain: seq<Byte>) returns (ok: bool)
      modifies this`payload, this`nextHeader
      ensures var r := RemovePadding(plain);
              && ok == r.Some?
              && (ok ==> payload == Some(r.value.packet) && nextHeader == r.value.nextHeader)
              && (!ok ==> (payload == None || payload == old(payload)) && nextHeader == old(nextHeader))
    {
      if |plain| < 2 {
        return false;
      }
      var n: int := plain[|plain| - 2];
      if |plain| - 2 < n {
        return false;
      }
      var good := CheckPadding(plain[|plain| - 2 - n..|plain| - 2]);
      if !good {
        return false;
      }
      payload := Create(plain[..|plain| - 2 - n]);
      if payload.None? {
        return false;
      }
      nextHeader := plain[|plain| - 1];
      return true;
    }

    method Decrypt(ctx: W.EspContext, a: Aead) returns (status: Status)
      requires ctx.Valid() && a.block > 0
      modifies this`payload, this`nextHeader, ctx, ctx.window
      ensures ctx.Valid() && ctx.window == old(ctx.window)
      ensures var rx := Rx(old(ctx.lastSeqno), old(ctx.seen));
              var r := if ctx.inbound then Decrypted(a, rx, data)
                       else Received(if WellFormed(a, data) then VerifyError else ParseError, rx, None);
              && status == r.status && Rx(ctx.lastSeqno, ctx.seen) == r.rx
              && (status == Success ==> payload == Some(r.inner.value.packet) && nextHeader == r.inner.value.nextHeader)
              && (status != Success ==> payload == None && nextHeader == old(nextHeader))
    {
      payload := None;
      if |data| < 8 + a.ivLen + a.icvLen || (|data| - 8 - a.ivLen - a.icvLen) % a.block != 0 {
        return ParseError;
      }
      var seqno := GetU32(data, 4);
      var fresh_ := ctx.VerifySeqno(seqno);
      if !fresh_ {
        return VerifyError;
      }
      var plain := a.open(data[..8], data[8..8 + a.ivLen], data[8 + a.ivLen..]);
      if plain.None? {
        return Failed;
      }
      ctx.SetAuthenticatedSeqno(seqno);
      var ok := StripPadding(plain.value);
      if !ok {
        return ParseError;
      }
      return Success;
    }
  }

  // ---- what comes out of it ----

  /** The layouts for which the padding works out for every payload. */
  predicate Aligned(block: nat, ivLen: nat) {
    block == 1 || (block == 2 && ivLen % 2 == 0) || (block % 4 == 0 && ivLen % 4 == 0)
  }

  ghost predicate AlwaysBlockMultiple(block: nat, ivLen: nat)
    requires block > 0
  {
    forall n: nat :: (n + 2 + PadLength(n, block, ivLen)) % block == 0
  }

  lemma Mod4(a: int, b: int)
    requires a % 4 == 0 && b % 4 == 0
    ensures (a + b) % 4 == 0
  {
  }

  /** A multiple of a multiple of 4 is a multiple of 4. */
  lemma MultipleOf4(x: nat, block: nat)
    requires block > 0 && block % 4 == 0 && x % block == 0
    ensures x % 4 == 0
  {
    var q, k := x / block, block / 4;
    assert x == block * q == 4 * k * q == 4 * (k * q);
  }

  /** encrypt's plaintext is a multiple of the block size for every payload if block size and IV size are aligned;
      the ICV starts on a 4-byte boundary in any case, and the pad length fits its byte for blocks up to 256. */
  lemma PaddingFits(n: nat, block: nat, ivLen: nat)
    requires block > 0 && Aligned(block, ivLen)
    ensures (n + 2 + PadLength(n, block, ivLen)) % block == 0
    ensures (8 + ivLen + n + 2 + PadLength(n, block, ivLen)) % 4 == 0
    ensures block <= 256 ==> PadLength(n, block, ivLen) < 256
  {
    var p := PadLen(n + 2, block);
    var q := PadLen(ivLen + n + 2 + p, 4);
    if block % 4 == 0 {
      MultipleOf4(n + 2 + p, block);
      Mod4(ivLen, n + 2 + p);
    } else if block == 2 {
      assert (n + 2 + p) % 2 == 0;
      assert q % 2 == 0;
    }
  }

  /** With an aligned layout no less padding would do. */
  lemma PaddingMinimal(n: nat, block: nat, ivLen: nat, less: nat)
    requires block > 0 && Aligned(block, ivLen) && less < PadLength(n, block, ivLen)
    ensures (n + 2 + less) % block != 0 || (ivLen + n + 2 + less) % 4 != 0
  {
    var p := PadLen(n + 2, block);
    if block % 4 == 0 {
      MultipleOf4(n + 2 + p, block);
      Mod4(ivLen, n + 2 + p);
      if (n + 2 + less) % block == 0 { OneMultiple(n + 2 + less, n + 2 + p, block); }
    }
  }

  lemma OneMultiple(x: int, y: int, m: nat)
    requires m > 0 && x % m == 0 && y % m == 0 && x <= y < x + m
    ensures x == y
  {
    var d := y / m - x / m;
    assert y - x == m * d;
    if d >= 1 { AtLeast(m, d); }
    if d <= -1 { AtLeast(m, -d); }
  }

  /** The bytes added after k blocks to reach the 4-byte boundary. */
  function OffBy(block: nat, ivLen: nat, k: nat): (r: nat)
    ensures r < 4 && (ivLen + block * k + r) % 4 == 0
  {
    PadLen(ivLen + block * k, 4)
  }

  /** A payload that fills k blocks exactly gets those bytes only, so they must be a multiple of the block. */
  lemma FullBlocks(block: nat, ivLen: nat, k: nat)
    requires block > 1 && k >= 2 && AlwaysBlockMultiple(block, ivLen)
    ensures OffBy(block, ivLen, k) % block == 0
  {
    MultipleMod(k, block);
    AtLeast(block, k);
    var n, r := block * k - 2, OffBy(block, ivLen, k);
    assert PadLen(n + 2, block) == 0;
    assert PadLength(n, block, ivLen) == r;
    assert (n + 2 + PadLength(n, block, ivLen)) % block == 0;
    WithoutBlocks(block, k, r);
  }

  lemma WithoutBlocks(block: nat, k: nat, r: nat)
    requires block > 0 && (block * k + r) % block == 0
    ensures r % block == 0
  {
    var d := (block * k + r) / block;
    assert block * k + r == block * d;
    assert r == block * (d - k);
    MultipleMod(d - k, block);
  }

  /** Payloads of two to five blocks tell whether the layout is aligned. */
  lemma FourPayloadsDecide(block: nat, ivLen: nat)
    requires block > 1
    requires OffBy(block, ivLen, 2) % block == 0 && OffBy(block, ivLen, 3) % block == 0
    requires OffBy(block, ivLen, 4) % block == 0 && OffBy(block, ivLen, 5) % block == 0
    ensures Aligned(block, ivLen)
  {
    if block == 2 {
      TwoDecides(ivLen);
    } else if block == 3 {
      ThreeFails(ivLen);
    } else {
      DivModUnique(OffBy(block, ivLen, 2), block, 0, OffBy(block, ivLen, 2));
      DivModUnique(OffBy(block, ivLen, 3), block, 0, OffBy(block, ivLen, 3));
      LargeDecides(block, ivLen);
    }
  }

  lemma TwoDecides(ivLen: nat)
    requires OffBy(2, ivLen, 2) % 2 == 0
    ensures ivLen % 2 == 0
  {
    EvenRest(ivLen, OffBy(2, ivLen, 2));
  }

  lemma EvenRest(n: nat, r: nat)
    requires (n + 4 + r) % 4 == 0 && r % 2 == 0
    ensures n % 2 == 0
  {
    var q, h := (n + 4 + r) / 4, r / 2;
    assert n + 4 + 2 * h == 4 * q;
  }

  lemma ThreeFails(ivLen: nat)
    ensures OffBy(3, ivLen, 2) % 3 != 0 || OffBy(3, ivLen, 3) % 3 != 0 || OffBy(3, ivLen, 4) % 3 != 0
  {
  }

  lemma LargeDecides(block: nat, ivLen: nat)
    requires OffBy(block, ivLen, 2) == 0 && OffBy(block, ivLen, 3) == 0
    ensures block % 4 == 0 && ivLen % 4 == 0
  {
    assert (ivLen + block * 2) % 4 == 0 && (ivLen + block * 3) % 4 == 0;
  }

  /** Aligned is exact: with any other block and IV size some payload ends up off the block boundary. */
  lemma AlignedIsExact(block: nat, ivLen: nat)
    requires block > 0
    ensures AlwaysBlockMultiple(block, ivLen) <==> Aligned(block, ivLen)
  {
    if AlwaysBlockMultiple(block, ivLen) && block > 1 {
      FullBlocks(block, ivLen, 2);
      FullBlocks(block, ivLen, 3);
      FullBlocks(block, ivLen, 4);
      FullBlocks(block, ivLen, 5);
      FourPayloadsDecide(block, ivLen);
    }
    if Aligned(block, ivLen) {
      forall n: nat ensures (n + 2 + PadLength(n, block, ivLen)) % block == 0 { PaddingFits(n, block, ivLen); }
    }
  }

  /** The plaintext as section 2.4 of RFC 4303 has it: payload, then 1, 2, 3 and so on, then their number and the next
      header. */
  lemma PlaintextLayout(payload: seq<Byte>, block: nat, ivLen: nat, nextHeader: Byte, i: nat)
    requires block > 0 && PadLength(|payload|, block, ivLen) < 256
    ensures var plain, n := Plaintext(payload, block, ivLen, nextHeader), PadLength(|payload|, block, ivLen);
            && |plain| == |payload| + n + 2 && plain[..|payload|] == payload
            && (i < n ==> plain[|payload| + i] == i + 1)
            && plain[|payload| + n] == n && plain[|payload| + n + 1] == nextHeader
  {
  }

  /** Padding is stripped off exactly: the payload bytes and the next header come back. */
  lemma UnpadPlaintext(payload: seq<Byte>, block: nat, ivLen: nat, nextHeader: Byte)
    requires block > 0 && PadLength(|payload|, block, ivLen) < 256
    ensures var plain := Plaintext(payload, block, ivLen, nextHeader);
            |plain| >= 2 && Unpadded(plain) == Some(payload) && plain[|plain| - 1] == nextHeader
  {
    var n := PadLength(|payload|, block, ivLen);
    var plain := Plaintext(payload, block, ivLen, nextHeader);
    assert |plain| == |payload| + n + 2;
    assert plain[|plain| - 2] == n;
    assert plain[|payload|..|payload| + n] == PadBytes(n);
    assert plain[..|payload|] == payload;
  }

  /** Padding is accepted only as it is made: the last byte but one counts the bytes in front of it, which are 1, 2, 3
      and so on. */
  lemma UnpaddedExactly(plain: seq<Byte>, payload: seq<Byte>)
    ensures Unpadded(plain) == Some(payload) <==>
            && |plain| >= |payload| + 2 && payload == plain[..|payload|]
            && plain[|plain| - 2] == |plain| - 2 - |payload|
            && forall j | |payload| <= j < |plain| - 2 :: plain[j] == j - |payload| + 1
  {
    if |plain| >= 2 {
      var n: int := plain[|plain| - 2];
      if |plain| - 2 >= n {
        PaddingAt(plain, |plain| - 2 - n, n);
      }
    }
  }

  lemma PaddingAt(plain: seq<Byte>, at: nat, n: nat)
    requires at + n <= |plain| && n < 256
    ensures plain[at..at + n] == PadBytes(n) <==> forall j | at <= j < at + n :: plain[j] == j - at + 1
  {
    var pad := plain[at..at + n];
    if pad == PadBytes(n) {
      forall j | at <= j < at + n ensures plain[j] == j - at + 1 { assert plain[j] == pad[j - at]; }
    }
  }

  lemma Layout(spi: U32, n: U32, iv: seq<Byte>, text: seq<Byte>)
    ensures var data := PutU32(spi) + PutU32(n) + iv + text;
            && |data| == 8 + |iv| + |text| && GetU32(data, 0) == spi && GetU32(data, 4) == n
            && data[..8] == PutU32(spi) + PutU32(n) && data[8..8 + |iv|] == iv && data[8 + |iv|..] == text
  {
    var data := PutU32(spi) + PutU32(n) + iv + text;
    U32RoundTrip([], spi, PutU32(n) + iv + text);
    U32RoundTrip(PutU32(spi), n, iv + text);
    assert data == [] + PutU32(spi) + (PutU32(n) + iv + text);
    assert data == PutU32(spi) + PutU32(n) + (iv + text);
  }

  /** What the receiver reads off a packet that encrypt produced. */
  lemma SentIsWellFormed(a: Aead, gen: IvGen, last: U32, spi: U32, payload: seq<Byte>, nextHeader: Byte)
    requires Correct(a) && IvsFit(a, gen) && Aligned(a.block, a.ivLen)
    requires Encrypted(a, Some(gen), last, spi, payload, nextHeader).status == Success
    ensures var s := Encrypted(a, Some(gen), last, spi, payload, nextHeader);
            && s.last == last + 1 && WellFormed(a, s.data)
            && GetU32(s.data, 0) == spi && GetU32(s.data, 4) == s.last
            && Opened(a, s.data) == Some(Plaintext(payload, a.block, a.ivLen, nextHeader))
            && gen(s.last) == Some(s.data[8..8 + a.ivLen])
            && (|s.data| - a.icvLen) % 4 == 0
  {
    var n := last + 1;
    var aad, iv := PutU32(spi) + PutU32(n), gen(n).value;
    var text := a.seal(aad, iv, Plaintext(payload, a.block, a.ivLen, nextHeader)).value;
    PaddingFits(|payload|, a.block, a.ivLen);
    Layout(spi, n, iv, text);
  }

  /** Round trip: with an aligned layout and blocks up to 256 bytes, a receiver that may accept the number uses it up,
      and recovers from what encrypt sent exactly the IP packet and the next header if and only if the packet is at
      least as long as its own base header; a shorter one is a parse error. */
  lemma DecryptUndoesEncrypt(a: Aead, gen: IvGen, last: U32, spi: U32, raw: seq<Byte>, nextHeader: Byte, rx: Rx)
    requires Correct(a) && IvsFit(a, gen) && Aligned(a.block, a.ivLen) && a.block <= 256
    requires Parse(raw).Some?
    requires Encrypted(a, Some(gen), last, spi, Parse(raw).value.packet, nextHeader).status == Success
    requires W.Acceptable(rx.highest, rx.seen, last + 1)
    ensures var p := Parse(raw).value;
            var s := Encrypted(a, Some(gen), last, spi, p.packet, nextHeader);
            var r := Decrypted(a, rx, s.data);
            && r.rx == Rx(W.Max(rx.highest, s.last), rx.seen + {s.last})
            && (r.inner == Some(Inner(p, nextHeader)) <==> |p.packet| >= BaseHeader(p.version))
            && r.status == if |p.packet| >= BaseHeader(p.version) then Success else ParseError
  {
    var p := Parse(raw).value;
    ReparseSame(raw);
    ParseTrims(raw);
    assert |p.packet| > 0 ==> p.packet[0] == raw[0];
    SentIsWellFormed(a, gen, last, spi, p.packet, nextHeader);
    PaddingFits(|p.packet|, a.block, a.ivLen);
    UnpadPlaintext(p.packet, a.block, a.ivLen, nextHeader);
  }

  /** What was sealed opens only with the associated data and the IV it was sealed with. */
  ghost predicate Binding(a: Aead) {
    forall aad: seq<Byte>, iv: seq<Byte>, p: seq<Byte>, aad1: seq<Byte>, iv1: seq<Byte> |
      a.seal(aad, iv, p).Some? && a.open(aad1, iv1, a.seal(aad, iv, p).value).Some? :: aad1 == aad && iv1 == iv
  }

  /** SPI, sequence number and IV of a sent packet are authenticated: with any other bytes in front of the ciphertext
      the packet fails and leaves the receiver as it was. */
  lemma HeaderAuthenticated(a: Aead, gen: IvGen, last: U32, spi: U32, payload: seq<Byte>, nextHeader: Byte,
                            front: seq<Byte>, rx: Rx)
    requires Correct(a) && IvsFit(a, gen) && Aligned(a.block, a.ivLen) && Binding(a)
    requires var s := Encrypted(a, Some(gen), last, spi, payload, nextHeader);
             s.status == Success && |front| == 8 + a.ivLen <= |s.data| && front != s.data[..8 + a.ivLen]
    ensures var s := Encrypted(a, Some(gen), last, spi, payload, nextHeader);
            var r := Decrypted(a, rx, front + s.data[8 + a.ivLen..]);
            r.status != Success && r.rx == rx && r.inner == None
  {
    var s := Encrypted(a, Some(gen), last, spi, payload, nextHeader);
    SentIsWellFormed(a, gen, last, spi, payload, nextHeader);
    var aad, iv := PutU32(spi) + PutU32(last + 1), gen(last + 1).value;
    var text := a.seal(aad, iv, Plaintext(payload, a.block, a.ivLen, nextHeader)).value;
    Layout(spi, last + 1, iv, text);
    var data := front + text;
    assert data[..8] == front[..8] && data[8..8 + a.ivLen] == front[8..] && data[8 + a.ivLen..] == text;
    assert front == front[..8] + front[8..] && s.data[..8 + a.ivLen] == aad + iv;
  }

  /** The packet passes every test in front of set_authenticated_seqno. */
  ghost predicate Authentic(a: Aead, rx: Rx, data: seq<Byte>)
    requires a.block > 0
  {
    WellFormed(a, data) && W.Acceptable(rx.highest, rx.seen, GetU32(data, 4)) && Opened(a, data).Some?
  }

  /** The window moves if and only if shape, number and ICV are right, whatever the payload is: so a packet that fails
      still moves it if and only if it is authentic but its plaintext has wrong padding or holds no IP packet. */
  lemma WindowMovesExactly(a: Aead, rx: Rx, data: seq<Byte>)
    requires a.block > 0
    ensures var r := Decrypted(a, rx, data);
            && (r.rx != rx <==> Authentic(a, rx, data))
            && (r.status != Success && r.rx != rx
                <==> Authentic(a, rx, data) && RemovePadding(Opened(a, data).value).None?)
  {
    if Authentic(a, rx, data) {
      assert GetU32(data, 4) in Decrypted(a, rx, data).rx.seen;
    }
  }

  /** In what order a packet is refused, with the receiver left as it was: for its shape, then for its number, which is
      zero, was seen or lies 128 or more behind the highest, then because it does not authenticate. */
  lemma RefusedFor(a: Aead, rx: Rx, data: seq<Byte>)
    requires a.block > 0
    ensures var r, least := Decrypted(a, rx, data), 8 + a.ivLen + a.icvLen;
            if |data| < least || (|data| - least) % a.block != 0 then r == Received(ParseError, rx, None)
            else
              var n := GetU32(data, 4);
              if n == 0 || n in rx.seen || rx.highest - n >= 128 then r == Received(VerifyError, rx, None)
              else a.open(data[..8], data[8..8 + a.ivLen], data[8 + a.ivLen..]) == None
                   ==> r == Received(Failed, rx, None)
  {
  }

  /** A dummy packet, sent without payload, uses up its number at the receiver but is then a parse error. */
  lemma DummyIsParseError(a: Aead, gen: IvGen, last: U32, spi: U32, rx: Rx)
    requires Correct(a) && IvsFit(a, gen) && Aligned(a.block, a.ivLen) && a.block <= 256
    requires Encrypted(a, Some(gen), last, spi, [], IPPROTO_NONE).status == Success
    requires W.Acceptable(rx.highest, rx.seen, last + 1)
    ensures var s := Encrypted(a, Some(gen), last, spi, [], IPPROTO_NONE);
            Decrypted(a, rx, s.data) == Received(ParseError, Rx(W.Max(rx.highest, s.last), rx.seen + {s.last}), None)
  {
    SentIsWellFormed(a, gen, last, spi, [], IPPROTO_NONE);
    PaddingFits(0, a.block, a.ivLen);
    UnpadPlaintext([], a.block, a.ivLen, IPPROTO_NONE);
  }
}
