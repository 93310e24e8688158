/** What verify of an EAP-SIM or EAP-AKA message refuses. */
module SimakaTamper {
  import opened Bytes
  import opened Words
  import opened SimakaAttributes
  import opened SimakaMessages

  // ---- where the MAC is ----

  /** The value of the last AT_MAC, the one that counts. */
  function MacAt(items: seq<Item>): Option<nat> {
    if items == [] then None
    else if items[|items| - 1].attr.kind == 11 then Some(items[|items| - 1].at + 4)
    else MacAt(items[..|items| - 1])
  }

  lemma {:induction false} MacAtCons(x: Item, rest: seq<Item>)
    ensures MacAt([x] + rest)
            == if MacAt(rest).Some? then MacAt(rest) else if x.attr.kind == 11 then Some(x.at + 4) else None
    decreases |rest|
  {
    var all := [x] + rest;
    if rest == [] {
      assert all[..0] == [];
    } else {
      assert all[..|all| - 1] == [x] + rest[..|rest| - 1];
      MacAtCons(x, rest[..|rest| - 1]);
    }
  }

  lemma {:induction false} AbsorbedMac(s: Parsed, items: seq<Item>, encrypted: bool)
    ensures AbsorbAll(s, items, encrypted).mac
            == if MacAt(items).None? then s.mac else if encrypted then InPlain else InMessage(MacAt(items).value)
    decreases |items|
  {
    if items != [] { AbsorbedMac(s, items[..|items| - 1], encrypted); }
  }

  /** A MAC that was found in the message is the last one of the walk over it. */
  predicate FromMessage(b: seq<Byte>, s: Parsed) {
    && |b| >= HEADER
    && (s.mac.InMessage? ==> && Walk(false, b, HEADER).Some?
                             && MacAt(Walk(false, b, HEADER).value) == Some(s.mac.at))
  }

  /** So it is after any number of calls of parse, with any keys. */
  lemma ParseKeepsPlace(crypto: Crypto, s: Parsed, b: seq<Byte>)
    requires FromMessage(b, s) && ParsedMessage(crypto, s, b).Now?
    ensures FromMessage(b, ParsedMessage(crypto, s, b).state) && FromMessage(b, FRESH)
  {
    var t := s;
    if s.attributes == [] {
      AbsorbedMac(s, Walk(false, b, HEADER).value, false);
      t := ParsedFrom(s, false, b, HEADER).value;
    }
    DecryptKeepsPlace(crypto, t, b);
  }

  lemma DecryptKeepsPlace(crypto: Crypto, t: Parsed, b: seq<Byte>)
    requires FromMessage(b, t) && Decrypted(crypto, t).Now?
    ensures FromMessage(b, Decrypted(crypto, t).state)
  {
    if Decrypted(crypto, t) != Now(t) {
      var plain := crypto.crypter.value.decrypt(t.encr.data, t.iv.data).value;
      AbsorbedMac(t, Walk(true, plain, 0).value, true);
    }
  }

  // ---- another value in it ----

  ghost predicate Agree(b: seq<Byte>, c: seq<Byte>, lo: nat, hi: nat) {
    |b| == |c| && forall i | 0 <= i < |b| && !(lo <= i < hi) :: b[i] == c[i]
  }

  lemma SameSlices(b: seq<Byte>, c: seq<Byte>, lo: nat, hi: nat, at: nat, size: nat, n: nat)
    requires Agree(b, c, lo, hi) && at + size <= |b| && (at + size <= lo || at >= hi) && size >= 4
    ensures forall i | at <= i < at + 4 :: c[i] == b[i]
    ensures c[at + 2..at + 4] == b[at + 2..at + 4]
    ensures 2 + n <= size ==> c[at + 2..at + 2 + n] == b[at + 2..at + 2 + n]
    ensures 4 + n <= size ==> c[at + 4..at + 4 + n] == b[at + 4..at + 4 + n]
  {
  }

  lemma SameRead(b: seq<Byte>, c: seq<Byte>, lo: nat, hi: nat, at: nat, x: Item)
    requires Agree(b, c, lo, hi) && at <= |b| && ReadAttr(false, b, at) == Some(x) && (at + x.size <= lo || at >= hi)
    ensures ReadAttr(false, c, at) == Some(x)
  {
    SameSlices(b, c, lo, hi, at, x.size, |x.attr.data|);
    assert c[at] == b[at] && c[at + 1] == b[at + 1] && GetU16(c, at + 2) == GetU16(b, at + 2);
  }

  /** Reading and walking over one input as function values, so that the proofs need not look into them. */
  type Reader = nat -> Option<Item>

  ghost predicate Through(read: Reader, walk: Walker, b: seq<Byte>) {
    && (forall at: nat {:trigger ReadAttr(false, b, at)} | at <= |b| :: read(at) == ReadAttr(false, b, at))
    && Walks(walk, false, b)
  }

  lemma Reading(b: seq<Byte>) returns (read: Reader, walk: Walker)
    ensures Through(read, walk, b)
  {
    read := (at: nat) => if at <= |b| then ReadAttr(false, b, at) else None;
    walk := WalkerOf(false, b);
  }

  lemma First(read: Reader, walk: Walker, b: seq<Byte>, at: nat) returns (x: Item, rest: seq<Item>)
    requires Through(read, walk, b) && at <= |b| && walk(at).Some? && walk(at).value != []
    ensures read(at) == Some(x) && x.at == at && x.size >= 4 && at + x.size <= |b|
    ensures walk(at + x.size) == Some(rest) && walk(at) == Some([x] + rest)
    ensures x.attr.kind == 11 ==> x.size == 20 && b[at] == 11 && b[at + 1] == 5
  {
    assert Walk(false, b, at).Some? && at < |b|;
    x := ReadAttr(false, b, at).value;
    rest := Walk(false, b, at + x.size).value;
  }

  lemma Onward(read: Reader, walk: Walker, b: seq<Byte>, at: nat, x: Item, rest: seq<Item>)
    requires Through(read, walk, b) && at < |b| && read(at) == Some(x) && walk(at + x.size) == Some(rest)
    ensures walk(at) == Some([x] + rest)
  {
    assert ReadAttr(false, b, at) == Some(x);
    assert Walk(false, b, at + x.size) == Some(rest);
    WalkStep(false, b, at, x);
  }

  lemma Reread(read: Reader, walk: Walker, b: seq<Byte>, read1: Reader, walk1: Walker, c: seq<Byte>, lo: nat, hi: nat,
               at: nat, x: Item)
    requires Through(read, walk, b) && Through(read1, walk1, c) && Agree(b, c, lo, hi)
    requires at <= |b| && read(at) == Some(x) && (at + x.size <= lo || at >= hi)
    ensures read1(at) == Some(x)
  {
    SameRead(b, c, lo, hi, at, x);
  }

  /** A MAC with another value. */
  lemma RereadMac(read: Reader, walk: Walker, b: seq<Byte>, read1: Reader, walk1: Walker, c: seq<Byte>, at: nat,
                  x: Item)
    requires Through(read, walk, b) && Through(read1, walk1, c) && Agree(b, c, at + 4, at + 20)
    requires at <= |b| && read(at) == Some(x) && x.attr.kind == 11
    ensures read1(at).Some? && read1(at).value.attr.kind == 11 && read1(at).value.at == at && read1(at).value.size == 20
  {
    assert ReadAttr(false, b, at) == Some(x);
    assert b[at] == c[at] && b[at + 1] == c[at + 1];
    assert ReadAttr(false, c, at).Some?;
  }

  lemma {:induction false} SameWalk(read: Reader, walk: Walker, b: seq<Byte>, read1: Reader, walk1: Walker,
                                    c: seq<Byte>, lo: nat, hi: nat, at: nat)
    requires Through(read, walk, b) && Through(read1, walk1, c) && Agree(b, c, lo, hi)
    requires hi <= at <= |b| && walk(at).Some?
    ensures walk1(at) == walk(at)
    decreases |b| - at
  {
    if walk(at).value == [] {
      Ended(read, walk, b, at);
      WalkDone(walk1, false, c);
    } else {
      var x, rest := First(read, walk, b, at);
      Reread(read, walk, b, read1, walk1, c, lo, hi, at, x);
      SameWalk(read, walk, b, read1, walk1, c, lo, hi, at + x.size);
      Onward(read1, walk1, c, at, x, rest);
    }
  }

  lemma Ended(read: Reader, walk: Walker, b: seq<Byte>, at: nat)
    requires Through(read, walk, b) && at <= |b| && walk(at) == Some([])
    ensures at == |b|
  {
    assert Walk(false, b, at) == Some([]);
  }

  /** Type and length in front of the MAC, which lies inside the message. */
  lemma {:induction false} MacStands(read: Reader, walk: Walker, b: seq<Byte>, at: nat, p: nat)
    requires Through(read, walk, b) && at <= |b| && walk(at).Some? && MacAt(walk(at).value) == Some(p)
    ensures at + 4 <= p && p + 16 <= |b| && b[p - 4] == 11 && b[p - 3] == 5
    decreases |b| - at
  {
    var x, rest := First(read, walk, b, at);
    MacAtCons(x, rest);
    if MacAt(rest).Some? { MacStands(read, walk, b, at + x.size, p); }
  }

  /** Other bytes in the value leave the MAC where it is. */
  lemma {:induction false} MacStays(read: Reader, walk: Walker, b: seq<Byte>, read1: Reader, walk1: Walker,
                                    c: seq<Byte>, at: nat, p: nat)
    requires Through(read, walk, b) && Through(read1, walk1, c) && Agree(b, c, p, p + 16)
    requires at <= |b| && walk(at).Some? && MacAt(walk(at).value) == Some(p)
    ensures walk1(at).Some? && MacAt(walk1(at).value) == Some(p)
    decreases |b| - at
  {
    var x, rest := First(read, walk, b, at);
    MacAtCons(x, rest);
    var y, rest1 := x, rest;
    if MacAt(rest).Some? {
      MacStands(read, walk, b, at + x.size, p);
      Reread(read, walk, b, read1, walk1, c, p, p + 16, at, x);
      MacStays(read, walk, b, read1, walk1, c, at + x.size, p);
      rest1 := walk1(at + x.size).value;
    } else {
      RereadMac(read, walk, b, read1, walk1, c, at, x);
      y := read1(at).value;
      SameWalk(read, walk, b, read1, walk1, c, p, p + 16, at + 20);
    }
    Onward(read1, walk1, c, at, y, rest1);
    MacAtCons(y, rest1);
  }

  /** The MAC of a message that was parsed. */
  lemma MacInside(b: seq<Byte>, s: Parsed)
    requires FromMessage(b, s) && s.mac.InMessage?
    ensures HEADER + 4 <= s.mac.at && s.mac.at + 16 <= |b| && b[s.mac.at - 4] == 11 && b[s.mac.at - 3] == 5
  {
    var read, walk := Reading(b);
    assert walk(HEADER) == Walk(false, b, HEADER);
    MacStands(read, walk, b, HEADER, s.mac.at);
  }

  /** It stays the MAC with any other value in it. */
  lemma MacReplaced(b: seq<Byte>, s: Parsed, c: seq<Byte>)
    requires FromMessage(b, s) && s.mac.InMessage? && Agree(b, c, s.mac.at, s.mac.at + 16)
    ensures FromMessage(c, s)
  {
    var read, walk := Reading(b);
    var read1, walk1 := Reading(c);
    assert walk(HEADER) == Walk(false, b, HEADER) && walk1(HEADER) == Walk(false, c, HEADER);
    MacStays(read, walk, b, read1, walk1, c, HEADER, s.mac.at);
  }

  lemma Patched(b: seq<Byte>, p: nat, v: Tag)
    requires p + 16 <= |b|
    ensures var c := Overwritten(b, p, v);
            && Agree(b, c, p, p + 16) && c[p..p + 16] == v && Overwritten(c, p, b[p..p + 16]) == b
            && Zeroed(c, p) == Zeroed(b, p)
  {
  }

  // ---- main results ----

  /** Challenges and reauthentications (1, 11, 13), and notifications (12) without the P bit. */
  predicate Demanded(b: seq<Byte>, s: Parsed)
    requires |b| >= HEADER
  {
    b[5] == 1 || b[5] == 11 || b[5] == 13 || (b[5] == 12 && !s.pBit)
  }

  lemma AcceptedMac(b: seq<Byte>, s: Parsed, signer: Option<Signer>, sigdata: seq<Byte>)
    requires Inside(b, s) && Demanded(b, s) && Verdict(b, s, signer, sigdata) == Answer(true)
    ensures s.mac.InMessage? && signer.Some?
    ensures signer.value(Zeroed(b, s.mac.at) + sigdata) == Some(b[s.mac.at..s.mac.at + 16])
  {
  }

  /** Where none is demanded, the subtype decides; where one is, a message without one or a reader without a key
      refuses. */
  lemma WithoutMac(b: seq<Byte>, s: Parsed, signer: Option<Signer>, sigdata: seq<Byte>)
    requires Inside(b, s)
    ensures !Demanded(b, s) ==> Verdict(b, s, signer, sigdata) == Answer(b[5] in {2, 4, 5, 10, 12, 14})
    ensures Demanded(b, s) && (s.mac == Nowhere || signer.None?) ==> Verdict(b, s, signer, sigdata) == Answer(false)
  {
  }

  /** Where a MAC is demanded, an accepted message has one: with any other 16 bytes in its place it is refused. */
  lemma OneMac(b: seq<Byte>, s: Parsed, signer: Option<Signer>, sigdata: seq<Byte>, other: Tag)
    requires FromMessage(b, s) && Inside(b, s) && Demanded(b, s) && Verdict(b, s, signer, sigdata) == Answer(true)
    ensures s.mac.InMessage?
    ensures other != b[s.mac.at..s.mac.at + 16]
            ==> Verdict(Overwritten(b, s.mac.at, other), s, signer, sigdata) == Answer(false)
  {
    AcceptedMac(b, s, signer, sigdata);
    MacInside(b, s);
    Patched(b, s.mac.at, other);
    var c := Overwritten(b, s.mac.at, other);
    assert c[5] == b[5];
  }

  /** No two texts have the same signature. */
  ghost predicate Injective(sign: Signer) {
    forall x: seq<Byte>, y: seq<Byte> | sign(x).Some? && sign(y) == sign(x) :: x == y
  }

  /** Two messages with the length in the header, and what is behind them. */
  lemma SameLength(b: seq<Byte>, x: seq<Byte>, c: seq<Byte>, y: seq<Byte>)
    requires |b| >= HEADER && |c| >= HEADER && GetU16(b, 2) == |b| && GetU16(c, 2) == |c| && b + x == c + y
    ensures b == c && x == y
  {
    assert b[2] == (b + x)[2] == c[2] && b[3] == (b + x)[3] == c[3];
    assert b == (b + x)[..|b|] && c == (c + y)[..|b|];
    assert x == (b + x)[|b|..] && y == (c + y)[|b|..];
  }

  /** From the message with zeros in place of the MAC, the place and the message can be told. */
  lemma FromZeroed(b: seq<Byte>, s: Parsed, c: seq<Byte>, t: Parsed)
    requires FromMessage(b, s) && FromMessage(c, t) && Inside(b, s) && Inside(c, t)
    requires s.mac.InMessage? && t.mac.InMessage?
    requires Zeroed(b, s.mac.at) == Zeroed(c, t.mac.at)
    requires b[s.mac.at..s.mac.at + 16] == c[t.mac.at..t.mac.at + 16]
    ensures b == c
  {
    Patched(b, s.mac.at, Zeros(16));
    Patched(c, t.mac.at, Zeros(16));
    MacReplaced(b, s, Zeroed(b, s.mac.at));
    MacReplaced(c, t, Zeroed(c, t.mac.at));
  }

  lemma LengthKept(b: seq<Byte>, p: nat)
    requires HEADER <= p && p + 16 <= |b|
    ensures GetU16(Zeroed(b, p), 2) == GetU16(b, 2)
  {
    assert Zeroed(b, p)[2] == b[2] && Zeroed(b, p)[3] == b[3];
  }

  /** With a signature without collisions, the MAC of an accepted message determines the message and the additional
      data: after a change of any byte outside the MAC, attributes added or taken away included, or with other data, a
      message with this MAC is not accepted as one that demands a MAC. */
  lemma MacBinds(b: seq<Byte>, s: Parsed, sigdata: seq<Byte>, c: seq<Byte>, t: Parsed, sigdata1: seq<Byte>,
                 sign: Signer)
    requires Injective(sign) && ValidHeader(b) && ValidHeader(c) && FromMessage(b, s) && FromMessage(c, t)
    requires Inside(b, s) && Demanded(b, s) && Verdict(b, s, Some(sign), sigdata) == Answer(true)
    requires Inside(c, t) && Demanded(c, t) && Verdict(c, t, Some(sign), sigdata1) == Answer(true)
    ensures s.mac.InMessage? && t.mac.InMessage?
    ensures b[s.mac.at..s.mac.at + 16] == c[t.mac.at..t.mac.at + 16] ==> b == c && sigdata == sigdata1
  {
    AcceptedMac(b, s, Some(sign), sigdata);
    AcceptedMac(c, t, Some(sign), sigdata1);
    MacInside(b, s);
    MacInside(c, t);
    LengthKept(b, s.mac.at);
    LengthKept(c, t.mac.at);
    if b[s.mac.at..s.mac.at + 16] == c[t.mac.at..t.mac.at + 16] {
      SameLength(Zeroed(b, s.mac.at), sigdata, Zeroed(c, t.mac.at), sigdata1);
      FromZeroed(b, s, c, t);
    }
  }
}
