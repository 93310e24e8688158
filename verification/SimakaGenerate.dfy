/** generate of simaka_message.c: two passes over the attributes, in place in two buffers. */
module SimakaGenerate {
  import opened Bytes
  import opened Words
  import opened SimakaAttributes
  import opened SimakaMessages

  /** What generate ends in. A skipped attribute's type is still written where the next attribute begins: NoPlace is
      the write behind the end of the buffer if nothing follows. */
  datatype Generation = Message(bytes: seq<Byte>) | Failure | NoPlace

  function Made(g: Option<seq<Byte>>): Generation {
    if g.Some? then Message(g.value) else Failure
  }

  /** The lengths are right and the message fits, but it ends with a skipped attribute and nothing is put behind it. */
  predicate Strays(hdr: seq<Byte>, attrs: seq<Attr>)
    requires |hdr| >= HEADER
  {
    && AllAccepted(attrs) && HEADER + |EncodeAll(Clear(attrs))| < 0x1_0000
    && Secret(attrs) == [] && !NeedsMac(hdr[5], attrs)
    && attrs != [] && !HasRule(attrs[|attrs| - 1].kind)
  }

  // ---- the two parts, attribute by attribute ----

  /** What the first n elements that satisfy p contribute. */
  function Gather<T>(xs: seq<T>, n: nat, p: T -> bool, f: T -> seq<Byte>): seq<Byte>
    requires n <= |xs|
  {
    if n == 0 then [] else Gather(xs, n - 1, p, f) + if p(xs[n - 1]) then f(xs[n - 1]) else []
  }

  lemma {:induction false} Gathered<T>(xs: seq<T>, n: nat, p: T -> bool, f: T -> seq<Byte>)
    requires n <= |xs|
    ensures Gather(xs, n, p, f) == Flatten(Keep(xs[..n], p), f)
  {
    if n > 0 {
      Gathered(xs, n - 1, p, f);
      assert xs[..n][..n - 1] == xs[..n - 1];
      if p(xs[n - 1]) {
        Snoc(Keep(xs[..n - 1], p), xs[n - 1], f);
      } else {
        assert Keep(xs[..n - 1], p) + [] == Keep(xs[..n - 1], p);
      }
    }
  }

  lemma GatheredAll(attrs: seq<Attr>)
    ensures Gather(attrs, |attrs|, IsClear, Form) == EncodeAll(Clear(attrs))
    ensures Gather(attrs, |attrs|, IsSecret, Form) == EncodeAll(Secret(attrs))
  {
    assert attrs[..|attrs|] == attrs;
    Gathered(attrs, |attrs|, IsClear, Form);
    Gathered(attrs, |attrs|, IsSecret, Form);
  }

  /** A prefix takes no more room than a longer one. */
  lemma {:induction false} Shorter<T>(xs: seq<T>, n: nat, m: nat, p: T -> bool, f: T -> seq<Byte>)
    requires n <= m <= |xs|
    ensures |Gather(xs, n, p, f)| <= |Gather(xs, m, p, f)|
    decreases m - n
  {
    if n < m { Shorter(xs, n + 1, m, p, f); }
  }

  /** The byte form as a function value, so that the loops below need not look into it. */
  ghost predicate Writes(form: Attr -> seq<Byte>) {
    forall a {:trigger Encode(a)} | Encodable(a) :: form(a) == Encode(a)
  }

  // ---- the first loop ----

  /** What generate needs to know of one attribute before it writes. */
  method MeasureOne(a: Attr, ghost form: Attr -> seq<Byte>) returns (ok: bool, size: nat, unphased: bool)
    requires Writes(form)
    ensures ok <==> Accepted(a)
    ensures ok ==> size == (if HasRule(a.kind) then |form(a)| else 0) && unphased == Unphased(a)
  {
    ok, size, unphased := true, 0, false;
    if HasRule(a.kind) {
      ok := LengthOk(a);
      if ok {
        SizeAgrees(a);
        size := SizeOf(a);
        if a.kind == AT_NOTIFICATION {
          unphased := !PBit(a);
        }
      }
    }
  }

  /** Room for the message and for the plaintext, and whether a notification lacks the P bit. */
  method Measure(attrs: seq<Attr>, ghost form: Attr -> seq<Byte>)
    returns (ok: bool, outLen: nat, encrLen: nat, noPBit: bool)
    requires Writes(form)
    ensures ok <==> AllAccepted(attrs)
    ensures ok ==> outLen == HEADER + |Gather(attrs, |attrs|, IsClear, form)|
    ensures ok ==> encrLen == |Gather(attrs, |attrs|, IsSecret, form)| && noPBit == NoPBit(attrs)
  {
    ok, outLen, encrLen, noPBit := true, HEADER, 0, false;
    var i := 0;
    while i < |attrs|
      invariant i <= |attrs| && forall k | 0 <= k < i :: Accepted(attrs[k])
      invariant outLen == HEADER + |Gather(attrs, i, IsClear, form)|
      invariant encrLen == |Gather(attrs, i, IsSecret, form)| && noPBit == NoPBit(attrs[..i])
    {
      var fits, size, unphased := MeasureOne(attrs[i], form);
      if !fits {
        assert attrs[i] in attrs;
        return false, 0, 0, false;
      }
      NotedNoPBit(attrs, i);
      noPBit := noPBit || unphased;
      if IsSecret(attrs[i]) {
        encrLen := encrLen + size;
      } else {
        outLen := outLen + size;
      }
      i := i + 1;
    }
    assert attrs[..i] == attrs;
  }

  // ---- filling a buffer from the front ----

  lemma PutExtends(s: seq<Byte>, done: seq<Byte>, t: seq<Byte>)
    requires done <= s && |done| + |t| <= |s|
    ensures done + t <= Overwritten(s, |done|, t)
  {
  }

  method Append(buf: array<Byte>, at: nat, t: seq<Byte>, ghost done: seq<Byte>) returns (next: nat)
    requires at == |done| && at + |t| <= buf.Length && done <= buf[..]
    modifies buf
    ensures next == at + |t| && done + t <= buf[..]
  {
    PutExtends(buf[..], done, t);
    Put(buf, at, t);
    next := at + |t|;
  }

  /** encode_attribute behind what has been written. */
  method WriteOne(a: Attr, buf: array<Byte>, at: nat, ghost done: seq<Byte>, ghost form: Attr -> seq<Byte>)
    returns (next: nat)
    requires Encodable(a) && Writes(form) && at == |done| && at + |form(a)| <= buf.Length && done <= buf[..]
    modifies buf
    ensures next == at + |form(a)| && done + form(a) <= buf[..]
  {
    SizeAgrees(a);
    PutExtends(buf[..], done, form(a));
    next := EncodeAttribute(a, buf, at);
  }

  // ---- the second loop ----

  /** What an attribute adds to the part p selects. */
  ghost function Share(a: Attr, p: Attr -> bool, form: Attr -> seq<Byte>): seq<Byte> {
    if p(a) then form(a) else []
  }

  /** One round of the second loop; it fails if the type of a skipped attribute has no place. */
  method WriteEither(a: Attr, out: array<Byte>, encr: array<Byte>, at: nat, encrAt: nat,
                     ghost form: Attr -> seq<Byte>, ghost done: seq<Byte>, ghost secret: seq<Byte>)
    returns (ok: bool, next: nat, encrNext: nat)
    requires Accepted(a) && Writes(form) && out != encr && at == |done| && encrAt == |secret|
    requires |done + Share(a, IsClear, form)| <= out.Length && done <= out[..]
    requires |secret + Share(a, IsSecret, form)| <= encr.Length && secret <= encr[..]
    modifies out, encr
    ensures ok <==> HasRule(a.kind) || at < out.Length
    ensures ok ==> next == |done + Share(a, IsClear, form)| && done + Share(a, IsClear, form) <= out[..]
    ensures ok ==> encrNext == |secret + Share(a, IsSecret, form)| && secret + Share(a, IsSecret, form) <= encr[..]
  {
    ok, next, encrNext := true, at, encrAt;
    assert done + [] == done && secret + [] == secret;
    if IsSecret(a) {
      encrNext := WriteOne(a, encr, encrAt, secret, form);
    } else if HasRule(a.kind) {
      next := WriteOne(a, out, at, done, form);
    } else if at < out.Length {
      out[at] := a.kind;
    } else {
      ok := false;
    }
  }

  /** Every skipped attribute among the first n finds the buffer of the message not yet full. */
  ghost predicate Placed(attrs: seq<Attr>, n: nat, room: nat, form: Attr -> seq<Byte>)
    requires n <= |attrs|
  {
    n == 0 || (Placed(attrs, n - 1, room, form)
               && (HasRule(attrs[n - 1].kind) || HEADER + |Gather(attrs, n - 1, IsClear, form)| < room))
  }

  lemma {:induction false} PlacedLess(attrs: seq<Attr>, n: nat, m: nat, room: nat, form: Attr -> seq<Byte>)
    requires n <= m <= |attrs| && Placed(attrs, m, room, form)
    ensures Placed(attrs, n, room, form)
    decreases m
  {
    if n < m { PlacedLess(attrs, n, m - 1, room, form); }
  }

  /** Enough room behind the first n for each of them. */
  lemma {:induction false} PlacedBelow(attrs: seq<Attr>, n: nat, m: nat, room: nat, form: Attr -> seq<Byte>)
    requires n <= m + 1 && n <= |attrs| && m <= |attrs| && HEADER + |Gather(attrs, m, IsClear, form)| < room
    ensures Placed(attrs, n, room, form)
  {
    if n > 0 {
      PlacedBelow(attrs, n - 1, m, room, form);
      Shorter(attrs, n - 1, m, IsClear, form);
    }
  }

  /** Each attribute into its buffer, behind the header. */
  method WriteAttributes(attrs: seq<Attr>, out: array<Byte>, encr: array<Byte>, ghost head: seq<Byte>,
                         ghost form: Attr -> seq<Byte>)
    returns (ok: bool, at: nat, encrAt: nat)
    requires AllAccepted(attrs) && Writes(form) && out != encr && |head| == HEADER && head <= out[..]
    requires HEADER + |Gather(attrs, |attrs|, IsClear, form)| <= out.Length
    requires |Gather(attrs, |attrs|, IsSecret, form)| <= encr.Length
    modifies out, encr
    ensures ok <==> Placed(attrs, |attrs|, out.Length, form)
    ensures ok ==> at == HEADER + |Gather(attrs, |attrs|, IsClear, form)|
    ensures ok ==> head + Gather(attrs, |attrs|, IsClear, form) <= out[..]
    ensures ok ==> encrAt == |Gather(attrs, |attrs|, IsSecret, form)|
    ensures ok ==> Gather(attrs, |attrs|, IsSecret, form) <= encr[..]
  {
    ok, at, encrAt := true, HEADER, 0;
    ghost var done, secret: seq<Byte> := head, [];
    assert head + [] == head;
    var i := 0;
    while i < |attrs|
      invariant i <= |attrs| && Placed(attrs, i, out.Length, form)
      invariant done == head + Gather(attrs, i, IsClear, form) && secret == Gather(attrs, i, IsSecret, form)
      invariant at == |done| && encrAt == |secret| && done <= out[..] && secret <= encr[..]
    {
      Shorter(attrs, i + 1, |attrs|, IsClear, form);
      Shorter(attrs, i + 1, |attrs|, IsSecret, form);
      Assoc(head, Gather(attrs, i, IsClear, form), Share(attrs[i], IsClear, form));
      ok, at, encrAt := WriteEither(attrs[i], out, encr, at, encrAt, form, done, secret);
      if !ok {
        if Placed(attrs, |attrs|, out.Length, form) {
          PlacedLess(attrs, i + 1, |attrs|, out.Length, form);
        }
        return;
      }
      done, secret := done + Share(attrs[i], IsClear, form), secret + Share(attrs[i], IsSecret, form);
      i := i + 1;
    }
  }

  // ---- encrypted data and MAC ----

  /** The attributes AT_IV and AT_ENCR_DATA, with the plaintext padded and encrypted where it lies. */
  method AddEncrypted(crypter: Crypter, rng: Rng, out: array<Byte>, at: nat, encr: array<Byte>, encrAt: nat,
                      ghost done: seq<Byte>, ghost secret: seq<Byte>)
    returns (ok: bool, next: nat)
    requires InPlace(crypter) && out != encr && |secret| % 4 == 0 && encrAt == |secret|
    requires encr.Length == |Plain(secret)| <= MAX_VALUE && secret <= encr[..]
    requires at == |done| && at + 24 + encr.Length <= out.Length && done <= out[..]
    modifies out, encr
    ensures ok <==> rng.Random? && crypter.encrypt(Plain(secret), rng.bytes).Some?
    ensures ok ==> var text := crypter.encrypt(Plain(secret), rng.bytes).value;
                   && |text| <= MAX_VALUE && next == at + 24 + encr.Length
                   && done + (IvAttr(rng.bytes) + EncrAttr(text)) <= out[..]
  {
    PadIsWords(encrAt);
    var pad := PadLen(encrAt, BLOCK);
    if pad > 0 {
      var _ := Append(encr, encrAt, [AT_PADDING, pad / 4] + Zeros(pad - 2), secret);
    } else {
      assert secret + [] == secret;
    }
    assert encr[..] == Plain(secret);
    if !rng.Random? {
      return false, at;
    }
    next := Append(out, at, IvAttr(rng.bytes), done);
    var text := crypter.encrypt(encr[..], rng.bytes);
    if text.None? {
      return false, next;
    }
    next := Append(out, next, EncrAttr(text.value), done + IvAttr(rng.bytes));
    Assoc(done, IvAttr(rng.bytes), EncrAttr(text.value));
    return true, next;
  }

  /** AT_MAC, at the end of the message: zeros while the signature is computed, then the signature. */
  method AddMac(signer: Signer, sigdata: seq<Byte>, out: array<Byte>, at: nat, ghost done: seq<Byte>)
    returns (ok: bool)
    requires at == |done| && at + 20 == out.Length && done <= out[..]
    modifies out
    ensures ok <==> signer(done + MacAttr(Zeros(BLOCK)) + sigdata).Some?
    ensures ok ==> out[..] == done + MacAttr(signer(done + MacAttr(Zeros(BLOCK)) + sigdata).value)
  {
    var next := Append(out, at, MacAttr(Zeros(BLOCK)), done);
    assert out[..] == done + MacAttr(Zeros(BLOCK));
    var mac := signer(out[..] + sigdata);
    if mac.None? {
      return false;
    }
    Put(out, next - BLOCK, mac.value);
    MacReplaced(done, Zeros(BLOCK), mac.value);
    return true;
  }

  lemma MacReplaced(done: seq<Byte>, x: Tag, y: Tag)
    ensures Overwritten(done + MacAttr(x), |done| + 4, y) == done + MacAttr(y)
  {
  }

  lemma MacAtEnd(hdr: seq<Byte>, body: seq<Byte>, mac: Tag, total: nat)
    requires |hdr| >= HEADER && total == HEADER + |body| + 20 < 0x1_0000
    ensures Head(hdr, total) + body + MacAttr(mac) == Framed(hdr, body + MacAttr(mac))
  {
  }

  /** The message with its MAC, around a body that stands in the buffer already. */
  method FinishMac(hdr: seq<Byte>, crypto: Crypto, sigdata: seq<Byte>, out: array<Byte>, at: nat, ghost body: seq<Byte>)
    returns (r: Option<seq<Byte>>)
    requires |hdr| >= HEADER && crypto.signer.Some? && at == HEADER + |body| && at + 20 == out.Length < 0x1_0000
    requires Head(hdr, out.Length) + body <= out[..]
    modifies out
    ensures r == Maced(hdr, body, crypto, sigdata)
  {
    MacAtEnd(hdr, body, Zeros(BLOCK), out.Length);
    var signed := AddMac(crypto.signer.value, sigdata, out, at, Head(hdr, out.Length) + body);
    if !signed {
      return None;
    }
    MacAtEnd(hdr, body, crypto.signer.value(Framed(hdr, body + MacAttr(Zeros(BLOCK))) + sigdata).value, out.Length);
    return Some(out[..]);
  }

  /** The message behind its clear attributes. */
  method Finish(hdr: seq<Byte>, crypto: Crypto, sigdata: seq<Byte>, addMac: bool, out: array<Byte>, start: nat,
                encr: array<Byte>, encrAt: nat, ghost clear: seq<Byte>, ghost secret: seq<Byte>)
    returns (r: Option<seq<Byte>>)
    requires |hdr| >= HEADER && out != encr && |secret| % 4 == 0 && encrAt == |secret| && secret <= encr[..]
    requires encr.Length == |Plain(secret)| <= MAX_VALUE && (encr.Length > 0 <==> secret != [])
    requires encr.Length > 0 ==> crypto.crypter.Some? && InPlace(crypto.crypter.value)
    requires addMac ==> crypto.signer.Some?
    requires out.Length == OutLength(|clear|, encr.Length, addMac) < 0x1_0000
    requires start == HEADER + |clear| && Head(hdr, out.Length) + clear <= out[..]
    modifies out, encr
    ensures r == Assembled(hdr, clear, secret, addMac, crypto, sigdata)
  {
    ghost var e: seq<Byte> := [];
    var at := start;
    if encr.Length > 0 {
      var ok;
      ok, at := AddEncrypted(crypto.crypter.value, crypto.rng, out, at, encr, encrAt,
                             Head(hdr, out.Length) + clear, secret);
      if !ok {
        return None;
      }
      e := EncryptedPart(crypto, secret).value;
    }
    assert EncryptedPart(crypto, secret) == Some(e);
    Assoc(Head(hdr, out.Length), clear, e);
    assert clear + [] == clear;
    if addMac {
      r := FinishMac(hdr, crypto, sigdata, out, at, clear + e);
      return;
    }
    assert out[..] == Head(hdr, out.Length) + (clear + e);
    return Some(out[..]);
  }

  /** out_len, from the lengths of the clear part and of the padded plaintext. */
  function OutLength(clear: nat, encr: nat, addMac: bool): nat {
    HEADER + clear + (if encr > 0 then 24 + encr else 0) + (if addMac then 20 else 0)
  }

  // ---- the whole ----

  /** The message, once the room it takes is known. */
  method Fill(hdr: seq<Byte>, attrs: seq<Attr>, crypto: Crypto, sigdata: seq<Byte>, addMac: bool, outLen: nat,
              encrLen: nat, ghost form: Attr -> seq<Byte>, ghost clear: seq<Byte>, ghost secret: seq<Byte>)
    returns (r: Generation)
    requires |hdr| >= HEADER && AllAccepted(attrs) && Writes(form)
    requires clear == Gather(attrs, |attrs|, IsClear, form) && secret == Gather(attrs, |attrs|, IsSecret, form)
    requires |secret| % 4 == 0 && encrLen == |Plain(secret)| <= MAX_VALUE && (encrLen > 0 <==> secret != [])
    requires encrLen > 0 ==> crypto.crypter.Some? && InPlace(crypto.crypter.value)
    requires addMac ==> crypto.signer.Some?
    requires outLen == OutLength(|clear|, encrLen, addMac) < 0x1_0000
    ensures r == if Placed(attrs, |attrs|, outLen, form)
                 then Made(Assembled(hdr, clear, secret, addMac, crypto, sigdata)) else NoPlace
  {
    var out := new Byte[outLen];
    var encr := new Byte[encrLen];
    var _ := Append(out, 0, Head(hdr, outLen), []);
    assert [] + Head(hdr, outLen) == Head(hdr, outLen);
    var ok, at, encrAt := WriteAttributes(attrs, out, encr, Head(hdr, outLen), form);
    if !ok {
      return NoPlace;
    }
    var g := Finish(hdr, crypto, sigdata, addMac, out, at, encr, encrAt, clear, secret);
    return Made(g);
  }

  /** The part of generate between its two loops. */
  method Compose(hdr: seq<Byte>, attrs: seq<Attr>, crypto: Crypto, sigdata: seq<Byte>, addMac: bool, clearEnd: nat,
                 secretLen: nat, ghost form: Attr -> seq<Byte>, ghost clear: seq<Byte>, ghost secret: seq<Byte>)
    returns (r: Generation)
    requires |hdr| >= HEADER && AllAccepted(attrs) && Writes(form)
    requires clear == Gather(attrs, |attrs|, IsClear, form) && secret == Gather(attrs, |attrs|, IsSecret, form)
    requires clearEnd == HEADER + |clear| && secretLen == |secret| && |secret| % 4 == 0
    requires crypto.crypter.Some? ==> InPlace(crypto.crypter.value)
    ensures r == if secret == [] && !addMac && clearEnd < 0x1_0000 && !Placed(attrs, |attrs|, clearEnd, form)
                 then NoPlace else Made(Assembled(hdr, clear, secret, addMac, crypto, sigdata))
  {
    var outLen, encrLen := clearEnd, secretLen;
    if secretLen > 0 {
      if crypto.crypter.None? || crypto.rng == NoRng {
        return Failure;
      }
      encrLen := encrLen + PadLen(encrLen, BLOCK);
      assert encrLen == |Plain(secret)|;
      if encrLen > MAX_VALUE {
        return Failure;
      }
      outLen := outLen + 24 + encrLen;
    }
    if addMac {
      if crypto.signer.None? {
        return Failure;
      }
      outLen := outLen + 20;
    }
    if outLen > 0xFFFF {
      PartLength(crypto, secret);
      return Failure;
    }
    if outLen > clearEnd {
      PlacedBelow(attrs, |attrs|, |attrs|, outLen, form);
    }
    r := Fill(hdr, attrs, crypto, sigdata, addMac, outLen, encrLen, form, clear, secret);
  }

  lemma PartLength(crypto: Crypto, secret: seq<Byte>)
    requires |secret| % 4 == 0 && (crypto.crypter.Some? ==> InPlace(crypto.crypter.value))
    ensures EncryptedPart(crypto, secret).Some? ==>
              |EncryptedPart(crypto, secret).value| == if secret == [] then 0 else 24 + |Plain(secret)|
  {
  }

  lemma FormWrites()
    ensures Writes(Form)
  {
  }

  /** With nothing behind them, a skipped attribute has no place if and only if the last attribute is skipped. */
  lemma LastHasNoPlace(attrs: seq<Attr>)
    requires AllAccepted(attrs) && Secret(attrs) == []
    ensures Placed(attrs, |attrs|, HEADER + |Gather(attrs, |attrs|, IsClear, Form)|, Form)
            <==> attrs == [] || HasRule(attrs[|attrs| - 1].kind)
  {
    var n := |attrs|;
    if n > 0 {
      var room := HEADER + |Gather(attrs, n, IsClear, Form)|;
      if HasRule(attrs[n - 1].kind) {
        LastIsClear(attrs);
        PlacedBelow(attrs, n, n - 1, room, Form);
      } else {
        Passes(attrs, n, IsClear, Form);
        LastUnplaced(attrs, room, Form);
      }
    }
  }

  lemma Passes<T>(xs: seq<T>, n: nat, p: T -> bool, f: T -> seq<Byte>)
    requires 0 < n <= |xs| && !p(xs[n - 1])
    ensures Gather(xs, n, p, f) == Gather(xs, n - 1, p, f)
  {
  }

  lemma LastUnplaced(attrs: seq<Attr>, room: nat, form: Attr -> seq<Byte>)
    requires attrs != [] && !HasRule(attrs[|attrs| - 1].kind)
    requires HEADER + |Gather(attrs, |attrs| - 1, IsClear, form)| >= room
    ensures !Placed(attrs, |attrs|, room, form)
  {
  }

  lemma LastIsClear(attrs: seq<Attr>)
    requires AllAccepted(attrs) && Secret(attrs) == [] && attrs != [] && HasRule(attrs[|attrs| - 1].kind)
    ensures |Gather(attrs, |attrs| - 1, IsClear, Form)| < |Gather(attrs, |attrs|, IsClear, Form)|
  {
    var a := attrs[|attrs| - 1];
    assert a in attrs;
    assert !IsSecret(a);
    FormIsWords(a);
  }

  /** generate: the whole message or a failure as a function of header, attributes and keys; it writes behind the end of
      its buffer if and only if the last attribute is skipped and nothing follows. */
  method Generate(hdr: seq<Byte>, attrs: seq<Attr>, crypto: Crypto, sigdata: seq<Byte>) returns (r: Generation)
    requires |hdr| >= HEADER && (crypto.crypter.Some? ==> InPlace(crypto.crypter.value))
    ensures r == if Strays(hdr, attrs) then NoPlace else Made(Generated(hdr, attrs, crypto, sigdata))
  {
    ghost var clear, secret := EncodeAll(Clear(attrs)), EncodeAll(Secret(attrs));
    FormWrites();
    GatheredAll(attrs);
    WholeWords(Secret(attrs));
    var ok, outLen, encrLen, noPBit := Measure(attrs, Form);
    if !ok {
      return Failure;
    }
    var addMac := AlwaysSigned(hdr[5]) || (hdr[5] == SIM_NOTIFICATION && noPBit);
    StraysExactly(hdr, attrs);
    r := Compose(hdr, attrs, crypto, sigdata, addMac, outLen, encrLen, Form, clear, secret);
  }

  lemma StraysExactly(hdr: seq<Byte>, attrs: seq<Attr>)
    requires |hdr| >= HEADER && AllAccepted(attrs)
    ensures var end := HEADER + |EncodeAll(Clear(attrs))|;
            Strays(hdr, attrs)
            <==> EncodeAll(Secret(attrs)) == [] && !NeedsMac(hdr[5], attrs) && end < 0x1_0000
                 && !Placed(attrs, |attrs|, end, Form)
  {
    GatheredAll(attrs);
    SecretsShow(attrs);
    if Secret(attrs) == [] {
      LastHasNoPlace(attrs);
    }
  }

  /** A start message whose only attribute is AT_CHECKCODE, for which there is no rule, is such a case. */
  lemma SkippedAloneStrays()
    ensures Strays([EAP_REQUEST, 0, 0, 0, EAP_SIM, SIM_START, 0, 0], [Attr(AT_CHECKCODE, [])])
  {
    var a := Attr(AT_CHECKCODE, []);
    assert [a][..0] == [];
    assert Keep([a], IsClear) == Keep([], IsClear) + [] && Keep([a], IsSecret) == Keep([], IsSecret) + [];
  }

  /** Secret attributes take up room. */
  lemma SecretsShow(attrs: seq<Attr>)
    requires AllAccepted(attrs)
    ensures EncodeAll(Secret(attrs)) == [] <==> Secret(attrs) == []
  {
    var secret := Secret(attrs);
    if secret != [] {
      var a := secret[|secret| - 1];
      assert a in secret;
      FormIsWords(a);
    }
  }
}
