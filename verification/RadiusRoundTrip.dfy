/** What is built is read back, and what is signed is accepted. */
module RadiusRoundTrip {
  import opened Bytes
  import opened Words
  import opened RadiusCrypt
  import opened RadiusMessages

  predicate AllFit(attrs: seq<Attr>) {
    forall a | a in attrs :: Fits(a)
  }

  predicate Sendable(attrs: seq<Attr>) {
    AllFit(attrs) && HEADER + |EncodeAll(attrs)| < 0x1_0000
  }

  predicate Lacks(attrs: seq<Attr>, kind: Byte) {
    forall a | a in attrs :: a.kind != kind
  }

  // ---- reading back ----

  lemma {:induction false} EncodeAppend(attrs: seq<Attr>, more: seq<Attr>)
    requires AllFit(attrs) && AllFit(more)
    ensures AllFit(attrs + more) && EncodeAll(attrs + more) == EncodeAll(attrs) + EncodeAll(more)
  {
    if attrs == [] {
      assert attrs + more == more;
    } else {
      EncodeAppend(attrs[1..], more);
      assert (attrs + more)[1..] == attrs[1..] + more;
    }
  }

  lemma EncodeOne(a: Attr)
    requires Fits(a)
    ensures EncodeAll([a]) == Encode(a)
  {
    assert [a][1..] == [];
  }

  /** An encoded attribute is read as itself wherever it stands. */
  lemma ReadEncoded(pre: seq<Byte>, a: Attr, post: seq<Byte>)
    requires Fits(a)
    ensures AttrAt(pre + Encode(a) + post, |pre|) == Some(a)
    ensures Encode(a)[0] == a.kind && Encode(a)[1] == |Encode(a)| && Encode(a)[2..] == a.data
  {
    var m := pre + Encode(a) + post;
    assert m[|pre|] == a.kind && m[|pre| + 1] == |a.data| + 2;
    assert m[|pre| + 2..|pre| + 2 + |a.data|] == a.data;
  }

  /** The first of several encoded attributes. */
  lemma ReadFirst(pre: seq<Byte>, attrs: seq<Attr>, post: seq<Byte>)
    requires AllFit(attrs) && attrs != []
    ensures var m := pre + EncodeAll(attrs) + post;
            AttrAt(m, |pre|) == Some(attrs[0]) && m == (pre + Encode(attrs[0])) + EncodeAll(attrs[1..]) + post
  {
    ReadEncoded(pre, attrs[0], EncodeAll(attrs[1..]) + post);
    FourParts(pre, Encode(attrs[0]), EncodeAll(attrs[1..]), post);
  }

  lemma {:induction false} ReadAllEncoded(pre: seq<Byte>, attrs: seq<Attr>, m: seq<Byte>)
    requires AllFit(attrs) && m == pre + EncodeAll(attrs) + []
    ensures Attributes(m, |pre|) == attrs
    decreases |attrs|
  {
    if attrs != [] {
      ReadFirst(pre, attrs, []);
      ReadAllEncoded(pre + Encode(attrs[0]), attrs[1..], m);
    }
  }

  function Front(code: Byte, id: Byte, authenticator: Digest, total: U16): (r: seq<Byte>)
    ensures |r| == HEADER
  {
    [code, id] + PutU16(total) + authenticator
  }

  /** The enumerator yields exactly the attributes of a message. */
  lemma MessageReadBack(code: Byte, id: Byte, auth: Digest, attrs: seq<Attr>)
    requires Sendable(attrs)
    ensures var m := Message(code, id, auth, attrs);
            WellFormed(m) && Attributes(m, HEADER) == attrs && Authenticator(m) == auth && m[0] == code
  {
    var total := HEADER + |EncodeAll(attrs)|;
    assert Message(code, id, auth, attrs) == Front(code, id, auth, total) + EncodeAll(attrs) + [];
    ReadAllEncoded(Front(code, id, auth, total), attrs, Message(code, id, auth, attrs));
    U16RoundTrip([code, id], total, auth + EncodeAll(attrs));
    assert Message(code, id, auth, attrs) == [code, id] + PutU16(total) + (auth + EncodeAll(attrs));
  }

  /** A message as section 3 of RFC 2865 lays it out, with the length in network order. */
  lemma MessageLayout(code: Byte, id: Byte, auth: Digest, attrs: seq<Attr>)
    requires Sendable(attrs)
    ensures var m := Message(code, id, auth, attrs);
            && |m| == 20 + |EncodeAll(attrs)| && m[..4] == [code, id, |m| / 256, |m| % 256]
            && m[4..20] == auth && m[20..] == EncodeAll(attrs)
  {
    var total := HEADER + |EncodeAll(attrs)|;
    assert Message(code, id, auth, attrs) == [code, id, total / 256, total % 256] + auth + EncodeAll(attrs);
  }

  // ---- patches of a message ----

  lemma AuthenticatorReplaced(code: Byte, id: Byte, auth: Digest, attrs: seq<Attr>, now: Digest)
    requires Sendable(attrs)
    ensures WithAuthenticator(Message(code, id, auth, attrs), now) == Message(code, id, now, attrs)
  {
  }

  lemma AttributeAppended(code: Byte, id: Byte, auth: Digest, attrs: seq<Attr>, a: Attr)
    requires Sendable(attrs) && Fits(a) && HEADER + |EncodeAll(attrs)| + 2 + |a.data| < 0x1_0000
    ensures WellFormed(Message(code, id, auth, attrs)) && Sendable(attrs + [a])
    ensures Appended(Message(code, id, auth, attrs), a) == Message(code, id, auth, attrs + [a])
  {
    MessageReadBack(code, id, auth, attrs);
    EncodeOne(a);
    EncodeAppend(attrs, [a]);
    var total := HEADER + |EncodeAll(attrs)|;
    AppendedShort(Message(code, id, auth, attrs), a);
    Relengthed(code, id, auth, total, total + 2 + |a.data|, EncodeAll(attrs));
    Assoc(Front(code, id, auth, total + 2 + |a.data|), EncodeAll(attrs), Encode(a));
  }

  lemma AppendedShort(m: seq<Byte>, a: Attr)
    requires WellFormed(m) && Fits(a) && |m| + 2 + |a.data| < 0x1_0000
    ensures WellFormed(Appended(m, a)) && Appended(m, a) == m[..2] + PutU16(|m| + 2 + |a.data|) + m[4..] + Encode(a)
  {
    assert (|m| + 2 + |a.data|) % 0x1_0000 == |m| + 2 + |a.data|;
  }

  lemma Relengthed(code: Byte, id: Byte, auth: Digest, total: U16, now: U16, rest: seq<Byte>)
    ensures var m := Front(code, id, auth, total) + rest;
            m[..2] + PutU16(now) + m[4..] == Front(code, id, auth, now) + rest
  {
  }

  /** Patching the value of the last attribute, if it has 16 bytes. */
  lemma LastPatched(code: Byte, id: Byte, auth: Digest, attrs: seq<Attr>, kind: Byte, x: Digest, y: Digest)
    requires Sendable(attrs) && HEADER + |EncodeAll(attrs)| + 18 < 0x1_0000
    ensures Sendable(attrs + [Attr(kind, x)]) && Sendable(attrs + [Attr(kind, y)])
    ensures var m := Message(code, id, auth, attrs + [Attr(kind, x)]);
            |m| == HEADER + |EncodeAll(attrs)| + 18
            && Overwritten(m, |m| - 16, y) == Message(code, id, auth, attrs + [Attr(kind, y)])
  {
    EncodeOne(Attr(kind, x));
    EncodeOne(Attr(kind, y));
    EncodeAppend(attrs, [Attr(kind, x)]);
    EncodeAppend(attrs, [Attr(kind, y)]);
    PatchTail(Front(code, id, auth, HEADER + |EncodeAll(attrs)| + 18) + EncodeAll(attrs) + [kind, 18], x, y);
    Tail(Front(code, id, auth, HEADER + |EncodeAll(attrs)| + 18), EncodeAll(attrs), [kind, 18], x);
    Tail(Front(code, id, auth, HEADER + |EncodeAll(attrs)| + 18), EncodeAll(attrs), [kind, 18], y);
  }

  lemma PatchTail(pre: seq<Byte>, x: Digest, y: Digest)
    ensures Overwritten(pre + x, |pre|, y) == pre + y
  {
  }

  lemma Tail(a: seq<Byte>, b: seq<Byte>, c: seq<Byte>, d: seq<Byte>)
    ensures a + (b + (c + d)) == a + b + c + d
  {
  }

  // ---- building ----

  /** The attributes that adding a list leaves in the message: a User-Password is kept back while none is stored. */
  function Kept(ops: seq<Attr>, stored: bool): (r: seq<Attr>)
    ensures AllFit(r)
  {
    if ops == [] then []
    else if ops[0].kind == RAT_USER_PASSWORD && !stored then Kept(ops[1..], ops[0].data != [])
    else [Attr(ops[0].kind, Cut(ops[0].data))] + Kept(ops[1..], stored)
  }

  predicate RoomForAll(d: Draft, ops: seq<Attr>)
    decreases |ops|
  {
    && WellFormed(d.msg)
    && (ops == [] || (Room(d, ops[0].kind, ops[0].data) && RoomForAll(Added(d, ops[0].kind, ops[0].data), ops[1..])))
  }

  function AddAll(d: Draft, ops: seq<Attr>): (r: Draft)
    requires RoomForAll(d, ops)
    ensures WellFormed(r.msg)
    decreases |ops|
  {
    if ops == [] then d else AddAll(Added(d, ops[0].kind, ops[0].data), ops[1..])
  }

  lemma RoomForOne(attrs: seq<Attr>, a: Attr, rest: seq<Attr>)
    requires AllFit(attrs) && Fits(a) && AllFit(rest) && Sendable(attrs + ([a] + rest))
    ensures attrs + ([a] + rest) == (attrs + [a]) + rest
    ensures Sendable(attrs) && AllFit(attrs + [a]) && HEADER + |EncodeAll(attrs)| + 2 + |a.data| < 0x1_0000
  {
    Regroup(attrs, a, rest);
    EncodeOne(a);
    EncodeAppend(attrs, [a]);
    EncodeAppend(attrs + [a], rest);
  }

  lemma IsWellFormed(code: Byte, id: Byte, auth: Digest, attrs: seq<Attr>)
    requires Sendable(attrs)
    ensures WellFormed(Message(code, id, auth, attrs))
  {
    MessageReadBack(code, id, auth, attrs);
  }

  lemma AddedOne(code: Byte, id: Byte, auth: Digest, attrs: seq<Attr>, password: seq<Byte>, op: Attr)
    requires Sendable(attrs) && HEADER + |EncodeAll(attrs)| + 2 + |Cut(op.data)| < 0x1_0000
    requires op.kind != RAT_USER_PASSWORD || password != []
    ensures WellFormed(Message(code, id, auth, attrs)) && Sendable(attrs + [Attr(op.kind, Cut(op.data))])
    ensures Added(Draft(Message(code, id, auth, attrs), password), op.kind, op.data)
            == Draft(Message(code, id, auth, attrs + [Attr(op.kind, Cut(op.data))]), password)
  {
    AttributeAppended(code, id, auth, attrs, Attr(op.kind, Cut(op.data)));
  }

  lemma {:induction false} AddedIsMessage(code: Byte, id: Byte, auth: Digest, attrs: seq<Attr>, password: seq<Byte>,
                                          ops: seq<Attr>)
    requires AllFit(attrs) && Sendable(attrs + Kept(ops, password != []))
    ensures Sendable(attrs) && RoomForAll(Draft(Message(code, id, auth, attrs), password), ops)
    ensures AddAll(Draft(Message(code, id, auth, attrs), password), ops).msg
            == Message(code, id, auth, attrs + Kept(ops, password != []))
    decreases |ops|
  {
    EncodeAppend(attrs, Kept(ops, password != []));
    IsWellFormed(code, id, auth, attrs);
    if ops == [] {
      assert attrs + [] == attrs;
    } else if ops[0].kind == RAT_USER_PASSWORD && password == [] {
      AddedIsMessage(code, id, auth, attrs, Padded(ops[0].data), ops[1..]);
    } else {
      var a, rest := Attr(ops[0].kind, Cut(ops[0].data)), Kept(ops[1..], password != []);
      RoomForOne(attrs, a, rest);
      AddedOne(code, id, auth, attrs, password, ops[0]);
      AddedIsMessage(code, id, auth, attrs + [a], password, ops[1..]);
    }
  }

  /** A message built by repeated add enumerates back as the same attributes, cut to 253 bytes. */
  lemma BuiltReadsBack(code: Byte, ops: seq<Attr>)
    requires HEADER + |EncodeAll(Kept(ops, false))| < 0x1_0000
    ensures RoomForAll(Draft(Message(code, 0, Zeros(16), []), []), ops)
    ensures Attributes(AddAll(Draft(Message(code, 0, Zeros(16), []), []), ops).msg, HEADER) == Kept(ops, false)
  {
    assert [] + Kept(ops, false) == Kept(ops, false);
    AddedIsMessage(code, 0, Zeros(16), [], [], ops);
    MessageReadBack(code, 0, Zeros(16), Kept(ops, false));
  }

  // ---- signing and verifying ----

  lemma ScanFirst(scan: Scanner, sign: Signer, pre: seq<Byte>, attrs: seq<Attr>, post: seq<Byte>, eap: bool,
                  q: seq<Byte>)
    requires AllFit(attrs) && attrs != [] && attrs[0].kind != RAT_MESSAGE_AUTHENTICATOR
    requires q == pre + EncodeAll(attrs) + post && Scans(scan, sign, q)
    ensures scan(|pre|, eap) == scan(|pre + Encode(attrs[0])|, eap || attrs[0].kind == RAT_EAP_MESSAGE)
    ensures q == (pre + Encode(attrs[0])) + EncodeAll(attrs[1..]) + post
  {
    ReadFirst(pre, attrs, post);
    ScanOne(scan, sign, q, |pre|, attrs[0], eap);
  }

  /** Verify passes over attributes that are not a Message-Authenticator, noting an EAP-Message. */
  lemma {:induction false} ScanPasses(scan: Scanner, sign: Signer, pre: seq<Byte>, attrs: seq<Attr>, post: seq<Byte>,
                                      eap: bool, q: seq<Byte>)
    requires AllFit(attrs) && Lacks(attrs, RAT_MESSAGE_AUTHENTICATOR) && q == pre + EncodeAll(attrs) + post
             && Scans(scan, sign, q)
    ensures scan(|pre|, eap) == scan(|pre| + |EncodeAll(attrs)|, eap || !Lacks(attrs, RAT_EAP_MESSAGE))
    decreases |attrs|
  {
    if attrs != [] {
      var a, rest := attrs[0], attrs[1..];
      ScanFirst(scan, sign, pre, attrs, post, eap, q);
      ScanPasses(scan, sign, pre + Encode(a), rest, post, eap || a.kind == RAT_EAP_MESSAGE, q);
      LacksCons(attrs, RAT_EAP_MESSAGE);
    }
  }

  lemma LacksCons(attrs: seq<Attr>, kind: Byte)
    requires attrs != []
    ensures Lacks(attrs, kind) <==> attrs[0].kind != kind && Lacks(attrs[1..], kind)
  {
    assert attrs == [attrs[0]] + attrs[1..];
  }

  /** Without a Message-Authenticator, the attributes pass if and only if there is no EAP-Message. */
  lemma ScanWithoutMac(sign: Signer, code: Byte, id: Byte, auth: Digest, attrs: seq<Attr>)
    requires Sendable(attrs) && Lacks(attrs, RAT_MESSAGE_AUTHENTICATOR)
    ensures Scan(sign, Message(code, id, auth, attrs)) <==> Lacks(attrs, RAT_EAP_MESSAGE)
  {
    var front := Front(code, id, auth, HEADER + |EncodeAll(attrs)|);
    assert front + EncodeAll(attrs) + [] == Message(code, id, auth, attrs);
    var q := Message(code, id, auth, attrs);
    var scan := Scanning(sign, q, HEADER);
    ScanPasses(scan, sign, front, attrs, [], false, q);
    assert scan(|q|, !Lacks(attrs, RAT_EAP_MESSAGE)) == Found(sign, q, |q|, !Lacks(attrs, RAT_EAP_MESSAGE));
  }

  /** With one behind them, they pass if and only if it is the signature of the message with zeros in its place. */
  lemma ScanWithMac(sign: Signer, code: Byte, id: Byte, auth: Digest, attrs: seq<Attr>, mac: Digest)
    requires Sendable(attrs) && Lacks(attrs, RAT_MESSAGE_AUTHENTICATOR) && HEADER + |EncodeAll(attrs)| + 18 < 0x1_0000
    ensures Sendable(attrs + [Attr(RAT_MESSAGE_AUTHENTICATOR, mac)])
            && Sendable(attrs + [Attr(RAT_MESSAGE_AUTHENTICATOR, Zeros(16))])
    ensures Scan(sign, Message(code, id, auth, attrs + [Attr(RAT_MESSAGE_AUTHENTICATOR, mac)]))
            <==> sign(Message(code, id, auth, attrs + [Attr(RAT_MESSAGE_AUTHENTICATOR, Zeros(16))])) == Some(mac)
  {
    LastPatched(code, id, auth, attrs, RAT_MESSAGE_AUTHENTICATOR, mac, Zeros(16));
    var q, front := MessageTail(code, id, auth, attrs, Attr(RAT_MESSAGE_AUTHENTICATOR, mac));
    var scan := Scanning(sign, q, HEADER);
    ScanToMac(scan, sign, front, attrs, mac, q);
  }

  lemma ScanToMac(scan: Scanner, sign: Signer, front: seq<Byte>, attrs: seq<Attr>, mac: Digest, q: seq<Byte>)
    requires AllFit(attrs) && Lacks(attrs, RAT_MESSAGE_AUTHENTICATOR) && Scans(scan, sign, q)
    requires q == front + EncodeAll(attrs) + Encode(Attr(RAT_MESSAGE_AUTHENTICATOR, mac))
    ensures Satisfied(scan(|front|, false)) <==> sign(Overwritten(q, |q| - 16, Zeros(16))) == Some(mac)
  {
    var last := Encode(Attr(RAT_MESSAGE_AUTHENTICATOR, mac));
    ScanPasses(scan, sign, front, attrs, last, false, q);
    assert front + EncodeAll(attrs) + last + [] == q;
    ScanMac(scan, sign, front + EncodeAll(attrs), mac, !Lacks(attrs, RAT_EAP_MESSAGE), q);
  }

  /** A message with one more attribute, in parts. */
  lemma MessageTail(code: Byte, id: Byte, auth: Digest, attrs: seq<Attr>, a: Attr)
    returns (q: seq<Byte>, front: seq<Byte>)
    requires Sendable(attrs) && Fits(a) && HEADER + |EncodeAll(attrs)| + 2 + |a.data| < 0x1_0000
    ensures Sendable(attrs + [a]) && q == Message(code, id, auth, attrs + [a]) && |front| == HEADER
    ensures q == front + EncodeAll(attrs) + Encode(a)
  {
    EncodeOne(a);
    EncodeAppend(attrs, [a]);
    q, front := Message(code, id, auth, attrs + [a]), Front(code, id, auth, HEADER + |EncodeAll(attrs)| + 2 + |a.data|);
    Assoc(front, EncodeAll(attrs), Encode(a));
  }

  /** What verify makes of a Message-Authenticator at the end. */
  lemma ScanMac(scan: Scanner, sign: Signer, pre: seq<Byte>, mac: Digest, eap: bool, q: seq<Byte>)
    requires q == pre + Encode(Attr(RAT_MESSAGE_AUTHENTICATOR, mac)) + [] && Scans(scan, sign, q)
    ensures Satisfied(scan(|pre|, eap)) <==> sign(Overwritten(q, |q| - 16, Zeros(16))) == Some(mac)
  {
    ReadEncoded(pre, Attr(RAT_MESSAGE_AUTHENTICATOR, mac), []);
    assert scan(|pre|, eap) == Found(sign, q, |pre|, eap);
  }

  /** The attributes of a signed message. */
  function SignedAttrs(attrs: seq<Attr>, hidden: seq<Byte>): seq<Attr> {
    if hidden == [] then attrs else attrs + [Attr(RAT_USER_PASSWORD, Cut(hidden))]
  }

  /** A request is signed with a random authenticator, any other message with the one of its request. */
  predicate Matching(code: Byte, rng: Rng) {
    if code == RMC_ACCESS_REQUEST then rng.Random? else rng.NoRng?
  }

  lemma WithPasswordIsMessage(code: Byte, id: Byte, auth: Digest, attrs: seq<Attr>, hidden: seq<Byte>)
    requires Sendable(attrs) && HEADER + |EncodeAll(attrs)| + PasswordRoom(|hidden|) < 0x1_0000
    ensures WellFormed(Message(code, id, auth, attrs)) && Sendable(SignedAttrs(attrs, hidden))
    ensures WithPassword(Message(code, id, auth, attrs), hidden) == Message(code, id, auth, SignedAttrs(attrs, hidden))
    ensures |EncodeAll(SignedAttrs(attrs, hidden))| == |EncodeAll(attrs)| + PasswordRoom(|hidden|)
  {
    MessageReadBack(code, id, auth, attrs);
    if hidden != [] {
      var a := Attr(RAT_USER_PASSWORD, Cut(hidden));
      AttributeAppended(code, id, auth, attrs, a);
      EncodeOne(a);
      EncodeAppend(attrs, [a]);
    }
  }

  lemma WithMacIsMessage(sign: Signer, code: Byte, id: Byte, auth: Digest, attrs: seq<Attr>)
    requires Sendable(attrs) && HEADER + |EncodeAll(attrs)| + 18 < 0x1_0000
    ensures WellFormed(Message(code, id, auth, attrs)) && Sendable(attrs + [Attr(RAT_MESSAGE_AUTHENTICATOR, Zeros(16))])
    ensures var mac := sign(Message(code, id, auth, attrs + [Attr(RAT_MESSAGE_AUTHENTICATOR, Zeros(16))]));
            && WithMac(sign, Message(code, id, auth, attrs)).Some? == mac.Some?
            && (mac.Some? ==> && Sendable(attrs + [Attr(RAT_MESSAGE_AUTHENTICATOR, mac.value)])
                              && WithMac(sign, Message(code, id, auth, attrs))
                                 == Some(Message(code, id, auth, attrs + [Attr(RAT_MESSAGE_AUTHENTICATOR, mac.value)])))
  {
    AttributeAppended(code, id, auth, attrs, Attr(RAT_MESSAGE_AUTHENTICATOR, Zeros(16)));
    var mac := sign(Message(code, id, auth, attrs + [Attr(RAT_MESSAGE_AUTHENTICATOR, Zeros(16))]));
    if mac.Some? {
      LastPatched(code, id, auth, attrs, RAT_MESSAGE_AUTHENTICATOR, Zeros(16), mac.value);
    }
  }

  /** What verify makes of a message that sign finished, once the message before the last step is known. */
  lemma SealedIsAccepted(h: Hasher, sign: Signer, secret: seq<Byte>, rng: Rng, req: Option<Digest>,
                         code: Byte, id: Byte, attrs: seq<Attr>, s: seq<Byte>)
    requires Sendable(attrs) && Matching(code, rng)
    requires var m := Message(code, id, BaseAuthenticator(rng, req), attrs);
             if rng == NoRng then Sealed(h, secret, m) == Some(s) else s == m
    ensures |s| >= HEADER
    ensures Accepts(h, sign, secret, req, s)
            <==> Scan(sign, Message(code, id, BaseAuthenticator(rng, req), attrs))
  {
    var base := BaseAuthenticator(rng, req);
    var m := Message(code, id, base, attrs);
    MessageReadBack(code, id, base, attrs);
    if rng == NoRng {
      var d := h(m + secret).value;
      AuthenticatorReplaced(code, id, base, attrs, d);
      AuthenticatorReplaced(code, id, d, attrs, base);
      MessageReadBack(code, id, d, attrs);
    }
  }

  /** The attributes sign leaves, with or without a Message-Authenticator at the end. */
  lemma SignedForm(h: Hasher, sign: Signer, secret: seq<Byte>, rng: Rng, req: Option<Digest>, msgAuth: bool,
                   code: Byte, id: Byte, auth: Digest, attrs: seq<Attr>, hidden: seq<Byte>, s: seq<Byte>)
    returns (all: seq<Attr>)
    requires Sendable(attrs) && Lacks(attrs, RAT_MESSAGE_AUTHENTICATOR)
    requires RoomToSign(Message(code, id, auth, attrs), |hidden|, msgAuth)
    requires Signed(h, sign, secret, rng, req, msgAuth, Message(code, id, auth, attrs), hidden) == Some(s)
    ensures Sendable(all) && SignedAttrs(attrs, hidden) <= all
    ensures var m := Message(code, id, BaseAuthenticator(rng, req), all);
            && (if rng == NoRng then Sealed(h, secret, m) == Some(s) else s == m)
            && (Scan(sign, m) <==> msgAuth || Lacks(attrs, RAT_EAP_MESSAGE))
  {
    var base := BaseAuthenticator(rng, req);
    AuthenticatorReplaced(code, id, auth, attrs, base);
    WithPasswordIsMessage(code, id, base, attrs, hidden);
    var with := SignedAttrs(attrs, hidden);
    if msgAuth {
      WithMacIsMessage(sign, code, id, base, with);
      var mac := sign(Message(code, id, base, with + [Attr(RAT_MESSAGE_AUTHENTICATOR, Zeros(16))])).value;
      all := with + [Attr(RAT_MESSAGE_AUTHENTICATOR, mac)];
      ScanWithMac(sign, code, id, base, with, mac);
    } else {
      all := with;
      ScanWithoutMac(sign, code, id, base, with);
    }
  }

  /** A signed message is accepted, by the holder of the same secret who knows the request authenticator, if and only if
      it carries a Message-Authenticator or no EAP-Message. */
  lemma SignedIsAccepted(h: Hasher, sign: Signer, secret: seq<Byte>, rng: Rng, req: Option<Digest>, msgAuth: bool,
                         code: Byte, id: Byte, auth: Digest, attrs: seq<Attr>, hidden: seq<Byte>, s: seq<Byte>)
    requires Sendable(attrs) && Lacks(attrs, RAT_MESSAGE_AUTHENTICATOR) && Matching(code, rng)
    requires RoomToSign(Message(code, id, auth, attrs), |hidden|, msgAuth)
    requires Signed(h, sign, secret, rng, req, msgAuth, Message(code, id, auth, attrs), hidden) == Some(s)
    ensures |s| >= HEADER && (Accepts(h, sign, secret, req, s) <==> msgAuth || Lacks(attrs, RAT_EAP_MESSAGE))
  {
    var all := SignedForm(h, sign, secret, rng, req, msgAuth, code, id, auth, attrs, hidden, s);
    SealedIsAccepted(h, sign, secret, rng, req, code, id, all, s);
  }

  /** A password fits its attribute if and only if it has at most 240 bytes. */
  lemma PasswordFits(password: seq<Byte>)
    ensures |Padded(password)| <= MAX_RADIUS_ATTRIBUTE_SIZE <==> |password| <= 240
  {
  }

  /** The receiver of a signed request reads the hidden password if and only if it fits its attribute; then its only
      plain form is the padded password. The cut form of a longer one is no whole number of blocks and has no plain
      form. */
  lemma PasswordRecovered(h: Hasher, sign: Signer, secret: seq<Byte>, rng: Rng, req: Option<Digest>, msgAuth: bool,
                          id: Byte, auth: Digest, attrs: seq<Attr>, password: seq<Byte>, hidden: seq<Byte>,
                          s: seq<Byte>, plain: seq<Byte>)
    requires Sendable(attrs) && Lacks(attrs, RAT_MESSAGE_AUTHENTICATOR) && rng.Random?
    requires RoomToSign(Message(RMC_ACCESS_REQUEST, id, auth, attrs), |hidden|, msgAuth)
    requires Signed(h, sign, secret, rng, req, msgAuth, Message(RMC_ACCESS_REQUEST, id, auth, attrs), hidden) == Some(s)
    requires Hidden(h, secret, secret + BaseAuthenticator(rng, req) + [], password, hidden)
    ensures |s| >= HEADER && Attr(RAT_USER_PASSWORD, Cut(hidden)) in Attributes(s, HEADER)
    ensures Attr(RAT_USER_PASSWORD, hidden) in Attributes(s, HEADER) <==> |hidden| <= MAX_RADIUS_ATTRIBUTE_SIZE
    ensures Hidden(h, secret, secret + Authenticator(s) + [], plain, Cut(hidden))
            <==> plain == password && |hidden| <= MAX_RADIUS_ATTRIBUTE_SIZE
  {
    var all := SignedForm(h, sign, secret, rng, req, msgAuth, RMC_ACCESS_REQUEST, id, auth, attrs, hidden, s);
    MessageReadBack(RMC_ACCESS_REQUEST, id, BaseAuthenticator(rng, req), all);
    assert all[|attrs|] == Attr(RAT_USER_PASSWORD, Cut(hidden));
    assert |hidden| <= MAX_RADIUS_ATTRIBUTE_SIZE ==> Cut(hidden) == hidden;
    if Hidden(h, secret, secret + Authenticator(s) + [], plain, Cut(hidden)) {
      RevealUndoesHide(h, secret, secret + Authenticator(s) + [], plain, Cut(hidden), password);
    }
  }
}
