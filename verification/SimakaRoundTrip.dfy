/** What generate produces, the peer's parse reads back and its verify accepts. */
module SimakaRoundTrip {
  import opened Bytes
  import opened Words
  import opened SimakaAttributes
  import opened SimakaMessages
  import opened SimakaGenerate

  // ---- parsing from left to right ----

  lemma {:induction false} AbsorbJoin(s: Parsed, a: seq<Item>, b: seq<Item>, encrypted: bool)
    ensures AbsorbAll(s, a + b, encrypted) == AbsorbAll(AbsorbAll(s, a, encrypted), b, encrypted)
    decreases |b|
  {
    if b == [] {
      assert a + b == a;
    } else {
      var init := b[..|b| - 1];
      assert (a + b)[..|a + b| - 1] == a + init;
      AbsorbJoin(s, a, init, encrypted);
    }
  }

  /** Parsing is taking the first attribute and parsing on behind it. */
  lemma ParseStep(s: Parsed, encrypted: bool, b: seq<Byte>, at: nat, x: Item)
    requires at < |b| && ReadAttr(encrypted, b, at) == Some(x)
    ensures ParsedFrom(s, encrypted, b, at) == ParsedFrom(Absorb(s, x, encrypted), encrypted, b, at + x.size)
  {
    WalkStep(encrypted, b, at, x);
    var rest := Walk(encrypted, b, at + x.size);
    if rest.Some? {
      AbsorbJoin(s, [x], rest.value, encrypted);
      assert AbsorbAll(s, [x], encrypted)
             == Absorb(AbsorbAll(s, [], encrypted), x, encrypted) by { assert [x][..0] == []; }
    }
  }

  /** Parsing one input from any state and position, as a function value. */
  type Parser = (Parsed, nat) -> Option<Parsed>

  /** The proofs below use a parser only through Step and End. */
  ghost predicate Parses(parse: Parser, encrypted: bool, q: seq<Byte>) {
    forall s: Parsed, at: nat {:trigger ParsedFrom(s, encrypted, q, at)} | at <= |q| ::
      parse(s, at) == ParsedFrom(s, encrypted, q, at)
  }

  lemma ParserOf(encrypted: bool, q: seq<Byte>) returns (parse: Parser)
    ensures Parses(parse, encrypted, q)
  {
    parse := (s: Parsed, at: nat) => if at <= |q| then ParsedFrom(s, encrypted, q, at) else None;
  }

  lemma Step(parse: Parser, s: Parsed, encrypted: bool, q: seq<Byte>, at: nat, x: Item)
    requires Parses(parse, encrypted, q) && at < |q| && ReadAttr(encrypted, q, at) == Some(x)
    ensures at + x.size <= |q| && parse(s, at) == parse(Absorb(s, x, encrypted), at + x.size)
  {
    ParseStep(s, encrypted, q, at, x);
  }

  lemma End(parse: Parser, s: Parsed, encrypted: bool, q: seq<Byte>)
    requires Parses(parse, encrypted, q)
    ensures parse(s, |q|) == Some(s)
  {
    assert ParsedFrom(s, encrypted, q, |q|) == Some(s);
  }

  /** The state with ordinary attributes added to it. */
  function Took(s: Parsed, attrs: seq<Attr>): Parsed {
    s.(attributes := s.attributes + attrs, pBit := s.pBit && !NoPBit(attrs))
  }

  lemma TookOne(s: Parsed, init: seq<Attr>, a: Attr, at: nat, size: nat, encrypted: bool)
    requires HasRule(a.kind)
    ensures Absorb(Took(s, init), Item(a, at, size), encrypted) == Took(s, init + [a])
  {
    assert s.attributes + (init + [a]) == s.attributes + init + [a];
    assert NoPBit(init + [a]) <==> NoPBit(init) || Unphased(a) by {
      assert (init + [a])[..|init|] == init && (init + [a])[..|init| + 1] == init + [a];
      NotedNoPBit(init + [a], |init|);
    }
  }

  predicate Readable(attrs: seq<Attr>, encrypted: bool) {
    AllEncodable(attrs) && forall a | a in attrs :: IsEncrypted(a.kind) ==> encrypted
  }

  /** The byte form and the attributes that may be read, as function values, so that the induction need not look into
      them. */
  ghost predicate Formed(form: Attr -> seq<Byte>) {
    forall a {:trigger Form(a)} :: form(a) == Form(a)
  }

  ghost predicate Allows(ok: Attr -> bool, encrypted: bool) {
    forall a {:trigger Encodable(a)} | ok(a) :: Encodable(a) && (IsEncrypted(a.kind) ==> encrypted)
  }

  /** The state with attributes added to it, likewise. */
  ghost predicate Takes(took: seq<Attr> -> Parsed, s: Parsed) {
    forall attrs {:trigger Took(s, attrs)} :: took(attrs) == Took(s, attrs)
  }

  lemma TakeForm(parse: Parser, form: Attr -> seq<Byte>, ok: Attr -> bool, took: seq<Attr> -> Parsed, s: Parsed,
                 init: seq<Attr>, encrypted: bool, pre: seq<Byte>, a: Attr, post: seq<Byte>, q: seq<Byte>)
    requires Formed(form) && Allows(ok, encrypted) && Takes(took, s) && ok(a)
    requires q == pre + form(a) + post && Parses(parse, encrypted, q)
    ensures parse(took(init), |pre|) == parse(took(init + [a]), |pre| + |form(a)|)
  {
    assert Encodable(a);
    FormIsWords(a);
    ReadEncoded(encrypted, pre, a, post);
    Step(parse, Took(s, init), encrypted, q, |pre|, Item(a, |pre|, |Form(a)|));
    TookOne(s, init, a, |pre|, |Form(a)|, encrypted);
  }

  ghost predicate All(attrs: seq<Attr>, ok: Attr -> bool) {
    if attrs == [] then true else All(attrs[..|attrs| - 1], ok) && ok(attrs[|attrs| - 1])
  }

  lemma {:induction false} AllOf(attrs: seq<Attr>, ok: Attr -> bool)
    requires forall a | a in attrs :: ok(a)
    ensures All(attrs, ok)
  {
    if attrs != [] {
      AllOf(attrs[..|attrs| - 1], ok);
    }
  }

  lemma LastForm(form: Attr -> seq<Byte>, pre: seq<Byte>, attrs: seq<Attr>, post: seq<Byte>)
    requires attrs != []
    ensures var init, a := attrs[..|attrs| - 1], attrs[|attrs| - 1];
            && attrs == init + [a] && |Flatten(attrs, form)| == |Flatten(init, form)| + |form(a)|
            && pre + Flatten(attrs, form) + post == pre + Flatten(init, form) + (form(a) + post)
               == (pre + Flatten(init, form)) + form(a) + post
  {
    var init, a := attrs[..|attrs| - 1], attrs[|attrs| - 1];
    assert attrs == init + [a];
    FourParts(pre, Flatten(init, form), form(a), post);
  }

  lemma {:induction false} TakeEach(parse: Parser, form: Attr -> seq<Byte>, ok: Attr -> bool,
                                    took: seq<Attr> -> Parsed, s: Parsed, encrypted: bool, pre: seq<Byte>,
                                    attrs: seq<Attr>, post: seq<Byte>, q: seq<Byte>)
    requires Formed(form) && Allows(ok, encrypted) && Takes(took, s) && All(attrs, ok)
    requires q == pre + Flatten(attrs, form) + post && Parses(parse, encrypted, q)
    ensures parse(took([]), |pre|) == parse(took(attrs), |pre| + |Flatten(attrs, form)|)
    decreases |attrs|
  {
    if attrs != [] {
      var init, a := attrs[..|attrs| - 1], attrs[|attrs| - 1];
      LastForm(form, pre, attrs, post);
      TakeEach(parse, form, ok, took, s, encrypted, pre, init, form(a) + post, q);
      TakeForm(parse, form, ok, took, s, init, encrypted, pre + Flatten(init, form), a, post, q);
    }
  }

  /** Encoded attributes are all taken. */
  lemma TakeAll(parse: Parser, s: Parsed, encrypted: bool, pre: seq<Byte>, attrs: seq<Attr>, post: seq<Byte>,
                q: seq<Byte>)
    requires Readable(attrs, encrypted) && q == pre + EncodeAll(attrs) + post && Parses(parse, encrypted, q)
    ensures parse(s, |pre|) == parse(Took(s, attrs), |pre| + |EncodeAll(attrs)|)
  {
    var ok := (a: Attr) => Encodable(a) && (IsEncrypted(a.kind) ==> encrypted);
    var took := (all: seq<Attr>) => Took(s, all);
    AllOf(attrs, ok);
    TakeEach(parse, Form, ok, took, s, encrypted, pre, attrs, post, q);
    assert s.attributes + [] == s.attributes;
    assert took([]) == s;
  }

  // ---- the attributes generate adds itself ----

  lemma ReadOwn(encrypted: bool, pre: seq<Byte>, kind: Byte, value: seq<Byte>, post: seq<Byte>)
    requires |value| % 4 == 0 && |value| <= MAX_VALUE
    requires kind == AT_ENCR_DATA || ((kind == AT_IV || kind == AT_MAC) && |value| == BLOCK)
    ensures var q := pre + ([kind, |value| / 4 + 1, 0, 0] + value) + post;
            ReadAttr(encrypted, q, |pre|) == Some(Item(Attr(kind, value), |pre|, 4 + |value|))
  {
    var q := pre + ([kind, |value| / 4 + 1, 0, 0] + value) + post;
    assert q[|pre|] == kind && q[|pre| + 1] == |value| / 4 + 1;
    assert q[|pre| + 4..|pre| + 4 + |value|] == value;
  }

  lemma ReadPadding(pre: seq<Byte>, n: nat)
    requires 0 < n < BLOCK && n % 4 == 0
    ensures var r := ReadAttr(true, pre + PaddingAttr(n), |pre|);
            r.Some? && r.value.attr.kind == AT_PADDING && r.value.size == n
  {
    var q := pre + PaddingAttr(n);
    assert q[|pre|] == AT_PADDING && q[|pre| + 1] == n / 4;
  }

  /** AT_MAC at the end of a message. */
  lemma TakeMac(parse: Parser, s: Parsed, pre: seq<Byte>, mac: Tag, q: seq<Byte>)
    requires q == pre + MacAttr(mac) && Parses(parse, false, q)
    ensures parse(s, |pre|) == Some(s.(mac := InMessage(|pre| + 4)))
  {
    assert pre + MacAttr(mac) + [] == q;
    ReadOwn(false, pre, AT_MAC, mac, []);
    Step(parse, s, false, q, |pre|, Item(Attr(AT_MAC, mac), |pre|, 20));
    End(parse, s.(mac := InMessage(|pre| + 4)), false, q);
  }

  /** AT_IV followed by AT_ENCR_DATA. */
  lemma TakePart(parse: Parser, s: Parsed, pre: seq<Byte>, iv: Tag, text: seq<Byte>, post: seq<Byte>, q: seq<Byte>)
    requires |text| % 4 == 0 && |text| <= MAX_VALUE && Parses(parse, false, q)
    requires q == pre + (IvAttr(iv) + EncrAttr(text)) + post
    ensures parse(s, |pre|) == parse(s.(iv := Slice(iv, true), encr := Slice(text, true)), |pre| + 24 + |text|)
  {
    FourParts(pre, IvAttr(iv), EncrAttr(text), post);
    ReadOwn(false, pre, AT_IV, iv, EncrAttr(text) + post);
    Step(parse, s, false, q, |pre|, Item(Attr(AT_IV, iv), |pre|, 20));
    ReadOwn(false, pre + IvAttr(iv), AT_ENCR_DATA, text, post);
    Step(parse, s.(iv := Slice(iv, true)), false, q, |pre| + 20,
         Item(Attr(AT_ENCR_DATA, text), |pre| + 20, 4 + |text|));
  }

  lemma DropPadding(parse: Parser, s: Parsed, pre: seq<Byte>, n: nat, q: seq<Byte>)
    requires n < BLOCK && n % 4 == 0 && q == pre + PaddingAttr(n) && Parses(parse, true, q)
    ensures parse(s, |pre|) == Some(s)
  {
    if n > 0 {
      ReadPadding(pre, n);
      Step(parse, s, true, q, |pre|, ReadAttr(true, q, |pre|).value);
    }
    End(parse, s, true, q);
  }

  /** The plaintext: the secret attributes are taken, the padding is dropped. */
  lemma ParsePlain(s: Parsed, attrs: seq<Attr>)
    requires Readable(attrs, true) && |EncodeAll(attrs)| % 4 == 0
    ensures ParsedFrom(s, true, Plain(EncodeAll(attrs)), 0) == Some(Took(s, attrs))
  {
    var e := EncodeAll(attrs);
    PadIsWords(|e|);
    var n, q := PadLen(|e|, BLOCK), Plain(e);
    var parse := ParserOf(true, q);
    assert q == [] + e + PaddingAttr(n);
    TakeAll(parse, s, true, [], attrs, PaddingAttr(n), q);
    DropPadding(parse, Took(s, attrs), e, n, q);
  }

  // ---- the two parts of a list ----

  lemma {:induction false} Kept<T(!new)>(xs: seq<T>, p: T -> bool)
    ensures forall x | x in xs && p(x) :: x in Keep(xs, p)
  {
    if xs != [] {
      Kept(xs[..|xs| - 1], p);
      assert xs == xs[..|xs| - 1] + [xs[|xs| - 1]];
    }
  }

  lemma SplitFacts(attrs: seq<Attr>)
    requires AllAccepted(attrs)
    ensures Readable(Clear(attrs), false) && Readable(Secret(attrs), true)
    ensures NoPBit(Clear(attrs)) == NoPBit(attrs) && !NoPBit(Secret(attrs))
  {
    Kept(attrs, IsClear);
    if NoPBit(attrs) {
      var a :| a in attrs && Unphased(a);
      assert IsClear(a);
      assert a in Clear(attrs);
    }
  }

  // ---- reading a generated message ----

  /** IV and ciphertext, if a message has them. */
  type Part = Option<(Tag, seq<Byte>)>

  function WithPart(t: Parsed, part: Part): Parsed {
    if part.Some? then t.(iv := Slice(part.value.0, true), encr := Slice(part.value.1, true)) else t
  }

  /** What the clear part of a message leaves behind, before anything is decrypted. */
  function AfterClear(s: Parsed, attrs: seq<Attr>, part: Part, macAt: Option<nat>): Parsed {
    var u := WithPart(Took(s, attrs), part);
    if macAt.Some? then u.(mac := InMessage(macAt.value)) else u
  }

  /** Bytes of AT_IV and AT_ENCR_DATA, if any. */
  function PartBytes(part: Part): seq<Byte>
    requires part.Some? ==> |part.value.1| <= MAX_VALUE
  {
    if part.Some? then IvAttr(part.value.0) + EncrAttr(part.value.1) else []
  }

  predicate PartOk(part: Part) {
    part.Some? ==> |part.value.1| % BLOCK == 0 && |part.value.1| <= MAX_VALUE
  }

  /** Parsing clear attributes and encrypted part, up to where AT_MAC would stand. */
  lemma TakeBody(parse: Parser, s: Parsed, head: seq<Byte>, attrs: seq<Attr>, part: Part, post: seq<Byte>, q: seq<Byte>)
    requires Readable(attrs, false) && PartOk(part) && q == head + (EncodeAll(attrs) + PartBytes(part)) + post
             && Parses(parse, false, q)
    ensures parse(s, |head|) == parse(AfterClear(s, attrs, part, None), |head| + |EncodeAll(attrs) + PartBytes(part)|)
  {
    var c, p := EncodeAll(attrs), PartBytes(part);
    FourParts(head, c, p, post);
    TakeAll(parse, s, false, head, attrs, p + post, q);
    TakeRest(parse, Took(s, attrs), head + c, part, post, q);
  }

  lemma TakeRest(parse: Parser, t: Parsed, pre: seq<Byte>, part: Part, post: seq<Byte>, q: seq<Byte>)
    requires PartOk(part) && q == pre + PartBytes(part) + post && Parses(parse, false, q)
    ensures parse(t, |pre|) == parse(WithPart(t, part), |pre| + |PartBytes(part)|)
  {
    if part.Some? {
      TakePart(parse, t, pre, part.value.0, part.value.1, post, q);
    }
  }

  /** Bytes of AT_MAC, if any. */
  function MacBytes(mac: Option<Tag>): seq<Byte> {
    if mac.Some? then MacAttr(mac.value) else []
  }

  function MacPlace(mac: Option<Tag>, n: nat): Option<nat>
    requires n >= HEADER + |MacBytes(mac)|
  {
    if mac.Some? then Some(n - BLOCK) else None
  }

  lemma ParseFramed(s: Parsed, head: seq<Byte>, attrs: seq<Attr>, part: Part, mac: Option<Tag>, g: seq<Byte>)
    requires |head| == HEADER && Readable(attrs, false) && PartOk(part)
    requires g == head + (EncodeAll(attrs) + PartBytes(part)) + MacBytes(mac)
    ensures ParsedFrom(s, false, g, HEADER) == Some(AfterClear(s, attrs, part, MacPlace(mac, |g|)))
  {
    var parse := ParserOf(false, g);
    TakeBody(parse, s, head, attrs, part, MacBytes(mac), g);
    TakeEnd(parse, AfterClear(s, attrs, part, None), head, EncodeAll(attrs) + PartBytes(part), mac, g);
  }

  /** The rest of a message behind its body. */
  lemma TakeEnd(parse: Parser, t: Parsed, head: seq<Byte>, body: seq<Byte>, mac: Option<Tag>, g: seq<Byte>)
    requires |head| == HEADER && g == head + body + MacBytes(mac) && Parses(parse, false, g)
    ensures parse(t, HEADER + |body|) == Some(if mac.Some? then t.(mac := InMessage(|g| - BLOCK)) else t)
  {
    if mac.Some? {
      TakeMac(parse, t, head + body, mac.value, g);
    } else {
      End(parse, t, false, g);
    }
  }

  // ---- the parts of a generated message ----

  predicate Encrypts(crypto: Crypto, secret: seq<Byte>, iv: Tag, text: seq<Byte>)
    requires |secret| % 4 == 0
  {
    crypto.crypter.Some? && crypto.crypter.value.encrypt(Plain(secret), iv) == Some(text)
  }

  /** Everything generate put together, named. */
  ghost predicate MadeOf(hdr: seq<Byte>, clear: seq<Byte>, secret: seq<Byte>, needsMac: bool, crypto: Crypto,
                         sigdata: seq<Byte>, g: seq<Byte>, part: Part, mac: Option<Tag>)
    requires |hdr| >= HEADER && |secret| % 4 == 0
  {
    && |g| < 0x1_0000 && PartOk(part) && g == Head(hdr, |g|) + (clear + PartBytes(part)) + MacBytes(mac)
    && (part.Some? <==> secret != [])
    && (part.Some? ==> Encrypts(crypto, secret, part.value.0, part.value.1))
    && (mac.Some? <==> needsMac)
    && (mac.Some? ==> && crypto.signer.Some?
                      && crypto.signer.value(Head(hdr, |g|) + (clear + PartBytes(part))
                                             + MacAttr(Zeros(BLOCK)) + sigdata) == mac)
  }

  lemma PartOf(crypto: Crypto, secret: seq<Byte>) returns (part: Part)
    requires |secret| % 4 == 0 && (crypto.crypter.Some? ==> InPlace(crypto.crypter.value))
    requires EncryptedPart(crypto, secret).Some?
    ensures PartOk(part) && EncryptedPart(crypto, secret) == Some(PartBytes(part)) && (part.Some? <==> secret != [])
    ensures part.Some? ==> Encrypts(crypto, secret, part.value.0, part.value.1)
  {
    if secret == [] {
      part := None;
    } else {
      part := Some((crypto.rng.bytes, crypto.crypter.value.encrypt(Plain(secret), crypto.rng.bytes).value));
    }
  }

  lemma MacedParts(hdr: seq<Byte>, body: seq<Byte>, crypto: Crypto, sigdata: seq<Byte>, g: seq<Byte>)
    returns (mac: Option<Tag>)
    requires |hdr| >= HEADER && Maced(hdr, body, crypto, sigdata) == Some(g)
    ensures mac.Some? && |g| < 0x1_0000 && g == Head(hdr, |g|) + body + MacBytes(mac)
    ensures crypto.signer.Some? && crypto.signer.value(Head(hdr, |g|) + body + MacAttr(Zeros(BLOCK)) + sigdata) == mac
  {
    mac := crypto.signer.value(Framed(hdr, body + MacAttr(Zeros(BLOCK))) + sigdata);
    MacAtEnd(hdr, body, Zeros(BLOCK), HEADER + |body| + 20);
    MacAtEnd(hdr, body, mac.value, HEADER + |body| + 20);
  }

  lemma AssembledParts(hdr: seq<Byte>, clear: seq<Byte>, secret: seq<Byte>, needsMac: bool, crypto: Crypto,
                       sigdata: seq<Byte>, g: seq<Byte>)
    returns (part: Part, mac: Option<Tag>)
    requires |hdr| >= HEADER && |secret| % 4 == 0 && (crypto.crypter.Some? ==> InPlace(crypto.crypter.value))
    requires Assembled(hdr, clear, secret, needsMac, crypto, sigdata) == Some(g)
    ensures MadeOf(hdr, clear, secret, needsMac, crypto, sigdata, g, part, mac)
  {
    part := PartOf(crypto, secret);
    var body := clear + PartBytes(part);
    if needsMac {
      mac := MacedParts(hdr, body, crypto, sigdata, g);
    } else {
      mac := None;
      assert Head(hdr, HEADER + |body|) + body + [] == g;
    }
  }

  // ---- main results ----

  /** The header of a message that create accepted. */
  predicate Sender(hdr: seq<Byte>) {
    |hdr| >= HEADER && (hdr[0] == EAP_REQUEST || hdr[0] == EAP_RESPONSE) && (hdr[4] == EAP_SIM || hdr[4] == EAP_AKA)
  }

  /** The peer has the same keys, as far as they are used. */
  ghost predicate SameKeys(mine: Crypto, peer: Crypto) {
    && (mine.crypter.Some?
        ==> InPlace(mine.crypter.value) && Undoes(mine.crypter.value) && peer.crypter == mine.crypter)
    && (mine.signer.Some? ==> peer.signer == mine.signer)
  }

  lemma HeaderSurvives(hdr: seq<Byte>, g: seq<Byte>, rest: seq<Byte>)
    requires Sender(hdr) && |g| < 0x1_0000 && g == Head(hdr, |g|) + rest
    ensures ValidHeader(g) && g[5] == hdr[5]
  {
    U16RoundTrip(hdr[..2], |g|, hdr[4..HEADER] + rest);
    assert g == hdr[..2] + PutU16(|g|) + (hdr[4..HEADER] + rest);
  }

  lemma GeneratedParts(hdr: seq<Byte>, attrs: seq<Attr>, crypto: Crypto, sigdata: seq<Byte>, g: seq<Byte>)
    returns (part: Part, mac: Option<Tag>)
    requires Sender(hdr) && (crypto.crypter.Some? ==> InPlace(crypto.crypter.value))
    requires Generated(hdr, attrs, crypto, sigdata) == Some(g)
    ensures MadeFrom(hdr, attrs, crypto, sigdata, g, part, mac) && ValidHeader(g) && g[5] == hdr[5]
  {
    var clear, secret := EncodeAll(Clear(attrs)), EncodeAll(Secret(attrs));
    WholeWords(Secret(attrs));
    part, mac := AssembledParts(hdr, clear, secret, NeedsMac(hdr[5], attrs), crypto, sigdata, g);
    Assoc(Head(hdr, |g|), clear + PartBytes(part), MacBytes(mac));
    HeaderSurvives(hdr, g, clear + PartBytes(part) + MacBytes(mac));
  }

  ghost predicate MadeFrom(hdr: seq<Byte>, attrs: seq<Attr>, crypto: Crypto, sigdata: seq<Byte>, g: seq<Byte>,
                       part: Part, mac: Option<Tag>) {
    && |hdr| >= HEADER && AllAccepted(attrs) && |EncodeAll(Secret(attrs))| % 4 == 0 && |g| >= HEADER + |MacBytes(mac)|
    && MadeOf(hdr, EncodeAll(Clear(attrs)), EncodeAll(Secret(attrs)), NeedsMac(hdr[5], attrs), crypto, sigdata, g,
              part, mac)
  }

  /** What parsing the clear part adds to any state. */
  lemma ParseMade(hdr: seq<Byte>, attrs: seq<Attr>, crypto: Crypto, sigdata: seq<Byte>, g: seq<Byte>,
                  part: Part, mac: Option<Tag>, s: Parsed)
    requires MadeFrom(hdr, attrs, crypto, sigdata, g, part, mac)
    ensures ParsedFrom(s, false, g, HEADER) == Some(AfterClear(s, Clear(attrs), part, MacPlace(mac, |g|)))
  {
    SplitFacts(attrs);
    ParseFramed(s, Head(hdr, |g|), Clear(attrs), part, mac, g);
  }

  /** Decrypting what the clear part left behind adds the secret attributes. */
  lemma DecryptGenerated(attrs: seq<Attr>, crypter: Crypter, peer: Crypto, s: Parsed)
    requires AllAccepted(attrs) && |EncodeAll(Secret(attrs))| % 4 == 0 && |EncodeAll(Secret(attrs))| > 0
    requires Undoes(crypter) && peer.crypter == Some(crypter)
    requires s.iv.live && s.encr.live && |s.iv.data| == BLOCK && s.encr.data != [] && |s.encr.data| % BLOCK == 0
    requires crypter.encrypt(Plain(EncodeAll(Secret(attrs))), s.iv.data) == Some(s.encr.data)
    ensures Decrypted(peer, s) == Now(Took(s, Secret(attrs)))
  {
    SplitFacts(attrs);
    ParsePlain(s, Secret(attrs));
  }

  /** What the peer knows after parsing: the attributes sent in the clear, then the encrypted ones; the P bit; where the
      MAC is. */
  predicate ReadAs(attrs: seq<Attr>, subtype: Byte, n: nat, s: Parsed) {
    && s.attributes == Clear(attrs) + Secret(attrs)
    && s.pBit == !NoPBit(attrs)
    && if NeedsMac(subtype, attrs) then n >= HEADER + 20 && s.mac == InMessage(n - BLOCK) else s.mac == Nowhere
  }

  /** parse undoes generate. */
  lemma ParseUndoesGenerate(hdr: seq<Byte>, attrs: seq<Attr>, crypto: Crypto, peer: Crypto, sigdata: seq<Byte>,
                            g: seq<Byte>)
    requires Sender(hdr) && SameKeys(crypto, peer) && Generated(hdr, attrs, crypto, sigdata) == Some(g)
    ensures ValidHeader(g) && g[5] == hdr[5]
    ensures ParsedMessage(peer, FRESH, g).Now? && ReadAs(attrs, hdr[5], |g|, ParsedMessage(peer, FRESH, g).state)
  {
    var part, mac := GeneratedParts(hdr, attrs, crypto, sigdata, g);
    ParseMade(hdr, attrs, crypto, sigdata, g, part, mac, FRESH);
    var t := AfterClear(FRESH, Clear(attrs), part, MacPlace(mac, |g|));
    FinishParse(hdr, attrs, crypto, peer, sigdata, g, part, mac, t);
  }

  /** The state after both parts, or after the clear part alone if there is nothing secret. */
  lemma BothParts(attrs: seq<Attr>, part: Part, macAt: Option<nat>)
    requires AllAccepted(attrs)
    ensures var t := AfterClear(FRESH, Clear(attrs), part, macAt);
            var u := Took(t, Secret(attrs));
            && u.attributes == Clear(attrs) + Secret(attrs) && u.pBit == !NoPBit(attrs) && u.mac == t.mac
            && (Secret(attrs) == [] ==> u == t)
  {
    SplitFacts(attrs);
    assert [] + Clear(attrs) == Clear(attrs) && Clear(attrs) + [] == Clear(attrs);
  }

  lemma FinishParse(hdr: seq<Byte>, attrs: seq<Attr>, crypto: Crypto, peer: Crypto, sigdata: seq<Byte>, g: seq<Byte>,
                    part: Part, mac: Option<Tag>, t: Parsed)
    requires SameKeys(crypto, peer) && MadeFrom(hdr, attrs, crypto, sigdata, g, part, mac)
    requires t == AfterClear(FRESH, Clear(attrs), part, MacPlace(mac, |g|))
    ensures Decrypted(peer, t).Now? && ReadAs(attrs, hdr[5], |g|, Decrypted(peer, t).state)
  {
    SplitFacts(attrs);
    SecretsShow(attrs);
    BothParts(attrs, part, MacPlace(mac, |g|));
    if part.Some? {
      DecryptGenerated(attrs, crypto.crypter.value, peer, t);
    }
  }

  /** The MAC of a generated message is the signature of that message with zeros in its place. */
  lemma MacMatches(hdr: seq<Byte>, clear: seq<Byte>, secret: seq<Byte>, crypto: Crypto, sigdata: seq<Byte>,
                   g: seq<Byte>, part: Part, mac: Option<Tag>)
    requires |hdr| >= HEADER && |secret| % 4 == 0 && MadeOf(hdr, clear, secret, true, crypto, sigdata, g, part, mac)
    ensures |g| >= HEADER + 20 && crypto.signer.Some?
    ensures crypto.signer.value(Zeroed(g, |g| - BLOCK) + sigdata) == Some(g[|g| - BLOCK..|g|])
  {
    var front := Head(hdr, |g|) + (clear + PartBytes(part));
    MacReplaced(front, mac.value, Zeros(BLOCK));
    assert g[|g| - BLOCK..|g|] == mac.value;
  }

  /** A MAC is there exactly when verify demands one. */
  lemma Decided(b: seq<Byte>, s: Parsed, attrs: seq<Attr>, signer: Option<Signer>, sigdata: seq<Byte>)
    requires |b| >= HEADER && ReadAs(attrs, b[5], |b|, s)
    requires Inside(b, s) && (NeedsMac(b[5], attrs) ==> MacHolds(b, s, signer, sigdata))
    ensures Verdict(b, s, signer, sigdata) == Answer(Known(b[5]))
  {
  }

  lemma MacOfMade(hdr: seq<Byte>, attrs: seq<Attr>, crypto: Crypto, sigdata: seq<Byte>, g: seq<Byte>, part: Part,
                  mac: Option<Tag>)
    requires MadeFrom(hdr, attrs, crypto, sigdata, g, part, mac) && NeedsMac(hdr[5], attrs)
    ensures |g| >= HEADER + 20 && crypto.signer.Some?
    ensures crypto.signer.value(Zeroed(g, |g| - BLOCK) + sigdata) == Some(g[|g| - BLOCK..|g|])
  {
    MacMatches(hdr, EncodeAll(Clear(attrs)), EncodeAll(Secret(attrs)), crypto, sigdata, g, part, mac);
  }

  lemma MacHoldsGenerated(hdr: seq<Byte>, attrs: seq<Attr>, crypto: Crypto, peer: Crypto, sigdata: seq<Byte>,
                          g: seq<Byte>, s: Parsed)
    requires Sender(hdr) && SameKeys(crypto, peer) && Generated(hdr, attrs, crypto, sigdata) == Some(g)
    requires NeedsMac(hdr[5], attrs) && |g| >= HEADER + 20 && s.mac == InMessage(|g| - BLOCK)
    ensures MacHolds(g, s, peer.signer, sigdata)
  {
    var part, mac := GeneratedParts(hdr, attrs, crypto, sigdata, g);
    MacOfMade(hdr, attrs, crypto, sigdata, g, part, mac);
  }

  /** The peer's verify accepts a generated message, with the same additional data, if and only if it has a rule for the
      subtype: a MAC is there whenever it is demanded, and right. */
  lemma VerifyAcceptsGenerated(hdr: seq<Byte>, attrs: seq<Attr>, crypto: Crypto, peer: Crypto, sigdata: seq<Byte>,
                               g: seq<Byte>, s: Parsed)
    requires Sender(hdr) && SameKeys(crypto, peer) && Generated(hdr, attrs, crypto, sigdata) == Some(g)
    requires |g| >= HEADER && ParsedMessage(peer, FRESH, g) == Now(s)
    ensures Inside(g, s) && Verdict(g, s, peer.signer, sigdata) == Answer(Known(hdr[5]))
  {
    ParseUndoesGenerate(hdr, attrs, crypto, peer, sigdata, g);
    if NeedsMac(hdr[5], attrs) {
      MacHoldsGenerated(hdr, attrs, crypto, peer, sigdata, g, s);
    }
    Decided(g, s, attrs, peer.signer, sigdata);
  }

  /** Parsing before the keys are known and again with them gives what parsing with them gives. */
  lemma LateKeys(hdr: seq<Byte>, attrs: seq<Attr>, crypto: Crypto, peer: Crypto, early: Crypto, sigdata: seq<Byte>,
                 g: seq<Byte>)
    requires Sender(hdr) && SameKeys(crypto, peer) && Generated(hdr, attrs, crypto, sigdata) == Some(g)
    requires early.crypter.None?
    ensures |g| >= HEADER && ParsedMessage(early, FRESH, g).Now?
    ensures ParsedMessage(peer, ParsedMessage(early, FRESH, g).state, g) == ParsedMessage(peer, FRESH, g)
  {
    var part, mac := GeneratedParts(hdr, attrs, crypto, sigdata, g);
    ParseMade(hdr, attrs, crypto, sigdata, g, part, mac, FRESH);
    var t := ParsedMessage(early, FRESH, g).state;
    if t.attributes == [] {
      ParseAgain(hdr, attrs, crypto, sigdata, g, part, mac, t);
    }
  }

  /** Without clear attributes, parsing the clear part once more changes nothing. */
  lemma ParseAgain(hdr: seq<Byte>, attrs: seq<Attr>, crypto: Crypto, sigdata: seq<Byte>, g: seq<Byte>, part: Part,
                   mac: Option<Tag>, t: Parsed)
    requires MadeFrom(hdr, attrs, crypto, sigdata, g, part, mac)
    requires t == AfterClear(FRESH, Clear(attrs), part, MacPlace(mac, |g|)) && t.attributes == []
    ensures ParsedFrom(t, false, g, HEADER) == Some(t)
  {
    ParseMade(hdr, attrs, crypto, sigdata, g, part, mac, t);
    assert Clear(attrs) == [];
  }
}
