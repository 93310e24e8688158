/** When parse and verify of simaka_message.c use values that decrypt has freed. */
module SimakaFreed {
  import opened Bytes
  import opened Words
  import opened SimakaAttributes
  import opened SimakaMessages
  import opened SimakaGenerate
  import opened SimakaRoundTrip

  predicate Holds(items: seq<Item>, kind: Byte) {
    exists x | x in items :: x.attr.kind == kind
  }

  lemma HoldsSnoc(items: seq<Item>, kind: Byte)
    requires items != []
    ensures Holds(items, kind) <==> Holds(items[..|items| - 1], kind) || items[|items| - 1].attr.kind == kind
  {
    assert items == items[..|items| - 1] + [items[|items| - 1]];
  }

  /** Decrypted data leaves a freed value behind for each of MAC, IV and text it holds. */
  ghost predicate FreedBy(s: Parsed, items: seq<Item>, t: Parsed) {
    && (t.mac == InPlain <==> s.mac == InPlain || Holds(items, AT_MAC))
    && (t.iv.live <==> s.iv.live && !Holds(items, AT_IV))
    && (t.encr.live <==> s.encr.live && !Holds(items, AT_ENCR_DATA))
  }

  /** The message itself replaces them by live ones. */
  ghost predicate RevivedBy(s: Parsed, items: seq<Item>, t: Parsed) {
    && (t.mac == InPlain <==> s.mac == InPlain && !Holds(items, AT_MAC))
    && (t.iv.live <==> s.iv.live || Holds(items, AT_IV)) && (t.iv != s.iv ==> Holds(items, AT_IV))
    && (t.encr.live <==> s.encr.live || Holds(items, AT_ENCR_DATA)) && (t.encr != s.encr ==> Holds(items, AT_ENCR_DATA))
  }

  lemma {:induction false} Places(s: Parsed, items: seq<Item>, encrypted: bool)
    ensures var t := AbsorbAll(s, items, encrypted); if encrypted then FreedBy(s, items, t) else RevivedBy(s, items, t)
  {
    if items != [] {
      Places(s, items[..|items| - 1], encrypted);
      HoldsSnoc(items, AT_MAC);
      HoldsSnoc(items, AT_IV);
      HoldsSnoc(items, AT_ENCR_DATA);
    }
  }

  /** After a successful decryption the MAC is a freed value if and only if the plaintext holds an AT_MAC, and likewise
      for IV and text, if they were live before. */
  lemma DecryptionFrees(crypter: Crypter, crypto: Crypto, s: Parsed, plain: seq<Byte>, t: Parsed)
    requires crypto.crypter == Some(crypter) && s.iv.live && s.encr.live && s.mac != InPlain
    requires |s.iv.data| == BLOCK && s.encr.data != []
    requires crypter.decrypt(s.encr.data, s.iv.data) == Some(plain) && Decrypted(crypto, s) == Now(t)
    ensures Walk(true, plain, 0).Some?
    ensures t.mac == InPlain <==> Holds(Walk(true, plain, 0).value, AT_MAC)
    ensures !t.iv.live <==> Holds(Walk(true, plain, 0).value, AT_IV)
    ensures !t.encr.live <==> Holds(Walk(true, plain, 0).value, AT_ENCR_DATA)
  {
    Places(s, Walk(true, plain, 0).value, true);
  }

  /** The first parse of a message is always defined. */
  lemma FirstParseDefined(crypto: Crypto, b: seq<Byte>)
    requires |b| >= HEADER
    ensures ParsedMessage(crypto, FRESH, b) != Dangling
  {
    var items := Walk(false, b, HEADER);
    if items.Some? {
      Places(FRESH, items.value, false);
    }
  }

  /** A second parse uses a freed value if and only if it goes straight to decryption, because attributes were found,
      has a key, the lengths are right, and IV or text of the message were replaced by such from decrypted data. */
  lemma SecondParseDefined(crypto: Crypto, again: Crypto, b: seq<Byte>, t: Parsed)
    requires |b| >= HEADER && ParsedMessage(crypto, FRESH, b) == Now(t)
    ensures ParsedMessage(again, t, b) == Dangling
            <==> && t.attributes != [] && again.crypter.Some? && (!t.iv.live || !t.encr.live)
                 && t.iv.data != [] && t.encr.data != [] && |t.encr.data| % BLOCK == 0
  {
    var items := Walk(false, b, HEADER).value;
    var s := AbsorbAll(FRESH, items, false);
    Places(FRESH, items, false);
    if t.attributes == [] {
      Places(t, items, false);
      if t != s {
        // decrypted, so the message holds both
        assert s.iv != FRESH.iv && s.encr != FRESH.encr;
      }
    }
  }

  // ---- such a message ----

  /** Decrypted data with a MAC and an IV in it. */
  const ODD_PLAIN := MacAttr(Zeros(BLOCK)) + IvAttr(Zeros(BLOCK)) + PaddingAttr(8)

  lemma OddPlainParses(s: Parsed)
    ensures ParsedFrom(s, true, ODD_PLAIN, 0) == Some(s.(mac := InPlain, iv := Slice(Zeros(BLOCK), false)))
  {
    var q, mac, iv := ODD_PLAIN, MacAttr(Zeros(BLOCK)), IvAttr(Zeros(BLOCK));
    var parse := ParserOf(true, q);
    assert [] + mac + (iv + PaddingAttr(8)) == q && mac + iv + PaddingAttr(8) == q;
    ReadOwn(true, [], AT_MAC, Zeros(BLOCK), iv + PaddingAttr(8));
    Step(parse, s, true, q, 0, Item(Attr(AT_MAC, Zeros(BLOCK)), 0, 20));
    ReadOwn(true, mac, AT_IV, Zeros(BLOCK), PaddingAttr(8));
    var s1 := s.(mac := InPlain);
    Step(parse, s1, true, q, 20, Item(Attr(AT_IV, Zeros(BLOCK)), 20, 20));
    DropPadding(parse, s1.(iv := Slice(Zeros(BLOCK), false)), mac + iv, 8, q);
  }

  /** A challenge with a right header, one clear attribute and such data, encrypted with any working cipher: it parses,
      its verification is not defined, and neither is parsing it again. */
  lemma FreedValuesAreUsed(crypter: Crypter, iv: Tag, signer: Signer, sigdata: seq<Byte>)
    requires InPlace(crypter) && Undoes(crypter) && crypter.encrypt(ODD_PLAIN, iv).Some?
    ensures exists g: seq<Byte>, t: Parsed ::
              var crypto := Crypto(Some(crypter), Some(signer), NoRng);
              && ValidHeader(g) && ParsedMessage(crypto, FRESH, g) == Now(t) && Inside(g, t)
              && Verdict(g, t, Some(signer), sigdata) == Undefined && ParsedMessage(crypto, t, g) == Dangling
  {
    var crypto := Crypto(Some(crypter), Some(signer), NoRng);
    var hdr: seq<Byte> := [EAP_REQUEST, 0, 0, 0, EAP_SIM, SIM_CHALLENGE, 0, 0];
    var text := crypter.encrypt(ODD_PLAIN, iv).value;
    var attrs, part: Part := [Attr(AT_ANY_ID_REQ, [])], Some((iv, text));
    assert |ODD_PLAIN| == 48;
    var g := OddMessage(hdr, attrs, part);
    var s := AfterClear(FRESH, attrs, part, None);
    OddPlainParses(s);
    var t := s.(mac := InPlain, iv := Slice(Zeros(BLOCK), false));
    assert t.attributes[0] == attrs[0];
    assert ParsedMessage(crypto, FRESH, g) == Now(t);
  }

  lemma OddMessage(hdr: seq<Byte>, attrs: seq<Attr>, part: Part) returns (g: seq<Byte>)
    requires Sender(hdr) && Readable(attrs, false) && |attrs| == 1 && part.Some? && |part.value.1| == 48
    ensures ValidHeader(g) && g[5] == hdr[5]
    ensures ParsedFrom(FRESH, false, g, HEADER) == Some(AfterClear(FRESH, attrs, part, None))
  {
    var body := EncodeAll(attrs) + PartBytes(part);
    OneForm(attrs);
    g := Framed(hdr, body);
    HeaderSurvives(hdr, g, body);
    assert g == Head(hdr, |g|) + body + MacBytes(None);
    ParseFramed(FRESH, Head(hdr, |g|), attrs, part, None, g);
  }

  lemma OneForm(attrs: seq<Attr>)
    requires AllEncodable(attrs) && |attrs| == 1
    ensures |EncodeAll(attrs)| <= 4 + MAX_VALUE + 3
  {
    assert [] + [attrs[0]] == attrs && attrs[0] in attrs;
    FormIsWords(attrs[0]);
    Snoc([], attrs[0], Form);
    assert SizeOf(attrs[0]) <= 4 + MAX_VALUE + 3;
  }
}
