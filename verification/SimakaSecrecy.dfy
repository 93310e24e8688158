/** What a generated EAP-SIM or EAP-AKA message shows, by attribute types and bits. */
module SimakaSecrecy {
  import opened Bytes
  import opened Words
  import opened SimakaAttributes
  import opened SimakaMessages
  import opened SimakaGenerate
  import opened SimakaRoundTrip

  /** AT_COUNTER, AT_COUNTER_TOO_SMALL, AT_NONCE_S, AT_NEXT_PSEUDONYM, AT_NEXT_REAUTH_ID. */
  predicate Confidential(kind: Byte) {
    kind in {19, 20, 21, 132, 133}
  }

  /** A notification whose first byte lacks 0x40. */
  predicate Late(a: Attr) {
    a.kind == 12 && |a.data| == 2 && a.data[0] % 128 < 64
  }

  /** Reading without decryption never yields a confidential attribute. */
  lemma {:induction false} WalkShowsNone(b: seq<Byte>, at: nat, x: Item)
    requires at <= |b| && Walk(false, b, at).Some? && x in Walk(false, b, at).value
    ensures !Confidential(x.attr.kind)
    decreases |b| - at
  {
    if at < |b| {
      var first := ReadAttr(false, b, at).value;
      if x != first { WalkShowsNone(b, at + first.size, x); }
    }
  }

  /** A generated message can be read without keys, and what can be read is never confidential. */
  lemma SecretsHidden(hdr: seq<Byte>, attrs: seq<Attr>, crypto: Crypto, sigdata: seq<Byte>, g: seq<Byte>)
    requires Sender(hdr) && (crypto.crypter.Some? ==> InPlace(crypto.crypter.value))
    requires Generated(hdr, attrs, crypto, sigdata) == Some(g)
    ensures |g| >= HEADER && Walk(false, g, HEADER).Some?
    ensures forall x <- Walk(false, g, HEADER).value :: !Confidential(x.attr.kind)
  {
    var part, mac := GeneratedParts(hdr, attrs, crypto, sigdata, g);
    ParseMade(hdr, attrs, crypto, sigdata, g, part, mac, FRESH);
    forall x <- Walk(false, g, HEADER).value ensures !Confidential(x.attr.kind) { WalkShowsNone(g, HEADER, x); }
  }

  lemma SortedOut(attrs: seq<Attr>)
    requires AllAccepted(attrs)
    ensures forall a <- Clear(attrs) :: a in attrs && !Confidential(a.kind)
    ensures forall a <- Secret(attrs) :: a in attrs && Confidential(a.kind)
    ensures forall a <- attrs | Confidential(a.kind) :: a in Secret(attrs)
    ensures NoPBit(attrs) <==> exists a <- attrs :: Late(a)
  {
    Kept(attrs, IsSecret);
    forall a <- attrs | Confidential(a.kind) ensures a in Secret(attrs) { assert IsSecret(a); }
    forall a <- attrs ensures Unphased(a) <==> Late(a) { assert Accepted(a); }
  }

  /** The whole message: the header with its length, the attributes that are not confidential, then AT_IV (129) and
      AT_ENCR_DATA (130) with the encryption under that IV of those that are, if any, then AT_MAC (11) if the message
      is a challenge, a reauthentication, or a notification with a notification code that lacks 0x40. */
  lemma GeneratedLayout(hdr: seq<Byte>, attrs: seq<Attr>, crypto: Crypto, sigdata: seq<Byte>, g: seq<Byte>)
    returns (part: Part, mac: Option<Tag>)
    requires Sender(hdr) && (crypto.crypter.Some? ==> InPlace(crypto.crypter.value))
    requires Generated(hdr, attrs, crypto, sigdata) == Some(g)
    ensures |g| < 0x1_0000 && |EncodeAll(Secret(attrs))| % 4 == 0 && (part.Some? ==> |part.value.1| <= MAX_VALUE)
    ensures g == hdr[..2] + PutU16(|g|) + hdr[4..8] + (EncodeAll(Clear(attrs)) + SecretPart(part)) + MacPart(mac)
    ensures (forall a <- Clear(attrs) :: a in attrs && !Confidential(a.kind))
            && (forall a <- Secret(attrs) :: a in attrs && Confidential(a.kind))
            && (forall a <- attrs | Confidential(a.kind) :: a in Secret(attrs))
    ensures part.Some? <==> exists a <- attrs :: Confidential(a.kind)
    ensures part.Some? ==> && crypto.crypter.Some?
                           && crypto.crypter.value.encrypt(Plain(EncodeAll(Secret(attrs))), part.value.0)
                              == Some(part.value.1)
    ensures mac.Some? <==> hdr[5] == 1 || hdr[5] == 11 || hdr[5] == 13 || (hdr[5] == 12 && exists a <- attrs :: Late(a))
  {
    part, mac := GeneratedParts(hdr, attrs, crypto, sigdata, g);
    SortedOut(attrs);
    SplitFacts(attrs);
    SecretsShow(attrs);
    if exists a <- attrs :: Confidential(a.kind) {
      var a :| a in attrs && Confidential(a.kind);
      assert a in Secret(attrs);
    } else if Secret(attrs) != [] {
      assert Secret(attrs)[0] in Secret(attrs);
    }
  }

  function SecretPart(part: Part): seq<Byte>
    requires part.Some? ==> |part.value.1| <= MAX_VALUE
  {
    if part.None? then [] else [129, 5, 0, 0] + part.value.0 + ([130, |part.value.1| / 4 + 1, 0, 0] + part.value.1)
  }

  function MacPart(mac: Option<Tag>): seq<Byte> {
    if mac.None? then [] else [11, 5, 0, 0] + mac.value
  }

  /** The P bit a reader keeps: every notification it has seen had 0x40 in its first byte. */
  lemma {:induction false} PBitMeans(s: Parsed, items: seq<Item>, encrypted: bool)
    ensures AbsorbAll(s, items, encrypted).pBit <==>
            s.pBit && forall x <- items | x.attr.kind == 12 :: |x.attr.data| > 0 && x.attr.data[0] % 128 >= 64
    decreases |items|
  {
    if items != [] {
      var init, last := items[..|items| - 1], items[|items| - 1];
      PBitMeans(s, init, encrypted);
      assert items == init + [last];
    }
  }
}
