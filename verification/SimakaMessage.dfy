/** EAP-SIM and EAP-AKA messages (simaka_message.c): generate, parse and verify. */
module SimakaMessages {
  import opened Bytes
  import opened Words
  import opened SimakaAttributes

  const AKA_CHALLENGE: Byte := 1
  const AKA_AUTHENTICATION_REJECT: Byte := 2
  const AKA_SYNCHRONIZATION_FAILURE: Byte := 4
  const AKA_IDENTITY: Byte := 5
  const SIM_START: Byte := 10
  const SIM_CHALLENGE: Byte := 11
  const SIM_NOTIFICATION: Byte := 12
  const SIM_REAUTHENTICATION: Byte := 13
  const SIM_CLIENT_ERROR: Byte := 14
  const EAP_REQUEST: Byte := 1
  const EAP_RESPONSE: Byte := 2
  const EAP_SIM: Byte := 18
  const EAP_AKA: Byte := 23
  const HEADER := 8

  // ---- keys ----

  /** Block, IV and MAC size of AES-CBC and HMAC-SHA1-128. */
  const BLOCK := 16

  type Tag = s: seq<Byte> | |s| == BLOCK witness Zeros(16)
  type Signer = seq<Byte> -> Option<Tag>

  datatype Crypter = Crypter(encrypt: (seq<Byte>, Tag) -> Option<seq<Byte>>,
                             decrypt: (seq<Byte>, Tag) -> Option<seq<Byte>>)
  datatype Rng = NoRng | Failing | Random(bytes: Tag)
  datatype Crypto = Crypto(crypter: Option<Crypter>, signer: Option<Signer>, rng: Rng)

  /** Encryption works in place, so it keeps the length. */
  ghost predicate InPlace(c: Crypter) {
    forall p: seq<Byte>, iv: Tag | c.encrypt(p, iv).Some? :: |c.encrypt(p, iv).value| == |p|
  }

  ghost predicate Undoes(c: Crypter) {
    forall p: seq<Byte>, iv: Tag | c.encrypt(p, iv).Some? :: c.decrypt(c.encrypt(p, iv).value, iv) == Some(p)
  }

  // ---- what generate produces ----

  function Keep<T>(xs: seq<T>, p: T -> bool): (r: seq<T>)
    ensures forall x | x in r :: x in xs && p(x)
  {
    if xs == [] then [] else Keep(xs[..|xs| - 1], p) + if p(xs[|xs| - 1]) then [xs[|xs| - 1]] else []
  }

  function Flatten<T>(xs: seq<T>, f: T -> seq<Byte>): seq<Byte> {
    if xs == [] then [] else Flatten(xs[..|xs| - 1], f) + f(xs[|xs| - 1])
  }

  predicate IsSecret(a: Attr) {
    IsEncrypted(a.kind)
  }

  predicate IsClear(a: Attr) {
    HasRule(a.kind) && !IsEncrypted(a.kind)
  }

  /** The attributes sent as they are, in order; those without an encoding rule are not sent. */
  function Clear(attrs: seq<Attr>): seq<Attr> {
    Keep(attrs, IsClear)
  }

  /** The attributes only sent encrypted, in order. */
  function Secret(attrs: seq<Attr>): seq<Attr> {
    Keep(attrs, IsSecret)
  }

  function Form(a: Attr): seq<Byte> {
    if Encodable(a) then Encode(a) else []
  }

  function EncodeAll(attrs: seq<Attr>): seq<Byte> {
    Flatten(attrs, Form)
  }

  predicate PBit(a: Attr) {
    |a.data| > 0 && a.data[0] / 64 % 2 == 1
  }

  /** A notification without the P bit, sent after authentication. */
  predicate Unphased(a: Attr) {
    a.kind == AT_NOTIFICATION && !PBit(a)
  }

  predicate NoPBit(attrs: seq<Attr>) {
    exists a | a in attrs :: Unphased(a)
  }

  predicate NeedsMac(subtype: Byte, attrs: seq<Attr>) {
    || subtype == SIM_CHALLENGE || subtype == AKA_CHALLENGE || subtype == SIM_REAUTHENTICATION
    || (subtype == SIM_NOTIFICATION && NoPBit(attrs))
  }

  function PaddingAttr(n: nat): (r: seq<Byte>)
    requires n < BLOCK && n % 4 == 0
    ensures |r| == n
  {
    if n == 0 then [] else [AT_PADDING, n / 4] + Zeros(n - 2)
  }

  function IvAttr(iv: Tag): seq<Byte> {
    [AT_IV, 5, 0, 0] + iv
  }

  function EncrAttr(c: seq<Byte>): seq<Byte>
    requires |c| <= MAX_VALUE
  {
    [AT_ENCR_DATA, |c| / 4 + 1, 0, 0] + c
  }

  function MacAttr(mac: Tag): seq<Byte> {
    [AT_MAC, 5, 0, 0] + mac
  }

  /** The plaintext of AT_ENCR_DATA: the secret attributes, filled up to whole blocks by AT_PADDING. */
  function Plain(secret: seq<Byte>): (r: seq<Byte>)
    requires |secret| % 4 == 0
    ensures |r| % BLOCK == 0
  {
    PadIsWords(|secret|);
    secret + PaddingAttr(PadLen(|secret|, BLOCK))
  }

  lemma {:induction false} WholeWords(attrs: seq<Attr>)
    ensures |EncodeAll(attrs)| % 4 == 0
  {
    if attrs != [] {
      WholeWords(attrs[..|attrs| - 1]);
      FormIsWords(attrs[|attrs| - 1]);
    }
  }

  lemma FormIsWords(a: Attr)
    ensures |Form(a)| % 4 == 0 && (Encodable(a) ==> Form(a) == Encode(a) && |Form(a)| == SizeOf(a) >= 4)
  {
    if Encodable(a) { SizeAgrees(a); }
  }

  lemma PadIsWords(n: nat)
    requires n % 4 == 0
    ensures PadLen(n, BLOCK) % 4 == 0 && PadLen(n, BLOCK) < BLOCK
  {
    var k := n / 4;
    DivModUnique(n, BLOCK, k / 4, 4 * (k % 4));
  }

  /** AT_IV and AT_ENCR_DATA, if there is anything to encrypt. */
  function EncryptedPart(crypto: Crypto, secret: seq<Byte>): Option<seq<Byte>>
    requires |secret| % 4 == 0
  {
    if secret == [] then Some([])
    else if crypto.crypter.None? || !crypto.rng.Random? || |Plain(secret)| > MAX_VALUE then None
    else
      var text := crypto.crypter.value.encrypt(Plain(secret), crypto.rng.bytes);
      if text.None? || |text.value| > MAX_VALUE then None else Some(IvAttr(crypto.rng.bytes) + EncrAttr(text.value))
  }

  /** The header with a length set. */
  function Head(hdr: seq<Byte>, n: U16): (r: seq<Byte>)
    requires |hdr| >= HEADER
    ensures |r| == HEADER
  {
    hdr[..2] + PutU16(n) + hdr[4..HEADER]
  }

  function Framed(hdr: seq<Byte>, body: seq<Byte>): (r: seq<Byte>)
    requires |hdr| >= HEADER && HEADER + |body| < 0x1_0000
  {
    Head(hdr, HEADER + |body|) + body
  }

  function Maced(hdr: seq<Byte>, body: seq<Byte>, crypto: Crypto, sigdata: seq<Byte>): Option<seq<Byte>>
    requires |hdr| >= HEADER
  {
    if crypto.signer.None? || HEADER + |body| + 20 >= 0x1_0000 then None
    else
      var mac := crypto.signer.value(Framed(hdr, body + MacAttr(Zeros(BLOCK))) + sigdata);
      if mac.None? then None else Some(Framed(hdr, body + MacAttr(mac.value)))
  }

  /** The message around the byte forms of its attributes. */
  function Assembled(hdr: seq<Byte>, clear: seq<Byte>, secret: seq<Byte>, needsMac: bool, crypto: Crypto,
                     sigdata: seq<Byte>)
    : Option<seq<Byte>>
    requires |hdr| >= HEADER && |secret| % 4 == 0
  {
    var e := EncryptedPart(crypto, secret);
    if e.None? then None
    else if needsMac then Maced(hdr, clear + e.value, crypto, sigdata)
    else if HEADER + |clear + e.value| >= 0x1_0000 then None
    else Some(Framed(hdr, clear + e.value))
  }

  /** The message generate returns, or its failure. */
  function Generated(hdr: seq<Byte>, attrs: seq<Attr>, crypto: Crypto, sigdata: seq<Byte>): Option<seq<Byte>>
    requires |hdr| >= HEADER
  {
    WholeWords(Secret(attrs));
    if !AllAccepted(attrs) then None
    else Assembled(hdr, EncodeAll(Clear(attrs)), EncodeAll(Secret(attrs)), NeedsMac(hdr[5], attrs), crypto, sigdata)
  }

  // ---- what parse makes of a message ----

  /** Where the value of AT_MAC was found: in the message, or in decrypted data, which is freed when decrypt returns. */
  datatype Mac = Nowhere | InMessage(at: nat) | InPlain

  /** A chunk that points to a value: live if that is in the message, not if it was in decrypted data. */
  datatype Slice = Slice(data: seq<Byte>, live: bool)

  datatype Parsed = Parsed(attributes: seq<Attr>, pBit: bool, mac: Mac, iv: Slice, encr: Slice)

  function Absorb(s: Parsed, x: Item, encrypted: bool): Parsed {
    var kind := x.attr.kind;
    if kind == AT_MAC then s.(mac := if encrypted then InPlain else InMessage(x.at + 4))
    else if kind == AT_IV then s.(iv := Slice(x.attr.data, !encrypted))
    else if kind == AT_ENCR_DATA then s.(encr := Slice(x.attr.data, !encrypted))
    else if kind == AT_PADDING then s
    else s.(attributes := s.attributes + [x.attr], pBit := s.pBit && (kind == AT_NOTIFICATION ==> PBit(x.attr)))
  }

  function AbsorbAll(s: Parsed, items: seq<Item>, encrypted: bool): Parsed {
    if items == [] then s else Absorb(AbsorbAll(s, items[..|items| - 1], encrypted), items[|items| - 1], encrypted)
  }

  function ParsedFrom(s: Parsed, encrypted: bool, b: seq<Byte>, at: nat): Option<Parsed>
    requires at <= |b|
  {
    var items := Walk(encrypted, b, at);
    if items.None? then None else Some(AbsorbAll(s, items.value, encrypted))
  }

  /** What parse ends in: a state, a refusal, or the use of a value that has been freed. */
  datatype Parsing = Now(state: Parsed) | Refused | Dangling

  function FromOption(s: Option<Parsed>): Parsing {
    if s.Some? then Now(s.value) else Refused
  }

  /** decrypt looks at the lengths first, then at the values. */
  function Decrypted(crypto: Crypto, s: Parsed): Parsing {
    if crypto.crypter.None? || s.iv.data == [] || s.encr.data == [] then Now(s)
    else if |s.encr.data| % BLOCK != 0 then Refused
    else if !s.iv.live || !s.encr.live then Dangling
    else if |s.iv.data| != BLOCK then Refused
    else
      var plain := crypto.crypter.value.decrypt(s.encr.data, s.iv.data);
      if plain.None? then Refused else FromOption(ParsedFrom(s, true, plain.value, 0))
  }

  function ParsedMessage(crypto: Crypto, s: Parsed, b: seq<Byte>): Parsing
    requires |b| >= HEADER
  {
    if s.attributes != [] then Decrypted(crypto, s)
    else
      var t := ParsedFrom(s, false, b, HEADER);
      if t.None? then Refused else Decrypted(crypto, t.value)
  }

  /** What a call answers, unless it uses a value that has been freed. */
  datatype Outcome = Answer(ok: bool) | Undefined

  function OutcomeOf(p: Parsing): Outcome {
    match p
    case Now(_) => Answer(true)
    case Refused => Answer(false)
    case Dangling => Undefined
  }

  // ---- what verify accepts ----

  predicate Unsigned(subtype: Byte) {
    subtype == SIM_START || subtype == SIM_CLIENT_ERROR || subtype == AKA_AUTHENTICATION_REJECT
    || subtype == AKA_SYNCHRONIZATION_FAILURE || subtype == AKA_IDENTITY
  }

  predicate AlwaysSigned(subtype: Byte) {
    subtype == SIM_CHALLENGE || subtype == AKA_CHALLENGE || subtype == SIM_REAUTHENTICATION
  }

  predicate Known(subtype: Byte) {
    Unsigned(subtype) || AlwaysSigned(subtype) || subtype == SIM_NOTIFICATION
  }

  predicate Inside(b: seq<Byte>, s: Parsed) {
    |b| >= HEADER && (s.mac.InMessage? ==> s.mac.at + BLOCK <= |b|)
  }

  /** The message with zeros in place of the MAC. */
  function Zeroed(b: seq<Byte>, at: nat): (r: seq<Byte>)
    requires at + BLOCK <= |b|
    ensures |r| == |b|
  {
    Overwritten(b, at, Zeros(BLOCK))
  }

  predicate MacHolds(b: seq<Byte>, s: Parsed, signer: Option<Signer>, sigdata: seq<Byte>)
    requires Inside(b, s)
  {
    && s.mac.InMessage? && signer.Some?
    && signer.value(Zeroed(b, s.mac.at) + sigdata) == Some(b[s.mac.at..s.mac.at + BLOCK])
  }

  predicate Accepts(b: seq<Byte>, s: Parsed, signer: Option<Signer>, sigdata: seq<Byte>)
    requires Inside(b, s)
  {
    || Unsigned(b[5])
    || (b[5] == SIM_NOTIFICATION && s.pBit)
    || ((AlwaysSigned(b[5]) || b[5] == SIM_NOTIFICATION) && MacHolds(b, s, signer, sigdata))
  }

  /** Verify gets as far as the MAC: the subtype demands one, one was found, and there is a key for it. */
  predicate Reaches(b: seq<Byte>, s: Parsed, signer: Option<Signer>)
    requires |b| >= HEADER
  {
    (AlwaysSigned(b[5]) || (b[5] == SIM_NOTIFICATION && !s.pBit)) && s.mac != Nowhere && signer.Some?
  }

  /** The answer of verify, which is not defined if and only if it reaches a MAC that was found in decrypted data. */
  function Verdict(b: seq<Byte>, s: Parsed, signer: Option<Signer>, sigdata: seq<Byte>): Outcome
    requires Inside(b, s)
  {
    if Reaches(b, s, signer) && s.mac == InPlain then Undefined else Answer(Accepts(b, s, signer, sigdata))
  }

  /** The checks of simaka_message_create_data. */
  predicate ValidHeader(b: seq<Byte>) {
    && |b| >= HEADER && GetU16(b, 2) == |b|
    && (b[0] == EAP_REQUEST || b[0] == EAP_RESPONSE) && (b[4] == EAP_SIM || b[4] == EAP_AKA)
  }

  const FRESH := Parsed([], true, Nowhere, Slice([], true), Slice([], true))

  // ---- the object ----

  class SimakaMessage {
    var bytes: seq<Byte>
    var attributes: seq<Attr>
    var encrypted: bool
    var pBit: bool
    var mac: Mac
    var iv: Slice
    var encr: Slice

    ghost function Fields(): Parsed
      reads this
    {
      Parsed(attributes, pBit, mac, iv, encr)
    }

    ghost predicate Sound()
      reads this
    {
      Inside(bytes, Fields()) && (iv.data == [] || |iv.data| == BLOCK)
    }

    ghost predicate Valid()
      reads this
    {
      Sound() && !encrypted
    }

    constructor Copy(data: seq<Byte>)
      ensures bytes == data && Fields() == FRESH && !encrypted
    {
      bytes := data;
      attributes, encrypted, pBit, mac := [], false, true, Nowhere;
      iv, encr := Slice([], true), Slice([], true);
    }

    /** simaka_message_create_data */
    static method Create(data: seq<Byte>) returns (r: SimakaMessage?)
      ensures r != null <==> ValidHeader(data)
      ensures r != null ==> fresh(r) && r.Valid() && r.bytes == data && r.Fields() == FRESH
    {
      if |data| < HEADER || GetU16(data, 2) != |data| {
        return null;
      }
      if data[0] != EAP_REQUEST && data[0] != EAP_RESPONSE {
        return null;
      }
      if data[4] != EAP_SIM && data[4] != EAP_AKA {
        return null;
      }
      r := new SimakaMessage.Copy(data);
    }

    /** add_attribute */
    method AddAttribute(kind: Byte, data: seq<Byte>)
      modifies this`attributes
      ensures attributes == old(attributes) + [Attr(kind, data)]
    {
      attributes := attributes + [Attr(kind, data)];
    }

    /** The treatment of one attribute at the end of the loop of parse_attributes. */
    method Handle(x: Item)
      requires Sound() && Sixteenth(x, |bytes|, encrypted)
      modifies this`attributes, this`pBit, this`mac, this`iv, this`encr
      ensures Sound()
      ensures Fields() == Absorb(old(Fields()), x, encrypted)
    {
      if x.attr.kind == AT_MAC {
        mac := if encrypted then InPlain else InMessage(x.at + 4);
      } else if x.attr.kind == AT_IV {
        iv := Slice(x.attr.data, !encrypted);
      } else if x.attr.kind == AT_ENCR_DATA {
        encr := Slice(x.attr.data, !encrypted);
      } else if x.attr.kind != AT_PADDING {
        if x.attr.kind == AT_NOTIFICATION {
          pBit := pBit && PBit(x.attr);
        }
        AddAttribute(x.attr.kind, x.attr.data);
      }
    }

    /** parse_attributes */
    method ParseAttributes(b: seq<Byte>, start: nat) returns (ok: bool)
      requires start <= |b| && Sound() && (!encrypted ==> b == bytes)
      modifies this`attributes, this`pBit, this`mac, this`iv, this`encr
      ensures Sound()
      ensures ok <==> Walk(encrypted, b, start).Some?
      ensures ok ==> ParsedFrom(old(Fields()), encrypted, b, start) == Some(Fields())
    {
      var at := start;
      ghost var done: seq<Item> := [];
      ghost var walk := WalkerOf(encrypted, b);
      JoinEnds(done, walk(start));
      while at < |b|
        invariant start <= at <= |b| && Sound()
        invariant walk(start) == Join(done, walk(at))
        invariant Fields() == AbsorbAll(old(Fields()), done, encrypted)
        decreases |b| - at
      {
        var x := Next(b, at, walk, done);
        if x.None? {
          return false;
        }
        Handle(x.value);
        done := done + [x.value];
        at := at + x.value.size;
      }
      WalkDone(walk, encrypted, b);
      JoinEnds(done, Some([]));
      return true;
    }

    /** The attribute at the front of what is left. */
    method Next(b: seq<Byte>, at: nat, ghost walk: Walker, ghost done: seq<Item>) returns (x: Option<Item>)
      requires at < |b| && Walks(walk, encrypted, b) && (!encrypted ==> b == bytes)
      ensures x.None? ==> walk(at).None?
      ensures x.Some? ==> && Sixteenth(x.value, |bytes|, encrypted) && 4 <= x.value.size <= |b| - at
                          && (done + [x.value])[..|done|] == done
                          && Join(done, walk(at)) == Join(done + [x.value], walk(at + x.value.size))
    {
      x := ReadAttr(encrypted, b, at);
      if x.Some? {
        RoundTaken(encrypted, b, at, x.value, |bytes|, done);
      } else {
        assert Walk(encrypted, b, at).None?;
      }
    }

    /** decrypt */
    method Decrypt(crypto: Crypto) returns (r: Outcome)
      requires Valid()
      modifies this`attributes, this`pBit, this`mac, this`iv, this`encr, this`encrypted
      ensures Valid()
      ensures r == OutcomeOf(Decrypted(crypto, old(Fields())))
      ensures r == Answer(true) ==> Decrypted(crypto, old(Fields())) == Now(Fields())
    {
      if crypto.crypter.None? || |iv.data| == 0 || |encr.data| == 0 || encrypted {
        return Answer(true);
      }
      if |encr.data| % BLOCK != 0 {
        return Answer(false);
      }
      if !iv.live || !encr.live {
        return Undefined;
      }
      var plain := crypto.crypter.value.decrypt(encr.data, iv.data);
      if plain.None? {
        return Answer(false);
      }
      encrypted := true;
      var ok := ParseAttributes(plain.value, 0);
      encrypted := false;
      return Answer(ok);
    }

    /** parse: a second call, with keys that were missing, only decrypts. */
    method Parse(crypto: Crypto) returns (r: Outcome)
      requires Valid()
      modifies this`attributes, this`pBit, this`mac, this`iv, this`encr, this`encrypted
      ensures Valid()
      ensures r == OutcomeOf(ParsedMessage(crypto, old(Fields()), bytes))
      ensures r == Answer(true) ==> ParsedMessage(crypto, old(Fields()), bytes) == Now(Fields())
    {
      if |attributes| != 0 {
        r := Decrypt(crypto);
        return;
      }
      var ok := ParseAttributes(bytes, HEADER);
      if !ok {
        return Answer(false);
      }
      r := Decrypt(crypto);
    }

    /** verify: a MAC that was checked is left as zeros in the message. */
    method Verify(signer: Option<Signer>, sigdata: seq<Byte>) returns (r: Outcome)
      requires Valid()
      modifies this`bytes
      ensures r == Verdict(old(bytes), Fields(), signer, sigdata)
      ensures bytes == if Reaches(old(bytes), Fields(), signer) && mac.InMessage? then Zeroed(old(bytes), mac.at)
                       else old(bytes)
    {
      var subtype := bytes[5];
      if Unsigned(subtype) {
        return Answer(true);
      }
      if AlwaysSigned(subtype) {
        if mac == Nowhere || signer.None? {
          return Answer(false);
        }
      } else if subtype == SIM_NOTIFICATION {
        if pBit {
          return Answer(true);
        }
        if mac == Nowhere || signer.None? {
          return Answer(false);
        }
      } else {
        return Answer(false);
      }
      if mac == InPlain {
        return Undefined;
      }
      var backup := bytes[mac.at..mac.at + BLOCK];
      bytes := Zeroed(bytes, mac.at);
      return Answer(signer.value(bytes + sigdata) == Some(backup));
    }
  }

  /** AT_IV and AT_MAC hold one block, which lies in the message if they do. */
  predicate Sixteenth(x: Item, n: nat, encrypted: bool) {
    x.attr.kind == AT_IV || x.attr.kind == AT_MAC ==> |x.attr.data| == BLOCK && (encrypted || x.at + 4 + BLOCK <= n)
  }

  lemma ReadSixteen(encrypted: bool, b: seq<Byte>, at: nat, x: Item, n: nat)
    requires at <= |b| && ReadAttr(encrypted, b, at) == Some(x) && (!encrypted ==> n == |b|)
    ensures Sixteenth(x, n, encrypted)
  {
  }

  lemma Snoc<T>(xs: seq<T>, x: T, f: T -> seq<Byte>)
    ensures Flatten(xs + [x], f) == Flatten(xs, f) + f(x)
  {
    assert (xs + [x])[..|xs|] == xs;
  }

  lemma NotedNoPBit(attrs: seq<Attr>, i: nat)
    requires i < |attrs|
    ensures NoPBit(attrs[..i + 1]) <==> NoPBit(attrs[..i]) || Unphased(attrs[i])
  {
    assert attrs[..i + 1] == attrs[..i] + [attrs[i]];
  }

  /** The walk over one input as a function value of the position, so that the loop need not look into it. */
  type Walker = nat -> Option<seq<Item>>

  ghost predicate Walks(walk: Walker, encrypted: bool, b: seq<Byte>) {
    forall at: nat {:trigger Walk(encrypted, b, at)} | at <= |b| :: walk(at) == Walk(encrypted, b, at)
  }

  lemma WalkerOf(encrypted: bool, b: seq<Byte>) returns (walk: Walker)
    ensures Walks(walk, encrypted, b)
  {
    walk := (at: nat) => if at <= |b| then Walk(encrypted, b, at) else None;
  }

  lemma WalkDone(walk: Walker, encrypted: bool, b: seq<Byte>)
    requires Walks(walk, encrypted, b)
    ensures walk(|b|) == Some([])
  {
    assert Walk(encrypted, b, |b|) == Some([]);
  }

  /** One round of parse_attributes. */
  lemma RoundTaken(encrypted: bool, b: seq<Byte>, at: nat, x: Item, n: nat, done: seq<Item>)
    requires at < |b| && ReadAttr(encrypted, b, at) == Some(x) && (!encrypted ==> n == |b|)
    ensures Sixteenth(x, n, encrypted) && (done + [x])[..|done|] == done
    ensures Join(done, Walk(encrypted, b, at)) == Join(done + [x], Walk(encrypted, b, at + x.size))
  {
    ReadSixteen(encrypted, b, at, x, n);
    WalkStep(encrypted, b, at, x);
    JoinStep(done, x, Walk(encrypted, b, at + x.size));
  }

  lemma WalkStep(encrypted: bool, b: seq<Byte>, at: nat, x: Item)
    requires at < |b| && ReadAttr(encrypted, b, at) == Some(x)
    ensures Walk(encrypted, b, at) == Join([x], Walk(encrypted, b, at + x.size))
  {
  }

  lemma JoinEnds(done: seq<Item>, rest: Option<seq<Item>>)
    ensures Join([], rest) == rest && Join(done, Some([])) == Some(done)
  {
    if rest.Some? {
      assert [] + rest.value == rest.value;
    }
    assert done + [] == done;
  }

  lemma JoinStep(done: seq<Item>, x: Item, rest: Option<seq<Item>>)
    ensures Join(done, Join([x], rest)) == Join(done + [x], rest) && (done + [x])[..|done|] == done
  {
    if rest.Some? {
      assert done + ([x] + rest.value) == (done + [x]) + rest.value;
    }
  }
}
