/** The attributes of EAP-SIM and EAP-AKA messages (simaka_message.c): their byte forms and the walk over them. */
module SimakaAttributes {
  import opened Bytes
  import opened Words

  const AT_RAND: Byte := 1
  const AT_AUTN: Byte := 2
  const AT_RES: Byte := 3
  const AT_AUTS: Byte := 4
  const AT_PADDING: Byte := 6
  const AT_NONCE_MT: Byte := 7
  const AT_PERMANENT_ID_REQ: Byte := 10
  const AT_MAC: Byte := 11
  const AT_NOTIFICATION: Byte := 12
  const AT_ANY_ID_REQ: Byte := 13
  const AT_IDENTITY: Byte := 14
  const AT_VERSION_LIST: Byte := 15
  const AT_SELECTED_VERSION: Byte := 16
  const AT_FULLAUTH_ID_REQ: Byte := 17
  const AT_COUNTER: Byte := 19
  const AT_COUNTER_TOO_SMALL: Byte := 20
  const AT_NONCE_S: Byte := 21
  const AT_CLIENT_ERROR_CODE: Byte := 22
  const AT_IV: Byte := 129
  const AT_ENCR_DATA: Byte := 130
  const AT_NEXT_PSEUDONYM: Byte := 132
  const AT_NEXT_REAUTH_ID: Byte := 133
  const AT_CHECKCODE: Byte := 134

  /** The longest value behind a four-byte head whose one-byte length counts words. */
  const MAX_VALUE := 255 * 4 - 4

  datatype Attr = Attr(kind: Byte, data: seq<Byte>)

  /** is_encrypted_attribute */
  predicate IsEncrypted(kind: Byte) {
    kind == AT_NONCE_S || kind == AT_NEXT_PSEUDONYM || kind == AT_NEXT_REAUTH_ID || kind == AT_COUNTER
    || kind == AT_COUNTER_TOO_SMALL
  }

  /** No data; two bytes; a length and padded data; 16 bytes behind reserved ones; words behind reserved ones; 14 bytes;
      the rest. */
  datatype Shape = Bare | Pair | Sized | Sixteen | Words | Fourteen | Other

  function ShapeOf(kind: Byte): Shape {
    if kind == AT_COUNTER_TOO_SMALL || kind == AT_ANY_ID_REQ || kind == AT_PERMANENT_ID_REQ
       || kind == AT_FULLAUTH_ID_REQ
    then Bare
    else if kind == AT_COUNTER || kind == AT_CLIENT_ERROR_CODE || kind == AT_SELECTED_VERSION
            || kind == AT_NOTIFICATION
    then Pair
    else if kind == AT_NEXT_PSEUDONYM || kind == AT_NEXT_REAUTH_ID || kind == AT_RES || kind == AT_IDENTITY
            || kind == AT_VERSION_LIST
    then Sized
    else if kind == AT_NONCE_S || kind == AT_AUTN || kind == AT_NONCE_MT || kind == AT_IV || kind == AT_MAC then Sixteen
    else if kind == AT_ENCR_DATA || kind == AT_RAND then Words
    else if kind == AT_AUTS then Fourteen
    else Other
  }

  // ---- writing ----

  /** encode_attribute has a rule for the type; AT_IV, AT_ENCR_DATA and AT_MAC are written by generate itself. */
  predicate HasRule(kind: Byte) {
    ShapeOf(kind) != Other && kind != AT_IV && kind != AT_ENCR_DATA && kind != AT_MAC
  }

  predicate LengthOk(a: Attr) {
    match ShapeOf(a.kind)
    case Bare => a.data == []
    case Pair => |a.data| == 2
    case Sized => |a.data| <= MAX_VALUE
    case Sixteen => |a.data| == 16
    case Words => |a.data| % 4 == 0 && |a.data| <= MAX_VALUE
    case Fourteen => |a.data| == 14
    case Other => true
  }

  predicate Encodable(a: Attr) {
    HasRule(a.kind) && LengthOk(a)
  }

  /** encode_attribute returns TRUE: it also does for a type without a rule, which it skips. */
  predicate Accepted(a: Attr) {
    HasRule(a.kind) ==> LengthOk(a)
  }

  predicate AllAccepted(attrs: seq<Attr>) {
    forall a | a in attrs :: Accepted(a)
  }

  predicate AllEncodable(attrs: seq<Attr>) {
    forall a | a in attrs :: Encodable(a)
  }

  /** encode_attribute without a buffer: the size it announces. */
  function SizeOf(a: Attr): nat
    requires Encodable(a)
  {
    var shape := ShapeOf(a.kind);
    if shape == Sized then 4 + |a.data| + PadLen(4 + |a.data|, 4)
    else if shape == Sixteen then 20
    else if shape == Words then 4 + |a.data|
    else if shape == Fourteen then 16
    else 4
  }

  /** The number of words of the whole attribute. */
  function WordCount(a: Attr): Byte
    requires Encodable(a)
  {
    var shape := ShapeOf(a.kind);
    if shape == Sized then |a.data| / 4 + 1 + (if PadLen(|a.data|, 4) > 0 then 1 else 0)
    else if shape == Sixteen then 5
    else if shape == Words then 1 + |a.data| / 4
    else if shape == Fourteen then 4
    else 1
  }

  /** The length in bits for AT_RES, in bytes for the others. */
  function ActualLength(a: Attr): U16
    requires |a.data| <= MAX_VALUE
  {
    if a.kind == AT_RES then |a.data| * 8 else |a.data|
  }

  /** What stands between the head and the data. */
  function Reserved(a: Attr): seq<Byte>
    requires Encodable(a)
  {
    var shape := ShapeOf(a.kind);
    if shape == Sized then PutU16(ActualLength(a)) else if shape == Pair || shape == Fourteen then [] else [0, 0]
  }

  function Padding(a: Attr): seq<Byte> {
    if ShapeOf(a.kind) == Sized then Zeros(PadLen(|a.data|, 4)) else []
  }

  /** The byte form of an attribute. */
  function Encode(a: Attr): (r: seq<Byte>)
    requires Encodable(a)
  {
    [a.kind, WordCount(a)] + Reserved(a) + a.data + Padding(a)
  }

  /** The sizing pass and the writing pass agree, and the one-byte length field counts the words written. */
  lemma SizeAgrees(a: Attr)
    requires Encodable(a)
    ensures |Encode(a)| == SizeOf(a) && SizeOf(a) >= 4 && SizeOf(a) % 4 == 0
    ensures Encode(a)[0] == a.kind && Encode(a)[1] == SizeOf(a) / 4
  {
  }

  /** The byte forms by type, as sections 10.1 to 10.18 of RFC 4186 and section 10 of RFC 4187 lay them out: the length
      of AT_RES (3) is in bits, that of the others of its kind in bytes, and they are filled up to whole words. */
  lemma EncodedLayout(a: Attr)
    requires Encodable(a)
    ensures a.kind in {10, 13, 17, 20} ==> Encode(a) == [a.kind, 1, 0, 0]
    ensures a.kind in {12, 16, 19, 22} ==> Encode(a) == [a.kind, 1] + a.data && |a.data| == 2
    ensures a.kind in {2, 7, 21} ==> Encode(a) == [a.kind, 5, 0, 0] + a.data && |a.data| == 16
    ensures a.kind == 1 ==> Encode(a) == [1, 1 + |a.data| / 4, 0, 0] + a.data && |a.data| % 4 == 0
    ensures a.kind == 4 ==> Encode(a) == [4, 4] + a.data && |a.data| == 14
    ensures a.kind in {3, 14, 15, 132, 133} ==>
              && |a.data| <= 1016 && Encode(a)[..2] == [a.kind, (|a.data| + 7) / 4]
              && GetU16(Encode(a), 2) == (if a.kind == 3 then 8 * |a.data| else |a.data|)
              && Encode(a)[4..] == a.data + Zeros((|a.data| + 3) / 4 * 4 - |a.data|)
    ensures a.kind in {1, 2, 3, 4, 7, 10, 12, 13, 14, 15, 16, 17, 19, 20, 21, 22, 132, 133}
  {
    SizeAgrees(a);
    var shape := ShapeOf(a.kind);
    if shape == Sized {
      U16RoundTrip([a.kind, WordCount(a)], ActualLength(a), a.data + Padding(a));
      assert Encode(a) == [a.kind, WordCount(a)] + PutU16(ActualLength(a)) + (a.data + Padding(a));
    } else {
      assert Encode(a) == [a.kind, WordCount(a)] + Reserved(a) + a.data;
    }
  }

  lemma OverwrittenTwice(s: seq<Byte>, at: nat, t: seq<Byte>, u: seq<Byte>)
    requires at + |t| + |u| <= |s|
    ensures Overwritten(Overwritten(s, at, t), at + |t|, u) == Overwritten(s, at, t + u)
  {
  }

  lemma FourPuts(s: seq<Byte>, at: nat, a: seq<Byte>, b: seq<Byte>, c: seq<Byte>, d: seq<Byte>)
    requires at + |a| + |b| + |c| + |d| <= |s|
    ensures var x := Overwritten(Overwritten(s, at, a), at + |a|, b);
            Overwritten(Overwritten(x, at + |a| + |b|, c), at + |a| + |b| + |c|, d) == Overwritten(s, at, a + b + c + d)
  {
    OverwrittenTwice(s, at, a, b);
    OverwrittenTwice(s, at, a + b, c);
    OverwrittenTwice(s, at, a + b + c, d);
  }

  /** The fields encode_attribute fills around the data, by type. */
  method Fields(a: Attr) returns (words: Byte, reserved: seq<Byte>, padding: seq<Byte>)
    requires Encodable(a)
    ensures words == WordCount(a) && reserved == Reserved(a) && padding == Padding(a)
  {
    words, reserved, padding := 1, [0, 0], [];
    match ShapeOf(a.kind) {
      case Pair =>
        reserved := [];
      case Sized =>
        reserved := PutU16(ActualLength(a));
        words := |a.data| / 4 + 1;
        padding := Zeros(PadLen(|a.data|, 4));
        if |padding| > 0 {
          words := words + 1;
        }
      case Sixteen =>
        words := 5;
      case Words =>
        words := 1 + |a.data| / 4;
      case Fourteen =>
        words, reserved := 4, [];
      case _ =>
    }
  }

  /** encode_attribute with a buffer. */
  method EncodeAttribute(a: Attr, buf: array<Byte>, at: nat) returns (next: nat)
    requires Encodable(a) && at + SizeOf(a) <= buf.Length
    modifies buf
    ensures next == at + SizeOf(a) && |Encode(a)| == SizeOf(a)
    ensures buf[..] == Overwritten(old(buf[..]), at, Encode(a))
  {
    SizeAgrees(a);
    var words, reserved, padding := Fields(a);
    FourPuts(buf[..], at, [a.kind, words], reserved, a.data, padding);
    Put(buf, at, [a.kind, words]);
    Put(buf, at + 2, reserved);
    Put(buf, at + 2 + |reserved|, a.data);
    Put(buf, at + 2 + |reserved| + |a.data|, padding);
    next := at + 2 + |reserved| + |a.data| + |padding|;
  }

  // ---- reading ----

  /** An attribute, where it was found, and the bytes it takes up. */
  datatype Item = Item(attr: Attr, at: nat, size: nat)

  /** One round of parse_attributes. */
  function ReadAttr(encrypted: bool, b: seq<Byte>, at: nat): (r: Option<Item>)
    requires at <= |b|
    ensures r.Some? ==> r.value.at == at && at + r.value.size <= |b| && r.value.size >= 4
  {
    var left := |b| - at;
    if left < 2 then None
    else
      var kind, length: int := b[at], b[at + 1];
      if IsEncrypted(kind) && !encrypted then None
      else
        match ShapeOf(kind)
        case Bare => if length != 1 || left < 4 then None else Some(Item(Attr(kind, []), at, 4))
        case Pair => if length != 1 || left < 4 then None else Some(Item(Attr(kind, b[at + 2..at + 4]), at, 4))
        case Sized =>
          if length < 1 || left < length * 4 then None
          else
            var len: int := if kind == AT_RES then GetU16(b, at + 2) / 8 else GetU16(b, at + 2);
            if len > length * 4 - 4 then None else Some(Item(Attr(kind, b[at + 4..at + 4 + len]), at, length * 4))
        case Sixteen => if length != 5 || left < 20 then None else Some(Item(Attr(kind, b[at + 4..at + 20]), at, 20))
        case Words =>
          if length == 0 || length * 4 > left || left < 4 then None
          else Some(Item(Attr(kind, b[at + 4..at + length * 4]), at, length * 4))
        case Fourteen => if length != 4 || left < 16 then None else Some(Item(Attr(kind, b[at + 2..at + 16]), at, 16))
        case Other =>
          if length == 0 || length * 4 > left || left < 4 then None
          else Some(Item(Attr(kind, b[at + 2..at + length * 4]), at, length * 4))
  }

  function Join(done: seq<Item>, rest: Option<seq<Item>>): Option<seq<Item>> {
    if rest.None? then None else Some(done + rest.value)
  }

  /** What parse_attributes finds from a position on, or nothing if it fails. */
  function Walk(encrypted: bool, b: seq<Byte>, at: nat): Option<seq<Item>>
    requires at <= |b|
    decreases |b| - at
  {
    if at == |b| then Some([])
    else
      var r := ReadAttr(encrypted, b, at);
      if r.None? then None else Join([r.value], Walk(encrypted, b, at + r.value.size))
  }

  /** The attribute stands where the item says: type and word count in front, the data inside. */
  predicate Stands(b: seq<Byte>, x: Item) {
    && x.at + x.size <= |b| && x.size >= 4 && x.size % 4 == 0 && b[x.at] == x.attr.kind && b[x.at + 1] == x.size / 4
    && (DataAt(b, x, 2) || DataAt(b, x, 4))
  }

  predicate DataAt(b: seq<Byte>, x: Item, off: nat)
    requires x.at + x.size <= |b|
  {
    off + |x.attr.data| <= x.size && b[x.at + off..x.at + off + |x.attr.data|] == x.attr.data
  }

  predicate Tile(b: seq<Byte>, at: nat, items: seq<Item>)
    decreases |items|
  {
    if items == [] then at == |b|
    else items[0].at == at && Stands(b, items[0]) && Tile(b, at + items[0].size, items[1..])
  }

  lemma ReadStands(encrypted: bool, b: seq<Byte>, at: nat)
    requires at <= |b| && ReadAttr(encrypted, b, at).Some?
    ensures Stands(b, ReadAttr(encrypted, b, at).value)
  {
    var x := ReadAttr(encrypted, b, at).value;
    assert DataAt(b, x, 2) || DataAt(b, x, 4);
  }

  /** For every input, a successful walk tiles it exactly: each attribute begins where the one before ends, by its word
      count. */
  lemma {:induction false} WalkTiles(encrypted: bool, b: seq<Byte>, at: nat)
    requires at <= |b| && Walk(encrypted, b, at).Some?
    ensures Tile(b, at, Walk(encrypted, b, at).value)
    decreases |b| - at
  {
    if at < |b| {
      var x := ReadAttr(encrypted, b, at).value;
      ReadStands(encrypted, b, at);
      WalkTiles(encrypted, b, at + x.size);
      assert ([x] + Walk(encrypted, b, at + x.size).value)[1..] == Walk(encrypted, b, at + x.size).value;
    }
  }

  // ---- reading what was written ----

  /** An encoded attribute is read as itself wherever it stands, an encrypted-only one if encrypted ones are allowed. */
  lemma ReadEncoded(encrypted: bool, pre: seq<Byte>, a: Attr, post: seq<Byte>)
    requires Encodable(a) && (IsEncrypted(a.kind) ==> encrypted)
    ensures ReadAttr(encrypted, pre + Encode(a) + post, |pre|) == Some(Item(a, |pre|, SizeOf(a)))
  {
    SizeAgrees(a);
    var b := pre + Encode(a) + post;
    assert b[|pre|] == a.kind && b[|pre| + 1] == WordCount(a);
    Parts(pre, [a.kind, WordCount(a)], Reserved(a), a.data, Padding(a), post);
    if ShapeOf(a.kind) == Sized {
      var n := ActualLength(a);
      U16RoundTrip(pre + [a.kind, WordCount(a)], n, a.data + Padding(a) + post);
    }
  }

  lemma Parts(pre: seq<Byte>, head: seq<Byte>, reserved: seq<Byte>, data: seq<Byte>, pad: seq<Byte>, post: seq<Byte>)
    requires |head| == 2
    ensures var b := pre + (head + reserved + data + pad) + post;
            && b == (pre + head) + reserved + (data + pad + post)
            && b[|pre| + 2 + |reserved|..|pre| + 2 + |reserved| + |data|] == data
  {
  }
}
