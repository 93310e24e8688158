/** RADIUS messages (radius_message.c): building, enumerating, signing and verifying. */
module RadiusMessages {
  import opened Bytes
  import opened Words
  import opened RadiusCrypt

  const RMC_ACCESS_REQUEST: Byte := 1
  const RAT_USER_PASSWORD: Byte := 2
  const RAT_EAP_MESSAGE: Byte := 79
  const RAT_MESSAGE_AUTHENTICATOR: Byte := 80
  const MAX_RADIUS_ATTRIBUTE_SIZE := 253
  const HEADER := 20

  datatype Attr = Attr(kind: Byte, data: seq<Byte>)

  /** get_signature of the signer; verify_signature compares against it. */
  type Signer = seq<Byte> -> Option<Digest>

  // ---- the byte form ----

  predicate Fits(a: Attr) {
    |a.data| <= MAX_RADIUS_ATTRIBUTE_SIZE
  }

  function Encode(a: Attr): (r: seq<Byte>)
    requires Fits(a)
    ensures |r| == 2 + |a.data|
  {
    [a.kind, |a.data| + 2] + a.data
  }

  function EncodeAll(attrs: seq<Attr>): seq<Byte>
    requires forall a | a in attrs :: Fits(a)
  {
    if attrs == [] then [] else Encode(attrs[0]) + EncodeAll(attrs[1..])
  }

  /** A message: code, identifier, length, authenticator and attributes. */
  function Message(code: Byte, id: Byte, authenticator: Digest, attrs: seq<Attr>): (m: seq<Byte>)
    requires (forall a | a in attrs :: Fits(a)) && HEADER + |EncodeAll(attrs)| < 0x1_0000
  {
    [code, id] + PutU16(HEADER + |EncodeAll(attrs)|) + authenticator + EncodeAll(attrs)
  }

  /** What radius_message_parse demands, and what every message it or radius_message_create returns keeps. */
  predicate WellFormed(m: seq<Byte>) {
    |m| >= HEADER && GetU16(m, 2) == |m|
  }

  function Authenticator(m: seq<Byte>): Digest
    requires |m| >= HEADER
  {
    m[4..HEADER]
  }

  function WithAuthenticator(m: seq<Byte>, a: Digest): (r: seq<Byte>)
    requires |m| >= HEADER
    ensures |r| == |m|
  {
    m[..4] + a + m[HEADER..]
  }

  /** The attribute the enumerator reads at a position, if it is whole. */
  function AttrAt(m: seq<Byte>, at: nat): (r: Option<Attr>)
    requires at <= |m|
    ensures r.Some? ==> Fits(r.value) && at + 2 + |r.value.data| <= |m|
  {
    if |m| - at < 2 || |m| - at < m[at + 1] || m[at + 1] < 2 then None
    else Some(Attr(m[at], m[at + 2..at + m[at + 1]]))
  }

  /** All attributes the enumerator yields from a position on. */
  function Attributes(m: seq<Byte>, at: nat): (r: seq<Attr>)
    requires at <= |m|
    decreases |m| - at
  {
    var a := AttrAt(m, at);
    if a.None? then [] else [a.value] + Attributes(m, at + 2 + |a.value.data|)
  }

  // ---- enumeration ----

  class AttributeEnumerator {
    const msg: seq<Byte>
    var next: nat
    var left: int

    /** create_enumerator: empty for a message too short to hold an attribute. */
    constructor (m: seq<Byte>)
      requires WellFormed(m)
      ensures msg == m && left >= 0 && HEADER <= next && next + left == |m|
      ensures Attributes(m, next) == Attributes(m, HEADER)
      ensures next != HEADER ==> AttrAt(m, HEADER).None? && AttrAt(m, next).None?
    {
      msg := m;
      next := if GetU16(m, 2) < HEADER + 2 then |m| else HEADER;
      left := if GetU16(m, 2) < HEADER + 2 then 0 else GetU16(m, 2) - HEADER;
    }

    /** attribute_enumerate */
    method Enumerate() returns (r: Option<Attr>)
      requires left >= 0 && next + left == |msg|
      modifies this
      ensures left >= 0 && next + left == |msg|
      ensures r == AttrAt(msg, old(next))
      ensures next == old(next) + if r.Some? then 2 + |r.value.data| else 0
    {
      if left == 0 {
        return None;
      }
      if left < 2 || left < msg[next + 1] {
        return None;
      }
      if msg[next + 1] < 2 {
        return None;
      }
      var length: int := msg[next + 1];
      r := Some(Attr(msg[next], msg[next + 2..next + length]));
      left := left - length;
      next := next + length;
    }
  }

  /** Reading a message to its end. */
  method ReadAll(m: seq<Byte>) returns (attrs: seq<Attr>)
    requires WellFormed(m)
    ensures attrs == Attributes(m, HEADER)
  {
    var e := new AttributeEnumerator(m);
    attrs := [];
    ghost var at := e.next;
    var a := e.Enumerate();
    while a.Some?
      invariant e.left >= 0 && e.next + e.left == |m| && e.msg == m && at <= |m|
      invariant a == AttrAt(m, at) && e.next == at + if a.Some? then 2 + |a.value.data| else 0
      invariant Attributes(m, HEADER) == attrs + Attributes(m, at)
      decreases |m| - at
    {
      RoundRead(m, at, a.value, attrs);
      attrs := attrs + [a.value];
      at := e.next;
      a := e.Enumerate();
    }
  }

  lemma RoundRead(m: seq<Byte>, at: nat, a: Attr, attrs: seq<Attr>)
    requires at <= |m| && AttrAt(m, at) == Some(a)
    ensures attrs + Attributes(m, at) == (attrs + [a]) + Attributes(m, at + 2 + |a.data|)
  {
    Regroup(attrs, a, Attributes(m, at + 2 + |a.data|));
  }

  lemma Regroup<T>(a: seq<T>, x: T, b: seq<T>)
    ensures a + ([x] + b) == (a + [x]) + b
  {
  }

  // ---- building ----

  /** A message under construction, with the password kept back for sign. */
  datatype Draft = Draft(msg: seq<Byte>, password: seq<Byte>)

  function Cut(data: seq<Byte>): (r: seq<Byte>)
    ensures |r| == Min(|data|, MAX_RADIUS_ATTRIBUTE_SIZE) && r <= data
  {
    data[..Min(|data|, MAX_RADIUS_ATTRIBUTE_SIZE)]
  }

  /** Null-padded to whole blocks. */
  function Padded(data: seq<Byte>): (r: seq<Byte>)
    ensures |r| % 16 == 0 && data <= r && |r| < |data| + 16
  {
    data + Zeros(PadLen(|data|, 16))
  }

  /** With an attribute behind it: the 16-bit length is right if and only if the total is below 65536. */
  function Appended(m: seq<Byte>, a: Attr): (r: seq<Byte>)
    requires WellFormed(m) && Fits(a)
    ensures |r| == |m| + 2 + |a.data| && GetU16(r, 2) == |r| % 0x1_0000
  {
    m[..2] + PutU16((|m| + 2 + |a.data|) % 0x1_0000) + m[4..] + Encode(a)
  }

  predicate KeptBack(d: Draft, kind: Byte) {
    kind == RAT_USER_PASSWORD && d.password == []
  }

  predicate Room(d: Draft, kind: Byte, data: seq<Byte>) {
    KeptBack(d, kind) || |d.msg| + 2 + |Cut(data)| < 0x1_0000
  }

  function Added(d: Draft, kind: Byte, data: seq<Byte>): (r: Draft)
    requires WellFormed(d.msg)
    ensures WellFormed(r.msg) <==> Room(d, kind, data)
  {
    if KeptBack(d, kind) then Draft(d.msg, Padded(data)) else Draft(Appended(d.msg, Attr(kind, Cut(data))), d.password)
  }

  // ---- signing ----

  /** The random number generator given to sign, if any, and what it delivers. */
  datatype Rng = NoRng | Failing | Random(bytes: Digest)

  /** The authenticator the signature is computed with. */
  function BaseAuthenticator(rng: Rng, req: Option<Digest>): Digest {
    if rng.Random? then rng.bytes else if req.Some? then req.value else Zeros(16)
  }

  function WithPassword(m: seq<Byte>, hidden: seq<Byte>): (r: seq<Byte>)
    requires WellFormed(m) && |m| + PasswordRoom(|hidden|) < 0x1_0000
    ensures WellFormed(r)
  {
    if hidden == [] then m else Appended(m, Attr(RAT_USER_PASSWORD, Cut(hidden)))
  }

  /** With a Message-Authenticator at the end, computed while that attribute holds zeros. */
  function WithMac(sign: Signer, m: seq<Byte>): (r: Option<seq<Byte>>)
    requires WellFormed(m) && |m| + 18 < 0x1_0000
  {
    var z := Appended(m, Attr(RAT_MESSAGE_AUTHENTICATOR, Zeros(16)));
    var mac := sign(z);
    if mac.None? then None else Some(Overwritten(z, |z| - 16, mac.value))
  }

  function Sealed(h: Hasher, secret: seq<Byte>, m: seq<Byte>): Option<seq<Byte>>
    requires |m| >= HEADER
  {
    var d := h(m + secret);
    if d.None? then None else Some(WithAuthenticator(m, d.value))
  }

  /** The room a hidden password of that length takes. */
  function PasswordRoom(n: nat): nat {
    if n == 0 then 0 else 2 + Min(n, MAX_RADIUS_ATTRIBUTE_SIZE)
  }

  predicate RoomToSign(m: seq<Byte>, password: nat, msgAuth: bool) {
    && WellFormed(m)
    && |m| + PasswordRoom(password) + (if msgAuth then 18 else 0) < 0x1_0000
  }

  /** The message sign leaves behind, given the hidden form of the password. */
  function Signed(h: Hasher, sign: Signer, secret: seq<Byte>, rng: Rng, req: Option<Digest>, msgAuth: bool,
                  m: seq<Byte>, hidden: seq<Byte>): (r: Option<seq<Byte>>)
    requires RoomToSign(m, |hidden|, msgAuth)
  {
    var m1 := WithAuthenticator(m, BaseAuthenticator(rng, req));
    KeepsLength(m, BaseAuthenticator(rng, req));
    var m2 := WithPassword(m1, hidden);
    var m3 := if msgAuth then WithMac(sign, m2) else Some(m2);
    if m3.None? || rng != NoRng then m3 else Sealed(h, secret, m3.value)
  }

  lemma KeepsLength(m: seq<Byte>, a: Digest)
    requires WellFormed(m)
    ensures WellFormed(WithAuthenticator(m, a))
  {
  }

  // ---- verifying ----

  /** What verify learns from the attributes: a Message-Authenticator that is wrong, its value at a position and zeroed
      if it had the right length, or whether an EAP-Message was seen and a right Message-Authenticator behind it. */
  datatype Finding = Invalid(at: nat, zeroed: bool) | Checked(hasEap: bool, hasAuth: bool)

  predicate Satisfied(f: Finding) {
    f.Checked? && (f.hasEap ==> f.hasAuth)
  }

  /** The loop of verify: the first Message-Authenticator decides. */
  function Found(sign: Signer, q: seq<Byte>, at: nat, hasEap: bool): (f: Finding)
    requires at <= |q|
    ensures f.Invalid? && f.zeroed ==> f.at + 16 <= |q|
    decreases |q| - at
  {
    var a := AttrAt(q, at);
    if a.None? then Checked(hasEap, false)
    else if a.value.kind == RAT_MESSAGE_AUTHENTICATOR then
      if |a.value.data| != 16 then Invalid(at + 2, false)
      else if sign(Overwritten(q, at + 2, Zeros(16))) == Some(a.value.data) then Checked(hasEap, true)
      else Invalid(at + 2, true)
    else
      Found(sign, q, at + 2 + |a.value.data|, hasEap || a.value.kind == RAT_EAP_MESSAGE)
  }

  /** The attributes pass: no wrong Message-Authenticator, and one if there is an EAP-Message. */
  predicate Scan(sign: Signer, q: seq<Byte>) {
    |q| >= HEADER && Satisfied(Found(sign, q, HEADER, false))
  }

  /** The loop over one message as a function value of position and EAP flag. */
  type Scanner = (nat, bool) -> Finding

  ghost predicate Scans(scan: Scanner, sign: Signer, q: seq<Byte>) {
    forall at: nat, eap: bool {:trigger Found(sign, q, at, eap)} | at <= |q| :: scan(at, eap) == Found(sign, q, at, eap)
  }

  lemma ScanOne(scan: Scanner, sign: Signer, q: seq<Byte>, at: nat, a: Attr, eap: bool)
    requires Scans(scan, sign, q) && at <= |q| && AttrAt(q, at) == Some(a) && a.kind != RAT_MESSAGE_AUTHENTICATOR
    ensures scan(at, eap) == scan(at + 2 + |a.data|, eap || a.kind == RAT_EAP_MESSAGE)
  {
    assert Found(sign, q, at, eap) == Found(sign, q, at + 2 + |a.data|, eap || a.kind == RAT_EAP_MESSAGE);
  }

  /** Where the loop ends. */
  lemma ScanStops(scan: Scanner, sign: Signer, q: seq<Byte>, at: nat, eap: bool)
    requires Scans(scan, sign, q) && HEADER <= at <= |q| && scan(HEADER, false) == scan(at, eap)
    requires var a := AttrAt(q, at); a.None? || a.value.kind == RAT_MESSAGE_AUTHENTICATOR
    ensures var a := AttrAt(q, at);
            Found(sign, q, HEADER, false)
            == if a.None? then Checked(eap, false) else MacFinding(sign, q, at + 2, a.value.data, eap)
  {
    assert Found(sign, q, HEADER, false) == Found(sign, q, at, eap);
  }

  function MacFinding(sign: Signer, q: seq<Byte>, at: nat, value: seq<Byte>, eap: bool): Finding
    requires at + |value| <= |q|
  {
    if |value| != 16 then Invalid(at, false)
    else if sign(Overwritten(q, at, Zeros(16))) == Some(value) then Checked(eap, true)
    else Invalid(at, true)
  }

  /** A scanner, for an enumeration that starts behind the header or is empty. */
  lemma Scanning(sign: Signer, q: seq<Byte>, at: nat) returns (scan: Scanner)
    requires HEADER <= at <= |q| && (at != HEADER ==> AttrAt(q, HEADER).None? && AttrAt(q, at).None?)
    ensures Scans(scan, sign, q) && scan(HEADER, false) == scan(at, false)
  {
    scan := (at: nat, eap: bool) => if at <= |q| then Found(sign, q, at, eap) else Checked(false, false);
  }

  /** The message as the checks leave it. */
  function Spoiled(q: seq<Byte>, f: Finding): seq<Byte>
    requires f.Invalid? && f.zeroed ==> f.at + 16 <= |q|
  {
    if f.Invalid? && f.zeroed then Overwritten(q, f.at, Zeros(16)) else q
  }

  function Requested(m: seq<Byte>, req: Option<Digest>): seq<Byte>
    requires |m| >= HEADER
  {
    if m[0] == RMC_ACCESS_REQUEST then m else WithAuthenticator(m, BaseAuthenticator(NoRng, req))
  }

  predicate Accepts(h: Hasher, sign: Signer, secret: seq<Byte>, req: Option<Digest>, m: seq<Byte>)
    requires |m| >= HEADER
  {
    ResponseRight(h, secret, req, m) && Scan(sign, Requested(m, req))
  }

  predicate ResponseRight(h: Hasher, secret: seq<Byte>, req: Option<Digest>, m: seq<Byte>)
    requires |m| >= HEADER
  {
    m[0] == RMC_ACCESS_REQUEST || h(Requested(m, req) + secret) == Some(Authenticator(m))
  }

  /** What verify leaves of a message: itself, unless the Response-Authenticator is wrong, which leaves the request's in
      its place, or the Message-Authenticator is, which leaves zeros in its place as well. */
  function Verified(h: Hasher, sign: Signer, secret: seq<Byte>, req: Option<Digest>, m: seq<Byte>): (r: seq<Byte>)
    requires |m| >= HEADER
    ensures |r| == |m| && (Accepts(h, sign, secret, req, m) ==> r == m)
  {
    var q := Requested(m, req);
    if !ResponseRight(h, secret, req, m) then q
    else if Found(sign, q, HEADER, false).Invalid? then Spoiled(q, Found(sign, q, HEADER, false))
    else m
  }

  class RadiusMessage {
    var msg: seq<Byte>
    var password: array<Byte>

    ghost predicate Valid()
      reads this
    {
      WellFormed(msg) && password.Length % 16 == 0
    }

    /** radius_message_create */
    constructor (code: Byte)
      ensures Valid() && fresh(password) && password.Length == 0
      ensures msg == Message(code, 0, Zeros(16), [])
    {
      msg := [code, 0] + PutU16(HEADER) + Zeros(16);
      password := new Byte[0];
    }

    /** The copy radius_message_parse makes. */
    constructor Copy(data: seq<Byte>)
      ensures msg == data && fresh(password) && password.Length == 0
    {
      msg := data;
      password := new Byte[0];
    }

    /** radius_message_parse */
    static method Parse(data: seq<Byte>) returns (r: RadiusMessage?)
      ensures r != null <==> WellFormed(data)
      ensures r != null ==> fresh(r) && r.Valid() && r.msg == data && fresh(r.password) && r.password.Length == 0
    {
      r := new RadiusMessage.Copy(data);
      if |data| < HEADER || GetU16(data, 2) != |data| {
        return null;
      }
    }

    /** add */
    method Add(kind: Byte, data: seq<Byte>)
      requires Valid()
      modifies this
      ensures Draft(msg, password[..]) == Added(Draft(old(msg), old(password[..])), kind, data)
      ensures Valid() <==> Room(Draft(old(msg), old(password[..])), kind, data)
      ensures if kind == RAT_USER_PASSWORD && old(password.Length) == 0 then fresh(password)
              else password == old(password)
    {
      if kind == RAT_USER_PASSWORD && password.Length == 0 {
        var padded := Padded(data);
        password := new Byte[|padded|](i requires 0 <= i < |padded| => padded[i]);
        assert password[..] == padded;
        return;
      }
      AddAttribute(kind, data);
    }

    /** The part of add that appends. */
    method AddAttribute(kind: Byte, data: seq<Byte>)
      requires WellFormed(msg)
      modifies this`msg
      ensures msg == Appended(old(msg), Attr(kind, Cut(data)))
    {
      var cut := Cut(data);
      var length := |cut| + 2;
      var total := (GetU16(msg, 2) + length) % 0x1_0000;
      msg := msg[..GetU16(msg, 2)] + [kind, length] + cut;
      msg := msg[..2] + PutU16(total) + msg[4..];
      assert msg == Appended(old(msg), Attr(kind, cut));
    }

    /** The part of sign that hides the password and appends it. */
    method AddPassword(secret: seq<Byte>, h: Hasher) returns (ok: bool, ghost hidden: seq<Byte>)
      requires Valid() && |msg| + PasswordRoom(password.Length) < 0x1_0000
      modifies this, password
      ensures ok ==> Valid() && password.Length == 0 && |hidden| == old(password.Length)
      ensures ok ==> msg == WithPassword(old(msg), hidden)
      ensures ok && hidden != [] ==> Hidden(h, secret, secret + Authenticator(old(msg)) + [], old(password[..]), hidden)
      ensures !ok ==> exists x :: h(x).None?
    {
      hidden := [];
      if password.Length != 0 {
        var done := Crypt(h, secret, Authenticator(msg), [], password, password);
        if !done {
          return false, hidden;
        }
        hidden := password[..];
        AddAttribute(RAT_USER_PASSWORD, password[..]);
        password := new Byte[0];
      }
      return true, hidden;
    }

    /** The part of sign that appends a Message-Authenticator. */
    method AddMac(sign: Signer) returns (ok: bool)
      requires WellFormed(msg) && |msg| + 18 < 0x1_0000
      modifies this`msg
      ensures ok <==> WithMac(sign, old(msg)).Some?
      ensures ok ==> Some(msg) == WithMac(sign, old(msg)) && WellFormed(msg)
      ensures !ok ==> exists x :: sign(x).None?
    {
      AddAttribute(RAT_MESSAGE_AUTHENTICATOR, Zeros(16));
      assert Cut(Zeros(16)) == Zeros(16);
      var mac := sign(msg);
      if mac.None? {
        return false;
      }
      msg := Overwritten(msg, |msg| - 16, mac.value);
      return true;
    }

    /** sign */
    method Sign(req: Option<Digest>, secret: seq<Byte>, h: Hasher, sign: Signer, rng: Rng, msgAuth: bool)
      returns (ok: bool, ghost hidden: seq<Byte>)
      requires Valid() && RoomToSign(msg, password.Length, msgAuth)
      modifies this, password
      ensures ok ==> Valid() && password.Length == 0 && rng != Failing && |hidden| == old(password.Length)
      ensures ok ==> Signed(h, sign, secret, rng, req, msgAuth, old(msg), hidden) == Some(msg)
      ensures ok && hidden != [] ==>
                Hidden(h, secret, secret + BaseAuthenticator(rng, req) + [], old(password[..]), hidden)
      ensures !ok ==> rng == Failing || (exists x :: h(x).None?) || exists x :: sign(x).None?
    {
      hidden := [];
      if rng == Failing {
        return false, hidden;
      }
      KeepsLength(msg, BaseAuthenticator(rng, req));
      msg := WithAuthenticator(msg, BaseAuthenticator(rng, req));
      assert Authenticator(msg) == BaseAuthenticator(rng, req);
      ok, hidden := AddPassword(secret, h);
      if !ok {
        return;
      }
      if msgAuth {
        ok := AddMac(sign);
        if !ok {
          return;
        }
      }
      if rng == NoRng {
        var d := h(msg + secret);
        if d.None? {
          return false, hidden;
        }
        KeepsLength(msg, d.value);
        msg := WithAuthenticator(msg, d.value);
      }
      return true, hidden;
    }

    /** The check of one Message-Authenticator, whose value stands at a position: zeroed, checked, put back if it is
        right. */
    method CheckMac(sign: Signer, at: nat, value: seq<Byte>, hasEap: bool) returns (f: Finding)
      requires at + |value| <= |msg| && value == msg[at..at + |value|]
      modifies this`msg
      ensures f == MacFinding(sign, old(msg), at, value, hasEap) && msg == Spoiled(old(msg), f)
    {
      if |value| != 16 {
        return Invalid(at, false);
      }
      msg := Overwritten(msg, at, Zeros(16));
      if sign(msg) != Some(value) {
        return Invalid(at, true);
      }
      msg := Overwritten(msg, at, value);
      PatchBack(old(msg), at);
      return Checked(hasEap, true);
    }

    /** The loop of verify up to the first Message-Authenticator: where it stands, and whether an EAP-Message came
        before. */
    method FindMac(ghost sign: Signer) returns (at: nat, a: Option<Attr>, hasEap: bool)
      requires WellFormed(msg)
      ensures HEADER <= at <= |msg| && a == AttrAt(msg, at) && (a.Some? ==> a.value.kind == RAT_MESSAGE_AUTHENTICATOR)
      ensures Found(sign, msg, HEADER, false)
              == if a.None? then Checked(hasEap, false) else MacFinding(sign, msg, at + 2, a.value.data, hasEap)
    {
      hasEap := false;
      var e := new AttributeEnumerator(msg);
      at := e.next;
      ghost var scan := Scanning(sign, msg, at);
      a := e.Enumerate();
      while a.Some? && a.value.kind != RAT_MESSAGE_AUTHENTICATOR
        invariant e.left >= 0 && e.next + e.left == |msg| && e.msg == msg && HEADER <= at <= |msg|
        invariant a == AttrAt(msg, at) && e.next == at + if a.Some? then 2 + |a.value.data| else 0
        invariant scan(HEADER, false) == scan(at, hasEap)
        decreases |msg| - at
      {
        ScanOne(scan, sign, msg, at, a.value, hasEap);
        if a.value.kind == RAT_EAP_MESSAGE {
          hasEap := true;
        }
        at := e.next;
        a := e.Enumerate();
      }
      ScanStops(scan, sign, msg, at, hasEap);
    }

    /** The check of the attributes in verify. */
    method CheckAttributes(sign: Signer) returns (f: Finding)
      requires WellFormed(msg)
      modifies this`msg
      ensures f == Found(sign, old(msg), HEADER, false) && msg == Spoiled(old(msg), f)
    {
      var at, a, hasEap := FindMac(sign);
      if a.None? {
        return Checked(hasEap, false);
      }
      f := CheckMac(sign, at + 2, a.value.data, hasEap);
    }

    /** verify: patches the message while it checks; an accepted message is as it was. */
    method Verify(req: Option<Digest>, secret: seq<Byte>, h: Hasher, sign: Signer) returns (ok: bool)
      requires WellFormed(msg)
      modifies this`msg
      ensures ok == Accepts(h, sign, secret, req, old(msg))
      ensures msg == Verified(h, sign, secret, req, old(msg))
    {
      var resAuth := Authenticator(msg);
      if msg[0] != RMC_ACCESS_REQUEST {
        KeepsLength(msg, BaseAuthenticator(NoRng, req));
        msg := WithAuthenticator(msg, BaseAuthenticator(NoRng, req));
        if h(msg + secret) != Some(resAuth) {
          return false;
        }
      }
      var f := CheckAttributes(sign);
      if f.Invalid? {
        return false;
      }
      if msg[0] != RMC_ACCESS_REQUEST {
        msg := WithAuthenticator(msg, resAuth);
        assert msg == old(msg);
      }
      return Satisfied(f);
    }
  }

  lemma PatchBack(q: seq<Byte>, at: nat)
    requires at + 16 <= |q|
    ensures Overwritten(Overwritten(q, at, Zeros(16)), at, q[at..at + 16]) == q
  {
  }
}
