/** What verify of a RADIUS message refuses. */
module RadiusTamper {
  import opened Bytes
  import opened Words
  import opened RadiusCrypt
  import opened RadiusMessages

  /** No two inputs have the same digest. */
  ghost predicate Injective(h: Hasher) {
    forall x: seq<Byte>, y: seq<Byte> | h(x).Some? && h(y) == h(x) :: x == y
  }

  // ---- Response-Authenticator ----

  /** An accepted response has one authenticator: with any other it is refused. */
  lemma OneAuthenticator(h: Hasher, sign: Signer, secret: seq<Byte>, req: Option<Digest>, m: seq<Byte>, other: Digest)
    requires |m| >= HEADER && m[0] != 1 && Accepts(h, sign, secret, req, m) && other != m[4..20]
    ensures !Accepts(h, sign, secret, req, WithAuthenticator(m, other))
  {
    var n := WithAuthenticator(m, other);
    assert n[4..20] == other && n[0] == m[0];
    assert Requested(n, req) == Requested(m, req);
  }

  lemma SameResponse(m: seq<Byte>, a: Digest, secret: seq<Byte>, m1: seq<Byte>, a1: Digest, secret1: seq<Byte>)
    requires WellFormed(m) && WellFormed(m1)
    requires WithAuthenticator(m, a) + secret == WithAuthenticator(m1, a1) + secret1
    ensures secret == secret1 && a == a1 && m[..4] == m1[..4] && m[20..] == m1[20..]
  {
    var q, q1 := WithAuthenticator(m, a), WithAuthenticator(m1, a1);
    assert q[..4] == (q + secret)[..4] && q1[..4] == (q1 + secret1)[..4];
    assert m[..4] == q[..4] && m1[..4] == q1[..4];
    assert m[2] == m[..4][2] && m[3] == m[..4][3] && m1[2] == m1[..4][2] && m1[3] == m1[..4][3];
    assert q == (q + secret)[..|m|] && q1 == (q1 + secret1)[..|m|];
    assert secret == (q + secret)[|m|..] && secret1 == (q1 + secret1)[|m|..];
    assert q[4..20] == a && q1[4..20] == a1 && q[20..] == m[20..] && q1[20..] == m1[20..];
  }

  /** With a hash without collisions, the authenticator of an accepted response determines the response, the secret
      and the authenticator of the request, which is zero if none is given: the response is refused under any other
      secret or request, and after a change of any byte outside the authenticator that leaves it a response. */
  lemma ResponseBound(h: Hasher, sign: Signer, secret: seq<Byte>, req: Option<Digest>, m: seq<Byte>,
                      sign1: Signer, secret1: seq<Byte>, req1: Option<Digest>, m1: seq<Byte>)
    requires Injective(h) && WellFormed(m) && WellFormed(m1) && m[0] != 1 && m1[0] != 1
    requires Accepts(h, sign, secret, req, m) && Accepts(h, sign1, secret1, req1, m1) && m[4..20] == m1[4..20]
    ensures m == m1 && secret == secret1
    ensures (if req.Some? then req.value else Zeros(16)) == if req1.Some? then req1.value else Zeros(16)
  {
    SameResponse(m, BaseAuthenticator(NoRng, req), secret, m1, BaseAuthenticator(NoRng, req1), secret1);
    assert m == m[..4] + m[4..20] + m[20..] && m1 == m1[..4] + m1[4..20] + m1[20..];
  }

  // ---- Message-Authenticator ----

  /** Where the first attribute of type 80 stands. */
  function MacPlace(q: seq<Byte>, at: nat): (r: Option<nat>)
    requires at <= |q|
    ensures r.Some? ==> at <= r.value && r.value + 2 <= |q|
    decreases |q| - at
  {
    var a := AttrAt(q, at);
    if a.None? then None else if a.value.kind == 80 then Some(at) else MacPlace(q, at + 2 + |a.value.data|)
  }

  /** There is one if and only if the enumerator yields one. */
  lemma {:induction false} MacPlaceExactly(q: seq<Byte>, at: nat)
    requires at <= |q|
    ensures MacPlace(q, at).Some? <==> exists a <- Attributes(q, at) :: a.kind == 80
    ensures MacPlace(q, at).Some? ==> AttrAt(q, MacPlace(q, at).value).Some?
                                      && AttrAt(q, MacPlace(q, at).value).value.kind == 80
    decreases |q| - at
  {
    var a := AttrAt(q, at);
    if a.Some? {
      var next := at + 2 + |a.value.data|;
      MacPlaceExactly(q, next);
      assert Attributes(q, at) == [a.value] + Attributes(q, next);
    }
  }

  /** The value there has 16 bytes and is the signature of the message with zeros in its place. */
  predicate RightMac(sign: Signer, q: seq<Byte>, p: nat)
    requires p + 2 <= |q|
  {
    q[p + 1] == 18 && p + 18 <= |q| && sign(Overwritten(q, p + 2, Zeros(16))) == Some(q[p + 2..p + 18])
  }

  lemma {:induction false} FoundExactly(sign: Signer, q: seq<Byte>, at: nat, eap: bool)
    requires at <= |q|
    ensures Satisfied(Found(sign, q, at, eap)) <==>
            if MacPlace(q, at).Some? then RightMac(sign, q, MacPlace(q, at).value)
            else !eap && forall a <- Attributes(q, at) :: a.kind != 79
    decreases |q| - at
  {
    var a := AttrAt(q, at);
    if a.Some? && a.value.kind != 80 {
      var next := at + 2 + |a.value.data|;
      FoundExactly(sign, q, next, eap || a.value.kind == 79);
      assert Attributes(q, at) == [a.value] + Attributes(q, next);
    }
  }

  /** The check of the attributes by what they are: the first Message-Authenticator (80), if there is one, is right, and
      otherwise there is no EAP-Message (79). */
  lemma ScanExactly(sign: Signer, q: seq<Byte>)
    requires |q| >= HEADER
    ensures Scan(sign, q) <==>
            if MacPlace(q, HEADER).Some? then RightMac(sign, q, MacPlace(q, HEADER).value)
            else forall a <- Attributes(q, HEADER) :: a.kind != 79
  {
    FoundExactly(sign, q, HEADER, false);
  }

  /** The same outside a range of places. */
  ghost predicate Agree(q: seq<Byte>, q1: seq<Byte>, lo: nat, hi: nat) {
    |q| == |q1| && forall i | 0 <= i < |q| && !(lo <= i < hi) :: q[i] == q1[i]
  }

  lemma SameAttr(q: seq<Byte>, q1: seq<Byte>, lo: nat, hi: nat, at: nat)
    requires Agree(q, q1, lo, hi) && at <= |q|
    requires at >= hi || (AttrAt(q, at).Some? && at + 2 + |AttrAt(q, at).value.data| <= lo)
    ensures AttrAt(q1, at) == AttrAt(q, at)
  {
    if AttrAt(q, at).Some? {
      assert q[at] == q1[at] && q[at + 1] == q1[at + 1];
      assert q1[at + 2..at + q[at + 1]] == q[at + 2..at + q[at + 1]];
    } else if |q| - at >= 2 {
      assert q[at + 1] == q1[at + 1];
    }
  }

  /** The attributes behind the places where two messages differ. */
  lemma {:induction false} SameAttributes(q: seq<Byte>, q1: seq<Byte>, hi: nat, at: nat)
    requires Agree(q, q1, 0, hi) && hi <= at <= |q|
    ensures Attributes(q, at) == Attributes(q1, at)
    decreases |q| - at
  {
    SameAttr(q, q1, 0, hi, at);
    var a := AttrAt(q, at);
    if a.Some? {
      SameAttributes(q, q1, hi, at + 2 + |a.value.data|);
    }
  }

  lemma {:induction false} SamePlace(q: seq<Byte>, q1: seq<Byte>, hi: nat, at: nat)
    requires Agree(q, q1, 0, hi) && hi <= at <= |q|
    ensures MacPlace(q, at) == MacPlace(q1, at)
    decreases |q| - at
  {
    SameAttr(q, q1, 0, hi, at);
    var a := AttrAt(q, at);
    if a.Some? && a.value.kind != 80 {
      SamePlace(q, q1, hi, at + 2 + |a.value.data|);
    }
  }

  /** Another value leaves a Message-Authenticator where it is. */
  lemma {:induction false} MacStays(q: seq<Byte>, q1: seq<Byte>, at: nat, p: nat)
    requires at <= |q| && MacPlace(q, at) == Some(p) && p + 18 <= |q| && q[p + 1] == 18 && Agree(q, q1, p + 2, p + 18)
    ensures MacPlace(q1, at) == Some(p)
    decreases |q| - at
  {
    if at == p {
      assert q[p] == q1[p] && q[p + 1] == q1[p + 1];
    } else {
      var a := AttrAt(q, at).value;
      SameAttr(q, q1, p + 2, p + 18, at);
      MacStays(q, q1, at + 2 + |a.data|, p);
    }
  }

  lemma Patched(q: seq<Byte>, p: nat, v: Digest)
    requires p + 16 <= |q|
    ensures var q1 := Overwritten(q, p, v);
            && Agree(q, q1, p, p + 16) && q1[p..p + 16] == v
            && Overwritten(q1, p, Zeros(16)) == Overwritten(q, p, Zeros(16))
  {
  }

  /** The first Message-Authenticator of a message that passes, with any other value, does not pass. */
  lemma OneMac(sign: Signer, q: seq<Byte>, p: nat, other: Digest)
    requires |q| >= HEADER && Scan(sign, q) && MacPlace(q, HEADER) == Some(p)
    ensures p + 18 <= |q| && q[p + 1] == 18
    ensures other != q[p + 2..p + 18] ==> !Scan(sign, Overwritten(q, p + 2, other))
  {
    ScanExactly(sign, q);
    var q1 := Overwritten(q, p + 2, other);
    Patched(q, p + 2, other);
    MacStays(q, q1, HEADER, p);
    ScanExactly(sign, q1);
  }

  lemma RequestedParts(m: seq<Byte>, req: Option<Digest>)
    requires |m| >= HEADER
    ensures var q := Requested(m, req);
            && |q| == |m| && q[..4] == m[..4] && q[20..] == m[20..] && q[0] == m[0]
            && (m[0] != 1 ==> q[4..20] == BaseAuthenticator(NoRng, req))
            && MacPlace(q, HEADER) == MacPlace(m, HEADER) && Attributes(q, HEADER) == Attributes(m, HEADER)
  {
    SameAttributes(m, Requested(m, req), HEADER, HEADER);
    SamePlace(m, Requested(m, req), HEADER, HEADER);
  }

  lemma RequestedValue(m: seq<Byte>, req: Option<Digest>, p: nat, v: Digest)
    requires |m| >= HEADER && HEADER <= p && p + 16 <= |m|
    ensures |Requested(m, req)| == |m| && Requested(m, req)[p..p + 16] == m[p..p + 16]
    ensures Requested(Overwritten(m, p, v), req) == Overwritten(Requested(m, req), p, v)
  {
    var q, m1 := Requested(m, req), Overwritten(m, p, v);
    assert m1[0] == m[0] && m1[..4] == m[..4] && m1[20..] == Overwritten(m[20..], p - 20, v);
    assert q[20..] == m[20..];
    SliceOfEnd(q, 20, p, p + 16);
    SliceOfEnd(m, 20, p, p + 16);
  }

  /** An accepted message, request or response, that has a Message-Authenticator is refused with any other value in
      it. */
  lemma OneMessageAuthenticator(h: Hasher, sign: Signer, secret: seq<Byte>, req: Option<Digest>, m: seq<Byte>, p: nat,
                                other: Digest)
    requires |m| >= HEADER && Accepts(h, sign, secret, req, m) && MacPlace(m, HEADER) == Some(p)
    ensures p + 18 <= |m|
    ensures other != m[p + 2..p + 18] ==> !Accepts(h, sign, secret, req, Overwritten(m, p + 2, other))
  {
    RequestedParts(m, req);
    OneMac(sign, Requested(m, req), p, other);
    RequestedValue(m, req, p + 2, other);
  }

  lemma RightlyMaced(sign: Signer, q: seq<Byte>, p: nat)
    requires |q| >= HEADER && Scan(sign, q) && MacPlace(q, HEADER) == Some(p)
    ensures RightMac(sign, q, p)
  {
    ScanExactly(sign, q);
  }

  /** From the message with zeros in it, place and message can be told. */
  lemma FromZeroed(q: seq<Byte>, p: nat)
    requires |q| >= HEADER && MacPlace(q, HEADER) == Some(p) && p + 18 <= |q| && q[p + 1] == 18
    ensures var z := Overwritten(q, p + 2, Zeros(16));
            MacPlace(z, HEADER) == Some(p) && q == Overwritten(z, p + 2, q[p + 2..p + 18])
  {
    Patched(q, p + 2, Zeros(16));
    MacStays(q, Overwritten(q, p + 2, Zeros(16)), HEADER, p);
    PatchBack(q, p + 2);
  }

  /** Two messages that pass with the same value are the same. */
  lemma SameMac(sign: Signer, q: seq<Byte>, p: nat, q1: seq<Byte>, p1: nat)
    requires |q| >= HEADER && |q1| >= HEADER && MacPlace(q, HEADER) == Some(p) && MacPlace(q1, HEADER) == Some(p1)
    requires Injective(sign) && RightMac(sign, q, p) && RightMac(sign, q1, p1)
    requires q[p + 2..p + 18] == q1[p1 + 2..p1 + 18]
    ensures p == p1 && q == q1
  {
    FromZeroed(q, p);
    FromZeroed(q1, p1);
  }

  lemma MacOfAccepted(h: Hasher, sign: Signer, secret: seq<Byte>, req: Option<Digest>, m: seq<Byte>, p: nat)
    requires |m| >= HEADER && Accepts(h, sign, secret, req, m) && MacPlace(m, HEADER) == Some(p)
    ensures var q := Requested(m, req);
            && |q| == |m| && MacPlace(q, HEADER) == Some(p) && RightMac(sign, q, p)
            && q[p + 2..p + 18] == m[p + 2..p + 18]
  {
    RequestedParts(m, req);
    RightlyMaced(sign, Requested(m, req), p);
    RequestedValue(m, req, p + 2, Zeros(16));
  }

  lemma FrontsAgree(m: seq<Byte>, req: Option<Digest>, m1: seq<Byte>, req1: Option<Digest>)
    requires |m| >= HEADER && |m1| >= HEADER && Requested(m, req) == Requested(m1, req1)
    ensures m[..4] == m1[..4] && m[20..] == m1[20..] && m[0] == m1[0] && (m[0] == 1 ==> m == m1)
    ensures m[0] != 1 ==> BaseAuthenticator(NoRng, req) == BaseAuthenticator(NoRng, req1)
  {
    var q, q1 := Requested(m, req), Requested(m1, req1);
    assert q[..4] == m[..4] && q1[..4] == m1[..4] && m[0] == m[..4][0] && m1[0] == m1[..4][0];
    assert q[20..] == m[20..] && q1[20..] == m1[20..];
    assert m[0] != 1 ==> q[4..20] == BaseAuthenticator(NoRng, req) && q1[4..20] == BaseAuthenticator(NoRng, req1);
  }

  /** With a signature without collisions, the value of the first Message-Authenticator of an accepted message
      determines all of it, with the request's authenticator in a response: after a change of any other byte,
      attributes added or taken away included, or under another request, a message with this value is refused. */
  lemma MessageBound(h: Hasher, sign: Signer, secret: seq<Byte>, req: Option<Digest>, m: seq<Byte>, p: nat,
                     req1: Option<Digest>, m1: seq<Byte>, p1: nat)
    requires Injective(sign) && |m| >= HEADER && |m1| >= HEADER
    requires Accepts(h, sign, secret, req, m) && Accepts(h, sign, secret, req1, m1)
    requires MacPlace(m, HEADER) == Some(p) && MacPlace(m1, HEADER) == Some(p1)
    ensures p + 18 <= |m| && p1 + 18 <= |m1|
    ensures m[p + 2..p + 18] == m1[p1 + 2..p1 + 18] ==>
              && p == p1 && m[..4] == m1[..4] && m[20..] == m1[20..]
              && (m[0] == 1 ==> m == m1)
              && (m[0] != 1 ==> (if req.Some? then req.value else Zeros(16))
                                == if req1.Some? then req1.value else Zeros(16))
  {
    MacOfAccepted(h, sign, secret, req, m, p);
    MacOfAccepted(h, sign, secret, req1, m1, p1);
    if m[p + 2..p + 18] == m1[p1 + 2..p1 + 18] {
      SameMac(sign, Requested(m, req), p, Requested(m1, req1), p1);
      FrontsAgree(m, req, m1, req1);
    }
  }

  /** An EAP-Message is accepted only with a right Message-Authenticator. */
  lemma EapNeedsMac(h: Hasher, sign: Signer, secret: seq<Byte>, req: Option<Digest>, m: seq<Byte>, a: Attr)
    requires |m| >= HEADER && Accepts(h, sign, secret, req, m) && a in Attributes(m, HEADER) && a.kind == 79
    ensures MacPlace(m, HEADER).Some?
    ensures |Requested(m, req)| == |m| && RightMac(sign, Requested(m, req), MacPlace(m, HEADER).value)
  {
    RequestedParts(m, req);
    ScanExactly(sign, Requested(m, req));
  }
}
