/** Hiding of RADIUS attribute values with a chain of MD5 blocks (crypt of radius_message.c). */
module RadiusCrypt {
  import opened Bytes
  import opened Words

  type Digest = s: seq<Byte> | |s| == 16 witness Zeros(16)
  /** MD5 as any function to 16 bytes that may fail; the inputs of chained get_hash calls are concatenated. */
  type Hasher = seq<Byte> -> Option<Digest>

  predicate Whole(n: nat) {
    n % 16 == 0 && n >= 16
  }

  function Block(s: seq<Byte>, i: nat): Digest
    requires 16 * i + 16 <= |s|
  {
    s[16 * i..16 * i + 16]
  }

  /** b(1) = MD5(S + R + A), b(i) = MD5(S + c(i-1)); first is S + R + A. */
  function Pad(h: Hasher, secret: seq<Byte>, first: seq<Byte>, c: seq<Byte>, i: nat): Option<Digest>
    requires 16 * i <= |c|
  {
    h(if i == 0 then first else secret + Block(c, i - 1))
  }

  /** c(i) = p(i) xor b(i) */
  predicate BlockHidden(h: Hasher, secret: seq<Byte>, first: seq<Byte>, p: seq<Byte>, c: seq<Byte>, i: nat)
    requires 16 * i + 16 <= |p| && 16 * i + 16 <= |c|
  {
    var b := Pad(h, secret, first, c, i);
    b.Some? && Block(c, i) == XorSeq(Block(p, i), b.value)
  }

  predicate HiddenUpTo(h: Hasher, secret: seq<Byte>, first: seq<Byte>, p: seq<Byte>, c: seq<Byte>, n: nat)
    requires 16 * n <= |p| && 16 * n <= |c|
  {
    forall i: nat | i < n :: BlockHidden(h, secret, first, p, c, i)
  }

  /** The rule of section 2.4.2 of RFC 2548 and section 5.2 of RFC 2865: c is the hidden form of p. */
  predicate Hidden(h: Hasher, secret: seq<Byte>, first: seq<Byte>, p: seq<Byte>, c: seq<Byte>) {
    && |p| == |c| && Whole(|p|)
    && HiddenUpTo(h, secret, first, p, c, |p| / 16)
  }

  /** crypt: run in place it hides its input, run into a separate buffer it reveals it. */
  method Crypt(h: Hasher, secret: seq<Byte>, authenticator: Digest, salt: seq<Byte>, input: array<Byte>,
               output: array<Byte>)
    returns (ok: bool)
    modifies output
    ensures ok ==> if input == output
                   then Hidden(h, secret, secret + authenticator + salt, old(input[..]), output[..])
                   else Hidden(h, secret, secret + authenticator + salt, output[..], input[..])
    ensures input.Length != output.Length || !Whole(input.Length) ==> !ok && output[..] == old(output[..])
    ensures !ok && input.Length == output.Length && Whole(input.Length) ==> exists x :: h(x).None?
  {
    if input.Length != output.Length || input.Length % 16 != 0 || input.Length < 16 {
      return false;
    }
    var n := input.Length / 16;
    ghost var text := input[..];
    if input != output {
      Put(output, 0, input[..]);
    }
    var first := secret + authenticator + salt;
    var b := h(first);
    if b.None? {
      return false;
    }
    var i := 0;
    while i < n
      invariant i <= n && output[16 * i..] == text[16 * i..]
      invariant Crypted(h, secret, first, input == output, text, output[..], i)
      invariant input != output ==> input[..] == text
      invariant i < n ==> b.Some? && b == Pad(h, secret, first, input[..], i)
    {
      ghost var was := output[..];
      XorInto(output, 16 * i, b.value);
      CryptStep(h, secret, first, input == output, text, was, output[..], i, b.value);
      if i + 1 < n {
        b := h(secret + input[16 * i..16 * i + 16]);
        assert input[16 * i..16 * i + 16] == Block(input[..], i);
        if b.None? {
          return false;
        }
      }
      i := i + 1;
    }
    return true;
  }

  // ---- steps of the loop ----

  lemma Within(a: seq<Byte>, b: seq<Byte>, i: nat)
    requires 16 * i + 16 <= |a| == |b| && a[16 * i..] == b[16 * i..]
    ensures a[16 * i..16 * i + 16] == b[16 * i..16 * i + 16] && a[16 * i + 16..] == b[16 * i + 16..]
  {
    assert a[16 * i..16 * i + 16] == a[16 * i..][..16] && b[16 * i..16 * i + 16] == b[16 * i..][..16];
    assert a[16 * i + 16..] == a[16 * i..][16..] && b[16 * i + 16..] == b[16 * i..][16..];
  }

  lemma SameBlock(a: seq<Byte>, b: seq<Byte>, n: nat, i: nat)
    requires 16 * n <= |a| && 16 * n <= |b| && a[..16 * n] == b[..16 * n] && i < n
    ensures Block(a, i) == Block(b, i)
  {
    assert Block(a, i) == a[..16 * n][16 * i..16 * i + 16] && Block(b, i) == b[..16 * n][16 * i..16 * i + 16];
  }

  lemma SamePad(h: Hasher, secret: seq<Byte>, first: seq<Byte>, c: seq<Byte>, d: seq<Byte>, n: nat)
    requires 16 * n <= |c| && 16 * n <= |d| && c[..16 * n] == d[..16 * n]
    ensures Pad(h, secret, first, c, n) == Pad(h, secret, first, d, n)
  {
    if n > 0 { SameBlock(c, d, n, n - 1); }
  }

  lemma KeepsHidden(h: Hasher, secret: seq<Byte>, first: seq<Byte>, p: seq<Byte>, c: seq<Byte>, q: seq<Byte>,
                    d: seq<Byte>, n: nat)
    requires 16 * n <= |p| == |c| == |q| == |d|
    requires p[..16 * n] == q[..16 * n] && c[..16 * n] == d[..16 * n]
    requires HiddenUpTo(h, secret, first, p, c, n)
    ensures HiddenUpTo(h, secret, first, q, d, n)
  {
    forall i: nat | i < n ensures BlockHidden(h, secret, first, q, d, i) {
      assert BlockHidden(h, secret, first, p, c, i);
      SameBlock(p, q, n, i);
      SameBlock(c, d, n, i);
      assert c[..16 * i] == c[..16 * n][..16 * i] && d[..16 * i] == d[..16 * n][..16 * i];
      SamePad(h, secret, first, c, d, i);
    }
  }

  ghost predicate BlockXored(was: seq<Byte>, now: seq<Byte>, text: seq<Byte>, i: nat, b: Digest) {
    && 16 * i + 16 <= |text| == |was| == |now| && was[16 * i..] == text[16 * i..]
    && now == Overwritten(was, 16 * i, XorSeq(was[16 * i..16 * i + 16], b))
  }

  lemma HideStep(h: Hasher, secret: seq<Byte>, first: seq<Byte>, text: seq<Byte>, was: seq<Byte>, now: seq<Byte>,
                 i: nat, b: Digest)
    requires BlockXored(was, now, text, i, b)
    requires HiddenUpTo(h, secret, first, text, was, i) && Pad(h, secret, first, was, i) == Some(b)
    ensures HiddenUpTo(h, secret, first, text, now, i + 1) && now[16 * i + 16..] == text[16 * i + 16..]
  {
    Within(was, text, i);
    KeepsHidden(h, secret, first, text, was, text, now, i);
    SamePad(h, secret, first, was, now, i);
  }

  lemma RevealStep(h: Hasher, secret: seq<Byte>, first: seq<Byte>, text: seq<Byte>, was: seq<Byte>, now: seq<Byte>,
                   i: nat, b: Digest)
    requires BlockXored(was, now, text, i, b)
    requires HiddenUpTo(h, secret, first, was, text, i) && Pad(h, secret, first, text, i) == Some(b)
    ensures HiddenUpTo(h, secret, first, now, text, i + 1) && now[16 * i + 16..] == text[16 * i + 16..]
  {
    Within(was, text, i);
    KeepsHidden(h, secret, first, was, text, now, text, i);
    XorSeqUndoes(Block(text, i), b);
  }

  /** The first n blocks, in place or into another buffer. */
  ghost predicate Crypted(h: Hasher, secret: seq<Byte>, first: seq<Byte>, inPlace: bool, text: seq<Byte>,
                          out: seq<Byte>, n: nat) {
    && 16 * n <= |text| == |out|
    && if inPlace then HiddenUpTo(h, secret, first, text, out, n) else HiddenUpTo(h, secret, first, out, text, n)
  }

  lemma CryptStep(h: Hasher, secret: seq<Byte>, first: seq<Byte>, inPlace: bool, text: seq<Byte>, was: seq<Byte>,
                  now: seq<Byte>, i: nat, b: Digest)
    requires BlockXored(was, now, text, i, b) && Crypted(h, secret, first, inPlace, text, was, i)
    requires Pad(h, secret, first, if inPlace then was else text, i) == Some(b)
    ensures Crypted(h, secret, first, inPlace, text, now, i + 1) && now[16 * i + 16..] == text[16 * i + 16..]
  {
    if inPlace {
      HideStep(h, secret, first, text, was, now, i, b);
    } else {
      RevealStep(h, secret, first, text, was, now, i, b);
    }
  }

  // ---- the two directions are inverse ----

  /** A hidden value has one plain form: revealing what was hidden gives it back. */
  lemma RevealUndoesHide(h: Hasher, secret: seq<Byte>, first: seq<Byte>, p: seq<Byte>, c: seq<Byte>, q: seq<Byte>)
    requires Hidden(h, secret, first, p, c) && Hidden(h, secret, first, q, c)
    ensures p == q
  {
    forall i: nat | i < |p| / 16 ensures Block(p, i) == Block(q, i) {
      assert BlockHidden(h, secret, first, p, c, i) && BlockHidden(h, secret, first, q, c, i);
      var b := Pad(h, secret, first, c, i).value;
      XorSeqUndoes(Block(p, i), b);
      XorSeqUndoes(Block(q, i), b);
    }
    BlocksMakeWhole(p, q);
  }

  /** A plain value has one hidden form: hiding what was revealed gives it back. */
  lemma HideUndoesReveal(h: Hasher, secret: seq<Byte>, first: seq<Byte>, p: seq<Byte>, c: seq<Byte>, d: seq<Byte>)
    requires Hidden(h, secret, first, p, c) && Hidden(h, secret, first, p, d)
    ensures c == d
  {
    SameHiddenBlocks(h, secret, first, p, c, d, |p| / 16);
    BlocksMakeWhole(c, d);
  }

  /** With a hash without collisions, a value is hidden as this only under one secret and one authenticator and salt:
      under others the hidden form reveals something else. */
  lemma HiddenBound(h: Hasher, secret: seq<Byte>, first: seq<Byte>, secret1: seq<Byte>, first1: seq<Byte>,
                    p: seq<Byte>, c: seq<Byte>)
    requires forall x: seq<Byte>, y: seq<Byte> | h(x).Some? && h(y) == h(x) :: x == y
    requires Hidden(h, secret, first, p, c) && Hidden(h, secret1, first1, p, c)
    ensures first == first1 && (|p| > 16 ==> secret == secret1)
  {
    assert BlockHidden(h, secret, first, p, c, 0) && BlockHidden(h, secret1, first1, p, c, 0);
    SamePads(Block(p, 0), h(first).value, h(first1).value);
    if |p| > 16 {
      assert BlockHidden(h, secret, first, p, c, 1) && BlockHidden(h, secret1, first1, p, c, 1);
      var x, y := secret + Block(c, 0), secret1 + Block(c, 0);
      SamePads(Block(p, 1), h(x).value, h(y).value);
      assert secret == x[..|x| - 16] && secret1 == y[..|y| - 16];
    }
  }

  lemma SamePads(p: Digest, b: Digest, d: Digest)
    requires XorSeq(p, b) == XorSeq(p, d)
    ensures b == d
  {
    forall i | 0 <= i < 16 ensures b[i] == d[i] {
      assert XorSeq(p, b)[i] == XorSeq(p, d)[i];
      XorSwaps(p[i], b[i]);
      XorSwaps(p[i], d[i]);
      XorUndoes(b[i], p[i]);
      XorUndoes(d[i], p[i]);
    }
  }

  lemma {:induction false} SameHiddenBlocks(h: Hasher, secret: seq<Byte>, first: seq<Byte>, p: seq<Byte>, c: seq<Byte>,
                                            d: seq<Byte>, n: nat)
    requires |p| == |c| == |d| && 16 * n <= |p|
    requires HiddenUpTo(h, secret, first, p, c, n) && HiddenUpTo(h, secret, first, p, d, n)
    ensures forall i: nat | i < n :: Block(c, i) == Block(d, i)
  {
    if n > 0 {
      SameHiddenBlocks(h, secret, first, p, c, d, n - 1);
      assert BlockHidden(h, secret, first, p, c, n - 1) && BlockHidden(h, secret, first, p, d, n - 1);
    }
  }

  lemma BlocksMakeWhole(a: seq<Byte>, b: seq<Byte>)
    requires |a| == |b| && |a| % 16 == 0
    requires forall i: nat | i < |a| / 16 :: Block(a, i) == Block(b, i)
    ensures a == b
  {
    forall k | 0 <= k < |a| ensures a[k] == b[k] {
      var i := k / 16;
      assert a[k] == Block(a, i)[k - 16 * i] && b[k] == Block(b, i)[k - 16 * i];
    }
  }
}
