/** Byte strings and the small helpers the source takes from libstrongswan. */
module Bytes {
  import opened Words

  function Min(a: int, b: int): int {
    if a < b then a else b
  }

  /** chunk_skip: empty when skipping to the end or past it. */
  function Skip(s: seq<Byte>, n: nat): (r: seq<Byte>)
    ensures |r| <= |s| && (n > 0 && s != [] ==> |r| < |s|)
  {
    if |s| > n then s[n..] else []
  }

  /** pad_len: what is missing to the next multiple of the alignment. */
  function PadLen(size: nat, alignment: nat): (p: nat)
    requires alignment > 0
    ensures p < alignment && (size + p) % alignment == 0
  {
    var r := size % alignment;
    if r != 0 then
      assert (size + (alignment - r)) % alignment == 0 by { RoundUp(size, alignment); }
      alignment - r
    else 0
  }

  lemma RoundUp(size: nat, alignment: nat)
    requires alignment > 0
    ensures (size + (alignment - size % alignment)) % alignment == 0
  {
    var q := size / alignment;
    assert size + (alignment - size % alignment) == alignment * (q + 1);
    MultipleMod(q + 1, alignment);
  }

  lemma MultipleMod(k: int, m: nat)
    requires m > 0
    ensures (m * k) % m == 0
  {
    DivModUnique(m * k, m, k, 0);
  }

  lemma DivModUnique(x: int, m: nat, q: int, r: int)
    requires m > 0 && x == m * q + r && 0 <= r < m
    ensures x / m == q && x % m == r
  {
    var d := x / m - q;
    assert m * (x / m) - m * q == m * d;
    assert m * d == r - x % m;
    if d >= 1 { AtLeast(m, d); }
    if d <= -1 { AtLeast(m, -d); }
  }

  lemma AtLeast(m: nat, d: int)
    requires d >= 1
    ensures m * d >= m
  {
  }

  function Zeros(n: nat): (z: seq<Byte>)
    ensures |z| == n && forall i | 0 <= i < n :: z[i] == 0
  {
    seq(n, _ => 0)
  }

  // ---- concatenation ----

  lemma Assoc(a: seq<Byte>, b: seq<Byte>, c: seq<Byte>)
    ensures (a + b) + c == a + (b + c)
  {
  }

  lemma FourParts(a: seq<Byte>, b: seq<Byte>, c: seq<Byte>, d: seq<Byte>)
    ensures a + (b + c) + d == a + b + (c + d) == (a + b) + c + d
  {
  }

  lemma SliceOfEnd(s: seq<Byte>, k: nat, i: nat, j: nat)
    requires k <= i <= j <= |s|
    ensures s[k..][i - k..j - k] == s[i..j]
  {
  }

  // ---- buffers ----

  /** The bytes from a position on replaced by others. */
  function Overwritten(s: seq<Byte>, at: nat, t: seq<Byte>): (r: seq<Byte>)
    requires at + |t| <= |s|
    ensures |r| == |s|
  {
    s[..at] + t + s[at + |t|..]
  }

  /** memcpy into a buffer. */
  method Put(buf: array<Byte>, at: nat, t: seq<Byte>)
    requires at + |t| <= buf.Length
    modifies buf
    ensures buf[..] == Overwritten(old(buf[..]), at, t)
  {
    var k := 0;
    while k < |t|
      invariant k <= |t| && buf[..at] == old(buf[..at]) && buf[at + k..] == old(buf[at + k..])
      invariant buf[at..at + k] == t[..k]
    {
      buf[at + k] := t[k];
      k := k + 1;
    }
    assert buf[..] == buf[..at] + buf[at..at + k] + buf[at + k..];
  }

  // ---- big-endian integers ----

  function PutU16(n: U16): (b: seq<Byte>)
    ensures |b| == 2
  {
    [n / 256, n % 256]
  }

  function GetU16(b: seq<Byte>, at: nat): (n: U16)
    requires at + 2 <= |b|
  {
    var hi: int, lo: int := b[at], b[at + 1];
    hi * 256 + lo
  }

  lemma U16RoundTrip(pre: seq<Byte>, n: U16, post: seq<Byte>)
    ensures GetU16(pre + PutU16(n) + post, |pre|) == n
  {
  }

  function PutU32(n: U32): (b: seq<Byte>)
    ensures |b| == 4
  {
    PutU16(n / 0x1_0000) + PutU16(n % 0x1_0000)
  }

  function GetU32(b: seq<Byte>, at: nat): (n: U32)
    requires at + 4 <= |b|
  {
    var hi: int, lo: int := GetU16(b, at), GetU16(b, at + 2);
    hi * 0x1_0000 + lo
  }

  lemma U32RoundTrip(pre: seq<Byte>, n: U32, post: seq<Byte>)
    ensures GetU32(pre + PutU32(n) + post, |pre|) == n
  {
    var hi, lo := PutU16(n / 0x1_0000), PutU16(n % 0x1_0000);
    U16RoundTrip(pre, n / 0x1_0000, lo + post);
    U16RoundTrip(pre + hi, n % 0x1_0000, post);
    assert pre + PutU32(n) + post == pre + hi + (lo + post) == (pre + hi) + lo + post;
  }

  function PutU64(n: U64): (b: seq<Byte>)
    ensures |b| == 8
  {
    PutU32(n / 0x1_0000_0000) + PutU32(n % 0x1_0000_0000)
  }

  lemma PutU64Injective(a: U64, b: U64)
    requires PutU64(a) == PutU64(b)
    ensures a == b
  {
    U64Parts(a);
    U64Parts(b);
  }

  lemma U64Parts(n: U64)
    ensures GetU32(PutU64(n), 0) == n / 0x1_0000_0000 && GetU32(PutU64(n), 4) == n % 0x1_0000_0000
  {
    var hi, lo := PutU32(n / 0x1_0000_0000), PutU32(n % 0x1_0000_0000);
    U32RoundTrip([], n / 0x1_0000_0000, lo);
    U32RoundTrip(hi, n % 0x1_0000_0000, []);
    assert [] + hi + lo == PutU64(n) && hi + lo + [] == PutU64(n);
  }

  // ---- exclusive or ----

  function Pow2(n: nat): (p: nat)
    ensures p > 0
  {
    if n == 0 then 1 else 2 * Pow2(n - 1)
  }

  /** Bit by bit on the low n bits. */
  function XorBits(a: nat, b: nat, n: nat): (r: nat)
    ensures r < Pow2(n)
  {
    if n == 0 then 0 else (if a % 2 == b % 2 then 0 else 1) + 2 * XorBits(a / 2, b / 2, n - 1)
  }

  function Xor(a: Byte, b: Byte): Byte {
    assert Pow2(8) == 256 by { assert Pow2(4) == 16; }
    XorBits(a, b, 8)
  }

  lemma {:induction false} XorBitsUndoes(a: nat, b: nat, n: nat)
    requires a < Pow2(n)
    ensures XorBits(XorBits(a, b, n), b, n) == a && XorBits(a, 0, n) == a && XorBits(0, a, n) == a
  {
    if n > 0 { XorBitsUndoes(a / 2, b / 2, n - 1); }
  }

  /** Applying the same byte twice changes nothing; a zero byte changes nothing. */
  lemma XorUndoes(a: Byte, b: Byte)
    ensures Xor(Xor(a, b), b) == a && Xor(a, 0) == a && Xor(0, a) == a
  {
    assert Pow2(8) == 256 by { assert Pow2(4) == 16; }
    XorBitsUndoes(a, b, 8);
  }

  lemma {:induction false} XorBitsSwaps(a: nat, b: nat, n: nat)
    ensures XorBits(a, b, n) == XorBits(b, a, n)
  {
    if n > 0 { XorBitsSwaps(a / 2, b / 2, n - 1); }
  }

  lemma XorSwaps(a: Byte, b: Byte)
    ensures Xor(a, b) == Xor(b, a)
  {
    XorBitsSwaps(a, b, 8);
  }

  /** memxor on two strings of the same length. */
  function XorSeq(a: seq<Byte>, b: seq<Byte>): (r: seq<Byte>)
    requires |a| == |b|
    ensures |r| == |a| && forall i | 0 <= i < |a| :: r[i] == Xor(a[i], b[i])
  {
    seq(|a|, i requires 0 <= i < |a| => Xor(a[i], b[i]))
  }

  lemma XorSeqUndoes(a: seq<Byte>, b: seq<Byte>)
    requires |a| == |b|
    ensures XorSeq(XorSeq(a, b), b) == a
  {
    forall i | 0 <= i < |a| ensures XorSeq(XorSeq(a, b), b)[i] == a[i] { XorUndoes(a[i], b[i]); }
  }

  /** memxor into a buffer. */
  method XorInto(buf: array<Byte>, at: nat, t: seq<Byte>)
    requires at + |t| <= buf.Length
    modifies buf
    ensures buf[..] == Overwritten(old(buf[..]), at, XorSeq(old(buf[at..at + |t|]), t))
  {
    var k := 0;
    while k < |t|
      invariant k <= |t| && buf[..at] == old(buf[..at]) && buf[at + k..] == old(buf[at + k..])
      invariant forall j | 0 <= j < k :: buf[at + j] == Xor(old(buf[at + j]), t[j])
    {
      buf[at + k] := Xor(buf[at + k], t[k]);
      k := k + 1;
    }
    assert buf[at..at + k] == XorSeq(old(buf[at..at + |t|]), t);
    assert buf[..] == buf[..at] + buf[at..at + k] + buf[at + k..];
  }
}
