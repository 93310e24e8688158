/** The sequential IV generator of counter-mode ciphers (iv_gen_seq.c): a number may be used twice, an IV only once. */
module IvGenSeq {
  import opened Bytes
  import opened Words

  const HIGH: int := 0x8000_0000_0000_0000
  const UNUSED: U64 := TWO64 - 1

  type Salt = s: seq<Byte> | |s| == 8 witness Zeros(8)

  /** The numbers last used in the lower and in the upper half, or UNUSED. */
  datatype Prev = Prev(low: U64, high: U64)

  const FRESH := Prev(UNUSED, UNUSED)

  /** n | HIGH */
  function Raised(n: U64): U64 {
    if n < HIGH then n + HIGH else n
  }

  /** The number that is masked: a number that is not above the last one is moved to the upper half. */
  function Taken(p: Prev, n: U64): Option<U64> {
    var again := p.low != UNUSED && n <= p.low;
    if again && p.high != UNUSED && Raised(n) <= p.high then None
    else if Raised(n) == UNUSED then None
    else Some(if again then Raised(n) else n)
  }

  function Noted(p: Prev, used: U64): Prev {
    if used < HIGH then p.(low := used) else p.(high := used)
  }

  /** The masked number, behind zeros. */
  function Iv(salt: Salt, size: nat, used: U64): (r: seq<Byte>)
    requires size >= 8
    ensures |r| == size
  {
    Zeros(size - 8) + XorSeq(PutU64(used), salt)
  }

  class Generator {
    var prevl: U64
    var prevh: U64
    const salt: Option<Salt>

    function View(): Prev
      reads this
    {
      Prev(prevl, prevh)
    }

    /** iv_gen_seq_create: without random numbers there is no salt. */
    constructor (salt: Option<Salt>)
      ensures View() == FRESH && this.salt == salt
    {
      prevl, prevh := UNUSED, UNUSED;
      this.salt := salt;
    }

    method GetIv(n: U64, buffer: array<Byte>) returns (ok: bool)
      modifies this, buffer
      ensures ok <==> salt.Some? && buffer.Length >= 8 && Taken(old(View()), n).Some?
      ensures ok ==> && View() == Noted(old(View()), Taken(old(View()), n).value)
                     && buffer[..] == Iv(salt.value, buffer.Length, Taken(old(View()), n).value)
      ensures !ok ==> View() == old(View()) && buffer[..] == old(buffer[..])
    {
      if salt.None? || buffer.Length < 8 {
        return false;
      }
      var num := n;
      if prevl != UNUSED && num <= prevl {
        num := Raised(num);
        if prevh != UNUSED && num <= prevh {
          return false;
        }
      }
      if Raised(num) == UNUSED {
        return false;
      }
      if num >= HIGH {
        prevh := num;
      } else {
        prevl := num;
      }
      Fill(salt.value, num, buffer);
      return true;
    }
  }

  /** The end of get_iv: zeros in front, the masked number behind them. */
  method Fill(salt: Salt, used: U64, buffer: array<Byte>)
    requires buffer.Length >= 8
    modifies buffer
    ensures buffer[..] == Iv(salt, buffer.Length, used)
  {
    var len := buffer.Length;
    if len > 8 {
      Put(buffer, 0, Zeros(len - 8));
    }
    Put(buffer, len - 8, XorSeq(PutU64(used), salt));
    assert buffer[..] == Iv(salt, len, used);
  }

  // ---- over every run ----

  /** What the calls with these numbers take, one after the other. */
  function TakenAll(p: Prev, ns: seq<U64>): (r: seq<Option<U64>>)
    ensures |r| == |ns|
    decreases |ns|
  {
    if ns == [] then []
    else
      var t := Taken(p, ns[0]);
      [t] + TakenAll(if t.Some? then Noted(p, t.value) else p, ns[1..])
  }

  predicate AllBelow(ns: seq<U64>) {
    forall k | 0 <= k < |ns| :: ns[k] < HIGH
  }

  /** The number lies behind everything used in its half. */
  predicate Behind(p: Prev, used: U64) {
    if used < HIGH then p.low == UNUSED || used > p.low else p.high == UNUSED || used > p.high
  }

  lemma {:induction false} StaysBehind(p: Prev, ns: seq<U64>, i: nat)
    requires i < |ns| && AllBelow(ns) && TakenAll(p, ns)[i].Some?
    ensures Behind(p, TakenAll(p, ns)[i].value)
    decreases i
  {
    if i > 0 {
      var t := Taken(p, ns[0]);
      StaysBehind(if t.Some? then Noted(p, t.value) else p, ns[1..], i - 1);
    }
  }

  lemma {:induction false} TakenOnce(p: Prev, ns: seq<U64>, i: nat, j: nat)
    requires i < j < |ns| && AllBelow(ns) && TakenAll(p, ns)[i].Some?
    ensures TakenAll(p, ns)[j] != TakenAll(p, ns)[i]
    decreases i
  {
    var t := Taken(p, ns[0]);
    var p1 := if t.Some? then Noted(p, t.value) else p;
    if i > 0 {
      TakenOnce(p1, ns[1..], i - 1, j - 1);
    } else if TakenAll(p, ns)[j].Some? {
      StaysBehind(p1, ns[1..], j - 1);
      assert t.value != UNUSED;
    }
  }

  lemma IvInjective(salt: Salt, size: nat, m: U64, n: U64)
    requires size >= 8 && Iv(salt, size, m) == Iv(salt, size, n)
    ensures m == n
  {
    assert XorSeq(PutU64(m), salt) == Iv(salt, size, m)[size - 8..];
    assert XorSeq(PutU64(n), salt) == Iv(salt, size, n)[size - 8..];
    XorSeqUndoes(PutU64(m), salt);
    XorSeqUndoes(PutU64(n), salt);
    PutU64Injective(m, n);
  }

  /** Whatever numbers below 2^63 the calls are made with, in whatever order, no two of them give the same IV. */
  lemma NeverTwice(salt: Salt, size: nat, ns: seq<U64>, i: nat, j: nat)
    requires size >= 8 && i < j < |ns| && AllBelow(ns)
    ensures var r := TakenAll(FRESH, ns);
            r[i].Some? && r[j].Some? ==> Iv(salt, size, r[i].value) != Iv(salt, size, r[j].value)
  {
    var r := TakenAll(FRESH, ns);
    if r[i].Some? && r[j].Some? {
      TakenOnce(FRESH, ns, i, j);
      if Iv(salt, size, r[i].value) == Iv(salt, size, r[j].value) { IvInjective(salt, size, r[i].value, r[j].value); }
    }
  }

  /** A number below 2^63 may be used twice, for different IVs, but not a third time. Above, the same number gives the
      same IV over and over: that is why the numbers must stay below. The last number of each half is never taken. */
  lemma UsedTwice(n: U64)
    ensures var r := TakenAll(FRESH, [n, n, n]);
            && (n < HIGH - 1 ==> r == [Some(n), Some(n + HIGH), None])
            && (HIGH <= n < UNUSED ==> r == [Some(n), Some(n), Some(n)])
            && (n == HIGH - 1 || n == UNUSED ==> r == [None, None, None])
  {
    var p1 := if Taken(FRESH, n).Some? then Noted(FRESH, n) else FRESH;
    var t := Taken(p1, n);
    var p2 := if t.Some? then Noted(p1, t.value) else p1;
    assert [n, n, n][1..] == [n, n] && [n, n][1..] == [n] && [n][1..] == [];
    assert TakenAll(p2, [n]) == [Taken(p2, n)];
    assert TakenAll(p1, [n, n]) == [t, Taken(p2, n)];
  }

  /** Numbers that go up, as those of an ESP sender, are all taken as they are. */
  lemma {:induction false} IncreasingTaken(p: Prev, ns: seq<U64>, i: nat)
    requires i < |ns| && (p.low == UNUSED || p.low < ns[0])
    requires forall k | 0 <= k < |ns| :: ns[k] < HIGH - 1
    requires forall k, l | 0 <= k < l < |ns| :: ns[k] < ns[l]
    ensures TakenAll(p, ns)[i] == Some(ns[i])
    decreases i
  {
    if i > 0 {
      IncreasingTaken(Noted(p, ns[0]), ns[1..], i - 1);
    }
  }
}
