/** The branch-free comparisons of utils/constant_time.h. They work on the top bit of 32- or 64-bit words: `>> 31` or
    `>> 63` keeps that bit only, and `^` and `|` act on it bit by bit. The model follows that one bit through the
    source's expressions; `half` is 2^31 or 2^63. */
module ConstantTime {

  const HALF32: nat := 0x8000_0000
  const HALF64: nat := 0x8000_0000_0000_0000

  /** The word's top bit. */
  predicate Top(x: int, half: nat) {
    x >= half
  }

  /** x - y with wrap-around. */
  function Sub(x: nat, y: nat, half: nat): nat
    requires half > 0 && x < 2 * half && y < 2 * half
  {
    if x >= y then x - y else x - y + 2 * half
  }

  function AsBit(b: bool): (r: nat)
    ensures r <= 1
  {
    if b then 1 else 0
  }

  /** ((x-y) | (y-x)) >> 31 */
  function Neq(x: nat, y: nat, half: nat): nat
    requires half > 0 && x < 2 * half && y < 2 * half
  {
    AsBit(Top(Sub(x, y, half), half) || Top(Sub(y, x, half), half))
  }

  function Eq(x: nat, y: nat, half: nat): nat
    requires half > 0 && x < 2 * half && y < 2 * half
  {
    if Neq(x, y, half) == 1 then 0 else 1
  }

  /** (x ^ ((x^y) | ((x-y) ^ y))) >> 31 */
  function Lt(x: nat, y: nat, half: nat): nat
    requires half > 0 && x < 2 * half && y < 2 * half
  {
    var tx, ty, td := Top(x, half), Top(y, half), Top(Sub(x, y, half), half);
    AsBit(tx != ((tx != ty) || (td != ty)))
  }

  function Ge(x: nat, y: nat, half: nat): nat
    requires half > 0 && x < 2 * half && y < 2 * half
  {
    if Lt(x, y, half) == 1 then 0 else 1
  }

  /** -(neq(c, 0)): a word of ones or of zeros. */
  function MaskOf(c: nat, half: nat): nat
    requires half > 0 && c < 2 * half
  {
    if Neq(c, 0, half) == 1 then 2 * half - 1 else 0
  }

  /** x & m for such a word. */
  function And(x: nat, m: nat): nat {
    if m == 0 then 0 else x
  }

  /** (x & m) | (y & ~m) for such a word: one of the two sides is zero. */
  function Select(x: nat, y: nat, c: nat, half: nat): nat
    requires half > 0 && c < 2 * half
  {
    var m := MaskOf(c, half);
    And(x, m) + And(y, 2 * half - 1 - m)
  }

  lemma NeqIsUnequal(x: nat, y: nat, half: nat)
    requires half > 0 && x < 2 * half && y < 2 * half
    ensures Neq(x, y, half) == AsBit(x != y) && Eq(x, y, half) == AsBit(x == y)
  {
  }

  lemma LtIsLess(x: nat, y: nat, half: nat)
    requires half > 0 && x < 2 * half && y < 2 * half
    ensures Lt(x, y, half) == AsBit(x < y) && Ge(x, y, half) == AsBit(x >= y)
  {
  }

  lemma SelectChooses(x: nat, y: nat, c: nat, half: nat)
    requires half > 0 && c < 2 * half
    ensures Select(x, y, c, half) == if c != 0 then x else y
  {
    NeqIsUnequal(c, 0, half);
  }
}
