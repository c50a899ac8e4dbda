/** Machine-word ranges, optional values, and the facts about division, powers of two and bits that several models
    share. */
module Basics {

  const M32 := 0x1_0000_0000
  const M64 := 0x1_0000_0000_0000_0000

  type U32 = x: int | 0 <= x < M32
  type U64 = x: int | 0 <= x < M64

  datatype Option<+T> = None | Some(value: T)

  function Pow2(n: nat): (p: nat)
    ensures p >= 1
  {
    if n == 0 then 1 else 2 * Pow2(n - 1)
  }

  lemma DivMod(x: int, d: int)
    requires d >= 1
    ensures x == (x / d) * d + x % d && 0 <= x % d < d
  {
  }

  lemma LessByFactor(d: int, k: int)
    requires d >= 1 && k >= 1
    ensures k * d >= d
  {
  }

  /** Division with remainder has one answer. */
  lemma QuotientIs(x: int, d: int, q: int, r: int)
    requires d >= 1 && 0 <= r < d && x == q * d + r
    ensures x / d == q && x % d == r
  {
    var k := x / d - q;
    assert k * d == r - x % d by {
      assert x == (x / d) * d + x % d;
      assert k * d == (x / d) * d - q * d;
    }
    if k >= 1 {
      LessByFactor(d, k);
    } else if k <= -1 {
      LessByFactor(d, -k);
    }
  }

  lemma ModPlusMultiple(a: int, k: int, n: int)
    requires n >= 1
    ensures (a + k * n) % n == a % n
  {
    assert a + k * n == (a / n + k) * n + a % n by {
      assert (a / n + k) * n == (a / n) * n + k * n;
      assert a == (a / n) * n + a % n;
    }
    QuotientIs(a + k * n, n, a / n + k, a % n);
  }

  lemma Distribute(p: int, u: int, v: int)
    ensures p * (u + v) == p * u + p * v
  {
  }

  lemma {:induction false} PowersMultiply(a: nat, b: nat)
    ensures Pow2(a) * Pow2(b) == Pow2(a + b)
  {
    if a > 0 {
      PowersMultiply(a - 1, b);
    }
  }

  lemma {:induction false} PowersGrow(a: nat, b: nat)
    requires a <= b
    ensures Pow2(a) <= Pow2(b)
  {
    if a < b {
      PowersGrow(a, b - 1);
    }
  }

  /** The bitwise or of two naturals. */
  function BitOr(x: nat, y: nat): nat {
    if x == 0 then y
    else if y == 0 then x
    else 2 * BitOr(x / 2, y / 2) + (if x % 2 == 1 || y % 2 == 1 then 1 else 0)
  }

  lemma {:induction false} OrBelow(x: nat, y: nat, w: nat)
    requires x < Pow2(w) && y < Pow2(w)
    ensures BitOr(x, y) < Pow2(w)
  {
    if x != 0 && y != 0 {
      OrBelow(x / 2, y / 2, w - 1);
    }
  }

  /** Bit j of a natural number, from the least significant end. */
  predicate BitAt(n: nat, j: nat) { if j == 0 then n % 2 == 1 else BitAt(n / 2, j - 1) }

  lemma {:induction false} ZeroHasNoBits(j: nat)
    ensures !BitAt(0, j)
  {
    if j > 0 {
      ZeroHasNoBits(j - 1);
    }
  }

  lemma {:induction false} OrBits(x: nat, y: nat, j: nat)
    ensures BitAt(BitOr(x, y), j) <==> BitAt(x, j) || BitAt(y, j)
  {
    if x == 0 || y == 0 {
      ZeroHasNoBits(j);
    } else if j > 0 {
      OrBits(x / 2, y / 2, j - 1);
    }
  }
}
