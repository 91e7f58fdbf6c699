/** The JavaScript bitwise operators `>>`, `<<`, `&` and `|` on the operand
    range the colour helpers use: non-negative integers below 2^31, on which
    the ToInt32 coercion is the identity and `>>` is floor division. The
    operators are defined bit by bit, so that what the colour code relies on
    (a mask keeps the low bits, an OR of disjoint ranges is a sum) is proved
    rather than assumed. */
module Bits {

  function Pow2(k: nat): (p: nat)
    ensures p >= 1
  {
    if k == 0 then 1 else 2 * Pow2(k - 1)
  }

  /** `n >> k` for a non-negative int32 `n`. */
  function Shr(n: nat, k: nat): nat
  {
    var p := Pow2(k);
    DivNonNegative(n, p);
    n / p
  }

  lemma DivNonNegative(n: nat, p: nat)
    requires p >= 1
    ensures n / p >= 0
  {
  }

  /** `n << k` when the result stays below 2^31. */
  function Shl(n: nat, k: nat): nat
  {
    n * Pow2(k)
  }

  /** `x & y`, one bit at a time from the least significant end. */
  function BitAnd(x: nat, y: nat): nat
    decreases x
  {
    if x == 0 || y == 0 then 0
    else 2 * BitAnd(x / 2, y / 2) + (if x % 2 == 1 && y % 2 == 1 then 1 else 0)
  }

  /** `x | y`, one bit at a time from the least significant end. */
  function BitOr(x: nat, y: nat): nat
    decreases x
  {
    if x == 0 then y
    else if y == 0 then x
    else 2 * BitOr(x / 2, y / 2) + (if x % 2 == 1 || y % 2 == 1 then 1 else 0)
  }

  /** Splitting `n mod 2P` into its lowest bit and the rest. */
  lemma ModDouble(n: nat, p: nat)
    requires p >= 1
    ensures n % (2 * p) == 2 * ((n / 2) % p) + n % 2
  {
    var q, s := (n / 2) / p, (n / 2) % p;
    assert n / 2 == p * q + s;
    assert n == (2 * p) * q + (2 * s + n % 2);
    assert 0 <= 2 * s + n % 2 < 2 * p;
    ModUnique(n, 2 * p, q, 2 * s + n % 2);
  }

  /** Quotient and remainder are unique. */
  lemma ModUnique(n: nat, m: nat, q: nat, r: nat)
    requires m >= 1 && n == m * q + r && r < m
    ensures n % m == r && n / m == q
  {
    var d := q - n / m;
    assert m * d == n % m - r;
    MulBound(m, d);
  }

  lemma MulBound(m: int, d: int)
    requires m >= 1 && -m < m * d < m
    ensures d == 0
  {
  }

  /** The mask `2^k - 1` keeps exactly the `k` low bits: `n & 255 == n % 256`. */
  lemma {:induction false} AndLowMask(n: nat, k: nat)
    ensures BitAnd(n, Pow2(k) - 1) == n % Pow2(k)
  {
    if k == 0 {
      assert Pow2(k) - 1 == 0;
    } else if n == 0 {
    } else {
      var p := Pow2(k - 1);
      var mask := Pow2(k) - 1;
      assert Pow2(k) == 2 * p;
      ModUnique(mask, 2, p - 1, 1);
      AndOddStep(n, mask);
      AndLowMask(n / 2, k - 1);
      assert BitAnd(n, mask) == 2 * ((n / 2) % p) + n % 2;
      ModDouble(n, p);
    }
  }

  /** An odd mask keeps the lowest bit of `x` and masks the rest with its
      own upper bits. */
  lemma AndOddStep(x: nat, y: nat)
    requires x > 0 && y % 2 == 1
    ensures BitAnd(x, y) == 2 * BitAnd(x / 2, y / 2) + x % 2
  {
  }

  /** An OR of two disjoint bit ranges is their sum: for `x < 2^k`,
      `x | (y << k) == x + (y << k)`. */
  lemma {:induction false} OrDisjoint(x: nat, y: nat, k: nat)
    requires x < Pow2(k)
    ensures BitOr(x, Shl(y, k)) == x + Shl(y, k)
  {
    if k > 0 && x > 0 && y > 0 {
      var p := Pow2(k - 1);
      assert Shl(y, k) == 2 * Shl(y, k - 1);
      assert Shl(y, k) / 2 == Shl(y, k - 1) && Shl(y, k) % 2 == 0;
      assert Shl(y, k - 1) > 0;
      OrDisjoint(x / 2, y, k - 1);
    }
  }
}
