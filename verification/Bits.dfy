/** Bitwise operators on naturals, and what they mean for power-of-two masks. */
module Bits {

  function Pow2(k: nat): (r: nat)
    ensures r >= 1
  {
    if k == 0 then 1 else 2 * Pow2(k - 1)
  }

  ghost predicate IsPow2(n: nat) {
    exists k: nat :: n == Pow2(k)
  }

  /** `x & y`. */
  function And(x: nat, y: nat): nat {
    if x == 0 || y == 0 then 0
    else 2 * And(x / 2, y / 2) + (if x % 2 == 1 && y % 2 == 1 then 1 else 0)
  }

  /** `x | y`. */
  function Or(x: nat, y: nat): nat {
    if x == 0 then y
    else if y == 0 then x
    else 2 * Or(x / 2, y / 2) + (if x % 2 == 1 || y % 2 == 1 then 1 else 0)
  }

  /** `x & ~y`, for a complement taken at any width that holds `x`. */
  function AndNot(x: nat, y: nat): (r: nat)
    ensures r <= x
  {
    if x == 0 then 0
    else if y == 0 then x
    else 2 * AndNot(x / 2, y / 2) + (if x % 2 == 1 && y % 2 == 0 then 1 else 0)
  }

  lemma ModDouble(x: nat, m: nat)
    requires m > 0
    ensures x % (2 * m) == 2 * ((x / 2) % m) + x % 2
  {
    var q, r := (x / 2) / m, (x / 2) % m;
    assert x == (2 * m) * q + (2 * r + x % 2) by {
      assert x == 2 * (x / 2) + x % 2;
      assert x / 2 == m * q + r;
    }
    ModUnique(x, 2 * m, q, 2 * r + x % 2);
  }

  lemma MulAtLeast(a: int, k: int)
    requires a > 0
    ensures k >= 1 ==> a * k >= a
    ensures k <= -1 ==> a * k <= -a
  {
  }

  lemma ModUnique(x: int, m: int, q: int, r: int)
    requires m > 0 && x == m * q + r && 0 <= r < m
    ensures x % m == r && x / m == q
  {
    var q', r' := x / m, x % m;
    assert x == m * q' + r';
    var d := q - q';
    assert m * d == m * q - m * q';
    MulAtLeast(m, d);
  }

  lemma MaskHalves(m: nat)
    requires m > 0
    ensures (2 * m - 1) / 2 == m - 1 && (2 * m - 1) % 2 == 1
  {
  }

  /** `x & (2^k - 1)` keeps the low `k` bits: the remainder modulo `2^k`. */
  lemma {:induction false} AndMask(x: nat, k: nat)
    ensures And(x, Pow2(k) - 1) == x % Pow2(k)
  {
    if k == 0 {
    } else if x == 0 {
      ModUnique(0, Pow2(k), 0, 0);
    } else {
      var m := Pow2(k - 1);
      AndMask(x / 2, k - 1);
      MaskHalves(m);
      assert And(x, 2 * m - 1) == 2 * ((x / 2) % m) + x % 2;
      ModDouble(x, m);
    }
  }

  /** A number is the sum of its bits inside and outside a mask. */
  lemma {:induction false} AndPlusAndNot(x: nat, y: nat)
    ensures And(x, y) + AndNot(x, y) == x
  {
    if x != 0 && y != 0 {
      AndPlusAndNot(x / 2, y / 2);
    }
  }

  /** `x & ~(2^k - 1)` rounds down to a multiple of `2^k`. */
  lemma AndNotMask(x: nat, k: nat)
    ensures AndNot(x, Pow2(k) - 1) == x - x % Pow2(k)
  {
    AndMask(x, k);
    AndPlusAndNot(x, Pow2(k) - 1);
  }

  /** The union of two low-bit masks is the wider of the two. */
  lemma {:induction false} OrMasks(j: nat, k: nat)
    ensures Or(Pow2(j) - 1, Pow2(k) - 1) == (if j <= k then Pow2(k) else Pow2(j)) - 1
  {
    if j == 0 || k == 0 {
      Pow2Grows(0, j);
      Pow2Grows(0, k);
    } else {
      var m, n := Pow2(j - 1), Pow2(k - 1);
      assert (2 * m - 1) / 2 == m - 1 && (2 * m - 1) % 2 == 1;
      assert (2 * n - 1) / 2 == n - 1 && (2 * n - 1) % 2 == 1;
      OrMasks(j - 1, k - 1);
    }
  }

  lemma {:induction false} Pow2Grows(j: nat, k: nat)
    requires j <= k
    ensures Pow2(k) % Pow2(j) == 0 && Pow2(j) <= Pow2(k)
  {
    if j == k {
      ModUnique(Pow2(k), Pow2(j), 1, 0);
    } else {
      Pow2Grows(j, k - 1);
      AddMultiples(Pow2(k - 1), Pow2(k - 1), Pow2(j));
    }
  }

  /** A greater exponent gives a strictly greater power. */
  lemma {:induction false} Pow2Strict(j: nat, k: nat)
    ensures j < k ==> 2 * Pow2(j) <= Pow2(k)
  {
    if j < k {
      Pow2Grows(j + 1, k);
    }
  }

  // Divisibility.

  lemma AddMultiples(x: int, y: int, a: int)
    requires a > 0 && x % a == 0 && y % a == 0
    ensures (x + y) % a == 0 && (x - y) % a == 0
  {
    var p, q := x / a, y / a;
    assert x + y == a * (p + q) && x - y == a * (p - q);
    ModUnique(x + y, a, p + q, 0);
    ModUnique(x - y, a, p - q, 0);
  }

  /** Rounding modulo a multiple of `a` does not change the residue modulo `a`. */
  lemma ModOfMod(x: int, m: int, a: int)
    requires a > 0 && m > 0 && m % a == 0
    ensures (x % m) % a == x % a
  {
    var d, q, c := x / m, (x % m) / a, m / a;
    var r := (x % m) % a;
    assert m == a * c;
    assert x == a * (c * d + q) + r by {
      assert x == m * d + x % m;
      assert m * d == a * (c * d);
    }
    ModUnique(x, a, c * d + q, r);
  }

  /** Adding a multiple of `a` does not change the residue modulo `a`. */
  lemma ModAddMultiple(x: int, y: int, a: int)
    requires a > 0 && y % a == 0
    ensures (x + y) % a == x % a && (x - y) % a == x % a
  {
    var q, c := x / a, y / a;
    assert x + y == a * (q + c) + x % a;
    assert x - y == a * (q - c) + x % a;
    ModUnique(x + y, a, q + c, x % a);
    ModUnique(x - y, a, q - c, x % a);
  }

  /** The greatest multiple of `a` not above `x`. */
  lemma RoundDown(x: int, a: int)
    requires a > 0
    ensures (x - x % a) % a == 0 && x - a < x - x % a <= x
  {
    ModUnique(x - x % a, a, x / a, 0);
  }

  /** Two multiples of `a` that differ at all differ by at least `a`. */
  lemma MultiplesApart(x: int, y: int, a: int)
    requires a > 0 && x % a == 0 && y % a == 0 && x < y
    ensures x + a <= y
  {
    var p, q := x / a, y / a;
    var d := q - p;
    assert a * d == a * q - a * p == y - x;
    MulAtLeast(a, d);
  }
}
