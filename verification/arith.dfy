/** Integer facts the limb-level proofs lean on: powers, and the uniqueness of
    Euclidean division. Nothing here is specific to big integers. */
module Arith {

  function Max(a: nat, b: nat): nat {
    if a >= b then a else b
  }

  /** b raised to the e-th power. */
  function Pow(b: nat, e: nat): nat
    decreases e
  {
    if e == 0 then 1 else b * Pow(b, e - 1)
  }

  lemma {:induction false} PowPositive(b: nat, e: nat)
    requires b > 0
    ensures Pow(b, e) > 0
    decreases e
  {
    if e > 0 {
      PowPositive(b, e - 1);
      MulPositive(b, Pow(b, e - 1));
    }
  }

  lemma MulPositive(x: int, y: int)
    requires x > 0 && y > 0
    ensures x * y > 0
  {
  }

  lemma {:induction false} PowAdd(b: nat, e1: nat, e2: nat)
    ensures Pow(b, e1 + e2) == Pow(b, e1) * Pow(b, e2)
    decreases e1
  {
    if e1 > 0 {
      PowAdd(b, e1 - 1, e2);
      calc {
        Pow(b, e1 + e2);
        b * Pow(b, e1 - 1 + e2);
        b * (Pow(b, e1 - 1) * Pow(b, e2));
        { MulAssoc(b, Pow(b, e1 - 1), Pow(b, e2)); }
        (b * Pow(b, e1 - 1)) * Pow(b, e2);
      }
    }
  }

  lemma {:induction false} PowMonotone(b: nat, e1: nat, e2: nat)
    requires b > 0 && e1 <= e2
    ensures Pow(b, e1) <= Pow(b, e2)
    decreases e2
  {
    if e1 < e2 {
      PowMonotone(b, e1, e2 - 1);
      PowPositive(b, e2 - 1);
      MulMonotone(1, b, Pow(b, e2 - 1));
    }
  }

  lemma MulAssoc(x: int, y: int, z: int)
    ensures x * (y * z) == (x * y) * z
  {
  }

  lemma MulMonotone(x: int, y: int, z: int)
    requires 0 <= x <= y && z >= 0
    ensures x * z <= y * z
  {
  }

  /** Euclidean division is determined by any quotient/remainder pair. */
  lemma DivUnique(n: int, d: int, q: int, r: int)
    requires d > 0 && 0 <= r < d && n == d * q + r
    ensures n / d == q && n % d == r
  {
    var q' := n / d;
    var r' := n % d;
    assert n == d * q' + r';
    assert d * (q - q') == r' - r;
    if q > q' {
      MulMonotone(1, q - q', d);
      assert false;
    } else if q < q' {
      MulMonotone(1, q' - q, d);
      assert false;
    }
  }

  /** A quotient bounded by a multiple of the divisor is bounded by the multiplier. */
  lemma DivBelow(n: int, d: int, k: int)
    requires d > 0 && 0 <= n < d * k
    ensures n / d < k
  {
    if n / d >= k {
      MulMonotone(k, n / d, d);
      assert false;
    }
  }

  /** A larger top digit outweighs anything the lower digits can hold. */
  lemma TopDigitDominates(x: int, y: int, p: int, lo: int, hi: int)
    requires x >= 0 && 0 <= y < p && 0 <= lo < hi
    ensures x + hi * p > y + lo * p
  {
    MulMonotone(lo + 1, hi, p);
  }

  /** A digit times a digit plus a digit fits in two digits. */
  lemma ProductBound(x: int, y: int, c: int, b: int)
    requires 0 <= x < b && 0 <= y < b && 0 <= c < b
    ensures x * y + c < b * b
  {
    MulMonotone(x, b - 1, y);
    MulMonotone(y, b - 1, b - 1);
    assert (b - 1) * (b - 1) + (b - 1) == b * b - b;
  }

  /** Division rounding towards negative infinity, as Python's // does. */
  function FloorDiv(x: int, y: int): int
    requires y != 0
  {
    if y > 0 then x / y else (-x) / (-y)
  }

  /** The remainder that goes with FloorDiv; it takes the sign of the divisor. */
  function FloorMod(x: int, y: int): int
    requires y != 0
  {
    x - y * FloorDiv(x, y)
  }

  /** FloorDiv is the q with y·q <= x < y·q + y (y > 0), or y·q >= x > y·q + y (y < 0). */
  lemma FloorDivBracket(x: int, y: int)
    ensures y > 0 ==> y * FloorDiv(x, y) <= x < y * FloorDiv(x, y) + y
    ensures y < 0 ==> y * FloorDiv(x, y) >= x > y * FloorDiv(x, y) + y
  {
    if y < 0 {
      var q := (-x) / (-y);
      assert (-y) * q <= -x < (-y) * q + (-y);
    }
  }

  /** Floor division of magnitudes m and n under the four sign patterns. */
  lemma FloorDivSigns(m: int, n: int)
    requires m >= 0
    ensures n > 0 ==> FloorDiv(m, n) == m / n && FloorDiv(-m, -n) == m / n
    ensures n > 0 && n * (m / n) == m ==> FloorDiv(-m, n) == -(m / n) && FloorDiv(m, -n) == -(m / n)
    ensures n > 0 && n * (m / n) != m ==> FloorDiv(-m, n) == -(m / n) - 1 && FloorDiv(m, -n) == -(m / n) - 1
  {
    if n > 0 {
      var q := m / n;
      var r := m % n;
      if r == 0 {
        DivUnique(-m, n, -q, 0);
      } else {
        DivUnique(-m, n, -q - 1, n - r);
      }
    }
  }
}
