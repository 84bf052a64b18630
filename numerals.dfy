/** Natural numbers as digit lists in a positional base, and the division facts
    the rest of the model leans on (powers, Euclidean division, row-major splits). */
module Numerals {

  /** b raised to the power e. */
  function Pow(b: nat, e: nat): nat
  {
    if e == 0 then 1 else b * Pow(b, e - 1)
  }

  lemma {:induction false} PowPositive(b: nat, e: nat)
    requires b > 0
    ensures Pow(b, e) > 0
  {
    if e > 0 {
      PowPositive(b, e - 1);
    }
  }

  lemma {:induction false} PowAdd(b: nat, e1: nat, e2: nat)
    ensures Pow(b, e1 + e2) == Pow(b, e1) * Pow(b, e2)
  {
    if e2 > 0 {
      PowAdd(b, e1, e2 - 1);
      calc {
        Pow(b, e1 + e2);
        b * Pow(b, e1 + e2 - 1);
        b * (Pow(b, e1) * Pow(b, e2 - 1));
        Pow(b, e1) * (b * Pow(b, e2 - 1));
        Pow(b, e1) * Pow(b, e2);
      }
    }
  }

  /** Euclidean division is unique: a quotient and a remainder in range are THE quotient and remainder. */
  lemma DivModUnique(v: int, m: int, q: int, x: int)
    requires m > 0 && 0 <= x < m && v == q * m + x
    ensures v / m == q && v % m == x
  {
    var q0, x0 := v / m, v % m;
    assert v == q0 * m + x0;
    if q > q0 {
      MulAtLeast(q - q0, m);
    } else if q < q0 {
      MulAtLeast(q0 - q, m);
    }
  }

  lemma {:induction false} MulAtLeast(d: nat, m: nat)
    requires d >= 1
    ensures d * m >= m
  {
    if d > 1 {
      MulAtLeast(d - 1, m);
      assert d * m == (d - 1) * m + m;
    }
  }

  /** Row-major split: for c < w, the address r*w + c has quotient r and remainder c. */
  lemma RowMajorSplit(r: int, c: int, w: int)
    requires w > 0 && 0 <= c < w
    ensures (r * w + c) / w == r && (r * w + c) % w == c
  {
    DivModUnique(r * w + c, w, r, c);
  }

  /** An address below h*w has a row below h. */
  lemma RowBound(a: nat, w: nat, h: nat)
    requires a < w * h
    ensures w > 0 && a / w < h
  {
  }

  /** The quotient and remainder of Euclidean division by m. */
  lemma DivMod(v: int, m: int)
    requires m > 0
    ensures v == (v / m) * m + v % m && 0 <= v % m < m
  {
  }

  lemma DivShrinks(n: nat, base: nat)
    requires base >= 2 && n >= base
    ensures 0 < n / base < n
  {
  }

  lemma MulMonotone(x: nat, y: nat, a: nat)
    requires x <= y
    ensures x * a <= y * a
  {
    assert y * a - x * a == (y - x) * a;
  }

  lemma {:induction false} DivDiv(v: nat, a: nat, b: nat)
    requires a > 0 && b > 0
    ensures v / a / b == v / (a * b)
  {
    var q1, x1 := v / a, v % a;
    DivMod(v, a);
    var q2, x2 := q1 / b, q1 % b;
    DivMod(q1, b);
    calc {
      v;
      q1 * a + x1;
      (q2 * b + x2) * a + x1;
      q2 * (a * b) + (x2 * a + x1);
    }
    MulMonotone(x2, b - 1, a);
    assert (b - 1) * a == a * b - a;
    DivModUnique(v, a * b, q2, x2 * a + x1);
  }

  /** A multiple of m leaves no remainder. */
  lemma MulMod(q: nat, m: nat)
    requires m > 0
    ensures (q * m) % m == 0 && (q * m) / m == q
  {
    DivModUnique(q * m, m, q, 0);
  }

  /** The value of a digit list, most significant digit first. */
  function FromDigits(ds: seq<nat>, base: nat): nat
    decreases |ds|
  {
    if ds == [] then 0 else FromDigits(ds[..|ds| - 1], base) * base + ds[|ds| - 1]
  }

  predicate DigitsBelow(ds: seq<nat>, base: nat)
  {
    forall i :: 0 <= i < |ds| ==> ds[i] < base
  }

  /** The shortest digit list of n in the given base ("0" for zero): every digit
      is below the base and there is no leading zero. */
  function ToDigits(n: nat, base: nat): (ds: seq<nat>)
    requires base >= 2
    ensures |ds| >= 1 && DigitsBelow(ds, base)
    ensures n > 0 ==> ds[0] != 0
    decreases n
  {
    if n < base then [n]
    else
      DivShrinks(n, base);
      ToDigits(n / base, base) + [n % base]
  }

  /** The digits ToDigits produces have the value n. */
  lemma {:induction false} ToDigitsValue(n: nat, base: nat)
    requires base >= 2
    ensures FromDigits(ToDigits(n, base), base) == n
    decreases n
  {
    if n >= base {
      DivShrinks(n, base);
      ToDigitsValue(n / base, base);
      DigitStepValue(n, base, ToDigits(n / base, base));
    }
  }

  lemma DigitStepValue(n: nat, base: nat, front: seq<nat>)
    requires base >= 2 && n >= base
    requires FromDigits(front, base) == n / base
    ensures FromDigits(front + [n % base], base) == n
  {
    var ds := front + [n % base];
    assert ds[..|front|] == front;
    assert FromDigits(ds, base) == FromDigits(front, base) * base + n % base;
  }

  function Zeros(k: nat): (z: seq<nat>)
    ensures |z| == k && forall i :: 0 <= i < k ==> z[i] == 0
  {
    seq(k, i => 0)
  }

  /** Leading zeros do not change the value of a digit list. */
  lemma {:induction false} LeadingZeros(k: nat, ds: seq<nat>, base: nat)
    ensures FromDigits(Zeros(k) + ds, base) == FromDigits(ds, base)
    decreases |ds|, k
  {
    if ds == [] {
      assert Zeros(k) + ds == Zeros(k);
      if k > 0 {
        assert Zeros(k)[..k - 1] == Zeros(k - 1);
        LeadingZeros(k - 1, [], base);
        assert Zeros(k - 1) + [] == Zeros(k - 1);
      }
    } else {
      var front := ds[..|ds| - 1];
      assert (Zeros(k) + ds)[..|Zeros(k) + ds| - 1] == Zeros(k) + front;
      LeadingZeros(k, front, base);
    }
  }

  /** n < base^k needs at most k digits. */
  lemma {:induction false} DigitsLength(n: nat, base: nat, k: nat)
    requires base >= 2 && k >= 1 && n < Pow(base, k)
    ensures |ToDigits(n, base)| <= k
    decreases k
  {
    if n >= base {
      assert k != 1;
      assert n < base * Pow(base, k - 1);
      RowBound(n, base, Pow(base, k - 1));
      DigitsLength(n / base, base, k - 1);
    }
  }
}
