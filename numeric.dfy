/** Integer helpers used by the value types of textgame.h: the `clamp`
    template and the quotient of C++'s built-in `/` on `int`, which truncates
    toward zero (Dafny's own `/` is Euclidean). */
module Numeric {

  function Abs(a: int): nat
  {
    if a < 0 then -a else a
  }

  function Min(a: int, b: int): int
  {
    if a <= b then a else b
  }

  function Max(a: int, b: int): int
  {
    if a >= b then a else b
  }

  /** `clamp(value, min_val, max_val)`, written as `std::max(min_val, std::min(value, max_val))`. */
  function Clamp(v: int, lo: int, hi: int): (r: int)
    ensures lo <= hi ==> lo <= r <= hi
    ensures lo <= v <= hi ==> r == v
    ensures lo <= hi && v < lo ==> r == lo
    ensures lo <= hi && hi < v ==> r == hi
    // with an empty range the outer std::max wins
    ensures hi < lo ==> r == lo
  {
    Max(lo, Min(v, hi))
  }

  /** Clamping twice is clamping once. */
  lemma ClampIdempotent(v: int, lo: int, hi: int)
    ensures Clamp(Clamp(v, lo, hi), lo, hi) == Clamp(v, lo, hi)
  {
  }

  /** Clamping never reverses the order of two values. */
  lemma ClampMonotone(v: int, w: int, lo: int, hi: int)
    requires v <= w
    ensures Clamp(v, lo, hi) <= Clamp(w, lo, hi)
  {
  }

  /** `q` is the C++ quotient of `a / b`: its magnitude is the exact
      magnitude rounded down, and its sign is the exact quotient's sign. */
  predicate IsTruncQuotient(a: int, b: int, q: int)
  {
    Abs(q) * Abs(b) <= Abs(a) < (Abs(q) + 1) * Abs(b)
    && ((a >= 0) == (b > 0) ==> q >= 0)
    && ((a >= 0) != (b > 0) ==> q <= 0)
  }

  /** The quotient of C++ `a / b` on `int`: the exact quotient with its
      fractional part discarded, so its magnitude is rounded down and its
      sign is the sign of the exact quotient. */
  function TruncDiv(a: int, b: int): (q: int)
    requires b != 0
    ensures Abs(q) * Abs(b) <= Abs(a) < (Abs(q) + 1) * Abs(b)
    ensures (a >= 0) == (b > 0) ==> q >= 0
    ensures (a >= 0) != (b > 0) ==> q <= 0
  {
    DivBounds(Abs(a), Abs(b));
    var m: int := Abs(a) / Abs(b);
    if (a < 0) == (b < 0) then m else -m
  }

  /** The Euclidean quotient of naturals brackets the dividend between two multiples. */
  lemma DivBounds(n: nat, d: nat)
    requires d > 0
    ensures n / d >= 0
    ensures (n / d) * d <= n < (n / d + 1) * d
  {
    var m, r := n / d, n % d;
    assert n == m * d + r;
    assert (m + 1) * d == m * d + d;
  }

  lemma MulMonotone(a: int, b: int, n: nat)
    requires a <= b
    ensures a * n <= b * n
  {
    assert b * n - a * n == (b - a) * n;
  }

  /** On a non-negative dividend and a positive divisor C++ and Dafny agree. */
  lemma TruncDivOfNatural(a: int, b: int)
    requires a >= 0 && b > 0
    ensures TruncDiv(a, b) == a / b
  {
  }

  /** Negating the dividend negates the quotient (which Euclidean division does not do). */
  lemma TruncDivOddSymmetric(a: int, b: int)
    requires b != 0
    ensures TruncDiv(-a, b) == -TruncDiv(a, b)
  {
  }

  /** Where the two divisions part: -7 / 2 is -3 in C++ and -4 in Dafny. */
  lemma TruncDivDiffersFromEuclidean()
    ensures TruncDiv(-7, 2) == -3 && -7 / 2 == -4
  {
  }

  /** Dividing an exact multiple gives the factor back. */
  lemma {:induction false} TruncDivOfProduct(a: int, k: int)
    requires k != 0
    ensures TruncDiv(a * k, k) == a
  {
    var p := a * k;
    var n := Abs(k);
    var q := TruncDiv(p, k);
    assert Abs(p) == Abs(a) * n by {
      if a < 0 && k < 0 { assert p == (-a) * (-k); }
      else if a < 0 { assert -p == (-a) * k; }
      else if k < 0 { assert -p == a * (-k); }
    }
    assert Abs(q) * n <= Abs(a) * n < (Abs(q) + 1) * n;
    if Abs(q) < Abs(a) {
      MulMonotone(Abs(q) + 1, Abs(a), n);
      assert false;
    } else if Abs(q) > Abs(a) {
      MulMonotone(Abs(a) + 1, Abs(q), n);
      assert false;
    }
    assert a != 0 ==> ((p >= 0) == (k > 0) <==> a >= 0) by {
      if a > 0 && k > 0 { MulMonotone(0, a, k); }
      else if a < 0 && k < 0 { assert p == (-a) * (-k); MulMonotone(0, -a, -k); }
      else if a > 0 && k < 0 { assert -p == a * (-k); MulMonotone(1, a, -k); }
      else if a < 0 && k > 0 { assert -p == (-a) * k; MulMonotone(1, -a, k); }
    }
  }
}
