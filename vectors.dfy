/** `Vector2i`, its operators and `Rect` (textgame.h, textgame.cpp).
    Components are unbounded integers; the C++ `int` overflow these
    operators could hit is undefined behaviour there and is not modelled. */
module Vectors {
  import opened Numeric

  datatype Vector2i = Vector2i(x: int, y: int)

  /** `Vector2i()`: the default constructor zeroes both components. */
  const Zero: Vector2i := Vector2i(0, 0)

  /** `operator+`: componentwise; subtracting `b` back gives `a`. */
  function Add(a: Vector2i, b: Vector2i): (r: Vector2i)
    ensures Sub(r, b) == a
  {
    Vector2i(a.x + b.x, a.y + b.y)
  }

  /** `operator-`: componentwise; the difference is zero exactly when the
      operands are equal. */
  function Sub(a: Vector2i, b: Vector2i): (r: Vector2i)
    ensures r == Zero <==> a == b
  {
    Vector2i(a.x - b.x, a.y - b.y)
  }

  /** `operator*(Vector2i, Vector2i)`: the componentwise product, which
      division by a divisor with no zero component undoes. */
  function Mul(a: Vector2i, b: Vector2i): (r: Vector2i)
    ensures b.x != 0 && b.y != 0 ==> Div(r, b) == a
  {
    if b.x != 0 && b.y != 0 then
      TruncDivOfProduct(a.x, b.x);
      TruncDivOfProduct(a.y, b.y);
      Vector2i(a.x * b.x, a.y * b.y)
    else
      Vector2i(a.x * b.x, a.y * b.y)
  }

  /** `operator*(Vector2i, int)`: the vector product at the diagonal `(k, k)`. */
  function Scale(a: Vector2i, k: int): (r: Vector2i)
    ensures r == Mul(a, Vector2i(k, k))
  {
    Vector2i(a.x * k, a.y * k)
  }

  /** `operator/(Vector2i, int)`: the vector quotient at the diagonal `(k, k)`.
      A zero divisor is undefined behaviour in C++, so callers may not pass one. */
  function DivScalar(a: Vector2i, k: int): (r: Vector2i)
    requires k != 0
    ensures r == Div(a, Vector2i(k, k))
  {
    Vector2i(TruncDiv(a.x, k), TruncDiv(a.y, k))
  }

  /** `operator/(Vector2i, Vector2i)`: componentwise C++ division, which
      rounds each quotient's magnitude down and keeps the exact quotient's sign. */
  function Div(a: Vector2i, b: Vector2i): (r: Vector2i)
    requires b.x != 0 && b.y != 0
    ensures IsTruncQuotient(a.x, b.x, r.x) && IsTruncQuotient(a.y, b.y, r.y)
  {
    Vector2i(TruncDiv(a.x, b.x), TruncDiv(a.y, b.y))
  }

  /** `operator==`: equality of values. */
  predicate Eq(a: Vector2i, b: Vector2i)
    ensures Eq(a, b) <==> a == b
  {
    a.x == b.x && a.y == b.y
  }

  /** `operator!=`: the negation of `operator==`. */
  predicate Ne(a: Vector2i, b: Vector2i)
    ensures Ne(a, b) <==> a != b
  {
    !Eq(a, b)
  }

  /** `a += b`: the reference parameter `a` is passed in and its new value returned. */
  method AddAssign(a: Vector2i, b: Vector2i) returns (a': Vector2i)
    ensures a' == Add(a, b)
  {
    a' := a;
    a' := a'.(x := a'.x + b.x);
    a' := a'.(y := a'.y + b.y);
  }

  /** `a -= b`. */
  method SubAssign(a: Vector2i, b: Vector2i) returns (a': Vector2i)
    ensures a' == Sub(a, b)
  {
    a' := a;
    a' := a'.(x := a'.x - b.x);
    a' := a'.(y := a'.y - b.y);
  }

  /** `a *= b`. */
  method MulAssign(a: Vector2i, b: Vector2i) returns (a': Vector2i)
    ensures a' == Mul(a, b)
  {
    a' := a;
    a' := a'.(x := a'.x * b.x);
    a' := a'.(y := a'.y * b.y);
  }

  /** `a /= b`. */
  method DivAssign(a: Vector2i, b: Vector2i) returns (a': Vector2i)
    requires b.x != 0 && b.y != 0
    ensures a' == Div(a, b)
  {
    a' := a;
    a' := a'.(x := TruncDiv(a'.x, b.x));
    a' := a'.(y := TruncDiv(a'.y, b.y));
  }

  /** Addition is commutative and associative with `Vector2i()` as its identity. */
  lemma AddIsCommutativeMonoid(a: Vector2i, b: Vector2i, c: Vector2i)
    ensures Add(a, b) == Add(b, a)
    ensures Add(Add(a, b), c) == Add(a, Add(b, c))
    ensures Add(a, Zero) == a
  {
  }

  /** Addition undoes subtraction. */
  lemma AddInvertsSub(a: Vector2i, b: Vector2i)
    ensures Add(Sub(a, b), b) == a
  {
  }

  /** Division rounds each component toward zero, not toward minus infinity. */
  lemma DivRoundsTowardZero()
    ensures DivScalar(Vector2i(-7, 7), 2) == Vector2i(-3, 3)
  {
  }

  /** `Rect`: two corners; the header documents both edges as inclusive. */
  datatype Rect = Rect(min: Vector2i, max: Vector2i)

  /** Membership of a point in a rectangle read as inclusive on both edges:
      only a rectangle whose `min` corner lies on or before its `max` corner
      on both axes holds any point. */
  predicate Contains(r: Rect, p: Vector2i)
    ensures Contains(r, p) ==> r.min.x <= r.max.x && r.min.y <= r.max.y
  {
    r.min.x <= p.x <= r.max.x && r.min.y <= p.y <= r.max.y
  }
}
