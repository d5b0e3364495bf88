/** `Color3i`, its operators and the named colours (textgame.h, textgame.cpp).
    A channel is meant to lie in 0..5, but nothing enforces it: arithmetic
    may leave that range and `Ansi.ColorToAnsi` clamps on output. */
module Colors {
  import opened Numeric

  datatype Color3i = Color3i(r: int, g: int, b: int)

  /** `Color3i()`: the default constructor zeroes every channel, which is `Black`. */
  const Default: Color3i := Color3i(0, 0, 0)

  const White: Color3i := Color3i(5, 5, 5)
  const Red: Color3i := Color3i(5, 0, 0)
  const Green: Color3i := Color3i(0, 5, 0)
  const Blue: Color3i := Color3i(0, 0, 5)
  const Black: Color3i := Color3i(0, 0, 0)
  const Cyan: Color3i := Color3i(0, 5, 5)
  const Magenta: Color3i := Color3i(5, 0, 5)
  const Yellow: Color3i := Color3i(5, 5, 0)

  /** `operator+`: channelwise; subtracting `c` back gives `a`. */
  function Add(a: Color3i, c: Color3i): (r: Color3i)
    ensures Sub(r, c) == a
  {
    Color3i(a.r + c.r, a.g + c.g, a.b + c.b)
  }

  /** `operator-`: channelwise; the difference is `Black` exactly when the
      operands are equal. */
  function Sub(a: Color3i, c: Color3i): (r: Color3i)
    ensures r == Black <==> a == c
  {
    Color3i(a.r - c.r, a.g - c.g, a.b - c.b)
  }

  /** `operator*(Color3i, Color3i)`: the channelwise product, which division
      by a colour with no zero channel undoes. */
  function Mul(a: Color3i, c: Color3i): (r: Color3i)
    ensures c.r != 0 && c.g != 0 && c.b != 0 ==> Div(r, c) == a
  {
    if c.r != 0 && c.g != 0 && c.b != 0 then
      TruncDivOfProduct(a.r, c.r);
      TruncDivOfProduct(a.g, c.g);
      TruncDivOfProduct(a.b, c.b);
      Color3i(a.r * c.r, a.g * c.g, a.b * c.b)
    else
      Color3i(a.r * c.r, a.g * c.g, a.b * c.b)
  }

  /** `operator*(Color3i, int)`: the colour product at the grey `(k, k, k)`. */
  function Scale(a: Color3i, k: int): (r: Color3i)
    ensures r == Mul(a, Color3i(k, k, k))
  {
    Color3i(a.r * k, a.g * k, a.b * k)
  }

  /** `operator/(Color3i, int)`: the colour quotient at the grey `(k, k, k)`. */
  function DivScalar(a: Color3i, k: int): (r: Color3i)
    requires k != 0
    ensures r == Div(a, Color3i(k, k, k))
  {
    Color3i(TruncDiv(a.r, k), TruncDiv(a.g, k), TruncDiv(a.b, k))
  }

  /** `operator/(Color3i, Color3i)`: channelwise C++ integer division. */
  function Div(a: Color3i, c: Color3i): (r: Color3i)
    requires c.r != 0 && c.g != 0 && c.b != 0
    ensures IsTruncQuotient(a.r, c.r, r.r) && IsTruncQuotient(a.g, c.g, r.g)
    ensures IsTruncQuotient(a.b, c.b, r.b)
  {
    Color3i(TruncDiv(a.r, c.r), TruncDiv(a.g, c.g), TruncDiv(a.b, c.b))
  }

  /** `operator==`: equality of values. */
  predicate Eq(a: Color3i, c: Color3i)
    ensures Eq(a, c) <==> a == c
  {
    a.r == c.r && a.g == c.g && a.b == c.b
  }

  /** `operator!=`: the negation of `operator==`. */
  predicate Ne(a: Color3i, c: Color3i)
    ensures Ne(a, c) <==> a != c
  {
    !Eq(a, c)
  }

  /** `a += c`: the reference parameter `a` is passed in and its new value returned. */
  method AddAssign(a: Color3i, c: Color3i) returns (a': Color3i)
    ensures a' == Add(a, c)
  {
    a' := a;
    a' := a'.(r := a'.r + c.r);
    a' := a'.(g := a'.g + c.g);
    a' := a'.(b := a'.b + c.b);
  }

  /** `a -= c`. */
  method SubAssign(a: Color3i, c: Color3i) returns (a': Color3i)
    ensures a' == Sub(a, c)
  {
    a' := a;
    a' := a'.(r := a'.r - c.r);
    a' := a'.(g := a'.g - c.g);
    a' := a'.(b := a'.b - c.b);
  }

  /** `a *= c`. */
  method MulAssign(a: Color3i, c: Color3i) returns (a': Color3i)
    ensures a' == Mul(a, c)
  {
    a' := a;
    a' := a'.(r := a'.r * c.r);
    a' := a'.(g := a'.g * c.g);
    a' := a'.(b := a'.b * c.b);
  }

  /** `a /= c`. */
  method DivAssign(a: Color3i, c: Color3i) returns (a': Color3i)
    requires c.r != 0 && c.g != 0 && c.b != 0
    ensures a' == Div(a, c)
  {
    a' := a;
    a' := a'.(r := TruncDiv(a'.r, c.r));
    a' := a'.(g := TruncDiv(a'.g, c.g));
    a' := a'.(b := TruncDiv(a'.b, c.b));
  }

  /** Addition is commutative and associative with `Color3i()` as its identity. */
  lemma AddIsCommutativeMonoid(a: Color3i, c: Color3i, d: Color3i)
    ensures Add(a, c) == Add(c, a)
    ensures Add(Add(a, c), d) == Add(a, Add(c, d))
    ensures Add(a, Default) == a
  {
  }

  /** Addition undoes subtraction. */
  lemma AddInvertsSub(a: Color3i, c: Color3i)
    ensures Add(Sub(a, c), c) == a
  {
  }

  /** Halving `White` gives (2, 2, 2); a negative channel rounds toward zero. */
  lemma DivRoundsTowardZero()
    ensures DivScalar(White, 2) == Color3i(2, 2, 2)
    ensures DivScalar(Color3i(-5, 0, 5), 2) == Color3i(-2, 0, 2)
  {
  }
}
