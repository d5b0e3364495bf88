/** The grid store: `Image` and `image_resize`, `image_clear`, `image_set`,
    `image_get` (textgame.h, textgame.cpp). The pixel vector and the clip
    stack are sequences that the methods reassign. */
module Canvas {
  import opened Numeric
  import opened Vectors
  import opened Pixels

  /** The bounds test shared by `image_set` and `image_get`. */
  predicate InBounds(size: Vector2i, pix: Vector2i)
  {
    pix.x >= 0 && pix.y >= 0 && pix.x < size.x && pix.y < size.y
  }

  /** Row-major position of a pixel: `pix.x + pix.y * size.x`. */
  function Index(size: Vector2i, pix: Vector2i): int
  {
    pix.x + pix.y * size.x
  }

  /** An in-bounds pixel has a position inside the vector. */
  lemma IndexInRange(size: Vector2i, pix: Vector2i)
    requires InBounds(size, pix)
    ensures 0 <= Index(size, pix) < size.x * size.y
  {
    MulMonotone(0, pix.y, size.x);
    MulMonotone(pix.y + 1, size.y, size.x);
  }

  /** Distinct in-bounds pixels have distinct positions. */
  lemma IndexInjective(size: Vector2i, p: Vector2i, q: Vector2i)
    requires InBounds(size, p) && InBounds(size, q)
    requires Index(size, p) == Index(size, q)
    ensures p == q
  {
    if p.y < q.y {
      MulMonotone(p.y + 1, q.y, size.x);
      assert false;
    } else if q.y < p.y {
      MulMonotone(q.y + 1, p.y, size.x);
      assert false;
    }
  }

  /** Every position of the vector belongs to exactly one in-bounds pixel. */
  lemma IndexSurjective(size: Vector2i, i: int)
    requires size.x >= 0 && 0 <= i < size.x * size.y
    ensures size.x > 0
    ensures InBounds(size, Vector2i(i % size.x, i / size.x))
    ensures Index(size, Vector2i(i % size.x, i / size.x)) == i
  {
    var w := size.x;
    if w == 0 {
      assert false;
    }
    DivBounds(i, w);
    if i / w >= size.y {
      MulMonotone(size.y, i / w, w);
      assert false;
    }
    assert i == (i / w) * w + i % w;
  }

  /** Overwriting one in-bounds pixel leaves every other in-bounds pixel as it was. */
  lemma UpdateKeepsOthers(size: Vector2i, data: seq<Pixel>, pix: Vector2i, val: Pixel, q: Vector2i)
    requires |data| == size.x * size.y
    requires InBounds(size, pix) && InBounds(size, q) && q != pix
    ensures 0 <= Index(size, pix) < |data| && 0 <= Index(size, q) < |data|
    ensures data[Index(size, pix) := val][Index(size, q)] == data[Index(size, q)]
  {
    IndexInRange(size, pix);
    IndexInRange(size, q);
    if Index(size, q) == Index(size, pix) {
      IndexInjective(size, q, pix);
    }
  }

  /** The base clip region `{(0,0), size}` read as the header documents a
      `Rect`, inclusive on both edges, reaches one row and one column past
      the image: the corner `size` itself is inside it but not in bounds. */
  lemma BaseClipReachesPastImage(size: Vector2i)
    requires size.x >= 0 && size.y >= 0
    ensures Contains(Rect(Zero, size), size) && !InBounds(size, size)
  {
  }

  class Image {
    var size: Vector2i
    /** Row-major: the pixel at (x, y) is at `x + y * size.x`. */
    var data: seq<Pixel>
    /** The clipping region stack. */
    var clip: seq<Rect>

    /** The vector holds one pixel per cell. A negative extent on both axes
        gives a positive product, and the vector then holds that many pixels,
        none of them in bounds. */
    ghost predicate Valid()
      reads this
    {
      size.x * size.y >= 0 && |data| == size.x * size.y
    }

    /** The bottom of the clip stack is the region `image_resize` pushes. */
    ghost predicate HasBaseClip()
      reads this
    {
      |clip| >= 1 && clip[0] == Rect(Zero, size)
    }

    /** `Image()`: all members default-constructed, so no pixels and an empty clip stack. */
    constructor Empty()
      ensures size == Zero && data == [] && clip == []
      ensures Valid()
    {
      size := Zero;
      data := [];
      clip := [];
    }

    /** `Image(size, value)`: resizes, and so fills with `Pixel(' ')`; the
        `value` argument is never read. */
    constructor (newSize: Vector2i, value: Pixel)
      requires newSize.x * newSize.y >= 0
      ensures size == newSize && Valid()
      ensures clip == [Rect(Zero, newSize)] && HasBaseClip()
      ensures forall i :: 0 <= i < |data| ==> data[i] == Space
      ensures forall q :: InBounds(size, q) ==> Get(q) == Space
    {
      size := Zero;
      data := [];
      clip := [];
      new;
      Resize(newSize);
    }

    /** The constructor as its signature evidently intends: every pixel is `value`. */
    constructor Filled(newSize: Vector2i, value: Pixel)
      requires newSize.x * newSize.y >= 0
      ensures size == newSize && Valid()
      ensures clip == [Rect(Zero, newSize)] && HasBaseClip()
      ensures forall i :: 0 <= i < |data| ==> data[i] == value
      ensures forall q :: InBounds(size, q) ==> Get(q) == value
    {
      size := Zero;
      data := [];
      clip := [];
      new;
      Resize(newSize);
      Clear(value);
    }

    /** `image_get`: the stored pixel when in bounds, otherwise `Pixel('\0')`.
        The clip stack is not consulted. */
    function Get(pix: Vector2i): (r: Pixel)
      reads this
      requires Valid()
      ensures InBounds(size, pix) ==> 0 <= Index(size, pix) < |data| && r == data[Index(size, pix)]
      ensures !InBounds(size, pix) ==> r == OfGlyph(NullGlyph)
    {
      if InBounds(size, pix) then
        IndexInRange(size, pix);
        data[Index(size, pix)]
      else OfGlyph(NullGlyph)
    }

    /** `image_resize`: sets the size, resizes the vector (keeping a prefix or
        padding with `Pixel()`), resets the clip stack to the full image and
        clears every pixel to `Pixel(' ')`. */
    method Resize(newSize: Vector2i)
      requires newSize.x * newSize.y >= 0
      modifies this
      ensures size == newSize && Valid()
      ensures clip == [Rect(Zero, newSize)] && HasBaseClip()
      ensures forall i :: 0 <= i < |data| ==> data[i] == Space
      ensures forall q :: InBounds(size, q) ==> Get(q) == Space
    {
      size := newSize;
      var n := size.x * size.y;
      if n <= |data| {
        data := data[..n];
      } else {
        data := data + seq(n - |data|, _ => Blank());
      }
      clip := [];
      clip := clip + [Rect(Zero, size)];
      Clear(Space);
    }

    /** `image_clear`: overwrites every pixel with `value`; the size and the
        clip stack are untouched. */
    method Clear(value: Pixel)
      requires Valid()
      modifies this
      ensures Valid() && size == old(size) && clip == old(clip)
      ensures |data| == |old(data)| && forall i :: 0 <= i < |data| ==> data[i] == value
      ensures forall q :: InBounds(size, q) ==> Get(q) == value
    {
      var n := size.x * size.y;
      var i := 0;
      while i < n
        invariant 0 <= i <= n
        invariant size == old(size) && clip == old(clip) && |data| == n
        invariant forall j :: 0 <= j < i ==> data[j] == value
      {
        data := data[i := value];
        i := i + 1;
      }
    }

    /** Whether `image_set` writes: the glyph is not `'\0'` and the pixel is
        in bounds. */
    static predicate Writes(size: Vector2i, pix: Vector2i, val: Pixel)
    {
      val.ch != NullGlyph && InBounds(size, pix)
    }

    /** `image_set`: writes `val` at `pix` when it is in bounds and its glyph is
        not `'\0'`, and otherwise does nothing. The clip stack is not consulted. */
    method Set(pix: Vector2i, val: Pixel)
      requires Valid()
      modifies this
      ensures Valid() && size == old(size) && clip == old(clip)
      ensures Writes(size, pix, val) ==> 0 <= Index(size, pix) < |data|
      ensures data == if Writes(size, pix, val) then old(data)[Index(size, pix) := val] else old(data)
      ensures Get(pix) == if Writes(size, pix, val) then val else old(Get(pix))
      ensures forall q :: q != pix ==> Get(q) == old(Get(q))
    {
      if val.ch != NullGlyph && pix.x >= 0 && pix.y >= 0 && pix.x < size.x && pix.y < size.y {
        IndexInRange(size, pix);
        data := data[Index(size, pix) := val];
        forall q | q != pix
          ensures Get(q) == old(Get(q))
        {
          if InBounds(size, q) {
            UpdateKeepsOthers(size, old(data), pix, val, q);
          }
        }
      }
    }
  }

  /** Builds a 1x1 image with `Image(size, value)` and reads its one pixel
      back with `image_get`: whatever `value` is, the pixel is `Pixel(' ')`. */
  method ReadBackOneByOne(value: Pixel) returns (p: Pixel)
    ensures p == Space
  {
    var img := new Image(Vector2i(1, 1), value);
    p := img.Get(Zero);
  }

  /** `Image(size, value)` discards `value`: a 1x1 image built with a red
      `A` on blue reads back a blank space, not the pixel it was given. */
  method ConstructorDropsValue() returns (built: Pixel, intended: Pixel)
    ensures built == Space && intended == Styled(Colors.Red, 0x41, Colors.Blue)
    ensures built != intended
  {
    intended := Styled(Colors.Red, 0x41, Colors.Blue);
    built := ReadBackOneByOne(intended);
  }
}
