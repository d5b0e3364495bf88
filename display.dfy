/** The buffer-filling part of `image_display` (textgame.cpp): a byte buffer
    of `26 * size.x * size.y + 1` bytes is filled, row by row, with each
    pixel's two colour escapes (written by `snprintf`) and its UTF-8 glyph
    (written by `char32_to_utf8`), then NUL-terminated. The function keeps the
    buffer between calls in two `static` variables, modelled by the class
    `FrameEncoder`. */
module Display {
  import opened Numeric
  import opened Vectors
  import opened Colors
  import opened Pixels
  import opened Ansi
  import Utf8
  import opened Canvas

  /** The buffer size `image_display` asks for, `26 * size.x * size.y + 1`:
      26 bytes per pixel (4 for the glyph, 11 for each escape) and one for the
      terminating NUL. */
  function RequiredSize(size: Vector2i): int
  {
    26 * (size.x * size.y) + 1
  }

  /** The pixels the two nested loops visit: all of them, row-major, when
      both extents are positive, and none otherwise. */
  function Visited(size: Vector2i, data: seq<Pixel>): (r: seq<Pixel>)
    ensures size.x > 0 && size.y > 0 ==> r == data
    ensures !(size.x > 0 && size.y > 0) ==> r == []
  {
    if size.x > 0 && size.y > 0 then data else []
  }

  /** The format `"\033[38;5;%dm\033[48;5;%dm"` with the quantised colours
      filled in: at most 11 bytes per escape, so at most 22. */
  function Escapes(fg: Color3i, bg: Color3i): (r: seq<byte>)
    ensures 20 <= |r| <= 22
  {
    SgrLength(Foreground, ColorToAnsi(fg));
    SgrLength(Background, ColorToAnsi(bg));
    Sgr(Foreground, ColorToAnsi(fg)) + Sgr(Background, ColorToAnsi(bg))
  }

  /** Copies `s` into `buf` at `at`. */
  method Copy(buf: array<byte>, at: nat, s: seq<byte>)
    requires at + |s| <= buf.Length
    modifies buf
    ensures buf[at..at + |s|] == s
    ensures buf[..at] == old(buf[..at])
  {
    var i := 0;
    while i < |s|
      invariant 0 <= i <= |s|
      invariant buf[at..at + i] == s[..i]
      invariant buf[..at] == old(buf[..at])
    {
      buf[at + i] := s[i];
      i := i + 1;
    }
  }

  /** `snprintf(buf + at, limit, ...)` producing the text `s`: writes as much
      of `s` as fits in `limit - 1` bytes, then a NUL, and returns the length
      of the whole text whether or not it was cut. */
  method PutFormatted(buf: array<byte>, at: nat, limit: nat, s: seq<byte>) returns (n: nat)
    requires at + limit <= buf.Length
    modifies buf
    ensures n == |s|
    ensures limit > 0 ==> buf[at..at + Min(|s|, limit - 1)] == s[..Min(|s|, limit - 1)]
    ensures limit > 0 ==> buf[at + Min(|s|, limit - 1)] == 0
    ensures buf[..at] == old(buf[..at])
  {
    n := |s|;
    if limit > 0 {
      var k := Min(|s|, limit - 1);
      Copy(buf, at, s[..k]);
      buf[at + k] := 0;
    }
  }

  /** `char32_to_utf8(c, buf + at)`: the caller guarantees four bytes of room. */
  method PutUtf8(buf: array<byte>, at: nat, c: Character) returns (n: nat)
    requires at + 4 <= buf.Length
    modifies buf
    ensures n == |Utf8.Encode(c)| && 1 <= n <= 4
    ensures buf[at..at + n] == Utf8.Encode(c)
    ensures buf[..at] == old(buf[..at])
  {
    var u := Utf8.Encode(c);
    Copy(buf, at, u);
    n := |u|;
  }

  /** A cell is its two escapes followed by its glyph. */
  lemma CellIsEscapesThenGlyph(p: Pixel)
    ensures CellBytes(p) == Escapes(p.fg, p.bg) + Utf8.Encode(p.ch)
  {
  }

  lemma RowBound(w: int, h: int, y: int, x: int)
    requires 0 <= y < h && 0 <= x < w
    ensures 0 <= y * w + x < h * w
  {
    MulMonotone(0, y, w);
    MulMonotone(y + 1, h, w);
  }

  lemma PrefixSnoc<T>(s: seq<T>, i: nat)
    requires i < |s|
    ensures s[..i + 1] == s[..i] + [s[i]]
  {
  }

  /** One more row of `w` pixels starts `w` positions further on and still
      fits in `h` rows. */
  lemma NextRow(w: int, h: int, y: int, p: int)
    requires w > 0 && 0 <= y < h && p == y * w
    ensures p + w == (y + 1) * w <= h * w
  {
    MulMonotone(y + 1, h, w);
  }


  /** One pass of the inner loop: the escapes `esc` through `snprintf`,
      told that `required - at` bytes are left, then the glyph. With at least
      27 bytes left nothing is cut: the escapes take at most 22 bytes and the
      glyph at most 4. */
  method PutCell(buf: array<byte>, at: nat, required: nat, esc: seq<byte>, c: Character)
    returns (next: nat)
    requires at + 27 <= required <= buf.Length && |esc| <= 22
    modifies buf
    ensures at + |esc| + 1 <= next <= at + |esc| + 4
    ensures buf[..next] == old(buf[..at]) + esc + Utf8.Encode(c)
  {
    ghost var before := buf[..at];
    var n := PutFormatted(buf, at, required - at, esc);
    assert Min(|esc|, required - at - 1) == |esc|;
    ghost var written := buf[..at + n];
    assert written == before + esc by {
      assert buf[at..at + n] == esc;
      assert buf[..at + n] == buf[..at] + buf[at..at + n];
    }
    var m := PutUtf8(buf, at + n, c);
    next := at + n + m;
    assert buf[..next] == buf[..at + n] + buf[at + n..next];
  }

  /** Entry `i` of `cells` is the cell of pixel `i`. */
  ghost predicate CellAt(cells: seq<seq<byte>>, ps: seq<Pixel>, i: int)
  {
    0 <= i < |cells| && i < |ps| && cells[i] == CellBytes(ps[i])
  }

  /** The body of the inner loop: the cell of `pix` goes after the bytes
      already written. */
  method PutPixel(buf: array<byte>, at: nat, required: nat,
                  data: seq<Pixel>, p: nat, ghost cells: seq<seq<byte>>)
    returns (next: nat)
    requires at + 27 <= required <= buf.Length
    requires CellAt(cells, data, p)
    modifies buf
    ensures at < next <= at + 26
    ensures buf[..next] == old(buf[..at]) + cells[p]
  {
    var pix := data[p];
    next := PutCell(buf, at, required, Escapes(pix.fg, pix.bg), pix.ch);
    CellIsEscapesThenGlyph(pix);
  }

  /** The inner loop of `image_display`: the `w` pixels of one row, from
      position `p0` of the vector on, are appended to the buffer. `cells`
      holds the cell of every pixel of the vector. */
  method FillRow(buf: array<byte>, b0: nat, required: nat, data: seq<Pixel>,
                 ghost cells: seq<seq<byte>>, p0: nat, w: int)
    returns (b: nat, p: nat)
    requires required == 26 * |data| + 1 <= buf.Length
    requires |cells| == |data| && forall i :: 0 <= i < |data| ==> CellAt(cells, data, i)
    requires p0 + Max(w, 0) <= |data| && b0 <= 26 * p0
    requires buf[..b0] == Flatten(cells[..p0])
    modifies buf
    ensures p == p0 + Max(w, 0) && b <= 26 * p
    ensures buf[..b] == Flatten(cells[..p])
  {
    b, p := b0, p0;
    var x := 0;
    while x < w
      invariant 0 <= x <= Max(w, 0) && p == p0 + x
      invariant b <= 26 * p
      invariant buf[..b] == Flatten(cells[..p])
    {
      b := PutPixel(buf, b, required, data, p, cells);
      PrefixSnoc(cells, p);
      FlattenSnoc(cells[..p], cells[p]);
      p := p + 1;
      x := x + 1;
    }
  }

  /** The list of cells of `ps`. */
  lemma CellsOf(ps: seq<Pixel>) returns (cells: seq<seq<byte>>)
    ensures |cells| == |ps| && forall i :: 0 <= i < |ps| ==> CellAt(cells, ps, i)
  {
    cells := Cells(ps);
  }

  /** The cells of the first `p` pixels, flattened, are their frame bytes. */
  lemma CellsPrefixIsFrame(cells: seq<seq<byte>>, ps: seq<Pixel>, p: nat)
    requires |cells| == |ps| && forall i :: 0 <= i < |ps| ==> CellAt(cells, ps, i)
    requires p <= |ps|
    ensures Flatten(cells[..p]) == FrameBytes(ps[..p])
  {
    assert cells[..p] == Cells(ps[..p]) by {
      forall i | 0 <= i < p
        ensures cells[i] == Cells(ps[..p])[i]
      {
        assert CellAt(cells, ps, i);
      }
    }
    FrameBytesIsFlatten(ps[..p]);
  }

  /** When the outer loop stops, the pixels it went through are the visited ones. */
  lemma RowsCoverVisited(size: Vector2i, data: seq<Pixel>, y: int, p: nat)
    requires |data| == size.x * size.y && p <= |data|
    requires 0 <= y && (size.y > 0 ==> y <= size.y) && y >= size.y
    requires size.x > 0 ==> p == y * size.x
    requires size.x <= 0 ==> p == 0
    ensures data[..p] == Visited(size, data)
  {
    if size.x > 0 && size.y > 0 {
      assert y == size.y;
      assert p == |data|;
    }
  }

  /** The loop of `image_display`: fills `buf`, which holds at least the
      `required` bytes, with the frame bytes of the visited pixels and a
      terminating NUL; `snprintf` is told how much of the `required` bytes is
      left. Every `snprintf` finds room for its whole text and every glyph
      finds its four bytes, so nothing is cut and nothing is written past the
      `required` bytes. */
  method FillFrame(img: Image, buf: array<byte>, required: nat) returns (len: nat)
    requires img.Valid()
    requires required == RequiredSize(img.size) && required <= buf.Length
    modifies buf
    ensures len < required
    ensures buf[..len] == FrameBytes(Visited(img.size, img.data))
    ensures buf[len] == 0
  {
    var w, h := img.size.x, img.size.y;
    var data := img.data;
    assert required == 26 * |data| + 1;
    ghost var cells := CellsOf(data);
    var b: nat := 0;
    var p: nat := 0;
    var y := 0;
    while y < h
      invariant 0 <= y && (h > 0 ==> y <= h)
      invariant w > 0 ==> p == y * w
      invariant w <= 0 ==> p == 0
      invariant p <= |data| && b <= 26 * p
      invariant buf[..b] == Flatten(cells[..p])
    {
      if w > 0 {
        NextRow(w, h, y, p);
      }
      b, p := FillRow(buf, b, required, data, cells, p, w);
      y := y + 1;
    }
    RowsCoverVisited(img.size, data, y, p);
    CellsPrefixIsFrame(cells, data, p);
    ghost var out := buf[..b];
    buf[b] := 0;
    assert buf[..b] == out;
    len := b;
  }

  /** The two `static` locals of `image_display`: the buffer and its
      recorded size. */
  class FrameEncoder {
    var buffer: array?<byte>
    var bufferSize: nat

    /** No buffer has no recorded size, and a buffer that is there holds at
        least the recorded size. */
    ghost predicate Valid()
      reads this
    {
      (buffer == null ==> bufferSize == 0) && (buffer != null ==> buffer.Length >= bufferSize)
    }

    constructor ()
      ensures buffer == null && bufferSize == 0 && Valid()
    {
      buffer := null;
      bufferSize := 0;
    }

    /** `image_display` as written: `buffer_size` is never assigned after the
        allocation, so it stays 0, the test `buffer_size < required_size`
        always holds, and every frame frees the buffer and allocates a fresh,
        zeroed one. */
    method Render(img: Image) returns (len: nat)
      requires img.Valid() && Valid()
      modifies this, buffer
      ensures Valid() && buffer != null
      ensures bufferSize == if old(bufferSize) < RequiredSize(img.size) then 0 else old(bufferSize)
      ensures old(bufferSize) < RequiredSize(img.size) ==> fresh(buffer) && buffer.Length == RequiredSize(img.size)
      ensures len < RequiredSize(img.size) <= buffer.Length
      ensures buffer[..len] == FrameBytes(Visited(img.size, img.data)) && buffer[len] == 0
    {
      var required := RequiredSize(img.size);
      if bufferSize < required {
        buffer := null;
        bufferSize := 0;
      }
      if buffer == null {
        buffer := new byte[required](_ => 0);
      }
      len := FillFrame(img, buffer, required);
    }

    /** `image_display` as its "avoid per-frame allocation" comment intends:
        the size of a fresh buffer is recorded, and a buffer at least as large
        as needed is kept and reused. */
    method RenderReusing(img: Image) returns (len: nat)
      requires img.Valid() && Valid()
      modifies this, buffer
      ensures Valid() && buffer != null && bufferSize >= RequiredSize(img.size)
      ensures old(buffer) != null && old(bufferSize) >= RequiredSize(img.size) ==>
                buffer == old(buffer) && bufferSize == old(bufferSize)
      ensures old(buffer) == null || old(bufferSize) < RequiredSize(img.size) ==>
                fresh(buffer) && bufferSize == buffer.Length == RequiredSize(img.size)
      ensures len < RequiredSize(img.size) <= buffer.Length
      ensures buffer[..len] == FrameBytes(Visited(img.size, img.data)) && buffer[len] == 0
    {
      var required := RequiredSize(img.size);
      if bufferSize < required {
        buffer := null;
        bufferSize := 0;
      }
      if buffer == null {
        buffer := new byte[required](_ => 0);
        bufferSize := required;
      }
      len := FillFrame(img, buffer, required);
    }
  }

  /** Two frames in a row, as written: the second frame is drawn into a
      different buffer from the first, so the buffer is allocated anew on
      every frame. */
  method RenderTwice(img: Image) returns (first: array<byte>, second: array<byte>)
    requires img.Valid()
    ensures first != second
  {
    var encoder := new FrameEncoder();
    var len := encoder.Render(img);
    first := encoder.buffer;
    len := encoder.Render(img);
    second := encoder.buffer;
  }

  /** Two frames in a row with the size recorded: the second frame reuses the
      first frame's buffer. */
  method RenderTwiceReusing(img: Image) returns (first: array<byte>, second: array<byte>)
    requires img.Valid()
    ensures first == second
  {
    var encoder := new FrameEncoder();
    var len := encoder.RenderReusing(img);
    first := encoder.buffer;
    len := encoder.RenderReusing(img);
    second := encoder.buffer;
  }
}
