/** The bytes `image_display` (textgame.cpp) produces for a frame: per
    pixel, row-major, a 256-colour SGR escape for the foreground
    (`ESC[38;5;nm`), one for the background (`ESC[48;5;nm`), both following
    the SGR control function of section 8.3.117 of ECMA-48 with its
    256-colour extension, then the UTF-8 bytes of the glyph. The colour index
    comes from `color3i_to_ansi`, printed by `%d`.

    `DecodeFrame` reads such a byte string back, as a terminal would, into
    the colour indices and glyphs it shows; it is the partner against which
    the frame bytes are proved. */
module Ansi {
  import opened Numeric
  import opened Colors
  import opened Pixels
  import Utf8
  import opened Wrappers

  type byte = Utf8.byte


  // ---------------------------------------------------------------------
  // Colour quantiser

  /** A colour whose channels all lie in the 0..5 range of the 6x6x6 cube. */
  predicate InCube(c: Color3i)
  {
    0 <= c.r <= 5 && 0 <= c.g <= 5 && 0 <= c.b <= 5
  }

  /** Each channel clamped to 0..5. */
  function ClampColor(c: Color3i): (k: Color3i)
    ensures InCube(k)
    ensures InCube(c) ==> k == c
  {
    Color3i(Clamp(c.r, 0, 5), Clamp(c.g, 0, 5), Clamp(c.b, 0, 5))
  }

  /** `color3i_to_ansi`: the index of the nearest colour of the 6x6x6 cube of
      the 256-colour palette, which occupies indices 16 to 231. */
  function ColorToAnsi(c: Color3i): (n: int)
    ensures 16 <= n <= 231
    ensures InCube(c) ==> n == 16 + 36 * c.r + 6 * c.g + c.b
  {
    16 + Clamp(c.r, 0, 5) * 36 + Clamp(c.g, 0, 5) * 6 + Clamp(c.b, 0, 5)
  }

  /** The cube colour a palette index in 16..231 stands for. */
  function AnsiToColor(n: int): (c: Color3i)
    requires 16 <= n <= 231
    ensures InCube(c)
  {
    var k := n - 16;
    Color3i(k / 36, (k / 6) % 6, k % 6)
  }

  /** A terminal reading the index back sees the clamped colour. */
  lemma AnsiToColorInverts(c: Color3i)
    ensures AnsiToColor(ColorToAnsi(c)) == ClampColor(c)
  {
    var k := ClampColor(c);
    var m := 36 * k.r + 6 * k.g + k.b;
    assert ColorToAnsi(c) - 16 == m;
    assert m / 36 == k.r && m % 36 == 6 * k.g + k.b;
    assert m / 6 == 6 * k.r + k.g && m % 6 == k.b;
  }

  /** Every index of the cube is reached: the quantiser is onto 16..231. */
  lemma ColorToAnsiOnto(n: int)
    requires 16 <= n <= 231
    ensures ColorToAnsi(AnsiToColor(n)) == n
  {
    var k := n - 16;
    assert k == 36 * (k / 36) + 6 * ((k / 6) % 6) + k % 6;
  }

  /** Two colours get the same index exactly when they clamp to the same colour. */
  lemma ColorToAnsiInjective(c: Color3i, d: Color3i)
    ensures ColorToAnsi(c) == ColorToAnsi(d) <==> ClampColor(c) == ClampColor(d)
  {
    AnsiToColorInverts(c);
    AnsiToColorInverts(d);
  }

  // ---------------------------------------------------------------------
  // Decimal numerals, as printed by `%d` for a non-negative int

  const DigitZero: byte := 0x30

  predicate IsDigit(x: byte)
  {
    0x30 <= x <= 0x39
  }

  predicate AllDigits(s: seq<byte>)
  {
    forall i :: 0 <= i < |s| ==> IsDigit(s[i])
  }

  /** The ASCII digit for `d`. */
  function Digit(d: int): byte
    requires 0 <= d < 10
  {
    [0x30, 0x31, 0x32, 0x33, 0x34, 0x35, 0x36, 0x37, 0x38, 0x39][d]
  }

  lemma DigitValue(d: int)
    requires 0 <= d < 10
    ensures IsDigit(Digit(d))
    ensures (Digit(d) == DigitZero) == (d == 0)
    ensures (Digit(d) - DigitZero) as int == d
  {
    if d == 0 {} else if d == 1 {} else if d == 2 {} else if d == 3 {} else if d == 4 {}
    else if d == 5 {} else if d == 6 {} else if d == 7 {} else if d == 8 {} else {}
  }

  /** `%d` of a non-negative number: its decimal numeral, no leading zeros. */
  function Decimal(n: nat): (r: seq<byte>)
    ensures 1 <= |r| && AllDigits(r)
    ensures r[0] == DigitZero ==> n == 0
  {
    if n < 10 then DigitValue(n); [Digit(n)]
    else DigitValue(n % 10); Decimal(n / 10) + [Digit(n % 10)]
  }

  /** The number a string of decimal digits denotes. */
  function DigitsValue(s: seq<byte>): nat
    requires AllDigits(s)
  {
    if s == [] then 0 else DigitsValue(s[..|s| - 1]) * 10 + ((s[|s| - 1] - DigitZero) as int)
  }

  /** Reading the numeral back gives the number. */
  lemma {:induction false} DecimalRoundTrip(n: nat)
    ensures DigitsValue(Decimal(n)) == n
  {
    var r := Decimal(n);
    if n < 10 {
      DigitValue(n);
      assert r[..0] == [];
    } else {
      DecimalRoundTrip(n / 10);
      DigitValue(n % 10);
      assert r[..|r| - 1] == Decimal(n / 10);
      assert r[|r| - 1] == Digit(n % 10);
      assert DigitsValue(r) == (n / 10) * 10 + n % 10;
    }
  }

  /** Numerals of two- and three-digit numbers have two and three digits. */
  lemma {:induction false} DecimalLength(n: nat)
    ensures n < 10 ==> |Decimal(n)| == 1
    ensures 10 <= n < 100 ==> |Decimal(n)| == 2
    ensures 100 <= n < 1000 ==> |Decimal(n)| == 3
  {
    if n >= 10 {
      DecimalLength(n / 10);
    }
  }

  // ---------------------------------------------------------------------
  // SGR escapes

  const Esc: byte := 0x1B
  /** The digit that selects the layer: `3` in `38;5` (foreground), `4` in `48;5` (background). */
  const Foreground: byte := 0x33
  const Background: byte := 0x34
  const FinalM: byte := 0x6D

  /** `ESC [ 3 8 ; 5 ;` or `ESC [ 4 8 ; 5 ;`. */
  function SgrPrefix(layer: byte): seq<byte>
  {
    [Esc, 0x5B, layer, 0x38, 0x3B, 0x35, 0x3B]
  }

  /** One 256-colour SGR escape selecting palette index `n` for `layer`. It
      opens with ESC and closes with the final byte `m`, and neither occurs
      inside it, so a terminal can tell where it ends. */
  function Sgr(layer: byte, n: nat): (r: seq<byte>)
    requires layer == Foreground || layer == Background
    ensures |r| >= 9 && r[0] == Esc && r[|r| - 1] == FinalM
    ensures forall i :: 0 < i < |r| - 1 ==> r[i] != Esc && r[i] != FinalM
  {
    SgrPrefix(layer) + Decimal(n) + [FinalM]
  }

  /** An escape for a palette index of the colour cube takes 10 or 11 bytes. */
  lemma SgrLength(layer: byte, n: nat)
    requires layer == Foreground || layer == Background
    requires 16 <= n <= 231
    ensures 10 <= |Sgr(layer, n)| <= 11
  {
    DecimalLength(n);
  }

  /** The end of the run of digits starting at `i`. */
  function DigitRun(s: seq<byte>, i: nat): (j: nat)
    requires i <= |s|
    ensures i <= j <= |s| && AllDigits(s[i..j])
    ensures j < |s| ==> !IsDigit(s[j])
    decreases |s| - i
  {
    if i < |s| && IsDigit(s[i]) then DigitRun(s, i + 1) else i
  }

  /** Reads one escape for `layer` off the front of `s`: the palette index
      and the bytes after it. */
  function SplitSgr(s: seq<byte>, layer: byte): (r: Option<(nat, seq<byte>)>)
    ensures r.Some? ==> |r.value.1| < |s|
  {
    if |s| < 7 || s[..7] != SgrPrefix(layer) then None
    else
      var j := DigitRun(s, 7);
      if j == 7 || j == |s| || s[j] != FinalM then None
      else Some((DigitsValue(s[7..j]), s[j + 1..]))
  }

  lemma {:induction false} DigitRunStopsAt(s: seq<byte>, i: nat, j: nat)
    requires i <= j < |s| && AllDigits(s[i..j]) && !IsDigit(s[j])
    ensures DigitRun(s, i) == j
    decreases j - i
  {
    if i < j {
      assert IsDigit(s[i..j][0]);
      assert s[i + 1..j] == s[i..j][1..];
      DigitRunStopsAt(s, i + 1, j);
    }
  }

  /** An escape is read back whatever follows it. */
  lemma SplitSgrOfSgr(layer: byte, n: nat, rest: seq<byte>)
    requires layer == Foreground || layer == Background
    ensures SplitSgr(Sgr(layer, n) + rest, layer) == Some((n, rest))
  {
    var d := Decimal(n);
    var s := Sgr(layer, n) + rest;
    var j := 7 + |d|;
    assert s[..7] == SgrPrefix(layer);
    assert s[7..j] == d;
    assert s[j] == FinalM;
    DigitRunStopsAt(s, 7, j);
    DecimalRoundTrip(n);
    assert s[j + 1..] == rest;
  }

  // ---------------------------------------------------------------------
  // Cells and frames

  /** The bytes for one pixel: foreground escape, background escape, glyph. */
  function CellBytes(p: Pixel): (r: seq<byte>)
    ensures 21 <= |r| <= 26
  {
    SgrLength(Foreground, ColorToAnsi(p.fg));
    SgrLength(Background, ColorToAnsi(p.bg));
    Sgr(Foreground, ColorToAnsi(p.fg)) + Sgr(Background, ColorToAnsi(p.bg)) + Utf8.Encode(p.ch)
  }

  /** The concatenation of a list of byte strings, in order. */
  function Flatten(chunks: seq<seq<byte>>): (r: seq<byte>)
  {
    if chunks == [] then [] else Flatten(chunks[..|chunks| - 1]) + chunks[|chunks| - 1]
  }

  lemma {:induction false} FlattenAppend(xs: seq<seq<byte>>, ys: seq<seq<byte>>)
    ensures Flatten(xs + ys) == Flatten(xs) + Flatten(ys)
    decreases |ys|
  {
    if ys == [] {
      assert xs + ys == xs;
    } else {
      var init, last := ys[..|ys| - 1], ys[|ys| - 1];
      assert (xs + ys)[..|xs + ys| - 1] == xs + init;
      FlattenAppend(xs, init);
    }
  }

  lemma FlattenSnoc(xs: seq<seq<byte>>, c: seq<byte>)
    ensures Flatten(xs + [c]) == Flatten(xs) + c
  {
    assert (xs + [c])[..|xs|] == xs;
  }

  /** The cell bytes of each pixel, in order. */
  function Cells(ps: seq<Pixel>): (r: seq<seq<byte>>)
    ensures |r| == |ps| && forall i :: 0 <= i < |ps| ==> r[i] == CellBytes(ps[i])
  {
    seq(|ps|, i requires 0 <= i < |ps| => CellBytes(ps[i]))
  }

  /** The bytes for a row-major run of pixels, one cell after another. */
  function FrameBytes(ps: seq<Pixel>): (r: seq<byte>)
    ensures |r| <= 26 * |ps|
  {
    if ps == [] then [] else FrameBytes(ps[..|ps| - 1]) + CellBytes(ps[|ps| - 1])
  }

  /** The frame bytes are the cells, flattened. */
  lemma {:induction false} FrameBytesIsFlatten(ps: seq<Pixel>)
    ensures FrameBytes(ps) == Flatten(Cells(ps))
    decreases |ps|
  {
    if ps != [] {
      var cs := Cells(ps);
      assert cs[..|cs| - 1] == Cells(ps[..|ps| - 1]);
      FrameBytesIsFlatten(ps[..|ps| - 1]);
    }
  }

  /** The bytes of two runs are the bytes of each, in order. */
  lemma FrameBytesAppend(ps: seq<Pixel>, qs: seq<Pixel>)
    ensures FrameBytes(ps + qs) == FrameBytes(ps) + FrameBytes(qs)
  {
    FrameBytesIsFlatten(ps + qs);
    FrameBytesIsFlatten(ps);
    FrameBytesIsFlatten(qs);
    CellsAppend(ps, qs);
    FlattenAppend(Cells(ps), Cells(qs));
  }

  lemma CellsAppend(ps: seq<Pixel>, qs: seq<Pixel>)
    ensures Cells(ps + qs) == Cells(ps) + Cells(qs)
  {
    var l, r := Cells(ps + qs), Cells(ps) + Cells(qs);
    forall i | 0 <= i < |l|
      ensures l[i] == r[i]
    {
      if i < |ps| {
        assert (ps + qs)[i] == ps[i];
      } else {
        assert (ps + qs)[i] == qs[i - |ps|];
      }
    }
  }

  /** Appending a pixel appends its cell. */
  lemma FrameBytesSnoc(ps: seq<Pixel>, p: Pixel)
    ensures FrameBytes(ps + [p]) == FrameBytes(ps) + CellBytes(p)
  {
    assert (ps + [p])[..|ps|] == ps;
  }

  /** A single pixel's frame is its cell. */
  lemma FrameBytesSingle(p: Pixel)
    ensures FrameBytes([p]) == CellBytes(p)
  {
    assert [p][..0] == [];
  }

  /** What a terminal shows for one cell: the palette indices and the glyph. */
  datatype Shown = Shown(fg: int, bg: int, ch: bv32)

  /** What a pixel turns into on screen: quantised colours, and U+FFFD in
      place of a glyph that is not a Unicode scalar value. */
  function Seen(p: Pixel): Shown
  {
    Shown(ColorToAnsi(p.fg), ColorToAnsi(p.bg),
          if Utf8.IsScalar(p.ch) then p.ch else Utf8.ReplacementChar)
  }

  function SeenAll(ps: seq<Pixel>): (r: seq<Shown>)
    ensures |r| == |ps| && forall i :: 0 <= i < |ps| ==> r[i] == Seen(ps[i])
  {
    if ps == [] then [] else [Seen(ps[0])] + SeenAll(ps[1..])
  }

  /** Reads one cell off the front of `s`. */
  function DecodeCell(s: seq<byte>): (r: Option<(Shown, seq<byte>)>)
    ensures r.Some? ==> |r.value.1| < |s|
  {
    match SplitSgr(s, Foreground)
    case None => None
    case Some((f, s1)) =>
      match SplitSgr(s1, Background)
      case None => None
      case Some((b, s2)) =>
        if |s2| == 0 then None
        else
          var k := Utf8.SequenceLength(s2[0]);
          if k == 0 || k > |s2| then None
          else
            match Utf8.Decode(s2[..k])
            case None => None
            case Some(c) => Some((Shown(f, b, c), s2[k..]))
  }

  /** Reads a whole frame, cell by cell. */
  function DecodeFrame(s: seq<byte>): Option<seq<Shown>>
    decreases |s|
  {
    if s == [] then Some([])
    else
      match DecodeCell(s)
      case None => None
      case Some((cell, rest)) =>
        match DecodeFrame(rest)
        case None => None
        case Some(cells) => Some([cell] + cells)
  }

  /** A cell is read back as what its pixel shows, whatever follows it. */
  lemma DecodeCellOfCellBytes(p: Pixel, rest: seq<byte>)
    ensures DecodeCell(CellBytes(p) + rest) == Some((Seen(p), rest))
  {
    var fg := Sgr(Foreground, ColorToAnsi(p.fg));
    var bg := Sgr(Background, ColorToAnsi(p.bg));
    var u := Utf8.Encode(p.ch);
    assert CellBytes(p) + rest == fg + (bg + (u + rest));
    SplitSgrOfSgr(Foreground, ColorToAnsi(p.fg), bg + (u + rest));
    SplitSgrOfSgr(Background, ColorToAnsi(p.bg), u + rest);
    var s2 := u + rest;
    Utf8.LeadByteGivesLength(p.ch);
    assert s2[..|u|] == u && s2[|u|..] == rest;
    Utf8.DecodeEncode(p.ch);
  }

  /** The frame bytes are read back as what the pixels show, one cell per pixel. */
  lemma {:induction false} DecodeFrameOfFrameBytes(ps: seq<Pixel>)
    ensures DecodeFrame(FrameBytes(ps)) == Some(SeenAll(ps))
    decreases |ps|
  {
    if ps != [] {
      assert ps == [ps[0]] + ps[1..];
      FrameBytesAppend([ps[0]], ps[1..]);
      FrameBytesSingle(ps[0]);
      DecodeCellOfCellBytes(ps[0], FrameBytes(ps[1..]));
      DecodeFrameOfFrameBytes(ps[1..]);
    }
  }
}
