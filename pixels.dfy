/** `Pixel` and its four constructors (textgame.h). A glyph is a `char32_t`. */
module Pixels {
  import opened Colors

  type Character = bv32

  /** The glyph 0 marks "no character": `image_set` ignores such pixels. */
  const NullGlyph: Character := 0
  const SpaceGlyph: Character := 0x20

  datatype Pixel = Pixel(fg: Color3i, ch: Character, bg: Color3i)

  /** `Pixel()`: no glyph on black; the same pixel as `Pixel('\0')`, the
      value `image_get` returns out of bounds. */
  function Blank(): (r: Pixel)
    ensures r.fg == Black && r.ch == NullGlyph && r.bg == Black
    ensures r == OfGlyph(NullGlyph)
  {
    Pixel(Default, NullGlyph, Default)
  }

  /** `Pixel(Character c)`, also the implicit conversion from a character:
      both colours are `Color3i()`, which is black. */
  function OfGlyph(c: Character): (r: Pixel)
    ensures r.fg == Black && r.ch == c && r.bg == Black
  {
    Pixel(Default, c, Default)
  }

  /** `Pixel(Color3i f, Character c, Color3i b)`: every field as given. */
  function Styled(f: Color3i, c: Character, b: Color3i): (r: Pixel)
    ensures r.fg == f && r.ch == c && r.bg == b
  {
    Pixel(f, c, b)
  }

  /** `Pixel(f, c)`: the background argument defaults to `BLACK`. */
  function StyledOnBlack(f: Color3i, c: Character): (r: Pixel)
    ensures r == Styled(f, c, Black)
  {
    Pixel(f, c, Black)
  }

  /** `Pixel(Color3i b)`: a background-only pixel, white foreground, no glyph. */
  function OfBackground(b: Color3i): (r: Pixel)
    ensures r.fg == White && r.ch == NullGlyph && r.bg == b
  {
    Pixel(White, NullGlyph, b)
  }

  /** `Pixel(' ')`, the fill value of `image_resize`. */
  const Space: Pixel := OfGlyph(SpaceGlyph)

  /** The fill pixel is a space with a black foreground, not a white one:
      `Pixel(' ')` takes the colours of `Color3i()`. */
  lemma SpaceIsBlackOnBlack()
    ensures Space.fg == Black && Space.ch == SpaceGlyph && Space.bg == Black
    ensures Space.fg != White
  {
  }
}
