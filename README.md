# textgame core in Dafny

textgame is a small C++ terminal game engine. A game draws into an `Image`:

- The image is a row-major grid of `Pixel`s, and each pixel is a foreground `Color3i`, a 32-bit Unicode glyph and a background `Color3i`.
- The image also carries a stack of clipping rectangles.
- Once per frame, `image_display` turns the grid into one byte buffer. Each pixel becomes a 256-colour foreground escape, a background escape and the UTF-8 encoding of its glyph. The buffer is NUL-terminated and written to the terminal.

This project models that core:

- the value types `Vector2i`, `Color3i`, `Rect` and `Pixel`, with their operators and constructors;
- the grid store: `Image` with `image_resize`, `image_clear`, `image_set` and `image_get`;
- the frame encoder: `char32_to_utf8`, `color3i_to_ansi` and the buffer-filling loop of `image_display`, including its process-wide buffer.

Modules, leaves first:

| file | module | what it holds |
|---|---|---|
| wrappers.dfy | `Wrappers` | `Option`, the result of the decoders |
| numeric.dfy | `Numeric` | `clamp`, and C++ `int` division, which truncates toward zero (`TruncDiv`) |
| vectors.dfy | `Vectors` | `Vector2i`, its operators, `Rect` |
| colors.dfy | `Colors` | `Color3i`, its operators, the named colours |
| pixels.dfy | `Pixels` | `Pixel` and its four constructors |
| utf8.dfy | `Utf8` | `char32_to_utf8` as `Encode`; a decoder `Decode` as its partner |
| ansi.dfy | `Ansi` | `color3i_to_ansi`; the bytes of an SGR (select graphic rendition) escape, a cell and a frame; a frame decoder as their partner |
| canvas.dfy | `Canvas` | class `Image` |
| display.dfy | `Display` | the buffer-filling loops over an `array<byte>`; class `FrameEncoder`, which holds the process-wide buffer |

How the C++ maps to Dafny:

- **Images.** `Image` is a class. Its pixel vector and clip stack are `seq` fields that the methods reassign.
- **The frame buffer.** It is an `array<byte>`, filled by `while` loops whose invariants tie the bytes written so far to the functional specification `Ansi.FrameBytes`.
- **Frame correctness.** `Ansi.DecodeFrameOfFrameBytes` shows that a frame decodes back, pixel by pixel and in order, into the palette indices of each pixel's two colours and its glyph, or U+FFFD when the glyph is not a Unicode scalar value.
- **The static buffer.** `image_display` keeps `buffer` and `buffer_size` in function-local `static`s. They are the fields of a `FrameEncoder` object.

## Model

| member | source | states |
|---|---|---|
| Numeric.Clamp | textgame.h:58-60 | the result lies in `[lo, hi]`, is `v` when `v` is in range, and is the nearer bound otherwise; when `hi < lo` it is `lo`, as `std::max(lo, std::min(v, hi))` gives |
| Numeric.ClampIdempotent | textgame.h:58-60 | clamping twice is clamping once |
| Numeric.ClampMonotone | textgame.h:58-60 | clamping preserves order |
| Numeric.TruncDiv | textgame.cpp:180-186 | C++ `/` on `int`: the quotient's magnitude is the exact magnitude rounded down, and its sign is that of the exact quotient |
| Numeric.TruncDivOfNatural | textgame.cpp:180-186 | on a non-negative dividend and a positive divisor, it agrees with Dafny's Euclidean `/` |
| Numeric.TruncDivOddSymmetric | textgame.cpp:180-186 | negating the dividend negates the quotient |
| Numeric.TruncDivDiffersFromEuclidean | textgame.cpp:180-186 | `-7 / 2` is `-3` in C++, where Euclidean division gives `-4` |
| Numeric.TruncDivOfProduct | textgame.cpp:180-186 | `(a * k) / k == a` for every non-zero `k` |
| Vectors.Add | textgame.cpp:146-148 | subtracting `b` from `a + b` gives back `a` |
| Vectors.Sub | textgame.cpp:156-158 | `a - b` is `Vector2i()` exactly when `a == b` |
| Vectors.Mul | textgame.cpp:166-168 | dividing the componentwise product by a divisor with no zero component gives back `a` |
| Vectors.Scale | textgame.cpp:170-172 | `a * k` is the vector product at the diagonal `(k, k)` |
| Vectors.DivScalar | textgame.cpp:180-182 | `a / k` is the vector quotient at the diagonal `(k, k)` |
| Vectors.Div | textgame.cpp:184-186 | each component is the C++ quotient: its magnitude is the exact magnitude rounded down, and its sign is the exact quotient's |
| Vectors.Eq | textgame.cpp:194-196 | `==` holds exactly when the two vectors are equal values |
| Vectors.Ne | textgame.cpp:198-200 | `!=` holds exactly when the two vectors differ |
| Vectors.Contains | textgame.h:131-135 | reading `Rect` as inclusive on both edges, only a rectangle whose `min` corner is on or before its `max` corner on both axes holds any point |
| Vectors.AddAssign | textgame.cpp:150-154 | `a += b` leaves `a` equal to `a + b` |
| Vectors.SubAssign | textgame.cpp:160-164 | `a -= b` leaves `a` equal to `a - b` |
| Vectors.MulAssign | textgame.cpp:174-178 | `a *= b` leaves `a` equal to the componentwise product |
| Vectors.DivAssign | textgame.cpp:188-192 | `a /= b` leaves `a` equal to the componentwise truncating quotient |
| Vectors.AddIsCommutativeMonoid | textgame.cpp:146-148 | `+` is commutative and associative, and `Vector2i()` is its identity |
| Vectors.AddInvertsSub | textgame.cpp:146-158 | adding `b` back to `a - b` gives `a` |
| Vectors.DivRoundsTowardZero | textgame.cpp:180-182 | `(-7, 7) / 2` is `(-3, 3)` |
| Colors.Add | textgame.cpp:203-205 | subtracting `c` from `a + c` gives back `a` |
| Colors.Sub | textgame.cpp:214-216 | `a - c` is `BLACK` exactly when `a == c` |
| Colors.Mul | textgame.cpp:225-227 | dividing the channelwise product by a colour with no zero channel gives back `a` |
| Colors.Scale | textgame.cpp:229-231 | `a * k` is the colour product at the grey `(k, k, k)` |
| Colors.DivScalar | textgame.cpp:240-243 | `a / k` is the colour quotient at the grey `(k, k, k)` |
| Colors.Div | textgame.cpp:245-248 | each channel is the C++ quotient: its magnitude is the exact magnitude rounded down, and its sign is the exact quotient's |
| Colors.Eq | textgame.cpp:258-260 | `==` holds exactly when the two colours are equal values |
| Colors.Ne | textgame.cpp:262-264 | `!=` holds exactly when the two colours differ |
| Colors.AddAssign | textgame.cpp:207-212 | `a += c` leaves `a` equal to `a + c` |
| Colors.SubAssign | textgame.cpp:218-223 | `a -= c` leaves `a` equal to `a - c` |
| Colors.MulAssign | textgame.cpp:233-238 | `a *= c` leaves `a` equal to the channelwise product |
| Colors.DivAssign | textgame.cpp:251-256 | `a /= c` leaves `a` equal to the channelwise truncating quotient |
| Colors.AddIsCommutativeMonoid | textgame.cpp:203-205 | `+` is commutative and associative, and `Color3i()` is its identity |
| Colors.AddInvertsSub | textgame.cpp:203-216 | adding `c` back to `a - c` gives `a` |
| Colors.DivRoundsTowardZero | textgame.cpp:240-243 | `WHITE / 2` is `(2, 2, 2)`, and `(-5, 0, 5) / 2` is `(-2, 0, 2)` |
| Pixels.Blank | textgame.h:182 | `Pixel()` has glyph 0 on a black foreground and background, and equals `Pixel('\0')`, the value `image_get` returns out of bounds |
| Pixels.OfGlyph | textgame.h:183 | `Pixel(c)` has glyph `c` and the black of `Color3i()` in both colours |
| Pixels.Styled | textgame.h:184 | `Pixel(f, c, b)` holds each field as given |
| Pixels.StyledOnBlack | textgame.h:184 | `Pixel(f, c)` is `Pixel(f, c, BLACK)`: the background defaults to `BLACK` |
| Pixels.OfBackground | textgame.h:185 | `Pixel(b)` has foreground `WHITE`, glyph 0 and background `b` |
| Pixels.SpaceIsBlackOnBlack | textgame.h:200 | the default fill `Pixel(' ')` is a space on black whose foreground is black, not white |
| Utf8.Encode | textgame.cpp:327-366 | the encoding is 1 to 4 bytes; surrogates and code points above U+10FFFF give EF BF BD; otherwise its length follows the code-point range, and every byte after the first is a continuation byte |
| Utf8.DecodeEncode | textgame.cpp:327-366 | decoding the encoding gives back the code point, or U+FFFD for an invalid one |
| Utf8.EncodeDecode | textgame.cpp:327-366 | every byte sequence the decoder accepts is the encoding of the code point it decodes to |
| Utf8.EncodeInjective | textgame.cpp:327-366 | distinct Unicode scalar values have distinct encodings |
| Utf8.TwoByteBits | textgame.cpp:344-348 | for U+0080..U+07FF the first byte carries the lead pattern `110`, the second is a continuation byte `10xxxxxx`, and their payload bits reassemble to the code point |
| Utf8.ThreeByteBits | textgame.cpp:351-356 | for U+0800..U+FFFF the first byte carries the lead pattern `1110`, the other two are continuation bytes, and the payload bits reassemble to the code point |
| Utf8.FourByteBits | textgame.cpp:359-365 | for U+10000..U+10FFFF the first byte carries the lead pattern `11110`, the other three are continuation bytes, and the payload bits reassemble to the code point |
| Utf8.LeadByteGivesLength | textgame.cpp:327-366 | the first byte of every encoding announces the encoding's length |
| Ansi.ClampColor | textgame.cpp:369-371 | each channel is clamped into 0..5; a colour already in the cube is unchanged |
| Ansi.ColorToAnsi | textgame.cpp:369-371 | the palette index lies in 16..231 and is `16 + 36r + 6g + b` for a colour in the cube |
| Ansi.AnsiToColorInverts | textgame.cpp:369-371 | the index determines the clamped colour |
| Ansi.ColorToAnsiOnto | textgame.cpp:369-371 | every index in 16..231 is reached |
| Ansi.ColorToAnsiInjective | textgame.cpp:369-371 | two colours get the same index if and only if they clamp to the same cube entry |
| Ansi.Decimal | textgame.cpp:405-407 | `%d` of a non-negative number is a non-empty run of digits with no leading zero |
| Ansi.DecimalRoundTrip | textgame.cpp:405-407 | reading the digits back gives the number |
| Ansi.DecimalLength | textgame.cpp:405-407 | numbers below 1000 print as 1, 2 or 3 digits by magnitude |
| Ansi.Sgr | textgame.cpp:405-407 | each escape of the format opens with ESC and closes with `m`, and neither byte occurs inside it, so the escape's end can be found |
| Ansi.SgrLength | textgame.cpp:405-407 | an escape `ESC [ 3/4 8 ; 5 ; n m` with `n` in 16..231 is 10 or 11 bytes |
| Ansi.SplitSgrOfSgr | textgame.cpp:405-407 | an escape can be read back off the front of any byte stream, giving its index and the rest |
| Ansi.CellBytes | textgame.cpp:405-409 | the bytes of one pixel are 21 to 26 long |
| Ansi.FrameBytes | textgame.cpp:403-411 | a frame of `n` pixels is at most `26 * n` bytes |
| Ansi.FrameBytesAppend | textgame.cpp:403-411 | the frame of a concatenation is the concatenation of the frames |
| Ansi.FrameBytesSnoc | textgame.cpp:403-411 | appending a pixel appends that pixel's cell bytes |
| Ansi.DecodeCellOfCellBytes | textgame.cpp:405-409 | a cell can be decoded off the front of any stream, giving back the palette indices of the pixel's two colours and its glyph, or U+FFFD when the glyph is not a Unicode scalar value |
| Ansi.DecodeFrameOfFrameBytes | textgame.cpp:403-411 | decoding a frame gives back, for every pixel in row-major order, its two palette indices and its glyph (U+FFFD for a glyph that is not a scalar value) |
| Canvas.IndexInRange | textgame.cpp:296 | an in-bounds pixel's index `x + y * size.x` lies inside the vector |
| Canvas.IndexInjective | textgame.cpp:296 | distinct in-bounds pixels have distinct indices |
| Canvas.IndexSurjective | textgame.cpp:296 | every index of the vector is the index of an in-bounds pixel |
| Canvas.BaseClipReachesPastImage | textgame.cpp:276 | the base clip `{(0,0), size}`, read as the inclusive `Rect` textgame.h:131 documents, contains the out-of-bounds corner `size` |
| Canvas.Image.Empty | textgame.h:199 | `Image()` has zero size, no pixels and an empty clip stack |
| Canvas.Image.constructor | textgame.cpp:268-270 | `Image(size, value)` has the given size and one base clip, and every pixel is `Pixel(' ')`, whatever `value` is |
| Canvas.Image.Filled | textgame.cpp:268-270 | the corrected constructor: every pixel is `value` |
| Canvas.Image.Get | textgame.cpp:301-310 | an in-bounds read returns the stored pixel at `x + y * size.x`, which lies inside the vector; any other read returns `Pixel('\0')` |
| Canvas.Image.Resize | textgame.cpp:272-278 | afterwards the size is `new_size`, there are `x * y` pixels, the clip stack is exactly the full image, and every pixel reads back as `Pixel(' ')` |
| Canvas.Image.Clear | textgame.cpp:281-287 | every pixel becomes `value`; the size, the pixel count and the clip stack are unchanged |
| Canvas.Image.Set | textgame.cpp:290-298 | when the glyph is not 0 and `pix` is in bounds, the vector changes at index `x + y * size.x` alone and that entry becomes `val`; otherwise the vector is unchanged; the size and the clip stack never change |
| Canvas.ReadBackOneByOne | textgame.cpp:268-270 | a 1x1 image built by `Image(size, value)` reads back `Pixel(' ')` through `image_get`, whatever `value` is |
| Canvas.ConstructorDropsValue | textgame.cpp:268-270 | a 1x1 image built with a red `A` on blue reads back `Pixel(' ')`, which differs from the pixel it was given |
| Display.Visited | textgame.cpp:403-404 | the two loops visit every pixel when both extents are positive, and none otherwise |
| Display.Escapes | textgame.cpp:405-407 | the two escapes of one pixel are 20 to 22 bytes, within the 22 the comment budgets |
| Display.CellIsEscapesThenGlyph | textgame.cpp:405-409 | a cell is the two escapes followed by the glyph's UTF-8 |
| Display.PutFormatted | textgame.cpp:405 | `snprintf` writes as much of the text as fits before a NUL, and returns the text's full length |
| Display.PutUtf8 | textgame.cpp:409 | the glyph's encoding is written at the cursor, and the bytes before it are kept |
| Display.PutCell | textgame.cpp:405-409 | after one pixel the buffer holds the old prefix, then the escapes, then the glyph |
| Display.FillRow | textgame.cpp:404-410 | one row appends that row's cells to the buffer, each at most 26 bytes |
| Display.FillFrame | textgame.cpp:389-413 | the buffer holds the frame of every visited pixel, followed by a NUL that lies inside the `26 * x * y + 1` bytes allocated |
| Display.FrameEncoder.constructor | textgame.cpp:377-378 | the static buffer starts as a null pointer with size 0 |
| Display.FrameEncoder.Render | textgame.cpp:389-413 | as written: a buffer smaller than required is freed and a fresh one is allocated; `buffer_size` ends at 0 whenever that happens; the buffer holds the frame and its NUL |
| Display.FrameEncoder.RenderReusing | textgame.cpp:376-399 | corrected: an existing large-enough buffer is reused, and a fresh one is recorded at its size; the buffer holds the frame and its NUL |
| Display.RenderTwice | textgame.cpp:389-399 | as written, two frames of the same image in a row use two different buffers |
| Display.RenderTwiceReusing | textgame.cpp:376-399 | corrected, two frames of the same image in a row share one buffer |

## Left out

- Terminal set-up and tear-down, key and mouse input, `terminal_size`, `_kbhit` and the `KEY_` constants: these are platform I/O.
- The tail of `image_display` after the buffer is terminated (`printf`, curses `move` and `refresh`): this is output to the terminal.
- `rect_intersect`, `image_pop_clip`, `image_push_intersect_clip`, `image_print` and `sleep`: textgame.h declares them, but textgame.cpp does not define them.
- `image_blit`: its definition is a stub with no behaviour to model.
- main.cpp is not part of this model.
- Integer overflow: `int` and `size_t` are unbounded integers here. `Canvas.Image.Resize` and the constructors require `x * y >= 0` in place of `std::vector::resize` being handed a huge `size_t`. With two negative extents the product is positive, and the model keeps that many pixels, none of them in bounds.
- `Display.FrameEncoder.Render`: a failed `calloc` (a null buffer) is not modelled. The allocation always succeeds.
- `Display.PutFormatted`: models `snprintf` only on the bytes it would produce. The format string is formatted by `Ansi.Sgr`, not interpreted.
- `Vectors.AddAssign`: the reference parameter of each compound operator (`+=`, `-=`, `*=`, `/=`, for vectors and colours alike) is modelled as a value passed in and returned. Aliasing between the two operands is not modelled.
- `Vectors.DivAssign`: division by zero is undefined behaviour in C++, so every division here requires a non-zero divisor. The same holds for `Colors.DivAssign`.
- `Canvas.Image.Set`: follows the code. textgame.h:207 says it obeys the current clipping region, but it checks only the image bounds, and the model does the same.
- `Canvas.Image.Empty`: `Image()` leaves the clip stack empty, so the header's claim at textgame.h:195-196 that there is always at least one clipping region holds only after `image_resize`. `HasBaseClip` is therefore stated separately from `Valid`.

## Findings

| source | as written | input that shows it | evidently intended | confidence | as-written member | corrected member |
|---|---|---|---|---|---|---|
| textgame.cpp:391-399 | `buffer_size` is reset to 0 when the buffer is too small, and is never set after `calloc`, so every frame frees and reallocates the buffer | any image, rendered twice | record `required_size` after allocating, so later frames of the same size reuse the buffer, as the comment at line 376 says | not executed | Display.RenderTwice | Display.RenderTwiceReusing |
| textgame.cpp:268-270 | `Image(size, value)` never reads `value`; `image_resize` fills the image with `Pixel(' ')` | `Image(Vector2i(1, 1), Pixel(RED, 'A', BLUE))` | clear the resized image to `value` | not executed | Canvas.ConstructorDropsValue | Canvas.Image.Filled |
