# Integer raster and bit packing of the Playdate example programs

This project models the integer raster code shared by three small example
programs for the Playdate handheld console. The programs paint its 400 x 240,
1-bit display:

- **circle** lights the pixels strictly inside a circle about the display centre;
- **gradient** dithers a vertical greyscale gradient;
- **sdf** ray-marches a sphere and dithers the result.

All three pack pixels into the host frame in the same way. Row r starts at
byte `r * 52`. Pixel (r, c) is bit `(7 - c) & 7` of byte `r * 52 + (c >> 3)`,
so each row uses 50 bytes and leaves bytes 50 and 51 alone. Each pixel's bit
is ORed in; nothing is ever cleared.

The model has four modules:

- `Raster` (`raster.dfy`) holds the display constants and the mapping from a
  pixel to its (byte, bit) pair, with its inverse `PixelAt` and the
  injectivity lemma. It holds the OR write `OrPixel`, the gradient fill of
  the intensity buffer `rb`, and the dither-and-pack loop `DitherPack`. The
  sdf and gradient programs share the last two, and the code is the same in
  both files.
- `Sdf` (`sdf.dfy`) holds the index coverage of `pinhole_rays`, start-up,
  the per-frame clear, the control flow of the march loop and one whole
  frame.
- `Gradient` (`gradient.dfy`) holds that program's start-up and frame.
- `Circle` (`circle.dfy`) holds the centre, the in-circle test, `circle` and
  one frame.

Modelling choices:

- The frame is an `array<bv8>` of 240 * 52 bytes, and `rb` is an
  `array2<bv8>` of 240 x 400.
- `PixelSet(frame, r, c)` reads one pixel's bit. The packing methods state
  their result pixel by pixel, and they state that padding bytes do not
  change. `Raster.FrameDeterminedByPixels` proves that these two facts fix
  every byte of the frame.
- The host's `getFrame()` becomes the frame parameter.
- The host's `clear(kColorBlack)` becomes the precondition `IsCleared`: the
  frame is all zero.
- `rand()` becomes a sequence `rnd` of 96000 32-bit values, one per pixel,
  consumed in row-major order. Pixel (r, c) gets draw `r * 400 + c`.
- The comparison is modelled exactly as written: `rb[r][c] < (rand() & 0xFF)`.
- The ray table is an `array<Ray>`. `Toward(r, c)` stands for the normalised
  float direction through sensor pixel (r, c). `Zero` is the zero vector the
  static array starts with.
- In the march loop, the test `dist < 0.01f` at step `step` of pixel i is a
  caller-supplied predicate `hit(i, step)`. The origins start at zero every
  frame, and advancing a ray is deterministic. So this predicate captures
  every outcome the loop can have.
- In the circle, `rad2` is an integer input.
- `(7 - c) & 7` is written as `(7 - c) % 8`. Dafny's `%` is Euclidean, which
  agrees with `& 7` on two's complement ints, negative ones included.
- `c >> 3` is written as `c / 8`, and `LCD_ROWS >> 1` as `LCD_ROWS / 2`. The
  operands are never negative, so the two forms agree.
- The arithmetic of the circle test fits in a 32-bit int
  (`Circle.SquaredDistanceFits`), so the model uses unbounded ints there.

Three details of the code that the model keeps as written:

- The dither lights a pixel when its intensity is *below* the low byte of
  the draw (sdf/src/main.c:131, gradient/src/main.c:56). Of the 256 possible
  low bytes, exactly 255 - I light a pixel of intensity I
  (`Raster.DitherShare`). So a pixel that hit (255) is never lit, and one
  that missed (0) is lit unless its draw is 0. The program's own comment
  (gradient/src/main.c:54-55) calls the intensity "the probability of the
  pixel being on"; the share the code computes is 255 - I out of 256.
- The row stride is the hard-coded 52, not 50 (sdf/src/main.c:128).
- The march loop tests `dist < 0.01f` with a budget of 10 steps, and on a
  hit it writes the constant 255 (sdf/src/main.c:111-117).

The `Update` contracts describe the frame as the packing loop leaves it.
Each program then calls the host's `drawFPS(0,0)` (sdf/src/main.c:136,
gradient/src/main.c:61, circle/src/main.c:59), which draws a frame-rate
counter over the top-left corner; that drawing is not modelled.

## Model

| member | source | states |
|---|---|---|
| Raster.ByteIndex | gradient/src/main.c:51-56 | pixel (r, c) lives in byte `r*52 + c/8`, which lies inside the 240*52-byte frame, in row r, at row offset `c/8` below 50 (never a padding byte) |
| Raster.BitIndex | gradient/src/main.c:56 | the bit `(7 - c) & 7` is `7 - c mod 8`, below 8: the leftmost pixel of a byte is its most significant bit |
| Raster.LowByte | gradient/src/main.c:56 | `rand() & 0xFF` lies in 0 .. 255 whatever rand returns |
| Raster.PixelLocationInjective | circle/src/main.c:44-45 | two pixels with the same byte and the same bit are the same pixel, so no pixel's write lands on another's bit |
| Raster.PixelAt | circle/src/main.c:38-45 | every bit of every non-padding byte belongs to some pixel; with the injectivity lemma, each (byte, bit) of the used region belongs to exactly one pixel |
| Raster.RowMajor | sdf/src/main.c:53 | for 0 <= c < cols, `i == r*cols + c` holds iff `r == i / cols` and `c == i % cols` |
| Raster.FrameDeterminedByPixels | sdf/src/main.c:126-133 | two frames that agree on every pixel bit and on every padding byte are equal byte for byte |
| Raster.WithPixelEffect | circle/src/main.c:44-45 | ORing the 0/1 value v into pixel (r, c) lights it iff it was lit or v holds; every other pixel and every other byte is unchanged (OR only, nothing cleared) |
| Raster.OrPixel | sdf/src/main.c:128-131 | the in-place byte update leaves the frame equal to `WithPixel(old frame, r, c, v)` |
| Raster.GradientValue | sdf/src/main.c:68-71 | the byte stored for row r, converted to unsigned char, equals r, because r < 240 < 256 |
| Raster.FillGradient | gradient/src/main.c:32-35 | after the fill, every cell of row r of `rb` holds r, for all r < 240 and c < 400 |
| Raster.DitherLit | gradient/src/main.c:56 | the decision for pixel (r, c) is `rb[r][c] < (rnd[r*400 + c] & 0xFF)`, the comparison as written, with draw number r*400 + c |
| Raster.LitDrawsCount | gradient/src/main.c:56 | for 0 <= I < n, exactly n - 1 - I of the draws 0 .. n-1 pass the test `I < draw` |
| Raster.DitherShare | gradient/src/main.c:54-56 | of the 256 possible low bytes of a draw, exactly 255 - I light a pixel of intensity I |
| Raster.DitherPack | gradient/src/main.c:48-58 | after the loop, pixel (r, c) is lit iff it was lit before or `rb[r][c] < (rnd[r*400 + c] & 0xFF)`; bits set earlier stay set; padding bytes 50-51 of every row keep their value |
| Sdf.PinholeRays | sdf/src/main.c:40-56 | the write log is exactly 0, 1, ..., rows*cols - 1, so each slot below rows*cols is written once and none outside; slot i holds the ray of pixel (i / cols, i % cols); slots beyond are untouched; no writes when rows or cols is not positive; every index computed fits a C `int`, which the precondition `rows*cols - 1 <= INT_MAX` guarantees |
| Sdf.EventInit | sdf/src/main.c:62-77 | start-up leaves `rb` holding the gradient and ray slot i holding the ray of pixel (i / 400, i % 400) for every i < 96000 |
| Sdf.ClearIntensity | sdf/src/main.c:107 | after the clear every cell of `rb` is 0 |
| Sdf.FirstHit | sdf/src/main.c:111-119 | the step it returns is the first step in the budget whose distance test passes; it returns none iff no step in the budget passes |
| Sdf.StepsTaken | sdf/src/main.c:111-122 | a pixel uses between 1 and 10 distance evaluations: one more than its first hitting step, or all 10 when no step hits |
| Sdf.PixelOfIndex | sdf/src/main.c:109-117 | `(i / 400, i % 400)` is a pixel, and it is the only pixel whose row-major index is i, so distinct i write distinct cells |
| Sdf.MarchPixel | sdf/src/main.c:111-122 | the step loop of pixel i performs `StepsTaken` evaluations, stops at the first hit, and writes 255 into that pixel's cell iff some step hits; no other cell changes |
| Sdf.March | sdf/src/main.c:109-123 | after the loop, cell (r, c) is 255 if pixel `r*400 + c` hits within 10 steps and keeps its old value otherwise; the evaluation counts are `StepsTaken` per pixel |
| Sdf.Update | sdf/src/main.c:98-133 | one frame into a cleared frame: every cell is 0 or 255, and 255 iff the pixel hit; a pixel is lit iff it missed and its draw's low byte is not 0 (a hit pixel is never lit); padding bytes stay 0 |
| Gradient.EventInit | gradient/src/main.c:26-36 | start-up leaves `rb` holding the vertical gradient, so row r holds r |
| Gradient.Update | gradient/src/main.c:41-58 | into a cleared frame, pixel (r, c) is lit iff `rb[r][c] < (rnd[r*400 + c] & 0xFF)`, which on the gradient is iff `r < (rnd[r*400 + c] & 0xFF)`; padding bytes stay 0 |
| Circle.InCircle | circle/src/main.c:39-43 | the in-circle test `(r - 120)^2 + (c - 200)^2 < rad2`, strict, with the centre of the display |
| Circle.CentreOfDisplay | circle/src/main.c:31-32 | the centre is row 120, column 200, and it is inside the circle iff rad2 > 0 |
| Circle.SquaredDistanceFits | circle/src/main.c:39-43 | for every pixel, `dr2` is at most 14400, `dc2` at most 40000, and their non-negative sum at most 54400; no 32-bit overflow is possible |
| Circle.NonPositiveRadiusIsEmpty | circle/src/main.c:43 | when rad2 <= 0 no pixel passes the in-circle test, because the left-hand side is never negative |
| Circle.Circle | circle/src/main.c:29-48 | after `circle`, pixel (r, c) is lit iff it was lit before or `(r-120)^2 + (c-200)^2 < rad2`; set bits are preserved; padding bytes 50-51 keep their value |
| Circle.Update | circle/src/main.c:50-56 | into a cleared frame, pixel (r, c) is lit iff it is strictly inside the circle; no pixel is lit when rad2 <= 0; padding bytes stay 0 |

## Left out

- Floating-point geometry has no integer model, so it is left out:
  - the vector `magnitude` and the normalisation in `pinhole_rays`; a ray is
    represented by the pixel it belongs to;
  - the `sphere` distance; its outcome per step is the `hit` predicate;
  - the advance of a ray by `rays[i] * dist` and the local `origins` array;
  - the `sin` that produces the circle's `rad2`, and the unused
    `sensor_aspect`.
- `numerical_normal` is not valid C (a default argument, `auto`, a `vec3`
  type that does not exist, and `sphere` called with the wrong number of
  arguments), and nothing calls it.
- Host services are foreign calls and are not modelled:
  `setUpdateCallback`, `drawFPS`, `getFrame` (it becomes the frame
  parameter) and `clear` (it becomes the all-zero precondition).
- `rand()` is the C library's generator. Its outputs are an input sequence.
- The unused `static int count`, the frame counter `t` passed to `circle`,
  the `update` return value and the event dispatch in `eventHandler` are
  host plumbing.
- The global buffers `rb` and `rays` become array parameters. The frame,
  `rb` and the ray table have different types, so they can never alias.
- Whether the low bytes drawn from `rand()` are uniform is a property of
  the C library's generator and is not modelled. The model proves the
  per-frame decision and how many of the 256 low bytes light a pixel.
- `drawFPS(0,0)` draws over the top-left corner of the frame after packing;
  the `Update` contracts describe the frame before that call.
- The ray table's size is a precondition: it must hold at least rows*cols
  slots. The C code writes without a check and relies on its only caller
  passing a table of 240*400 slots.
