/**
 * The integer raster shared by the three example programs: the display's
 * geometry, the mapping of a pixel to its byte and bit in the host's packed
 * 1-bit frame, the OR-accumulating pixel write, the vertical gradient fill of
 * the intensity buffer and the temporally dithered packing of that buffer
 * into the frame.
 */
module Raster {

  /** Display height and width in pixels, as the platform header fixes them. */
  const LCD_ROWS: int := 240
  const LCD_COLUMNS: int := 400
  /** Byte stride of one frame row, hard-coded by the programs. */
  const ROW_STRIDE: int := 52
  /** Bytes of a row that carry pixels: 400 / 8; bytes 50 and 51 are padding. */
  const ROW_BYTES: int := 50
  const FRAME_BYTES: int := LCD_ROWS * ROW_STRIDE
  const PIXELS: int := LCD_ROWS * LCD_COLUMNS

  predicate IsPixel(r: int, c: int) {
    0 <= r < LCD_ROWS && 0 <= c < LCD_COLUMNS
  }

  /** A frame byte that lies in a row's padding, past the 50 bytes of pixels. */
  predicate IsPadding(b: int) {
    0 <= b < FRAME_BYTES && b % ROW_STRIDE >= ROW_BYTES
  }

  predicate IsFrame(frame: seq<bv8>) {
    |frame| == FRAME_BYTES
  }

  predicate IsCleared(frame: seq<bv8>) {
    IsFrame(frame) && forall b :: 0 <= b < |frame| ==> frame[b] == 0
  }

  /** Byte of the frame that holds pixel (r, c): `r * 52 + (c >> 3)`. */
  function ByteIndex(r: int, c: int): (b: int)
    requires IsPixel(r, c)
    ensures 0 <= b < FRAME_BYTES && !IsPadding(b)
    ensures b / ROW_STRIDE == r && b % ROW_STRIDE == c / 8
  {
    r * ROW_STRIDE + c / 8
  }

  /**
   * Bit of that byte that holds column c: `(7 - c) & 7`. On two's complement
   * integers `& 7` is the Euclidean remainder by 8, which Dafny's `%` is.
   * The leftmost pixel of a byte is its most significant bit.
   */
  function BitIndex(c: int): (k: nat)
    requires 0 <= c
    ensures k < 8 && k == 7 - c % 8
  {
    (7 - c) % 8
  }

  function Mask(k: nat): bv8
    requires k < 8
  {
    (1 as bv8) << k
  }

  /** Whether pixel (r, c) is lit in the frame. */
  predicate PixelSet(frame: seq<bv8>, r: int, c: int)
    requires IsFrame(frame) && IsPixel(r, c)
  {
    frame[ByteIndex(r, c)] & Mask(BitIndex(c)) != 0
  }

  /** `rand() & 0xFF`: the low byte of one value drawn from the C library's generator. */
  function LowByte(x: bv32): (v: int)
    ensures 0 <= v <= 255
  {
    ((x & 0xFF) as bv8) as int
  }

  /** Distinct pixels own distinct (byte, bit) pairs of the frame. */
  lemma PixelLocationInjective(r: int, c: int, r': int, c': int)
    requires IsPixel(r, c) && IsPixel(r', c')
    requires ByteIndex(r, c) == ByteIndex(r', c') && BitIndex(c) == BitIndex(c')
    ensures r == r' && c == c'
  {
  }

  /** The pixel that owns bit k of a non-padding frame byte b. */
  function PixelAt(b: int, k: nat): (p: (int, int))
    requires 0 <= b < FRAME_BYTES && !IsPadding(b) && k < 8
    ensures IsPixel(p.0, p.1) && ByteIndex(p.0, p.1) == b && BitIndex(p.1) == k
  {
    var c := 8 * (b % ROW_STRIDE) + 7 - k;
    assert c / 8 == b % ROW_STRIDE && c % 8 == 7 - k;
    (b / ROW_STRIDE, c)
  }

  /** Row-major index i and pixel (r, c) of a row of `cols` pixels determine each other. */
  lemma RowMajor(i: int, r: int, c: int, cols: int)
    requires 0 <= c < cols
    ensures i == r * cols + c <==> (r == i / cols && c == i % cols)
  {
    if i == r * cols + c {
      DivModUnique(i, r, c, cols);
    }
  }

  lemma DivModUnique(i: int, q: int, m: int, d: int)
    requires 0 <= m < d && i == q * d + m
    ensures q == i / d && m == i % d
  {
    var q', m' := i / d, i % d;
    assert q * d + m == q' * d + m';
    assert (q - q') * d == m' - m by {
      assert (q - q') * d == q * d - q' * d;
    }
    if q - q' >= 1 {
      assert (q - q') * d >= d by { MulMonotone(q - q', d); }
    } else if q - q' <= -1 {
      assert (q' - q) * d >= d by { MulMonotone(q' - q, d); }
    }
  }

  lemma MulMonotone(a: int, d: int)
    requires a >= 1 && d >= 0
    ensures a * d >= d
  {
    assert a * d == (a - 1) * d + d;
    assert (a - 1) * d >= 0;
  }

  /** Two bytes that agree on all eight bits are equal. */
  lemma BitsDetermineByte(x: bv8, y: bv8)
    requires forall k: nat :: k < 8 ==> (x & Mask(k) != 0 <==> y & Mask(k) != 0)
    ensures x == y
  {
    assert x & Mask(0) != 0 <==> y & Mask(0) != 0;
    assert x & Mask(1) != 0 <==> y & Mask(1) != 0;
    assert x & Mask(2) != 0 <==> y & Mask(2) != 0;
    assert x & Mask(3) != 0 <==> y & Mask(3) != 0;
    assert x & Mask(4) != 0 <==> y & Mask(4) != 0;
    assert x & Mask(5) != 0 <==> y & Mask(5) != 0;
    assert x & Mask(6) != 0 <==> y & Mask(6) != 0;
    assert x & Mask(7) != 0 <==> y & Mask(7) != 0;
  }

  /**
   * A frame is determined by its pixels and its padding bytes: the
   * pixel-level postconditions below fix every byte of the frame.
   */
  lemma FrameDeterminedByPixels(f: seq<bv8>, g: seq<bv8>)
    requires IsFrame(f) && IsFrame(g)
    requires forall r, c :: IsPixel(r, c) ==> (PixelSet(f, r, c) <==> PixelSet(g, r, c))
    requires forall b :: IsPadding(b) ==> f[b] == g[b]
    ensures f == g
  {
    forall b | 0 <= b < FRAME_BYTES
      ensures f[b] == g[b]
    {
      if !IsPadding(b) {
        forall k: nat | k < 8
          ensures f[b] & Mask(k) != 0 <==> g[b] & Mask(k) != 0
        {
          var p := PixelAt(b, k);
          assert PixelSet(f, p.0, p.1) <==> PixelSet(g, p.0, p.1);
        }
        BitsDetermineByte(f[b], g[b]);
      }
    }
  }

  /** ORing a 0/1 value into bit k leaves the other bits and sets bit k iff it was set or v. */
  lemma OrBit(x: bv8, k: nat, j: nat, v: bool)
    requires k < 8 && j < 8
    ensures var y := x | (if v then Mask(k) else 0);
      (j != k ==> y & Mask(j) == x & Mask(j)) && (y & Mask(k) != 0 <==> (x & Mask(k) != 0 || v))
  {
  }

  /** The frame after ORing the 0/1 value v into the bit of pixel (r, c). */
  function WithPixel(f: seq<bv8>, r: int, c: int, v: bool): (g: seq<bv8>)
    requires IsFrame(f) && IsPixel(r, c)
    ensures IsFrame(g)
  {
    var b := ByteIndex(r, c);
    f[b := f[b] | (if v then Mask(BitIndex(c)) else 0)]
  }

  /** WithPixel lights pixel (r, c) when v holds, and changes no other byte. */
  lemma WithPixelOwn(f: seq<bv8>, r: int, c: int, v: bool)
    requires IsFrame(f) && IsPixel(r, c)
    ensures PixelSet(WithPixel(f, r, c, v), r, c) <==> (PixelSet(f, r, c) || v)
    ensures forall b :: 0 <= b < FRAME_BYTES && b != ByteIndex(r, c) ==> WithPixel(f, r, c, v)[b] == f[b]
  {
    var bi := ByteIndex(r, c);
    OrBit(f[bi], BitIndex(c), BitIndex(c), v);
  }

  /** WithPixel leaves every other pixel as it was. */
  lemma WithPixelOther(f: seq<bv8>, r: int, c: int, v: bool, r': int, c': int)
    requires IsFrame(f) && IsPixel(r, c) && IsPixel(r', c') && (r', c') != (r, c)
    ensures PixelSet(WithPixel(f, r, c, v), r', c') <==> PixelSet(f, r', c')
  {
    var bi := ByteIndex(r, c);
    if ByteIndex(r', c') == bi {
      if BitIndex(c') == BitIndex(c) {
        PixelLocationInjective(r, c, r', c');
      }
      OrBit(f[bi], BitIndex(c), BitIndex(c'), v);
    }
  }

  /** The two lemmas above, for every pixel at once. */
  lemma WithPixelEffect(f: seq<bv8>, r: int, c: int, v: bool)
    requires IsFrame(f) && IsPixel(r, c)
    ensures PixelSet(WithPixel(f, r, c, v), r, c) <==> (PixelSet(f, r, c) || v)
    ensures forall r', c' :: IsPixel(r', c') && (r', c') != (r, c) ==>
      (PixelSet(WithPixel(f, r, c, v), r', c') <==> PixelSet(f, r', c'))
    ensures forall b :: 0 <= b < FRAME_BYTES && b != ByteIndex(r, c) ==> WithPixel(f, r, c, v)[b] == f[b]
  {
    WithPixelOwn(f, r, c, v);
    forall r', c' | IsPixel(r', c') && (r', c') != (r, c)
      ensures PixelSet(WithPixel(f, r, c, v), r', c') <==> PixelSet(f, r', c')
    {
      WithPixelOther(f, r, c, v, r', c');
    }
  }

  /**
   * The in-place write of the packing loops: the 0/1 value v, shifted to the
   * pixel's bit, is ORed into the pixel's byte of row r (the row starts at
   * byte r * 52). The OR is computed on int and stored back into a byte; the
   * shifted value is below 256, so nothing is truncated.
   */
  method OrPixel(frame: array<bv8>, r: int, c: int, v: bool)
    requires IsFrame(frame[..]) && IsPixel(r, c)
    modifies frame
    ensures frame[..] == WithPixel(old(frame[..]), r, c, v)
  {
    var bi := ByteIndex(r, c);
    frame[bi] := frame[bi] | ((if v then 1 else 0) << BitIndex(c));
    assert frame[bi] == old(frame[bi]) | (if v then Mask(BitIndex(c)) else 0);
  }

  /** The byte the row fill stores in row r: r converted to unsigned char, which is r itself. */
  function GradientValue(r: int): (v: bv8)
    requires 0 <= r < LCD_ROWS
    ensures v as int == r
  {
    (r % 256) as bv8
  }

  predicate IsIntensityBuffer(rb: array2<bv8>) {
    rb.Length0 == LCD_ROWS && rb.Length1 == LCD_COLUMNS
  }

  /** Every cell of row r holds the byte value r. */
  ghost predicate IsGradient(rb: array2<bv8>)
    reads rb
    requires IsIntensityBuffer(rb)
  {
    forall r, c :: IsPixel(r, c) ==> rb[r, c] as int == r
  }

  /** The vertical gradient written into the intensity buffer at start-up. */
  method FillGradient(rb: array2<bv8>)
    requires IsIntensityBuffer(rb)
    modifies rb
    ensures IsGradient(rb)
  {
    for r := 0 to LCD_ROWS
      invariant forall r', c :: IsPixel(r', c) && r' < r ==> rb[r', c] as int == r'
    {
      // one memset per row: every byte of row r receives r as an unsigned char
      var v := GradientValue(r);
      forall c | 0 <= c < LCD_COLUMNS {
        rb[r, c] := v;
      }
    }
  }

  /** The dither test, compared exactly as written: the intensity is below the drawn low byte. */
  predicate Lights(intensity: int, draw: int) {
    intensity < draw
  }

  /** The dither decision for pixel (r, c): `rb[r][c] < (rand() & 0xFF)`. */
  predicate DitherLit(rb: array2<bv8>, rnd: seq<bv32>, r: int, c: int)
    reads rb
    requires IsIntensityBuffer(rb) && |rnd| == PIXELS && IsPixel(r, c)
  {
    Lights(rb[r, c] as int, LowByte(rnd[r * LCD_COLUMNS + c]))
  }

  /** How many of the draws 0 .. n - 1 light a pixel of the given intensity. */
  function LitDraws(intensity: int, n: nat): (k: nat)
    ensures k <= n
  {
    if n == 0 then 0 else LitDraws(intensity, n - 1) + (if Lights(intensity, n - 1) then 1 else 0)
  }

  lemma {:induction false} LitDrawsNone(intensity: int, n: nat)
    requires n <= intensity + 1
    ensures LitDraws(intensity, n) == 0
  {
    if n > 0 {
      LitDrawsNone(intensity, n - 1);
    }
  }

  /** Exactly the draws above the intensity light the pixel: n - 1 - intensity of the first n. */
  lemma {:induction false} LitDrawsCount(intensity: int, n: nat)
    requires 0 <= intensity < n
    ensures LitDraws(intensity, n) == n - 1 - intensity
  {
    if n == intensity + 1 {
      LitDrawsNone(intensity, n);
    } else {
      LitDrawsCount(intensity, n - 1);
    }
  }

  /**
   * Of the 256 possible low bytes of a draw, exactly 255 - I light a pixel of
   * intensity I: intensity 0 is lit by all but one, intensity 255 by none.
   */
  lemma DitherShare(intensity: int)
    requires 0 <= intensity <= 255
    ensures LitDraws(intensity, 256) == 255 - intensity
  {
    LitDrawsCount(intensity, 256);
  }

  /**
   * The packing loop: for every pixel in row-major order, draw one value
   * (rnd[k] is the k-th value rand() returns during the loop) and OR the
   * dither decision into the pixel's bit. Bits lit before stay lit; padding
   * bytes keep their value.
   */
  method DitherPack(frame: array<bv8>, rb: array2<bv8>, rnd: seq<bv32>)
    requires IsFrame(frame[..]) && IsIntensityBuffer(rb) && |rnd| == PIXELS
    modifies frame
    ensures forall r, c :: IsPixel(r, c) ==>
      (PixelSet(frame[..], r, c) <==> (PixelSet(old(frame[..]), r, c) || DitherLit(rb, rnd, r, c)))
    ensures forall b :: IsPadding(b) ==> frame[b] == old(frame[b])
  {
    var k := 0;
    for r := 0 to LCD_ROWS
      invariant k == r * LCD_COLUMNS
      invariant forall r', c' :: IsPixel(r', c') ==>
        (PixelSet(frame[..], r', c') <==> (PixelSet(old(frame[..]), r', c') || (r' < r && DitherLit(rb, rnd, r', c'))))
      invariant forall b :: IsPadding(b) ==> frame[b] == old(frame[b])
    {
      for c := 0 to LCD_COLUMNS
        invariant k == r * LCD_COLUMNS + c
        invariant forall r', c' :: IsPixel(r', c') ==>
          (PixelSet(frame[..], r', c') <==> (PixelSet(old(frame[..]), r', c') ||
            ((r' < r || (r' == r && c' < c)) && DitherLit(rb, rnd, r', c'))))
        invariant forall b :: IsPadding(b) ==> frame[b] == old(frame[b])
      {
        var draw := LowByte(rnd[k]);
        WithPixelEffect(frame[..], r, c, Lights(rb[r, c] as int, draw));
        OrPixel(frame, r, c, Lights(rb[r, c] as int, draw));
        k := k + 1;
      }
    }
  }
}
