/**
 * The circle example: every frame the host clears the frame and `circle`
 * lights the pixels strictly inside a circle about the display's centre.
 * The squared radius comes from a sine of the frame counter; it is taken
 * here as an integer input.
 */
module Circle {
  import opened Raster

  /** Centre row and column: `LCD_ROWS >> 1` and `LCD_COLUMNS >> 1` (both non-negative, so halving). */
  const CY: int := LCD_ROWS / 2
  const CX: int := LCD_COLUMNS / 2

  /** The test `(r - cy)^2 + (c - cx)^2 < rad2` of pixel (r, c). */
  predicate InCircle(r: int, c: int, rad2: int) {
    (r - CY) * (r - CY) + (c - CX) * (c - CX) < rad2
  }

  /** The centre is pixel (120, 200), and it is inside the circle iff rad2 is positive. */
  lemma CentreOfDisplay(rad2: int)
    ensures CY == 120 && CX == 200
    ensures InCircle(CY, CX, rad2) <==> rad2 > 0
  {
  }

  lemma SquareBound(x: int, b: int)
    requires 0 <= b && -b <= x <= b
    ensures 0 <= x * x <= b * b
  {
    if x >= 0 {
      assert x * x <= x * b <= b * b;
    } else {
      assert x * x == (-x) * (-x);
      assert (-x) * (-x) <= (-x) * b <= b * b;
    }
  }

  /**
   * For every pixel, `dr2`, `dc2` and their sum stay within 0 .. 54400, far
   * inside a 32-bit int: the C arithmetic never overflows.
   */
  lemma SquaredDistanceFits(r: int, c: int)
    requires IsPixel(r, c)
    ensures 0 <= (r - CY) * (r - CY) <= 14400
    ensures 0 <= (c - CX) * (c - CX) <= 40000
    ensures 0 <= (r - CY) * (r - CY) + (c - CX) * (c - CX) <= 54400 < 0x8000_0000
  {
    SquareBound(r - CY, 120);
    SquareBound(c - CX, 200);
  }

  /** A circle whose squared radius is not positive contains no pixel. */
  lemma NonPositiveRadiusIsEmpty(r: int, c: int, rad2: int)
    requires IsPixel(r, c) && rad2 <= 0
    ensures !InCircle(r, c, rad2)
  {
    SquaredDistanceFits(r, c);
  }

  /**
   * `circle`: for each pixel in row-major order OR its in-circle bit into
   * the frame. Bits lit before stay lit; padding bytes keep their value.
   */
  method Circle(frame: array<bv8>, rad2: int)
    requires IsFrame(frame[..])
    modifies frame
    ensures forall r, c :: IsPixel(r, c) ==>
      (PixelSet(frame[..], r, c) <==> (PixelSet(old(frame[..]), r, c) || InCircle(r, c, rad2)))
    ensures forall b :: IsPadding(b) ==> frame[b] == old(frame[b])
  {
    for r := 0 to LCD_ROWS
      invariant forall r', c' :: IsPixel(r', c') ==>
        (PixelSet(frame[..], r', c') <==> (PixelSet(old(frame[..]), r', c') || (r' < r && InCircle(r', c', rad2))))
      invariant forall b :: IsPadding(b) ==> frame[b] == old(frame[b])
    {
      var dr2 := (r - CY) * (r - CY);
      for c := 0 to LCD_COLUMNS
        invariant forall r', c' :: IsPixel(r', c') ==>
          (PixelSet(frame[..], r', c') <==> (PixelSet(old(frame[..]), r', c') ||
            ((r' < r || (r' == r && c' < c)) && InCircle(r', c', rad2))))
        invariant forall b :: IsPadding(b) ==> frame[b] == old(frame[b])
      {
        var dc2 := (c - CX) * (c - CX);
        var inCircle := dr2 + dc2 < rad2;
        WithPixelEffect(frame[..], r, c, inCircle);
        OrPixel(frame, r, c, inCircle);
      }
    }
  }

  /** One frame: the host clears the frame, then `circle` draws into it. */
  method Update(frame: array<bv8>, rad2: int)
    requires IsCleared(frame[..])
    modifies frame
    ensures forall r, c :: IsPixel(r, c) ==> (PixelSet(frame[..], r, c) <==> InCircle(r, c, rad2))
    ensures rad2 <= 0 ==> forall r, c :: IsPixel(r, c) ==> !PixelSet(frame[..], r, c)
    ensures forall b :: IsPadding(b) ==> frame[b] == 0
  {
    Circle(frame, rad2);
    forall r, c | IsPixel(r, c) && rad2 <= 0
      ensures !InCircle(r, c, rad2)
    {
      NonPositiveRadiusIsEmpty(r, c, rad2);
    }
  }
}
