/**
 * The dithered-gradient example: at start-up the intensity buffer receives a
 * vertical gradient (row r holds r), and every frame dithers it into the
 * cleared frame: a pixel of row r is lit by 255 - r of the 256 possible low
 * bytes of its draw (Raster.DitherShare).
 */
module Gradient {
  import opened Raster

  /** `eventHandler` on start-up: write the vertical gradient into the buffer. */
  method EventInit(rb: array2<bv8>)
    requires IsIntensityBuffer(rb)
    modifies rb
    ensures IsGradient(rb)
  {
    FillGradient(rb);
  }

  /**
   * One frame: dither the buffer into the frame the host has just cleared.
   * rnd[r * 400 + c] is the value rand() returns for pixel (r, c).
   */
  method Update(frame: array<bv8>, rb: array2<bv8>, rnd: seq<bv32>)
    requires IsCleared(frame[..]) && IsIntensityBuffer(rb) && |rnd| == PIXELS
    modifies frame
    ensures forall r, c :: IsPixel(r, c) ==>
      (PixelSet(frame[..], r, c) <==> rb[r, c] as int < LowByte(rnd[r * LCD_COLUMNS + c]))
    ensures IsGradient(rb) ==> forall r, c :: IsPixel(r, c) ==>
      (PixelSet(frame[..], r, c) <==> r < LowByte(rnd[r * LCD_COLUMNS + c]))
    ensures forall b :: IsPadding(b) ==> frame[b] == 0
  {
    DitherPack(frame, rb, rnd);
  }
}
