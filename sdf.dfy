/**
 * The integer skeleton of the signed-distance-field example: which slots of
 * the ray table the pinhole camera fills, the start-up of the intensity
 * buffer, the per-frame clear, the control flow of the sphere-tracing loop
 * and the dithered presentation of its result.
 *
 * The floating-point geometry is abstracted away: the ray stored for a pixel
 * is represented by the pixel it was computed for, and the test
 * `dist < 0.01f` of step `step` of pixel i is the caller-supplied
 * predicate `hit(i, step)`.
 */
module Sdf {
  import opened Raster

  /** Step budget of the march loop. */
  const MAX_STEPS: int := 10

  /**
   * A ray-table slot: the zero vector of static storage, or the normalised
   * direction through the centre of sensor pixel (row, col).
   */
  datatype Ray = Zero | Toward(row: int, col: int)

  datatype Option<T> = None | Some(value: T)

  /** Largest value of a C `int` (32 bits). */
  const INT_MAX: int := 0x7FFF_FFFF

  /** Number of slots a rows x cols sensor fills; none when either is not positive. */
  function Cells(rows: int, cols: int): (n: nat)
    ensures n > 0 <==> rows > 0 && cols > 0
  {
    if rows > 0 && cols > 0 then rows * cols else 0
  }

  /** The row-major index of a pixel of the sensor is a slot of the table. */
  lemma RowMajorBound(r: int, c: int, rows: int, cols: int)
    requires 0 <= r < rows && 0 <= c < cols
    ensures 0 <= r * cols + c < rows * cols
  {
    assert r * cols >= 0;
    assert (r + 1) * cols <= rows * cols by {
      assert rows * cols == (r + 1) * cols + (rows - r - 1) * cols;
      assert (rows - r - 1) * cols >= 0;
    }
  }

  /**
   * `pinhole_rays`: for r, c in row-major order it stores the ray of pixel
   * (r, c) at `rays[r * cols + c]`. The ghost log lists the slots in the
   * order they are written: each of 0 .. rows * cols - 1 exactly once, and
   * nothing outside that range. The index is computed in C `int`, so the
   * sensor must be small enough that rows * cols - 1 does not overflow.
   */
  method PinholeRays(rows: int, cols: int, rays: array<Ray>) returns (ghost log: seq<int>)
    requires Cells(rows, cols) <= rays.Length
    requires Cells(rows, cols) - 1 <= INT_MAX
    modifies rays
    ensures |log| == Cells(rows, cols)
    ensures forall k :: 0 <= k < |log| ==> log[k] == k <= INT_MAX
    ensures forall i :: 0 <= i < Cells(rows, cols) ==> rays[i] == Toward(i / cols, i % cols)
    ensures forall i :: Cells(rows, cols) <= i < rays.Length ==> rays[i] == old(rays[i])
  {
    log := [];
    var r := 0;
    while r < rows
      invariant rows > 0 ==> 0 <= r <= rows
      invariant rows <= 0 ==> r == 0
      invariant |log| == if cols > 0 then r * cols else 0
      invariant forall k :: 0 <= k < |log| ==> log[k] == k
      invariant |log| <= rays.Length
      invariant cols > 0 ==> forall i :: 0 <= i < |log| ==> rays[i] == Toward(i / cols, i % cols)
      invariant forall i :: |log| <= i < rays.Length ==> rays[i] == old(rays[i])
    {
      var c := 0;
      while c < cols
        invariant cols > 0 ==> 0 <= c <= cols
        invariant cols <= 0 ==> c == 0
        invariant |log| == if cols > 0 then r * cols + c else 0
        invariant forall k :: 0 <= k < |log| ==> log[k] == k
        invariant |log| <= rays.Length
        invariant cols > 0 ==> forall i :: 0 <= i < |log| ==> rays[i] == Toward(i / cols, i % cols)
        invariant forall i :: |log| <= i < rays.Length ==> rays[i] == old(rays[i])
      {
        var i := r * cols + c;
        SlotOfPixel(i, r, c, rows, cols);
        rays[i] := Toward(r, c);
        log := log + [i];
        c := c + 1;
      }
      NextRow(r, cols);
      r := r + 1;
    }
    assert rows > 0 && cols > 0 ==> |log| == rows * cols;
  }

  lemma SlotOfPixel(i: int, r: int, c: int, rows: int, cols: int)
    requires 0 <= r < rows && 0 <= c < cols && i == r * cols + c
    ensures 0 <= i < rows * cols && r == i / cols && c == i % cols
  {
    RowMajorBound(r, c, rows, cols);
    RowMajor(i, r, c, cols);
  }

  lemma NextRow(r: int, cols: int)
    ensures r * cols + cols == (r + 1) * cols
  {
  }

  /**
   * The first step, from step `from` on, whose distance test passes for
   * pixel i, if any does within the budget.
   */
  function FirstHit(hit: (int, int) -> bool, i: int, from: nat): (s: Option<nat>)
    requires from <= MAX_STEPS
    ensures s.Some? ==>
      from <= s.value < MAX_STEPS && hit(i, s.value) && (forall t :: from <= t < s.value ==> !hit(i, t))
    ensures s.None? <==> forall t :: from <= t < MAX_STEPS ==> !hit(i, t)
    decreases MAX_STEPS - from
  {
    if from == MAX_STEPS then None
    else if hit(i, from) then Some(from)
    else FirstHit(hit, i, from + 1)
  }

  /** Pixel i hits the surface within its step budget. */
  predicate Hits(hit: (int, int) -> bool, i: int) {
    FirstHit(hit, i, 0).Some?
  }

  /** Number of distance evaluations the march loop performs for pixel i. */
  function StepsTaken(hit: (int, int) -> bool, i: int): (n: nat)
    ensures 1 <= n <= MAX_STEPS
    ensures Hits(hit, i) ==> hit(i, n - 1) && forall t :: 0 <= t < n - 1 ==> !hit(i, t)
    ensures !Hits(hit, i) ==> n == MAX_STEPS && forall t :: 0 <= t < MAX_STEPS ==> !hit(i, t)
  {
    match FirstHit(hit, i, 0)
    case Some(s) => s + 1
    case None => MAX_STEPS
  }

  /** `(i / LCD_COLUMNS, i % LCD_COLUMNS)` is the one pixel whose row-major index is i. */
  lemma PixelOfIndex(i: int, r: int, c: int)
    requires 0 <= i < PIXELS && IsPixel(r, c)
    ensures IsPixel(i / LCD_COLUMNS, i % LCD_COLUMNS)
    ensures (r, c) == (i / LCD_COLUMNS, i % LCD_COLUMNS) <==> r * LCD_COLUMNS + c == i
  {
    RowMajor(i, r, c, LCD_COLUMNS);
  }

  /** The clear of the whole intensity buffer (one memset) at the start of a frame. */
  method ClearIntensity(rb: array2<bv8>)
    requires IsIntensityBuffer(rb)
    modifies rb
    ensures forall r, c :: IsPixel(r, c) ==> rb[r, c] == 0
  {
    forall r, c | 0 <= r < LCD_ROWS && 0 <= c < LCD_COLUMNS {
      rb[r, c] := 0;
    }
  }

  /**
   * The step loop of pixel i: at most MAX_STEPS distance evaluations; on the
   * first whose test passes, 255 is written to
   * `rb[i / LCD_COLUMNS][i % LCD_COLUMNS]` and the loop stops. The ghost
   * result counts the evaluations.
   */
  method MarchPixel(rb: array2<bv8>, hit: (int, int) -> bool, i: int) returns (ghost evaluations: nat)
    requires IsIntensityBuffer(rb) && 0 <= i < PIXELS
    modifies rb
    ensures evaluations == StepsTaken(hit, i)
    ensures forall r, c :: IsPixel(r, c) ==>
      rb[r, c] == if r * LCD_COLUMNS + c == i && Hits(hit, i) then 255 else old(rb[r, c])
  {
    forall r, c | IsPixel(r, c)
      ensures (r, c) == (i / LCD_COLUMNS, i % LCD_COLUMNS) <==> r * LCD_COLUMNS + c == i
    {
      PixelOfIndex(i, r, c);
    }
    evaluations := 0;
    var step := 0;
    while step < MAX_STEPS
      invariant 0 <= step <= MAX_STEPS
      invariant evaluations == step
      invariant FirstHit(hit, i, 0) == FirstHit(hit, i, step)
      invariant forall r, c :: IsPixel(r, c) ==> rb[r, c] == old(rb[r, c])
    {
      evaluations := evaluations + 1;
      if hit(i, step) {
        rb[i / LCD_COLUMNS, i % LCD_COLUMNS] := 255;
        break;
      }
      step := step + 1;
    }
  }

  /**
   * The march loop of a frame: every pixel in turn runs its step loop. The
   * ghost result counts the evaluations of each pixel.
   */
  method March(rb: array2<bv8>, hit: (int, int) -> bool) returns (ghost steps: seq<nat>)
    requires IsIntensityBuffer(rb)
    modifies rb
    ensures |steps| == PIXELS
    ensures forall i :: 0 <= i < PIXELS ==> steps[i] == StepsTaken(hit, i)
    ensures forall r, c :: IsPixel(r, c) ==>
      rb[r, c] == if Hits(hit, r * LCD_COLUMNS + c) then 255 else old(rb[r, c])
  {
    steps := [];
    var i := 0;
    while i < PIXELS
      invariant 0 <= i <= PIXELS
      invariant |steps| == i
      invariant forall j :: 0 <= j < i ==> steps[j] == StepsTaken(hit, j)
      invariant forall r, c :: IsPixel(r, c) ==>
        rb[r, c] == if r * LCD_COLUMNS + c < i && Hits(hit, r * LCD_COLUMNS + c) then 255 else old(rb[r, c])
    {
      ghost var evaluations := MarchPixel(rb, hit, i);
      steps := steps + [evaluations];
      i := i + 1;
    }
  }

  /** `eventHandler` on start-up: the gradient fill, then the ray table of a 400 x 240 sensor. */
  method EventInit(rb: array2<bv8>, rays: array<Ray>)
    requires IsIntensityBuffer(rb) && rays.Length == PIXELS
    modifies rb, rays
    ensures IsGradient(rb)
    ensures forall i :: 0 <= i < PIXELS ==> rays[i] == Toward(i / LCD_COLUMNS, i % LCD_COLUMNS)
  {
    FillGradient(rb);
    ghost var log := PinholeRays(LCD_ROWS, LCD_COLUMNS, rays);
  }

  /**
   * One frame: clear the intensity buffer, march every pixel, then dither
   * the buffer into the cleared frame. A pixel that hit holds 255 and is
   * never lit, since no low byte exceeds 255; a pixel that missed holds 0
   * and is lit iff its draw is not 0.
   */
  method Update(frame: array<bv8>, rb: array2<bv8>, hit: (int, int) -> bool, rnd: seq<bv32>)
    requires IsCleared(frame[..]) && IsIntensityBuffer(rb) && |rnd| == PIXELS
    modifies frame, rb
    ensures forall r, c :: IsPixel(r, c) ==> (rb[r, c] == 255 || rb[r, c] == 0)
    ensures forall r, c :: IsPixel(r, c) ==> (rb[r, c] == 255 <==> Hits(hit, r * LCD_COLUMNS + c))
    ensures forall r, c :: IsPixel(r, c) ==>
      (PixelSet(frame[..], r, c) <==> !Hits(hit, r * LCD_COLUMNS + c) && 0 < LowByte(rnd[r * LCD_COLUMNS + c]))
    ensures forall b :: IsPadding(b) ==> frame[b] == 0
  {
    ClearIntensity(rb);
    ghost var steps := March(rb, hit);
    DitherPack(frame, rb, rnd);
  }
}
