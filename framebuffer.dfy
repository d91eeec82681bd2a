/** The 64x128 monochrome framebuffer of the SH1106 panel and the
    grayscale-to-pixel fill that produces it from a decoded image. */
module Framebuffer {

  /** Panel resolution: `bool fb[64][128]`. */
  const Rows: nat := 64
  const Cols: nat := 128

  /** A framebuffer as a value: row-major, row 0 at the top. */
  type Frame = seq<seq<bool>>

  predicate IsFrame(f: Frame) {
    |f| == Rows && forall r :: 0 <= r < |f| ==> |f[r]| == Cols
  }

  /** A frame whose every pixel is `on`; `Uniform(false)` is the
      zero-initialised `bool fb[64][128] = {0}`. */
  function Uniform(on: bool): (f: Frame)
    ensures IsFrame(f)
    ensures forall r, c :: 0 <= r < Rows && 0 <= c < Cols ==> f[r][c] == on
  {
    seq(Rows, r => seq(Cols, c => on))
  }

  /** The contents of a two-dimensional boolean array as a frame. */
  ghost function Grid(fb: array2<bool>): (f: Frame)
    reads fb
    requires fb.Length0 == Rows && fb.Length1 == Cols
    ensures IsFrame(f)
    ensures forall r, c :: 0 <= r < Rows && 0 <= c < Cols ==> f[r][c] == fb[r, c]
  {
    seq(Rows, r requires 0 <= r < Rows reads fb =>
      seq(Cols, c requires 0 <= c < Cols reads fb => fb[r, c]))
  }

  /** Two frames are equal when they agree on every pixel. */
  lemma {:induction false} PixelwiseEqual(f: Frame, g: Frame)
    requires IsFrame(f) && IsFrame(g)
    requires forall r, c :: 0 <= r < Rows && 0 <= c < Cols ==> f[r][c] == g[r][c]
    ensures f == g
  {
    forall r | 0 <= r < Rows
      ensures f[r] == g[r]
    {
      forall c | 0 <= c < Cols
        ensures f[r][c] == g[r][c]
      {
      }
    }
  }

  /** The grayscale cut line, `0xFF / 2` in unsigned arithmetic. */
  const Threshold: bv8 := 0xFF / 2

  /** A grayscale sample lights its pixel when it is strictly above the
      cut line. */
  function IsOn(sample: bv8): (on: bool)
    ensures on <==> sample as int >= 128
  {
    sample > Threshold
  }

  lemma ThresholdBoundary()
    ensures Threshold == 127
    ensures !IsOn(0) && !IsOn(127) && IsOn(128) && IsOn(255)
    ensures forall s: bv8, t: bv8 :: s <= t && IsOn(s) ==> IsOn(t)
  {
  }

  /** The sample buffer produced by the image loader is 128 x 64
      one-byte samples, row-major. */
  predicate IsSampleBuffer(buf: seq<bv8>) {
    |buf| == Rows * Cols
  }

  /** The frame after one pass of the fill loop over `prev`: rows 1 to 62
      are overwritten with thresholded samples, rows 0 and 63 keep what
      they held. */
  function Refill(prev: Frame, buf: seq<bv8>): (f: Frame)
    requires IsFrame(prev) && IsSampleBuffer(buf)
    ensures IsFrame(f)
    ensures forall c :: 0 <= c < Cols ==> f[0][c] == prev[0][c] && f[Rows - 1][c] == prev[Rows - 1][c]
    ensures forall r, c :: 1 <= r < Rows - 1 && 0 <= c < Cols ==> f[r][c] == IsOn(buf[r * Cols + c])
  {
    seq(Rows, r requires 0 <= r < Rows =>
      seq(Cols, c requires 0 <= c < Cols =>
        if 1 <= r < Rows - 1 then IsOn(buf[r * Cols + c]) else prev[r][c]))
  }

  /** Starting from the zero-initialised framebuffer, the top and bottom
      rows stay dark and every other pixel is its sample thresholded. */
  lemma RefillFromBlank(buf: seq<bv8>)
    requires IsSampleBuffer(buf)
    ensures forall c :: 0 <= c < Cols ==> !Refill(Uniform(false), buf)[0][c] && !Refill(Uniform(false), buf)[Rows - 1][c]
    ensures forall r, c :: 1 <= r < Rows - 1 && 0 <= c < Cols ==>
      (Refill(Uniform(false), buf)[r][c] <==> buf[r * Cols + c] as int > 127)
  {
    var blank := Uniform(false);
    forall c | 0 <= c < Cols
      ensures !blank[0][c] && !blank[Rows - 1][c]
    {
    }
  }

  /** Running the fill loop a second time over its own output changes
      nothing: every iteration of the endless frame loop sends the same
      frame. */
  lemma {:induction false} RefillIdempotent(prev: Frame, buf: seq<bv8>)
    requires IsFrame(prev) && IsSampleBuffer(buf)
    ensures Refill(Refill(prev, buf), buf) == Refill(prev, buf)
  {
    PixelwiseEqual(Refill(Refill(prev, buf), buf), Refill(prev, buf));
  }
}
