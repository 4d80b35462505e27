/**
 * Frame compositing of the GIF player in src/parrot.js, on values.
 *
 * The off-screen canvas is a grid of RGBA pixels, `c[y][x]`. A decoded frame carries
 * an RGBA patch (row-major, four bytes per pixel), its placement rectangle on the
 * logical screen, its GIF disposal method and its delay. `displayFrame` clears the
 * frame's rectangle when the disposal method is 2, does nothing for 3, and then puts
 * the patch into the rectangle with `putImageData`, which replaces pixels (no blending)
 * and ignores the part of the rectangle that lies outside the canvas.
 */
module Compositing {
  import opened Wrappers

  /** A byte of a `Uint8ClampedArray`. */
  newtype byte = x: int | 0 <= x < 256

  datatype Rgba = Rgba(r: byte, g: byte, b: byte, a: byte)

  /** What `clearRect` writes: transparent black. */
  const Transparent := Rgba(0, 0, 0, 0)

  /** A frame's `dims`: where its patch goes on the logical screen. */
  datatype Rect = Rect(left: nat, top: nat, width: nat, height: nat)

  /** One decoded frame; `delay` is in milliseconds and may be absent. */
  datatype Frame = Frame(patch: seq<byte>, dims: Rect, disposalType: nat, delay: Option<nat>)

  /** Rows of pixels; row `y`, column `x` is `c[y][x]`. */
  type Canvas = seq<seq<Rgba>>

  /**
   * A frame `new ImageData(patch, width, height)` accepts: a non-empty rectangle and
   * exactly four bytes per pixel of it (the decoder always produces such frames).
   */
  predicate WellFormed(f: Frame) {
    f.dims.width > 0 && f.dims.height > 0 && |f.patch| == 4 * f.dims.width * f.dims.height
  }

  predicate AllWellFormed(frames: seq<Frame>) {
    forall i :: 0 <= i < |frames| ==> WellFormed(frames[i])
  }

  /** A canvas of `width` columns and `height` rows. */
  predicate HasShape(c: Canvas, width: nat, height: nat) {
    |c| == height && forall y :: 0 <= y < |c| ==> |c[y]| == width
  }

  predicate SameShape(c: Canvas, d: Canvas) {
    |c| == |d| && forall y :: 0 <= y < |c| ==> |c[y]| == |d[y]|
  }

  predicate InRect(r: Rect, x: int, y: int) {
    r.left <= x < r.left + r.width && r.top <= y < r.top + r.height
  }

  lemma RowMajorBound(x: nat, y: nat, width: nat, height: nat)
    requires x < width && y < height
    ensures y * width + x < width * height
  {
    calc {
      y * width + x;
    <
      y * width + width;
    ==
      (y + 1) * width;
    <=
      height * width;
    }
  }

  /** Byte offset of the patch pixel in column `x`, row `y` of the frame's rectangle. */
  function PatchOffset(f: Frame, x: nat, y: nat): (o: nat)
    requires WellFormed(f) && x < f.dims.width && y < f.dims.height
    ensures o % 4 == 0 && o + 4 <= |f.patch|
  {
    RowMajorBound(x, y, f.dims.width, f.dims.height);
    (y * f.dims.width + x) * 4
  }

  /** The patch pixel in column `x`, row `y` of the frame's rectangle. */
  function PatchPixel(f: Frame, x: nat, y: nat): Rgba
    requires WellFormed(f) && x < f.dims.width && y < f.dims.height
  {
    var o := PatchOffset(f, x, y);
    Rgba(f.patch[o], f.patch[o + 1], f.patch[o + 2], f.patch[o + 3])
  }

  /** `ctx.clearRect(r.left, r.top, r.width, r.height)`. */
  function ClearedRect(c: Canvas, r: Rect): Canvas {
    seq(|c|, y requires 0 <= y < |c| =>
      seq(|c[y]|, x requires 0 <= x < |c[y]| =>
        if InRect(r, x, y) then Transparent else c[y][x]))
  }

  /** `ctx.putImageData(new ImageData(f.patch, w, h), f.dims.left, f.dims.top)`. */
  function ImagePut(c: Canvas, f: Frame): Canvas
    requires WellFormed(f)
  {
    seq(|c|, y requires 0 <= y < |c| =>
      seq(|c[y]|, x requires 0 <= x < |c[y]| =>
        if InRect(f.dims, x, y) then PatchPixel(f, x - f.dims.left, y - f.dims.top) else c[y][x]))
  }

  /**
   * The drawing `displayFrame` does for one frame, branch by branch as the code has it.
   * Its contract mentions no disposal method: the clear of disposal 2 covers exactly
   * the pixels the patch then overwrites, so inside the rectangle the patch wins and
   * outside it nothing changes, whatever `disposalType` is.
   */
  function Painted(c: Canvas, f: Frame): (p: Canvas)
    requires WellFormed(f)
    ensures SameShape(p, c)
    ensures forall y, x :: 0 <= y < |c| && 0 <= x < |c[y]| && InRect(f.dims, x, y) ==>
      p[y][x] == PatchPixel(f, x - f.dims.left, y - f.dims.top)
    ensures forall y, x :: 0 <= y < |c| && 0 <= x < |c[y]| && !InRect(f.dims, x, y) ==>
      p[y][x] == c[y][x]
  {
    if f.disposalType == 2 then
      ImagePut(ClearedRect(c, f.dims), f)
    else if f.disposalType == 3 then
      // restore-previous is not implemented by the code: nothing happens before the draw
      ImagePut(c, f)
    else
      ImagePut(c, f)
  }

  /** `displayFrame(index)`: an index outside the frame list draws nothing. */
  function Displayed(c: Canvas, frames: seq<Frame>, index: int): Canvas
    requires AllWellFormed(frames)
  {
    if 0 <= index < |frames| then Painted(c, frames[index]) else c
  }

  /** A canvas of transparent pixels. */
  function Blank(width: nat, height: nat): (c: Canvas)
    ensures HasShape(c, width, height)
  {
    seq(height, _ => seq(width, _ => Transparent))
  }

  /** The canvas after `displayFrame` was called with `shown`, or not called at all. */
  function ShownAfter(c: Canvas, frames: seq<Frame>, shown: Option<nat>): Canvas
    requires AllWellFormed(frames)
  {
    if shown.Some? then Displayed(c, frames, shown.value) else c
  }

  /** Whether `displayFrame` was called with a valid index. */
  predicate InRange(shown: Option<nat>, frameCount: nat) {
    shown.Some? && shown.value < frameCount
  }

  /** Two canvases of the same shape that agree on every pixel are equal. */
  lemma CanvasExtensionality(c: Canvas, d: Canvas)
    requires SameShape(c, d)
    requires forall y, x :: 0 <= y < |c| && 0 <= x < |c[y]| ==> c[y][x] == d[y][x]
    ensures c == d
  {
    forall y | 0 <= y < |c|
      ensures c[y] == d[y]
    {
      assert |c[y]| == |d[y]|;
      forall x | 0 <= x < |c[y]|
        ensures c[y][x] == d[y][x]
      {
      }
    }
  }

  /** The canvas after drawing a frame does not depend on the frame's disposal method. */
  lemma DisposalIrrelevant(c: Canvas, f: Frame, disposal: nat)
    requires WellFormed(f)
    ensures Painted(c, f.(disposalType := disposal)) == Painted(c, f)
  {
    var g := f.(disposalType := disposal);
    assert WellFormed(g);
    CanvasExtensionality(Painted(c, g), Painted(c, f));
  }

  /** Drawing the same frame twice leaves the same canvas as drawing it once. */
  lemma PaintedIdempotent(c: Canvas, f: Frame)
    requires WellFormed(f)
    ensures Painted(Painted(c, f), f) == Painted(c, f)
  {
    var once := Painted(c, f);
    CanvasExtensionality(Painted(once, f), once);
  }

  /** `displayFrame(i); displayFrame(i)` leaves the canvas `displayFrame(i)` leaves. */
  lemma DisplayedIdempotent(c: Canvas, frames: seq<Frame>, index: int)
    requires AllWellFormed(frames)
    ensures Displayed(Displayed(c, frames, index), frames, index) == Displayed(c, frames, index)
  {
    if 0 <= index < |frames| {
      PaintedIdempotent(c, frames[index]);
    }
  }

  /** Clearing the whole canvas (`clearRect(0, 0, width, height)`) leaves it blank, whatever it held. */
  lemma ClearAllIsBlank(c: Canvas, width: nat, height: nat)
    requires HasShape(c, width, height)
    ensures ClearedRect(c, Rect(0, 0, width, height)) == Blank(width, height)
  {
    CanvasExtensionality(ClearedRect(c, Rect(0, 0, width, height)), Blank(width, height));
  }
}
