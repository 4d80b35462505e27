/**
 * The GIF player of src/parrot.js: its module-level state as a class, `displayFrame`,
 * `startAnimation` with its inner `animateGIF` tick, and the part of `loadGIF` that
 * follows the decoding.
 */
module Parrot {
  import opened Wrappers
  import opened Compositing
  import opened Playback

  /** Width and height of the plane the GIF texture is mapped on. */
  datatype PlaneDims = PlaneDims(width: real, height: real)

  /**
   * The plane size `loadGIF` computes from the canvas size: the longer side is 4 and
   * the width-to-height ratio is the canvas's.
   */
  function PlaneSize(canvasWidth: nat, canvasHeight: nat): (p: PlaneDims)
    requires canvasHeight > 0
    ensures (p.width == 4.0 && p.height <= 4.0) || (p.height == 4.0 && p.width <= 4.0)
    ensures p.width * canvasHeight as real == p.height * canvasWidth as real
    ensures p.width >= 0.0 && p.height > 0.0
  {
    var aspectRatio := canvasWidth as real / canvasHeight as real;
    PlaneDims(if aspectRatio > 1.0 then 4.0 else 4.0 * aspectRatio,
              if aspectRatio > 1.0 then 4.0 / aspectRatio else 4.0)
  }

  /** How `loadGIF` ended once the frames were decoded. */
  datatype LoadResult =
    | NoFrames
    | Loaded(plane: PlaneDims, nextDelay: Option<real>)

  class GifPlayer {
    /** `gifFrames` */
    var frames: seq<Frame>
    /** The canvas the texture shows: row `y`, column `x` is `pixels[y, x]`. */
    var pixels: array2<Rgba>
    /** `texture.needsUpdate` */
    var needsUpdate: bool
    /** Whether `mesh` has been added to the scene. */
    var meshOnScene: bool
    var frameIndex: nat
    var isPlaying: bool
    var playbackSpeed: real
    var shouldLoop: bool

    function ClockState(): Clock
      reads this
    {
      Clock(frameIndex, isPlaying, shouldLoop, playbackSpeed)
    }

    ghost predicate Valid()
      reads this
    {
      AllWellFormed(frames) && ClockInvariant(ClockState(), |frames|)
    }

    /** The canvas as a value. */
    ghost function Image(): (c: Canvas)
      reads this`pixels, pixels
      ensures HasShape(c, pixels.Length1, pixels.Length0)
    {
      var a := pixels;
      seq(a.Length0, y reads a requires 0 <= y < a.Length0 =>
        seq(a.Length1, x reads a requires 0 <= x < a.Length1 => a[y, x]))
    }

    /** The module's initial state: nothing loaded, speed 1, looping on. */
    constructor ()
      ensures Valid() && frames == [] && !meshOnScene && !needsUpdate
      ensures ClockState() == Clock(0, false, true, 1.0)
    {
      frames := [];
      pixels := new Rgba[0, 0];
      needsUpdate := false;
      meshOnScene := false;
      frameIndex := 0;
      isPlaying := false;
      playbackSpeed := 1.0;
      shouldLoop := true;
    }

    /** `ctx.clearRect(r.left, r.top, r.width, r.height)` */
    method ClearRect(r: Rect)
      modifies pixels
      ensures Image() == ClearedRect(old(Image()), r)
    {
      forall y, x | 0 <= y < pixels.Length0 && 0 <= x < pixels.Length1 && InRect(r, x, y) {
        pixels[y, x] := Transparent;
      }
      CanvasExtensionality(Image(), ClearedRect(old(Image()), r));
    }

    /** `ctx.putImageData(new ImageData(f.patch, f.dims.width, f.dims.height), f.dims.left, f.dims.top)` */
    method PutImageData(f: Frame)
      requires WellFormed(f)
      modifies pixels
      ensures Image() == ImagePut(old(Image()), f)
    {
      forall y, x | 0 <= y < pixels.Length0 && 0 <= x < pixels.Length1 && InRect(f.dims, x, y) {
        pixels[y, x] := PatchPixel(f, x - f.dims.left, y - f.dims.top);
      }
      CanvasExtensionality(Image(), ImagePut(old(Image()), f));
    }

    /**
     * `displayFrame(index)`: draws frame `index` and marks the texture dirty; an index
     * outside the frame list changes nothing.
     */
    method DisplayFrame(index: int)
      requires AllWellFormed(frames)
      modifies pixels, this`needsUpdate
      ensures Image() == Displayed(old(Image()), frames, index)
      ensures needsUpdate == (old(needsUpdate) || 0 <= index < |frames|)
    {
      if index < 0 || index >= |frames| {
        return;
      }
      var frame := frames[index];
      if frame.disposalType == 2 {
        ClearRect(frame.dims);
      } else if frame.disposalType == 3 {
        // restore-previous is left unimplemented by the code
      }
      PutImageData(frame);
      needsUpdate := true;
    }

    /**
     * `animateGIF`: one timer tick. Returns the delay of the next tick, or None when it
     * schedules none.
     */
    method AnimateGif() returns (delay: Option<real>)
      requires AllWellFormed(frames) && CanTick(ClockState(), |frames|)
      modifies pixels, this`needsUpdate, this`frameIndex, this`isPlaying
      ensures old(isPlaying) ==> Valid()
      ensures ClockState() == Tick(old(ClockState()), frames).next
      ensures delay == Tick(old(ClockState()), frames).delay
      ensures Image() == ShownAfter(old(Image()), frames, Tick(old(ClockState()), frames).displayed)
      ensures needsUpdate == (old(needsUpdate) || InRange(Tick(old(ClockState()), frames).displayed, |frames|))
    {
      if !isPlaying {
        return None;
      }
      var frame := if frameIndex < |frames| then Some(frames[frameIndex]) else None;
      DisplayFrame(frameIndex);

      frameIndex := frameIndex + 1;

      if frameIndex >= |frames| {
        if shouldLoop {
          frameIndex := 0;
        } else {
          isPlaying := false;
          return None;
        }
      }

      delay := Some(FrameDelay(frame.value) / playbackSpeed);
    }

    /**
     * `startAnimation`: a no-op when already playing or when no frames are loaded;
     * otherwise starts playing and runs the first tick at once.
     */
    method StartAnimation() returns (delay: Option<real>)
      requires Valid()
      modifies pixels, this`needsUpdate, this`frameIndex, this`isPlaying
      ensures Valid()
      ensures ClockState() == Start(old(ClockState()), frames).next
      ensures delay == Start(old(ClockState()), frames).delay
      ensures Image() == ShownAfter(old(Image()), frames, Start(old(ClockState()), frames).displayed)
      ensures needsUpdate == (old(needsUpdate) || InRange(Start(old(ClockState()), frames).displayed, |frames|))
    {
      if isPlaying || |frames| == 0 {
        return None;
      }
      isPlaying := true;
      delay := AnimateGif();
    }

    /** A new canvas of the logical screen size, cleared to transparent. */
    method CreateCanvas(width: nat, height: nat)
      modifies this`pixels
      ensures fresh(pixels) && pixels.Length0 == height && pixels.Length1 == width
      ensures Image() == Blank(width, height)
    {
      pixels := new Rgba[height, width];
      ghost var uninitialised := Image();
      ClearRect(Rect(0, 0, width, height));
      ClearAllIsBlank(uninitialised, width, height);
    }

    /** The end of `loadGIF`: show frame 0, then start playback from it. */
    method PlayFromStart() returns (delay: Option<real>)
      requires Valid() && !isPlaying && |frames| > 0
      modifies pixels, this`needsUpdate, this`frameIndex, this`isPlaying
      ensures Valid() && needsUpdate
      ensures Image() == Painted(old(Image()), frames[0])
      ensures ClockState() == Start(old(ClockState()).(frameIndex := 0), frames).next
      ensures delay == Start(old(ClockState()).(frameIndex := 0), frames).delay
    {
      frameIndex := 0;
      DisplayFrame(0);
      delay := StartAnimation();
      PaintedIdempotent(old(Image()), frames[0]);
    }

    /**
     * `loadGIF` from the point the frames are decoded: rejects an empty frame list,
     * otherwise makes a blank canvas of the logical screen size, shows frame 0 and
     * starts playback.
     */
    method LoadGif(decoded: seq<Frame>, screenWidth: nat, screenHeight: nat) returns (r: LoadResult)
      requires Valid() && frames == []
      requires AllWellFormed(decoded) && screenHeight > 0
      modifies this`frames, this`pixels, this`needsUpdate, this`meshOnScene, this`frameIndex, this`isPlaying
      ensures Valid() && frames == decoded
      ensures |decoded| == 0 ==>
        && r == NoFrames
        && ClockState() == old(ClockState())
        && pixels == old(pixels) && needsUpdate == old(needsUpdate) && meshOnScene == old(meshOnScene)
      ensures |decoded| > 0 ==>
        && fresh(pixels) && pixels.Length0 == screenHeight && pixels.Length1 == screenWidth
        && Image() == Painted(Blank(screenWidth, screenHeight), decoded[0])
        && needsUpdate && meshOnScene
        && var t := Start(old(ClockState()).(frameIndex := 0), decoded);
           ClockState() == t.next && r == Loaded(PlaneSize(screenWidth, screenHeight), t.delay)
    {
      frames := decoded;
      if |decoded| == 0 {
        return NoFrames;
      }
      if meshOnScene {
        meshOnScene := false;
      }

      CreateCanvas(screenWidth, screenHeight);

      var plane := PlaneSize(screenWidth, screenHeight);
      meshOnScene := true;

      var delay := PlayFromStart();
      r := Loaded(plane, delay);
    }
  }
}
