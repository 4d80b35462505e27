/**
 * The playback clock of src/parrot.js (`startAnimation` and its inner `animateGIF`),
 * on values. One timer tick displays the current frame, advances the index, wraps
 * it to 0 or stops at the end, and yields the delay before the next tick instead of
 * calling `setTimeout`.
 */
module Playback {
  import opened Wrappers
  import opened Compositing
  import opened Arithmetic

  /** The module-level variables the tick reads and writes. */
  datatype Clock = Clock(frameIndex: nat, isPlaying: bool, shouldLoop: bool, playbackSpeed: real)

  /**
   * What one call of `animateGIF` did: the clock afterwards, the index it passed to
   * `displayFrame` (none when it returned at once) and the delay it scheduled, if any.
   */
  datatype TickOutcome = TickOutcome(next: Clock, displayed: Option<nat>, delay: Option<real>)

  /** The delay used when a frame's delay is 0 or absent. */
  const DefaultDelay: real := 100.0

  /** `frame.delay || 100`: never zero, so playback never spins. */
  function FrameDelay(f: Frame): (d: real)
    ensures d > 0.0
    ensures f.delay.Some? && f.delay.value != 0 ==> d == f.delay.value as real
    ensures f.delay.None? || f.delay.value == 0 ==> d == DefaultDelay
  {
    match f.delay
    case Some(ms) => if ms != 0 then ms as real else DefaultDelay
    case None => DefaultDelay
  }

  /**
   * The states the player can be in between ticks: a playing clock points at a frame,
   * and a looping clock never points past the last frame (except index 0 before any
   * frames are loaded).
   */
  predicate ClockInvariant(c: Clock, frameCount: nat) {
    && c.playbackSpeed > 0.0
    && (c.isPlaying ==> c.frameIndex < frameCount)
    && (c.shouldLoop ==> c.frameIndex < frameCount || c.frameIndex == 0)
  }

  /**
   * What a tick needs so that it does not read `.delay` of a missing frame: a playing,
   * looping clock points at a frame. (`startAnimation` may start a stopped one-shot
   * clock whose index has run past the end; that tick just stops it again.)
   */
  predicate CanTick(c: Clock, frameCount: nat) {
    c.playbackSpeed > 0.0 && (c.isPlaying && c.shouldLoop ==> c.frameIndex < frameCount)
  }

  /** One call of `animateGIF`. */
  function Tick(c: Clock, frames: seq<Frame>): (t: TickOutcome)
    requires CanTick(c, |frames|)
    ensures !c.isPlaying ==> t == TickOutcome(c, None, None)
    ensures c.isPlaying ==> t.displayed == Some(c.frameIndex) && ClockInvariant(t.next, |frames|)
    ensures t.next.shouldLoop == c.shouldLoop && t.next.playbackSpeed == c.playbackSpeed
    ensures t.delay.Some? <==> c.isPlaying && t.next.isPlaying
    ensures t.delay.Some? ==>
      c.frameIndex < |frames| && t.delay.value == FrameDelay(frames[c.frameIndex]) / c.playbackSpeed
    ensures c.isPlaying && c.shouldLoop ==> t.next.isPlaying
    ensures t.next.isPlaying ==> t.next.frameIndex == (c.frameIndex + 1) % |frames|
    ensures c.isPlaying && !t.next.isPlaying ==> t.next.frameIndex == c.frameIndex + 1 >= |frames|
    ensures c.isPlaying ==> (t.next.isPlaying <==> c.shouldLoop || c.frameIndex + 1 < |frames|)
  {
    if !c.isPlaying then
      TickOutcome(c, None, None)
    else
      var index := c.frameIndex + 1;
      if index >= |frames| && !c.shouldLoop then
        TickOutcome(c.(frameIndex := index, isPlaying := false), Some(c.frameIndex), None)
      else
        var wrapped := if index >= |frames| then 0 else index;
        var delay := FrameDelay(frames[c.frameIndex]) / c.playbackSpeed;
        TickOutcome(c.(frameIndex := wrapped), Some(c.frameIndex), Some(delay))
  }

  /**
   * `startAnimation`: a no-op when already playing or when there are no frames;
   * otherwise it sets `isPlaying` and runs the first tick at once.
   */
  function Start(c: Clock, frames: seq<Frame>): (t: TickOutcome)
    requires ClockInvariant(c, |frames|)
    ensures c.isPlaying || |frames| == 0 ==> t == TickOutcome(c, None, None)
    ensures !c.isPlaying && |frames| > 0 ==>
      t.displayed == Some(c.frameIndex) && t == Tick(c.(isPlaying := true), frames)
    ensures ClockInvariant(t.next, |frames|)
  {
    if c.isPlaying || |frames| == 0 then
      TickOutcome(c, None, None)
    else
      Tick(c.(isPlaying := true), frames)
  }

  /** The clock after `k` ticks. */
  function Run(c: Clock, frames: seq<Frame>, k: nat): (r: Clock)
    requires ClockInvariant(c, |frames|)
    ensures ClockInvariant(r, |frames|)
    ensures r.shouldLoop == c.shouldLoop && r.playbackSpeed == c.playbackSpeed
  {
    if k == 0 then c else Tick(Run(c, frames, k - 1), frames).next
  }

  /** The indices passed to `displayFrame` by the first `k` ticks, in order. */
  function Visited(c: Clock, frames: seq<Frame>, k: nat): (v: seq<nat>)
    requires ClockInvariant(c, |frames|)
    ensures |v| <= k
    ensures forall i :: 0 <= i < |v| ==> v[i] < |frames|
  {
    if k == 0 then []
    else
      var before := Run(c, frames, k - 1);
      Visited(c, frames, k - 1) + (if before.isPlaying then [before.frameIndex] else [])
  }

  lemma SuccessorMod(a: nat, n: nat)
    requires n > 0
    ensures (a + 1) % n == (if a % n + 1 < n then a % n + 1 else 0)
  {
    var q := a / n;
    assert a == q * n + a % n;
    if a % n + 1 < n {
      DivModUnique(a + 1, n, q, a % n + 1);
    } else {
      DivModUnique(a + 1, n, q + 1, 0);
    }
  }

  /**
   * With looping on, a playing clock keeps playing, and the ticks display the frames
   * in ascending order from where it started, wrapping from the last frame to frame 0.
   */
  lemma {:induction false} LoopingCycle(c: Clock, frames: seq<Frame>, k: nat)
    requires ClockInvariant(c, |frames|) && c.isPlaying && c.shouldLoop
    ensures Run(c, frames, k).isPlaying
    ensures Run(c, frames, k).frameIndex == (c.frameIndex + k) % |frames|
    ensures Visited(c, frames, k) == seq(k, j => (c.frameIndex + j) % |frames|)
  {
    var n := |frames|;
    if k > 0 {
      LoopingCycle(c, frames, k - 1);
      var before := Run(c, frames, k - 1);
      SuccessorMod(c.frameIndex + k - 1, n);
      assert (c.frameIndex + k - 1) % n == before.frameIndex;
      var expected := seq(k, j => (c.frameIndex + j) % n);
      assert Visited(c, frames, k) == seq(k - 1, j => (c.frameIndex + j) % n) + [before.frameIndex];
      assert Visited(c, frames, k) == expected;
    }
  }

  /** Started at frame 0 with looping on, `n` ticks show frames 0..n-1 once each and return to frame 0. */
  lemma LoopingVisitsEachFrameOnce(c: Clock, frames: seq<Frame>)
    requires ClockInvariant(c, |frames|) && c.isPlaying && c.shouldLoop && c.frameIndex == 0
    ensures Run(c, frames, |frames|).isPlaying && Run(c, frames, |frames|).frameIndex == 0
    ensures Visited(c, frames, |frames|) == seq(|frames|, j => j)
  {
    var n := |frames|;
    LoopingCycle(c, frames, n);
    DivModUnique(n, n, 1, 0);
    var v := Visited(c, frames, n);
    forall j | 0 <= j < n
      ensures v[j] == j
    {
      DivModUnique(j, n, 0, j);
    }
  }

  /**
   * With looping off, a clock started at frame 0 displays every frame once, in order,
   * and after the last frame stops with the index one past the end.
   */
  lemma {:induction false} OneShotPlaysThrough(c: Clock, frames: seq<Frame>, k: nat)
    requires ClockInvariant(c, |frames|) && c.isPlaying && !c.shouldLoop && c.frameIndex == 0
    requires k <= |frames|
    ensures Run(c, frames, k) == (if k < |frames| then c.(frameIndex := k) else c.(frameIndex := k, isPlaying := false))
    ensures Visited(c, frames, k) == seq(k, j => j)
  {
    if k > 0 {
      OneShotPlaysThrough(c, frames, k - 1);
      assert Visited(c, frames, k) == seq(k - 1, j => j) + [k - 1];
    }
  }

  /** Once a one-shot clock has stopped, further ticks change nothing and display nothing. */
  lemma {:induction false} StoppedStaysStopped(c: Clock, frames: seq<Frame>, k: nat, extra: nat)
    requires ClockInvariant(c, |frames|) && !Run(c, frames, k).isPlaying
    ensures Run(c, frames, k + extra) == Run(c, frames, k)
    ensures Visited(c, frames, k + extra) == Visited(c, frames, k)
  {
    if extra > 0 {
      StoppedStaysStopped(c, frames, k, extra - 1);
    }
  }
}
