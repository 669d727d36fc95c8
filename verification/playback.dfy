/**
 The playback controller of the animation: a record holding the height
 array, its frame trace, the frame on screen, the play flag and the speed,
 with one pure transition per user action and one for the autoplay timer.

 The regeneration the controller performs whenever the height array changes
 is folded into `SetHeightArray` and `Initial`, so no state ever pairs a
 height array with a stale trace.
 */
module Playback {
  import opened TwoPointer

  datatype Option<T> = None | Some(value: T)

  datatype State = State(
    isPlaying: bool,
    currentFrame: nat,
    totalFrames: nat,
    frameSnapshots: seq<Frame>,
    heightArray: seq<nat>,
    animationSpeed: int)

  /** Milliseconds per frame when the controller starts. */
  const DefaultSpeed := 800

  /** The frame index is valid whenever there are frames to show. */
  ghost predicate WellFormed(s: State)
  {
    && s.totalFrames == |s.frameSnapshots|
    && (s.totalFrames > 0 ==> s.currentFrame < s.totalFrames)
  }

  /** The trace on display is the trace of the current height array. */
  ghost predicate Consistent(s: State)
  {
    && WellFormed(s)
    && |s.heightArray| >= 1
    && s.frameSnapshots == Generate(s.heightArray)
  }

  /** The controller's regeneration: a fresh trace for the current heights, shown from its start. */
  function Regenerate(s: State): (r: State)
    requires |s.heightArray| >= 1
    ensures Consistent(r)
    ensures r.currentFrame == 0 && r.totalFrames == 2 * |s.heightArray|
    ensures r.(frameSnapshots := s.frameSnapshots, totalFrames := s.totalFrames, currentFrame := s.currentFrame) == s
  {
    var frames := Generate(s.heightArray);
    s.(frameSnapshots := frames, totalFrames := |frames|, currentFrame := 0)
  }

  /** The state after mounting: the default heights, regenerated, paused. */
  function Initial(): (r: State)
    ensures Consistent(r)
    ensures r.heightArray == DefaultHeights()
    ensures r.currentFrame == 0 && !r.isPlaying
    ensures r.animationSpeed == DefaultSpeed
  {
    Regenerate(State(false, 0, 0, [], DefaultHeights(), DefaultSpeed))
  }

  function TogglePlay(s: State): (r: State)
    ensures r.isPlaying != s.isPlaying
    ensures r.(isPlaying := s.isPlaying) == s
    ensures Consistent(s) ==> Consistent(r)
  {
    s.(isPlaying := !s.isPlaying)
  }

  function Reset(s: State): (r: State)
    ensures !r.isPlaying && r.currentFrame == 0
    ensures r.(isPlaying := s.isPlaying, currentFrame := s.currentFrame) == s
    ensures Consistent(s) ==> Consistent(r)
  {
    s.(isPlaying := false, currentFrame := 0)
  }

  /** Manual step forward; it pauses autoplay, and does nothing on the last frame. */
  function NextStep(s: State): (r: State)
    ensures r.(isPlaying := s.isPlaying, currentFrame := s.currentFrame) == s
    ensures s.currentFrame + 1 < s.totalFrames ==> r.currentFrame == s.currentFrame + 1 && !r.isPlaying
    ensures r == s <==> s.currentFrame + 1 >= s.totalFrames
    ensures Consistent(s) ==> Consistent(r)
  {
    if s.currentFrame < s.totalFrames - 1 then
      s.(currentFrame := s.currentFrame + 1, isPlaying := false)
    else
      s
  }

  /** Manual step back; it pauses autoplay, and does nothing on the first frame. */
  function PrevStep(s: State): (r: State)
    ensures r.(isPlaying := s.isPlaying, currentFrame := s.currentFrame) == s
    ensures s.currentFrame > 0 ==> r.currentFrame == s.currentFrame - 1 && !r.isPlaying
    ensures r == s <==> s.currentFrame == 0
    ensures Consistent(s) ==> Consistent(r)
  {
    if s.currentFrame > 0 then
      s.(currentFrame := s.currentFrame - 1, isPlaying := false)
    else
      s
  }

  function SetSpeed(s: State, speed: int): (r: State)
    ensures r.animationSpeed == speed
    ensures r.(animationSpeed := s.animationSpeed) == s
    ensures Consistent(s) ==> Consistent(r)
  {
    s.(animationSpeed := speed)
  }

  /** Replaces the heights; the trace is regenerated and shown, paused, from its first frame. */
  function SetHeightArray(s: State, h: seq<nat>): (r: State)
    requires |h| >= 1
    ensures Consistent(r)
    ensures r.heightArray == h && r.frameSnapshots == Generate(h) && r.totalFrames == 2 * |h|
    ensures r.currentFrame == 0 && !r.isPlaying
    ensures r.animationSpeed == s.animationSpeed
  {
    Regenerate(s.(heightArray := h, isPlaying := false, currentFrame := 0))
  }

  /**
   One firing of the autoplay timer: while playing it advances one frame, and
   on the last frame it stops playback instead of advancing or wrapping. The
   stopping step waits for no timer: the controller takes it as soon as the
   last frame is shown.
   */
  function Tick(s: State): (r: State)
    ensures r.(isPlaying := s.isPlaying, currentFrame := s.currentFrame) == s
    ensures r.currentFrame == s.currentFrame || r.currentFrame == s.currentFrame + 1
    ensures r.currentFrame == s.currentFrame + 1 <==> s.isPlaying && s.currentFrame + 1 < s.totalFrames
    ensures r.isPlaying <==> s.isPlaying && s.currentFrame + 1 < s.totalFrames
    ensures Consistent(s) ==> Consistent(r)
  {
    if s.isPlaying then
      if s.currentFrame < s.totalFrames - 1 then
        s.(currentFrame := s.currentFrame + 1)
      else
        s.(isPlaying := false)
    else
      s
  }

  /** The frame on display; JavaScript's `undefined` for an index past the end is `None` too. */
  function CurrentFrameData(s: State): (r: Option<Frame>)
    ensures r.Some? ==> s.currentFrame < |s.frameSnapshots| && r.value == s.frameSnapshots[s.currentFrame]
    ensures WellFormed(s) ==> (r.None? <==> s.frameSnapshots == [])
  {
    if |s.frameSnapshots| == 0 then None
    else if s.currentFrame < |s.frameSnapshots| then Some(s.frameSnapshots[s.currentFrame])
    else None
  }

  // ---------------------------------------------------------------------------
  // Sequences of transitions
  // ---------------------------------------------------------------------------

  function NextSteps(s: State, k: nat): State
  {
    if k == 0 then s else NextStep(NextSteps(s, k - 1))
  }

  function Ticks(s: State, k: nat): State
  {
    if k == 0 then s else Tick(Ticks(s, k - 1))
  }

  /** Stepping back undoes a step forward, except that playback ends up paused. */
  lemma PrevUndoesNext(s: State)
    requires s.currentFrame + 1 < s.totalFrames
    ensures PrevStep(NextStep(s)) == s.(isPlaying := false)
  {
  }

  /** Stepping forward undoes a step back, except that playback ends up paused. */
  lemma NextUndoesPrev(s: State)
    requires 0 < s.currentFrame < s.totalFrames
    ensures NextStep(PrevStep(s)) == s.(isPlaying := false)
  {
  }

  /** `k` manual steps from frame `c` land on frame `c + k` while it exists. */
  lemma {:induction false} NextStepsAdvance(s: State, k: nat)
    requires s.currentFrame + k < s.totalFrames
    ensures NextSteps(s, k).currentFrame == s.currentFrame + k
    ensures NextSteps(s, k) == (if k == 0 then s else s.(currentFrame := s.currentFrame + k, isPlaying := false))
  {
    if k > 0 {
      NextStepsAdvance(s, k - 1);
    }
  }

  /**
   After new heights are set, |trace| - 1 manual steps reach the terminal frame
   and one more step changes nothing.
   */
  lemma StepThroughTrace(s: State, h: seq<nat>)
    requires |h| >= 1
    ensures var s0 := SetHeightArray(s, h);
      var fs := Generate(h);
      var end := NextSteps(s0, |fs| - 1);
      && end.currentFrame == |fs| - 1
      && CurrentFrameData(end) == Some(Last(fs))
      && Terminal(Last(fs))
      && NextStep(end) == end
  {
    var s0 := SetHeightArray(s, h);
    NextStepsAdvance(s0, |Generate(h)| - 1);
    GenerateEndpoints(h);
  }

  /** While frames remain, each tick of a playing controller advances exactly one frame. */
  lemma {:induction false} TicksAdvance(s: State, k: nat)
    requires s.isPlaying
    requires s.currentFrame + k < s.totalFrames
    ensures Ticks(s, k) == s.(currentFrame := s.currentFrame + k)
  {
    if k > 0 {
      TicksAdvance(s, k - 1);
    }
  }

  /** A paused controller ignores the timer. */
  lemma {:induction false} TicksWhilePaused(s: State, k: nat)
    requires !s.isPlaying
    ensures Ticks(s, k) == s
  {
    if k > 0 {
      TicksWhilePaused(s, k - 1);
    }
  }

  /**
   Autoplay from frame `c` of `n` frames reaches frame n - 1 after n - 1 - c
   ticks, stops on the next tick, and never moves again: it does not wrap to 0.
   */
  lemma AutoplayStopsAtEnd(s: State, extra: nat)
    requires WellFormed(s) && s.totalFrames > 0
    requires s.isPlaying
    ensures var k := s.totalFrames - 1 - s.currentFrame;
      && Ticks(s, k) == s.(currentFrame := s.totalFrames - 1)
      && Ticks(s, k + 1 + extra) == s.(currentFrame := s.totalFrames - 1, isPlaying := false)
  {
    var k := s.totalFrames - 1 - s.currentFrame;
    TicksAdvance(s, k);
    var stopped := s.(currentFrame := s.totalFrames - 1, isPlaying := false);
    assert Ticks(s, k + 1) == stopped;
    TicksWhilePaused(stopped, extra);
    TicksCompose(s, k + 1, extra);
  }

  lemma {:induction false} TicksCompose(s: State, a: nat, b: nat)
    ensures Ticks(s, a + b) == Ticks(Ticks(s, a), b)
  {
    if b > 0 {
      TicksCompose(s, a, b - 1);
    }
  }
}
