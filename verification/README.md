# Container with most water: frame generator and playback controller

This project models the core of an animation of the two-pointer solution
to "container with most water". Bars have non-negative integer heights. The
water held between bars `i < j` is `min(h[i], h[j]) * (j - i)`. The
algorithm puts one pointer at each end of the array. At every step it
measures the container between the pointers, keeps a running maximum, and
moves the pointer at the shorter bar inward (on a tie it moves the right
pointer). Each event is recorded as a frame so the animation can play the
trace back.

- `two_pointer.dfy`, module `TwoPointer`, models `src/utils/algorithmUtils.ts`.
  `Frame` is the frame snapshot record. `Scan`/`Generate` give the trace as
  a recursive reference definition. `GenerateTwoPointerFrames` is the
  while-loop generator, proved to produce exactly that trace. `BruteForceMax`
  is an independent brute-force optimum. The lemmas state the shape of every
  trace and prove that its final maximum equals the brute-force optimum.
- `playback.dfy`, module `Playback`, models `src/hooks/useAlgorithmAnimation.ts`.
  `State` is the controller's record. There is one pure transition per
  control (`TogglePlay`, `Reset`, `NextStep`, `PrevStep`, `SetSpeed`,
  `SetHeightArray`) and one, `Tick`, for a firing of the autoplay timer.
  `Consistent` is the invariant that the index is valid and the trace is the
  trace of the current heights. Every transition preserves it.

The frame's `description` string becomes an `Action` tag
(`Init | Compute | MoveLeft | MoveRight | Finish`). There is one tag for
each of the five kinds of frame. The code has six description texts: the
computation frame picks one of two, and `isKeyFrame` tells those two apart.

React's effect that regenerates the frames after the height array changes
(useAlgorithmAnimation.ts:19-27) is applied immediately inside
`SetHeightArray`. It is also applied inside `Initial`, the state after
mounting. The autoplay effect plus the timer it schedules
(useAlgorithmAnimation.ts:30-59) become the single transition `Tick`. In the
code, a tick on the last frame stops playback rather than advancing. So
autoplay reaches the last frame on one tick and pauses on the next. That
stopping tick has no delay in the code: it is the effect run on the very
render that lands on the last frame, and it schedules no timer.

## Model

| member | source | states |
|---|---|---|
| TwoPointer.GenerateTwoPointerFrames | src/utils/algorithmUtils.ts:4-79 | the loop emits exactly the reference trace `Generate(h)`, and its final `maxArea` is the largest area over all pairs of bars |
| TwoPointer.Scan | src/utils/algorithmUtils.ts:20-76 | from pointers `l <= r` the rest of the trace has `2*(r-l)+1` frames: two per loop iteration plus the terminal frame |
| TwoPointer.Generate | src/utils/algorithmUtils.ts:4-79 | for n bars the loop runs exactly n-1 times, so the trace has 2n frames |
| TwoPointer.GenerateEndpoints | src/utils/algorithmUtils.ts:6-76 | for n bars the first frame is (0, n-1, max 0, area 0, key, Init); the last frame has `left == right`, area 0, is a key frame, and repeats the pointers and maximum of the frame before it, i.e. the loop's final pointers; there are 2 + 2(n-1) frames |
| TwoPointer.GeneratePointerBounds | src/utils/algorithmUtils.ts:20-66 | for n bars every frame satisfies 0 <= leftPointer <= rightPointer <= n-1 |
| TwoPointer.GenerateMaxMonotone | src/utils/algorithmUtils.ts:27-30 | `maxArea` never decreases from any frame to any later frame |
| TwoPointer.GenerateIterations | src/utils/algorithmUtils.ts:22-65 | iteration `k` is a computation frame at the current pointers with area `min(h[l],h[r])*(r-l)` that is a key frame iff the area beats the previous maximum (which it then replaces), followed by a non-key move frame that advances `left` when `h[l] < h[r]` and retreats `right` otherwise, keeping `maxArea` and `currentArea` |
| TwoPointer.ScanIterations | src/utils/algorithmUtils.ts:20-66 | from any pointers, every iteration of the remaining scan obeys the computation and move rules |
| TwoPointer.ScanBounds | src/utils/algorithmUtils.ts:45-65 | pointers only move inward: every later frame lies within the current `[l, r]` |
| TwoPointer.ScanMonotone | src/utils/algorithmUtils.ts:27-30 | the running maximum never drops below its starting value and never decreases along the rest of the scan |
| TwoPointer.ScanLast | src/utils/algorithmUtils.ts:68-76 | the scan ends in a terminal key frame with equal pointers and area 0, which repeats the pointers and maximum of the frame before it (the starting pointers when no iteration runs) |
| TwoPointer.DiscardShorter | src/components/algorithm/AlgorithmAnimation.tsx:157-159 | moving the pointer at the shorter bar loses no candidate: every container that keeps that bar and is narrower holds no more than the one just measured; so if every pair outside the pointers held at most the running maximum, every pair outside the new pointers still does |
| TwoPointer.ScanOptimal | src/utils/algorithmUtils.ts:20-66 | if every pair outside `[l, r]` holds at most `best` and `best` is attained, the scan's final maximum is the optimum over all pairs |
| TwoPointer.GenerateOptimal | src/utils/algorithmUtils.ts:20-76 | the final `maxArea` is the maximum of `min(h[i],h[j])*(j-i)` over all `i < j` (0 with a single bar) and equals the brute-force answer |
| TwoPointer.ColumnMax | src/utils/algorithmUtils.ts:22-24 | brute force over left walls: the result bounds every container with right wall `j` and left wall below `i`, and is attained by one of them (or is 0) |
| TwoPointer.PairsMax | src/utils/algorithmUtils.ts:22-24 | brute force over pairs: the result bounds every container with both walls below `n` and is attained by one of them (or is 0) |
| TwoPointer.BruteForceMax | src/utils/algorithmUtils.ts:22-24 | the brute-force answer is the maximum area over all pairs of bars |
| TwoPointer.MaxAreaUnique | src/utils/algorithmUtils.ts:22-24 | the maximum area of an array is unique |
| TwoPointer.DefaultHeightsMaxArea | src/utils/algorithmUtils.ts:82-90 | the example heights `[1,8,6,2,5,4,8,3,7]` end with `maxArea == 49` |
| Playback.Regenerate | src/hooks/useAlgorithmAnimation.ts:19-27 | regeneration installs the trace of the current heights with its length as `totalFrames` and shows frame 0; it changes nothing else |
| Playback.Initial | src/hooks/useAlgorithmAnimation.ts:6-27 | the mounted controller shows frame 0 of the default heights' trace, paused, at 800 ms per frame |
| Playback.TogglePlay | src/hooks/useAlgorithmAnimation.ts:62-67 | flips `isPlaying`, leaves every other field unchanged, and keeps the invariant |
| Playback.Reset | src/hooks/useAlgorithmAnimation.ts:70-76 | pauses and returns to frame 0, leaves every other field unchanged, and keeps the invariant |
| Playback.NextStep | src/hooks/useAlgorithmAnimation.ts:79-87 | before the last frame it advances one frame and pauses; otherwise, and only then, the state is unchanged; it touches nothing but the index and the play flag, and keeps the invariant |
| Playback.PrevStep | src/hooks/useAlgorithmAnimation.ts:90-98 | after frame 0 it goes back one frame and pauses; at frame 0, and only there, the state is unchanged; it keeps the invariant |
| Playback.SetSpeed | src/hooks/useAlgorithmAnimation.ts:107-112 | replaces `animationSpeed` only, and keeps the invariant |
| Playback.SetHeightArray | src/hooks/useAlgorithmAnimation.ts:115-122 | the new heights come with their own trace and its length, paused at frame 0, speed kept; the result always satisfies the invariant |
| Playback.Tick | src/hooks/useAlgorithmAnimation.ts:30-51 | a tick moves the index by 0 or 1. It advances iff playing before the last frame. Playback continues iff it advanced, so a tick while paused does nothing and a tick on the last frame stops playback without wrapping. It keeps the invariant |
| Playback.CurrentFrameData | src/hooks/useAlgorithmAnimation.ts:101-104 | when the index is valid, the result is absent iff there are no frames; a present result is the frame at the current index |
| Playback.PrevUndoesNext | src/hooks/useAlgorithmAnimation.ts:79-98 | a step forward followed by a step back restores the state, paused |
| Playback.NextUndoesPrev | src/hooks/useAlgorithmAnimation.ts:79-98 | a step back followed by a step forward restores the state, paused |
| Playback.NextStepsAdvance | src/hooks/useAlgorithmAnimation.ts:79-87 | `k` manual steps from frame `c` land on frame `c+k` while it exists, paused, with nothing else changed |
| Playback.StepThroughTrace | src/hooks/useAlgorithmAnimation.ts:79-87 | after new heights are set, N-1 manual steps on a trace of N frames reach the terminal frame, and one more step is a no-op |
| Playback.TicksAdvance | src/hooks/useAlgorithmAnimation.ts:38-47 | while frames remain, each tick of a playing controller advances exactly one frame |
| Playback.TicksWhilePaused | src/hooks/useAlgorithmAnimation.ts:31 | ticks leave a paused controller unchanged |
| Playback.AutoplayStopsAtEnd | src/hooks/useAlgorithmAnimation.ts:38-51 | autoplay from frame `c` of `n` reaches frame `n-1` after `n-1-c` ticks, then pauses there and never moves again |
| Playback.TicksCompose | src/hooks/useAlgorithmAnimation.ts:30-51 | `a + b` ticks are `a` ticks followed by `b` ticks |

## Left out

- Empty height arrays: `Generate` and `SetHeightArray` require at least one bar. On an empty array the code emits frames whose right pointer is -1. The input form only passes arrays of two or more bars. A single bar is modelled: its trace is the initial frame plus the terminal frame.
- `description` strings: they are presentational. The `Action` tag records which description is chosen.
- `generateRandomHeights` (src/utils/algorithmUtils.ts:93-105): it depends on `Math.random` and floating point.
- `getExampleFrames` (src/utils/algorithmUtils.ts:82-85): it is `Generate(DefaultHeights())`. `DefaultHeightsMaxArea` states its result.
- Timer scheduling and cancellation (`setTimeout`/`clearTimeout`, effect cleanup): this is event-loop concurrency. Only the resulting state change, `Tick`, is modelled. The speed only sets the delay of the next tick, so time does not appear in the model.
- Height values are unbounded naturals. The code uses JavaScript numbers, whose areas stay exact only while they are below 2^53; custom input puts no upper bound on heights, so the model's exact arithmetic matches the code only below that bound.
- `algorithmType` (`'bruteForce'` is never implemented) and the unused `ContainerData` type.
- Rendering, window resizing, text parsing and input validation in the React components: these are presentation and input handling. Validation only makes sure the controller receives arrays of at least two non-negative integers.
- Interleaving of a manual step with a pending timer update: `nextStep` and `prevStep` test their guard on the rendered state (useAlgorithmAnimation.ts:80, 91) but apply their update to the queued `prev` state. The model applies each transition to one current state. If the autoplay timer's update (line 42) is queued but not yet rendered when `nextStep` runs at the second-to-last frame, both increments apply, and the code can reach `currentFrame == totalFrames`. That state breaks the invariant the model proves.
