/**
 The frame generator of the "container with most water" animation: a
 two-pointer scan over a sequence of bar heights that records one frame per
 algorithmic event (initialisation, area computation, pointer move, end).

 `Scan` is the reference definition of the trace, `GenerateTwoPointerFrames`
 the loop that produces it, and the lemmas below state what every trace looks
 like and that its final maximum is the brute-force optimum.
 */
module TwoPointer {

  /** What a frame records; stands in for the frame's human-readable description. */
  datatype Action = Init | Compute | MoveLeft | MoveRight | Finish

  /** One snapshot of the scan. */
  datatype Frame = Frame(
    left: nat,
    right: nat,
    maxArea: nat,
    currentArea: nat,
    isKeyFrame: bool,
    action: Action)

  function Min(a: nat, b: nat): nat
  {
    if a < b then a else b
  }

  function Max(a: nat, b: nat): nat
  {
    if a < b then b else a
  }

  /** The water held between bars `i` and `j`. */
  function Area(h: seq<nat>, i: nat, j: nat): nat
    requires i <= j < |h|
  {
    Min(h[i], h[j]) * (j - i)
  }

  function Last(fs: seq<Frame>): Frame
    requires |fs| > 0
  {
    fs[|fs| - 1]
  }

  /** The example input the animation starts with. */
  function DefaultHeights(): seq<nat>
  {
    [1, 8, 6, 2, 5, 4, 8, 3, 7]
  }

  // ---------------------------------------------------------------------------
  // The optimum, stated and computed by brute force
  // ---------------------------------------------------------------------------

  /** `m` is the largest area over all pairs of distinct bars (0 when there is no pair). */
  ghost predicate IsMaxArea(h: seq<nat>, m: nat)
  {
    && (forall i, j :: 0 <= i < j < |h| ==> Area(h, i, j) <= m)
    && (m == 0 || exists i, j :: 0 <= i < j < |h| && Area(h, i, j) == m)
  }

  /** The largest area of a container whose right wall is `j` and left wall is below `i`. */
  function ColumnMax(h: seq<nat>, j: nat, i: nat): (m: nat)
    requires i <= j < |h|
    ensures forall k :: 0 <= k < i ==> Area(h, k, j) <= m
    ensures m == 0 || exists k :: 0 <= k < i && Area(h, k, j) == m
  {
    if i == 0 then 0 else Max(ColumnMax(h, j, i - 1), Area(h, i - 1, j))
  }

  /** The largest area of a container whose two walls are both below `n`. */
  function PairsMax(h: seq<nat>, n: nat): (m: nat)
    requires n <= |h|
    ensures forall i, j :: 0 <= i < j < n ==> Area(h, i, j) <= m
    ensures m == 0 || exists i, j :: 0 <= i < j < n && Area(h, i, j) == m
  {
    if n == 0 then 0
    else
      var m := Max(PairsMax(h, n - 1), ColumnMax(h, n - 1, n - 1));
      assert forall i, j :: 0 <= i < j < n ==> Area(h, i, j) <= m by {
        forall i, j | 0 <= i < j < n
          ensures Area(h, i, j) <= m
        {
          if j < n - 1 {
            assert Area(h, i, j) <= PairsMax(h, n - 1);
          } else {
            assert Area(h, i, j) <= ColumnMax(h, n - 1, n - 1);
          }
        }
      }
      m
  }

  /** The brute-force answer: the maximum over all pairs `i < j`. */
  function BruteForceMax(h: seq<nat>): (m: nat)
    ensures IsMaxArea(h, m)
  {
    PairsMax(h, |h|)
  }

  lemma MaxAreaUnique(h: seq<nat>, m1: nat, m2: nat)
    requires IsMaxArea(h, m1) && IsMaxArea(h, m2)
    ensures m1 == m2
  {
  }

  // ---------------------------------------------------------------------------
  // The trace
  // ---------------------------------------------------------------------------

  function InitialFrame(h: seq<nat>): Frame
    requires |h| >= 1
  {
    Frame(0, |h| - 1, 0, 0, true, Init)
  }

  /**
   The frames the loop emits from pointers `l`, `r` with running maximum
   `best`: a computation frame and a move frame per iteration, then the
   terminal frame.
   */
  function Scan(h: seq<nat>, l: nat, r: nat, best: nat): (fs: seq<Frame>)
    requires l <= r < |h|
    ensures |fs| == 2 * (r - l) + 1
    decreases r - l
  {
    if l < r then
      var area := Area(h, l, r);
      var isNewMax := area > best;
      var best' := if isNewMax then area else best;
      var compute := Frame(l, r, best', area, isNewMax, Compute);
      var move :=
        if h[l] < h[r] then Frame(l + 1, r, best', area, false, MoveLeft)
        else Frame(l, r - 1, best', area, false, MoveRight);
      [compute, move] + Scan(h, move.left, move.right, best')
    else
      [Frame(l, r, best, 0, true, Finish)]
  }

  /** The whole frame sequence for `h`; the loop runs exactly |h| - 1 times. */
  function Generate(h: seq<nat>): (fs: seq<Frame>)
    requires |h| >= 1
    ensures |fs| == 2 * |h|
  {
    [InitialFrame(h)] + Scan(h, 0, |h| - 1, 0)
  }

  /** The computation frame `c` follows `prev`, whose pointers it evaluates. */
  ghost predicate ComputeFollows(h: seq<nat>, prev: Frame, c: Frame)
  {
    && prev.left < prev.right < |h|
    && c.left == prev.left && c.right == prev.right
    && c.currentArea == Area(h, c.left, c.right)
    && (c.isKeyFrame <==> c.currentArea > prev.maxArea)
    && c.maxArea == (if c.isKeyFrame then c.currentArea else prev.maxArea)
    && c.action == Compute
  }

  /** The move frame `m` discards the shorter wall of `c` (the right one on a tie). */
  ghost predicate MoveFollows(h: seq<nat>, c: Frame, m: Frame)
  {
    && c.left < c.right < |h|
    && (if h[c.left] < h[c.right]
        then m.left == c.left + 1 && m.right == c.right && m.action == MoveLeft
        else m.left == c.left && m.right == c.right - 1 && m.action == MoveRight)
    && m.maxArea == c.maxArea
    && m.currentArea == c.currentArea
    && !m.isKeyFrame
  }

  /** Iteration `k` of the loop occupies frames 2k+1 (compute) and 2k+2 (move). */
  ghost predicate IterationOk(h: seq<nat>, fs: seq<Frame>, k: nat)
  {
    && 2 * k + 2 < |fs|
    && ComputeFollows(h, fs[2 * k], fs[2 * k + 1])
    && MoveFollows(h, fs[2 * k + 1], fs[2 * k + 2])
  }

  ghost predicate Terminal(f: Frame)
  {
    f.left == f.right && f.currentArea == 0 && f.isKeyFrame && f.action == Finish
  }

  /** Every pair of walls not both inside [l, r] holds at most `best`. */
  ghost predicate Covered(h: seq<nat>, l: nat, r: nat, best: nat)
  {
    forall i, j :: 0 <= i < j < |h| && (i < l || r < j) ==> Area(h, i, j) <= best
  }

  ghost predicate Achieved(h: seq<nat>, best: nat)
  {
    best == 0 || exists i, j :: 0 <= i < j < |h| && Area(h, i, j) == best
  }

  // ---------------------------------------------------------------------------
  // Lemmas about Scan
  // ---------------------------------------------------------------------------

  lemma {:induction false} ScanBounds(h: seq<nat>, l: nat, r: nat, best: nat)
    requires l <= r < |h|
    ensures forall i :: 0 <= i < |Scan(h, l, r, best)| ==>
      l <= Scan(h, l, r, best)[i].left <= Scan(h, l, r, best)[i].right <= r
    decreases r - l
  {
    if l < r {
      var fs := Scan(h, l, r, best);
      var m := fs[1];
      var rest := Scan(h, m.left, m.right, m.maxArea);
      assert fs == fs[..2] + rest;
      ScanBounds(h, m.left, m.right, m.maxArea);
      forall i | 0 <= i < |fs|
        ensures l <= fs[i].left <= fs[i].right <= r
      {
        if i >= 2 {
          assert fs[i] == rest[i - 2];
        }
      }
    }
  }

  lemma {:induction false} ScanMonotone(h: seq<nat>, l: nat, r: nat, best: nat)
    requires l <= r < |h|
    ensures forall i :: 0 <= i < |Scan(h, l, r, best)| ==> best <= Scan(h, l, r, best)[i].maxArea
    ensures forall i, j :: 0 <= i <= j < |Scan(h, l, r, best)| ==>
      Scan(h, l, r, best)[i].maxArea <= Scan(h, l, r, best)[j].maxArea
    decreases r - l
  {
    if l < r {
      var fs := Scan(h, l, r, best);
      var m := fs[1];
      var rest := Scan(h, m.left, m.right, m.maxArea);
      assert fs == fs[..2] + rest;
      ScanMonotone(h, m.left, m.right, m.maxArea);
      assert forall i :: 2 <= i < |fs| ==> fs[i] == rest[i - 2];
    }
  }

  lemma {:induction false} ScanLast(h: seq<nat>, l: nat, r: nat, best: nat)
    requires l <= r < |h|
    ensures Terminal(Last(Scan(h, l, r, best)))
    ensures l == r ==> Last(Scan(h, l, r, best)).left == l && Last(Scan(h, l, r, best)).maxArea == best
    ensures l < r ==>
      var fs := Scan(h, l, r, best);
      && Last(fs).left == fs[2 * (r - l) - 1].left
      && Last(fs).right == fs[2 * (r - l) - 1].right
      && Last(fs).maxArea == fs[2 * (r - l) - 1].maxArea
    decreases r - l
  {
    if l < r {
      var fs := Scan(h, l, r, best);
      var m := fs[1];
      var rest := Scan(h, m.left, m.right, m.maxArea);
      assert fs == fs[..2] + rest;
      ScanLast(h, m.left, m.right, m.maxArea);
      assert Last(fs) == Last(rest);
      assert fs[2 * (r - l) - 1] == if |rest| == 1 then m else rest[|rest| - 2];
    }
  }

  lemma {:induction false} ScanIterations(h: seq<nat>, l: nat, r: nat, best: nat, prev: Frame)
    requires l <= r < |h|
    requires prev.left == l && prev.right == r && prev.maxArea == best
    ensures forall k :: 0 <= k < r - l ==> IterationOk(h, [prev] + Scan(h, l, r, best), k)
    decreases r - l
  {
    if l < r {
      var fs := [prev] + Scan(h, l, r, best);
      var m := fs[2];
      var rest := [m] + Scan(h, m.left, m.right, m.maxArea);
      assert fs == fs[..2] + rest;
      assert IterationOk(h, fs, 0);
      ScanIterations(h, m.left, m.right, m.maxArea, m);
      forall k | 1 <= k < r - l
        ensures IterationOk(h, fs, k)
      {
        assert IterationOk(h, rest, k - 1);
        assert fs[2 * k] == rest[2 * (k - 1)];
        assert fs[2 * k + 1] == rest[2 * (k - 1) + 1];
        assert fs[2 * k + 2] == rest[2 * (k - 1) + 2];
      }
    }
  }

  lemma MulMono(a: nat, b: nat, c: nat, d: nat)
    requires a <= c && b <= d
    ensures a * b <= c * d
  {
    assert a * b <= c * b;
    assert c * b <= c * d;
  }

  /**
   Discarding the shorter wall loses nothing: every container that keeps the
   shorter wall and is narrower is no larger than the one just measured.
   */
  lemma DiscardShorter(h: seq<nat>, l: nat, r: nat, best: nat)
    requires l < r < |h|
    requires Covered(h, l, r, best)
    requires Area(h, l, r) <= best
    ensures h[l] < h[r] ==> forall j :: l < j <= r ==> Area(h, l, j) <= Area(h, l, r)
    ensures h[l] >= h[r] ==> forall i :: l <= i < r ==> Area(h, i, r) <= Area(h, l, r)
    ensures h[l] < h[r] ==> Covered(h, l + 1, r, best)
    ensures h[l] >= h[r] ==> Covered(h, l, r - 1, best)
  {
    if h[l] < h[r] {
      forall j | l < j <= r
        ensures Area(h, l, j) <= Area(h, l, r) <= best
      {
        MulMono(Min(h[l], h[j]), j - l, Min(h[l], h[r]), r - l);
      }
    } else {
      forall i | l <= i < r
        ensures Area(h, i, r) <= Area(h, l, r) <= best
      {
        MulMono(Min(h[i], h[r]), r - i, Min(h[l], h[r]), r - l);
      }
    }
  }

  lemma {:induction false} ScanOptimal(h: seq<nat>, l: nat, r: nat, best: nat)
    requires l <= r < |h|
    requires Covered(h, l, r, best)
    requires Achieved(h, best)
    ensures IsMaxArea(h, Last(Scan(h, l, r, best)).maxArea)
    decreases r - l
  {
    var fs := Scan(h, l, r, best);
    if l < r {
      var m := fs[1];
      var rest := Scan(h, m.left, m.right, m.maxArea);
      assert fs == fs[..2] + rest;
      assert Last(fs) == Last(rest);
      assert Covered(h, l, r, m.maxArea);
      DiscardShorter(h, l, r, m.maxArea);
      assert Achieved(h, m.maxArea) by {
        if m.maxArea != best {
          assert Area(h, l, r) == m.maxArea;
        }
      }
      ScanOptimal(h, m.left, m.right, m.maxArea);
    } else {
      assert Last(fs).maxArea == best;
      forall i, j | 0 <= i < j < |h|
        ensures Area(h, i, j) <= best
      {
        assert i < l || r < j;
      }
    }
  }

  // ---------------------------------------------------------------------------
  // Properties of the whole trace
  // ---------------------------------------------------------------------------

  /**
   The trace starts with the initialisation frame, ends with the terminal
   frame, which repeats the final pointers and maximum, and has 2 + 2(|h| - 1)
   frames.
   */
  lemma GenerateEndpoints(h: seq<nat>)
    requires |h| >= 1
    ensures var fs := Generate(h);
      && |fs| == 2 + 2 * (|h| - 1)
      && fs[0] == Frame(0, |h| - 1, 0, 0, true, Init)
      && Terminal(Last(fs))
      && Last(fs).left == fs[|fs| - 2].left
      && Last(fs).right == fs[|fs| - 2].right
      && Last(fs).maxArea == fs[|fs| - 2].maxArea
  {
    var fs := Generate(h);
    var rest := Scan(h, 0, |h| - 1, 0);
    ScanLast(h, 0, |h| - 1, 0);
    assert Last(fs) == Last(rest);
    ScanIterations(h, 0, |h| - 1, 0, fs[0]);
    assert fs == [fs[0]] + rest;
    if |h| > 1 {
      assert IterationOk(h, fs, |h| - 2);
    }
  }

  /** Every frame has 0 <= leftPointer <= rightPointer <= |h| - 1. */
  lemma GeneratePointerBounds(h: seq<nat>)
    requires |h| >= 1
    ensures forall i :: 0 <= i < |Generate(h)| ==>
      Generate(h)[i].left <= Generate(h)[i].right < |h|
  {
    var fs := Generate(h);
    var rest := Scan(h, 0, |h| - 1, 0);
    ScanBounds(h, 0, |h| - 1, 0);
    assert forall i :: 1 <= i < |fs| ==> fs[i] == rest[i - 1];
  }

  /** The running maximum never decreases along the trace. */
  lemma GenerateMaxMonotone(h: seq<nat>)
    requires |h| >= 1
    ensures forall i, j :: 0 <= i <= j < |Generate(h)| ==>
      Generate(h)[i].maxArea <= Generate(h)[j].maxArea
  {
    var fs := Generate(h);
    var rest := Scan(h, 0, |h| - 1, 0);
    ScanMonotone(h, 0, |h| - 1, 0);
    assert forall i :: 1 <= i < |fs| ==> fs[i] == rest[i - 1];
  }

  /**
   Each of the |h| - 1 iterations emits a computation frame at the current
   pointers followed by a move frame that discards the shorter wall.
   */
  lemma GenerateIterations(h: seq<nat>)
    requires |h| >= 1
    ensures forall k :: 0 <= k < |h| - 1 ==> IterationOk(h, Generate(h), k)
  {
    var fs := Generate(h);
    ScanIterations(h, 0, |h| - 1, 0, fs[0]);
    assert fs == [fs[0]] + Scan(h, 0, |h| - 1, 0);
  }

  /** The final maximum is the brute-force optimum over all pairs of bars. */
  lemma GenerateOptimal(h: seq<nat>)
    requires |h| >= 1
    ensures IsMaxArea(h, Last(Generate(h)).maxArea)
    ensures Last(Generate(h)).maxArea == BruteForceMax(h)
  {
    var fs := Generate(h);
    var rest := Scan(h, 0, |h| - 1, 0);
    assert Last(fs) == Last(rest);
    ScanOptimal(h, 0, |h| - 1, 0);
    MaxAreaUnique(h, Last(fs).maxArea, BruteForceMax(h));
  }

  /** The example input [1,8,6,2,5,4,8,3,7] finishes with maximum 49. */
  lemma DefaultHeightsMaxArea()
    ensures Last(Generate(DefaultHeights())).maxArea == 49
  {
    var h := DefaultHeights();
    GenerateOptimal(h);
    assert Area(h, 1, 8) == 49;
    forall i, j | 0 <= i < j < |h|
      ensures Area(h, i, j) <= 49
    {
    }
  }

  // ---------------------------------------------------------------------------
  // The generator as a loop
  // ---------------------------------------------------------------------------

  /** The two-pointer scan, emitting frames as it goes. */
  method GenerateTwoPointerFrames(h: seq<nat>) returns (frames: seq<Frame>)
    requires |h| >= 1
    ensures frames == Generate(h)
    ensures IsMaxArea(h, Last(frames).maxArea)
  {
    var l: nat, r: nat, best: nat := 0, |h| - 1, 0;
    frames := [Frame(l, r, 0, 0, true, Init)];
    while l < r
      invariant l <= r < |h|
      invariant frames + Scan(h, l, r, best) == Generate(h)
      decreases r - l
    {
      ghost var before := Scan(h, l, r, best);
      var area := Min(h[l], h[r]) * (r - l);
      var isNewMax := area > best;
      if isNewMax {
        best := area;
      }
      var compute := Frame(l, r, best, area, isNewMax, Compute);
      var move;
      if h[l] < h[r] {
        l := l + 1;
        move := Frame(l, r, best, area, false, MoveLeft);
      } else {
        r := r - 1;
        move := Frame(l, r, best, area, false, MoveRight);
      }
      assert before == [compute, move] + Scan(h, l, r, best);
      frames := frames + [compute, move];
    }
    frames := frames + [Frame(l, r, best, 0, true, Finish)];
    GenerateOptimal(h);
  }
}
