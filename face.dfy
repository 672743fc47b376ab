/** The per-frame part of face detection: converting the tracker's corner boxes into the stored
    {x, y, w, h, id} form, and the rule that decides on which frames the progress is committed
    (and the preview image written). The detector and the tracker themselves are inputs. */
module FaceDetection {
  import opened Common

  /** One row of the tracker's output: the corners (x1, y1), (x2, y2) and the track id, as floats. */
  datatype Track = Track(x1: real, y1: real, x2: real, y2: real, trackId: real)

  /** One entry of the bbox list stored for a frame. */
  datatype BBox = BBox(x: int, y: int, w: int, h: int, id: int)

  /** What the detector and the tracker give for one frame file: how many boxes the detector found,
      and the rows the tracker returns when it is asked about them. */
  datatype FrameInput = FrameInput(detections: nat, tracked: seq<Track>)

  /** `n` is Python's `int(x)`: the whole number between 0 and x that is less than one away from x. */
  predicate IntOf(x: real, n: int)
  {
    && (x >= 0.0 ==> 0 <= n && n as real <= x < n as real + 1.0)
    && (x < 0.0 ==> n <= 0 && n as real - 1.0 < x <= n as real)
  }

  /** `int(x)` has one value. */
  lemma IntOfUnique(x: real, a: int, b: int)
    requires IntOf(x, a) && IntOf(x, b)
    ensures a == b
  {
  }

  /** Each coordinate goes through Python's int(): the corner, the width x2 - x1, the height y2 - y1 and
      the track id. */
  function ToBBox(t: Track): (b: BBox)
    ensures IntOf(t.x1, b.x) && IntOf(t.y1, b.y) && IntOf(t.x2 - t.x1, b.w) && IntOf(t.y2 - t.y1, b.h)
    ensures IntOf(t.trackId, b.id)
  {
    BBox(Trunc(t.x1), Trunc(t.y1), Trunc(t.x2 - t.x1), Trunc(t.y2 - t.y1), Trunc(t.trackId))
  }

  /** For whole-pixel corners the stored box gives the corners back: x + w == x2 and y + h == y2. */
  lemma ToBBoxKeepsCorners(x1: int, y1: int, x2: int, y2: int, id: int)
    ensures ToBBox(Track(x1 as real, y1 as real, x2 as real, y2 as real, id as real)) == BBox(x1, y1, x2 - x1, y2 - y1, id)
  {
    TruncWhole(x1);
    TruncWhole(y1);
    TruncWhole(x2 - x1);
    TruncWhole(y2 - y1);
    TruncWhole(id);
    assert x2 as real - x1 as real == (x2 - x1) as real;
    assert y2 as real - y1 as real == (y2 - y1) as real;
  }

  /** The bbox list of one frame: empty when the detector found nothing (the tracker is not asked),
      otherwise one converted box per tracker row, in order. */
  function FrameBoxes(f: FrameInput): (bs: seq<BBox>)
    ensures f.detections == 0 ==> bs == []
    ensures f.detections > 0 ==> |bs| == |f.tracked| && forall i :: 0 <= i < |bs| ==> bs[i] == ToBBox(f.tracked[i])
  {
    if f.detections == 0 then [] else seq(|f.tracked|, i requires 0 <= i < |f.tracked| => ToBBox(f.tracked[i]))
  }

  /** The loop that fills `bboxes` for one frame. */
  method ConvertTracks(f: FrameInput) returns (bboxes: seq<BBox>)
    ensures bboxes == FrameBoxes(f)
  {
    var rows := if f.detections == 0 then [] else f.tracked;
    bboxes := [];
    var i := 0;
    while i < |rows|
      invariant 0 <= i <= |rows|
      invariant |bboxes| == i
      invariant forall j :: 0 <= j < i ==> bboxes[j] == ToBBox(rows[j])
    {
      bboxes := bboxes + [ToBBox(rows[i])];
      i := i + 1;
    }
  }

  /** `(idx / total) * 100`, computed exactly: the percentage that times `total` gives 100 * idx. */
  function Progress(idx: int, total: int): (p: real)
    requires total != 0
    ensures p * total as real == (100 * idx) as real
  {
    (100 * idx) as real / total as real
  }

  /** The integer division of a by b > 0 is the floor of their real quotient. */
  lemma FloorOfQuotient(a: int, b: int)
    requires b > 0
    ensures (a / b) as real <= a as real / b as real < (a / b) as real + 1.0
  {
    var q, m := a / b, a % b;
    var x, y := a as real / b as real, b as real;
    assert a as real == y * q as real + m as real;
    assert x * y == a as real;
    AboveBelow(x - q as real, y, m as real);
  }

  lemma AboveBelow(d: real, y: real, m: real)
    requires y > 0.0 && 0.0 <= m < y && d * y == m
    ensures 0.0 <= d < 1.0
  {
  }

  /** `math.floor((idx / total) * 100)`, computed exactly: the floor of the progress. */
  function FloorPercent(idx: int, total: int): (per: int)
    requires total != 0
    ensures per as real <= Progress(idx, total) < per as real + 1.0
  {
    if total > 0 then
      FloorOfQuotient(100 * idx, total);
      (100 * idx) / total
    else
      FloorOfQuotient(-100 * idx, -total);
      assert (-100 * idx) as real / (-total) as real == (100 * idx) as real / total as real;
      (-100 * idx) / (-total)
  }

  /** The two ZeroDivisionErrors the loop can raise: `idx / total_frames` and `% int(fps)`. */
  datatype Fault = ZeroTotalFrames | ZeroFps

  datatype Decision = Commit | Skip | Raise(fault: Fault)

  /** What iteration `idx` does once its log row is added, given `last_per`. The `or` is evaluated
      left to right, so the modulo (and its division by `fpsStep == int(fps)`) is reached only when the
      floor percentage did not rise. A zero test of `%` does not depend on the sign convention. */
  function Decide(idx: int, total: int, fpsStep: int, lastPer: int): (d: Decision)
    ensures d == Raise(ZeroTotalFrames) <==> total == 0
    ensures d == Raise(ZeroFps) <==> total != 0 && FloorPercent(idx, total) <= lastPer && fpsStep == 0
    ensures d == Commit ==> total != 0
  {
    if total == 0 then Raise(ZeroTotalFrames)
    else if FloorPercent(idx, total) > lastPer then Commit
    else if fpsStep == 0 then Raise(ZeroFps)
    else if (idx - 1) % fpsStep == 0 then Commit
    else Skip
  }

  /** The state of the loop after frames 1..logged: `last_per`, the frames that committed, and the
      error that stopped it (after that frame's log row was added), if any. */
  datatype Trace = Trace(logged: nat, lastPer: int, commits: seq<nat>, fault: Option<Fault>)

  predicate Increasing(s: seq<nat>)
  {
    forall i, j :: 0 <= i < j < |s| ==> s[i] < s[j]
  }

  /** The loop over frames 1..n as a function: the reference the loop in the backend is proved against. */
  function Run(n: nat, total: int, fpsStep: int): (t: Trace)
    ensures t.logged <= n
    ensures t.fault.None? ==> t.logged == n
    ensures t.fault.Some? ==> 1 <= t.logged
    ensures t.commits != [] ==> total != 0
  {
    if n == 0 then Trace(0, 0, [], None)
    else
      var t := Run(n - 1, total, fpsStep);
      if t.fault.Some? then t
      else match Decide(n, total, fpsStep, t.lastPer)
        case Commit => Trace(n, FloorPercent(n, total), t.commits + [n], None)
        case Skip => Trace(n, t.lastPer, t.commits, None)
        case Raise(f) => Trace(n, t.lastPer, t.commits, Some(f))
  }

  /** The frames that committed are listed once each, in the order they were processed, and all were processed. */
  lemma {:induction false} CommitsOrdered(n: nat, total: int, fpsStep: int)
    ensures var t := Run(n, total, fpsStep);
      Increasing(t.commits) && forall k :: 0 <= k < |t.commits| ==> 1 <= t.commits[k] <= t.logged
  {
    if n > 0 {
      CommitsOrdered(n - 1, total, fpsStep);
    }
  }

  /** One more frame after a fault-free prefix, as the loop takes it. */
  lemma RunNext(i: nat, total: int, fpsStep: int, d: Decision)
    requires Run(i, total, fpsStep).fault.None?
    requires d == Decide(i + 1, total, fpsStep, Run(i, total, fpsStep).lastPer)
    ensures var t := Run(i, total, fpsStep);
      Run(i + 1, total, fpsStep) ==
        match d
        case Commit => Trace(i + 1, FloorPercent(i + 1, total), t.commits + [i + 1], None)
        case Skip => Trace(i + 1, t.lastPer, t.commits, None)
        case Raise(f) => Trace(i + 1, t.lastPer, t.commits, Some(f))
  {
  }

  lemma DivMonotone(a: int, b: int, d: int)
    requires a <= b && d > 0
    ensures a / d <= b / d
  {
    var qa, qb := a / d, b / d;
    if qa > qb {
      MulAtLeast(d, qa - qb);
    }
  }

  lemma DivShift(a: int, d: int)
    requires d > 0
    ensures (a + d) / d == a / d + 1
  {
    DivModUnique(a + d, d, a / d + 1, a % d);
  }

  /** The floor percentage never falls from one frame to the next. */
  lemma FloorPercentMonotone(i: int, total: int)
    requires total > 0
    ensures FloorPercent(i, total) <= FloorPercent(i + 1, total)
  {
    DivMonotone(100 * i, 100 * i + 100, total);
  }

  /** With at most 100 frames in total, every frame raises the floor percentage. */
  lemma FloorPercentRises(i: int, total: int)
    requires 0 < total <= 100
    ensures FloorPercent(i, total) < FloorPercent(i + 1, total)
  {
    DivMonotone(100 * i + total, 100 * i + 100, total);
    DivShift(100 * i, total);
  }

  /** Once the loop has raised, later frames are never reached. */
  lemma {:induction false} FaultIsFinal(m: nat, n: nat, total: int, fpsStep: int)
    requires m <= n && Run(m, total, fpsStep).fault.Some?
    ensures Run(n, total, fpsStep) == Run(m, total, fpsStep)
  {
    if m < n {
      FaultIsFinal(m, n - 1, total, fpsStep);
    }
  }

  /** Frames that commit stay committed as the loop goes on. */
  lemma {:induction false} CommitsGrow(m: nat, n: nat, total: int, fpsStep: int)
    requires m <= n
    ensures Run(m, total, fpsStep).commits <= Run(n, total, fpsStep).commits
  {
    if m < n {
      CommitsGrow(m, n - 1, total, fpsStep);
    }
  }

  /** For a positive frame count, `last_per` always equals the floor percentage of the last frame seen:
      so it never decreases and never exceeds the current floor percentage. */
  lemma {:induction false} LastPerIsCurrentFloor(n: nat, total: int, fpsStep: int)
    requires total > 0 && Run(n, total, fpsStep).fault.None?
    ensures Run(n, total, fpsStep).lastPer == FloorPercent(n, total)
  {
    if n > 0 {
      var t := Run(n - 1, total, fpsStep);
      LastPerIsCurrentFloor(n - 1, total, fpsStep);
      FloorPercentMonotone(n - 1, total);
    }
  }

  /** The watermark `last_per` never exceeds the floor percentage of the frames processed so far. */
  lemma {:induction false} LastPerBounded(n: nat, total: int, fpsStep: int)
    requires total > 0
    ensures 0 <= Run(n, total, fpsStep).lastPer <= FloorPercent(n, total)
  {
    if n > 0 {
      LastPerBounded(n - 1, total, fpsStep);
      FloorPercentMonotone(n - 1, total);
    }
  }

  /** The watermark never decreases from one frame to a later one. */
  lemma {:induction false} LastPerNeverDecreases(m: nat, n: nat, total: int, fpsStep: int)
    requires total > 0 && m <= n
    ensures Run(m, total, fpsStep).lastPer <= Run(n, total, fpsStep).lastPer
  {
    if m < n {
      LastPerNeverDecreases(m, n - 1, total, fpsStep);
      LastPerBounded(n - 1, total, fpsStep);
      FloorPercentMonotone(n - 1, total);
    }
  }

  /** Frame 1 always commits, unless it is the frame that raises. */
  lemma FirstFrameCommits(n: nat, total: int, fpsStep: int)
    requires n >= 1 && Run(1, total, fpsStep).fault.None?
    ensures Run(n, total, fpsStep).commits != [] && Run(n, total, fpsStep).commits[0] == 1
  {
    CommitsGrow(1, n, total, fpsStep);
    assert Run(1, total, fpsStep).commits == [1];
  }

  /** Exactly which frames commit, for a positive frame count and a run that did not raise: those whose
      floor percentage is above the previous frame's, and those where (idx - 1) is a multiple of int(fps). */
  lemma CommitsExactly(n: nat, total: int, fpsStep: int, i: nat)
    requires total > 0 && Run(n, total, fpsStep).fault.None?
    requires 1 <= i <= n
    ensures i in Run(n, total, fpsStep).commits <==>
      FloorPercent(i, total) > FloorPercent(i - 1, total) || (fpsStep != 0 && (i - 1) % fpsStep == 0)
  {
    FaultFreePrefix(i, n, total, fpsStep);
    LastPerIsCurrentFloor(i - 1, total, fpsStep);
    CommitsOrdered(i - 1, total, fpsStep);
    CommitsGrow(i, n, total, fpsStep);
    CommitsAfter(i, n, total, fpsStep);
    var before, at, all := Run(i - 1, total, fpsStep).commits, Run(i, total, fpsStep).commits, Run(n, total, fpsStep).commits;
    assert i !in before;
    assert i in all <==> i in at;
  }

  lemma {:induction false} FaultFreePrefix(m: nat, n: nat, total: int, fpsStep: int)
    requires m <= n && Run(n, total, fpsStep).fault.None?
    ensures Run(m, total, fpsStep).fault.None?
  {
    if m < n {
      FaultFreePrefix(m, n - 1, total, fpsStep);
    }
  }

  /** Frames after m are the only ones added to the commits after step m. */
  lemma {:induction false} CommitsAfter(m: nat, n: nat, total: int, fpsStep: int)
    requires m <= n
    ensures forall k :: |Run(m, total, fpsStep).commits| <= k < |Run(n, total, fpsStep).commits| ==>
      Run(n, total, fpsStep).commits[k] > m
  {
    if m < n {
      CommitsAfter(m, n - 1, total, fpsStep);
      CommitsGrow(m, n - 1, total, fpsStep);
    }
  }

  /** With int(fps) >= 1 (or <= -1) the loop never raises for a non-zero frame count. */
  lemma {:induction false} NonZeroFpsNeverRaises(n: nat, total: int, fpsStep: int)
    requires total != 0 && fpsStep != 0
    ensures Run(n, total, fpsStep).fault.None?
  {
    if n > 0 {
      NonZeroFpsNeverRaises(n - 1, total, fpsStep);
    }
  }

  /** A video of at most 100 frames commits on every frame and never raises, whatever its fps. */
  lemma {:induction false} ShortVideoCommitsEveryFrame(n: nat, total: int, fpsStep: int)
    requires 0 < total <= 100
    ensures Run(n, total, fpsStep).fault.None?
    ensures Run(n, total, fpsStep).commits == seq(n, k => k + 1)
  {
    if n > 0 {
      ShortVideoCommitsEveryFrame(n - 1, total, fpsStep);
      LastPerIsCurrentFloor(n - 1, total, fpsStep);
      FloorPercentRises(n - 1, total);
    }
  }

  /** With int(fps) == 0 (an fps below 1) the loop raises at the first frame whose floor percentage
      does not rise; for a video of more than 100 frames that is frame 1. */
  lemma ZeroFpsRaisesAtFirstFrameOfLongVideo(n: nat, total: int)
    requires n >= 1 && total > 100
    ensures Run(n, total, 0) == Trace(1, 0, [], Some(ZeroFps))
  {
    assert FloorPercent(1, total) == 0;
    FaultIsFinal(1, n, total, 0);
  }
}
