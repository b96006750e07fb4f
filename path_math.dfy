/**
 * The pure side of `Session::mouse_path`: how a waypoint list becomes segments, how the total
 * time is shared between them, where each sample lands, and the move tokens a run emits.
 *
 * The loop itself (clock polling and input requests) is `Client.Session.MousePath`; what it
 * observed of the clock is summarised per segment as a `SegmentRun`, and the tokens it sends
 * are `PathPlan` of those runs.
 */
module PathMath {
  import opened Wrappers
  import opened WireTypes

  /**
   * `Vec2::distance`. The Euclidean norm needs a square root, which Dafny's reals do not
   * have, so the distance is a parameter that must behave like one (see `IsDistance`).
   */
  type Metric = (Vec2, Vec2) -> real

  ghost predicate IsDistance(dist: Metric)
  {
    forall a, b :: dist(a, b) >= 0.0 && (dist(a, b) == 0.0 <==> a == b)
  }

  /** `f32 as i32`: truncation toward zero, saturating at the ends of the i32 range. */
  function AsI32(v: real): (r: i32)
    ensures 0.0 <= v < 2147483648.0 ==> r as real <= v < r as real + 1.0
    ensures -2147483649.0 < v < 0.0 ==> r as real - 1.0 < v <= r as real
    ensures v >= 2147483648.0 ==> r == 0x7FFF_FFFF
    ensures v <= -2147483649.0 ==> r == -0x8000_0000
  {
    var t := if v >= 0.0 then v.Floor else -((-v).Floor);
    if t > 0x7FFF_FFFF then 0x7FFF_FFFF
    else if t < -0x8000_0000 then -0x8000_0000
    else t as i32
  }

  /** The token that moves the mouse to `p`, as `set_mouse_location` and `mouse_path` build it. */
  function MoveTo(p: Vec2, coordinate: Coordinate): Token
  {
    MoveMouse(AsI32(p.x), AsI32(p.y), coordinate)
  }

  /** `Vec2::lerp`; the fraction is not clamped, so a fraction past 1 lands beyond `b`. */
  function Lerp(a: Vec2, b: Vec2, t: real): Vec2
  {
    a.Plus(b.Minus(a).Times(t))
  }

  /** The fraction 0 gives the start point and 1 the end point. */
  lemma LerpEnds(a: Vec2, b: Vec2, t: real)
    ensures Lerp(a, b, 0.0) == a
    ensures Lerp(a, b, 1.0) == b
  {
  }

  /** Consecutive pairs of waypoints: `path.iter().zip(path.iter().skip(1))`. */
  function Segments(path: seq<Vec2>): (r: seq<(Vec2, Vec2)>)
    ensures |r| == if |path| < 2 then 0 else |path| - 1
    ensures forall i :: 0 <= i < |r| ==> r[i] == (path[i], path[i + 1])
  {
    if |path| < 2 then [] else [(path[0], path[1])] + Segments(path[1..])
  }

  function SegmentLength(dist: Metric, seg: (Vec2, Vec2)): real
  {
    dist(seg.0, seg.1)
  }

  function TotalDistance(dist: Metric, segs: seq<(Vec2, Vec2)>): real
  {
    if segs == [] then 0.0 else SegmentLength(dist, segs[0]) + TotalDistance(dist, segs[1..])
  }

  function Sum(s: seq<real>): real
  {
    if s == [] then 0.0 else s[0] + Sum(s[1..])
  }

  lemma {:induction false} TotalDistanceNonnegative(dist: Metric, segs: seq<(Vec2, Vec2)>)
    requires IsDistance(dist)
    ensures TotalDistance(dist, segs) >= 0.0
  {
    if segs != [] {
      TotalDistanceNonnegative(dist, segs[1..]);
    }
  }

  /** The path has no length exactly when every segment starts where it ends. */
  lemma {:induction false} TotalDistanceZero(dist: Metric, segs: seq<(Vec2, Vec2)>)
    requires IsDistance(dist)
    ensures TotalDistance(dist, segs) == 0.0 <==> forall i :: 0 <= i < |segs| ==> segs[i].0 == segs[i].1
  {
    if segs != [] {
      TotalDistanceZero(dist, segs[1..]);
      TotalDistanceNonnegative(dist, segs[1..]);
      assert forall i :: 1 <= i < |segs| ==> segs[i] == segs[1..][i - 1];
    }
  }

  /** A path of two or more waypoints has zero length exactly when all its waypoints coincide. */
  lemma PathLengthZeroIffStationary(dist: Metric, path: seq<Vec2>)
    requires IsDistance(dist) && |path| >= 2
    ensures TotalDistance(dist, Segments(path)) == 0.0 <==> forall i :: 0 <= i < |path| ==> path[i] == path[0]
  {
    var segs := Segments(path);
    TotalDistanceZero(dist, segs);
    if forall i :: 0 <= i < |segs| ==> segs[i].0 == segs[i].1 {
      var k := 0;
      while k < |path|
        invariant 0 <= k <= |path|
        invariant forall i :: 0 <= i < k ==> path[i] == path[0]
      {
        if k > 0 {
          assert segs[k - 1] == (path[k - 1], path[k]);
        }
        k := k + 1;
      }
    }
  }

  /** `spline_time` of one segment: its share of `time`, as its length is a share of `total`. */
  function SplineTime(dist: Metric, seg: (Vec2, Vec2), time: real, total: real): real
    requires total != 0.0
  {
    time * (SegmentLength(dist, seg) / total)
  }

  function Shares(dist: Metric, segs: seq<(Vec2, Vec2)>, time: real, total: real): (r: seq<real>)
    requires total != 0.0
    ensures |r| == |segs|
    ensures forall i :: 0 <= i < |segs| ==> r[i] == SplineTime(dist, segs[i], time, total)
  {
    if segs == [] then [] else [SplineTime(dist, segs[0], time, total)] + Shares(dist, segs[1..], time, total)
  }

  /** The `spline_time` of every segment of a path of positive length (none for an empty one). */
  function SplineTimes(dist: Metric, segs: seq<(Vec2, Vec2)>, time: real): (r: seq<real>)
    requires segs == [] || TotalDistance(dist, segs) != 0.0
    ensures |r| == |segs|
  {
    if segs == [] then [] else Shares(dist, segs, time, TotalDistance(dist, segs))
  }

  lemma {:induction false} SharesSum(dist: Metric, segs: seq<(Vec2, Vec2)>, time: real, total: real)
    requires total != 0.0
    ensures Sum(Shares(dist, segs, time, total)) == time * (TotalDistance(dist, segs) / total)
  {
    if segs != [] {
      SharesSum(dist, segs[1..], time, total);
      var d, rest := SegmentLength(dist, segs[0]), TotalDistance(dist, segs[1..]);
      assert (d + rest) / total == d / total + rest / total;
      assert Shares(dist, segs, time, total)[1..] == Shares(dist, segs[1..], time, total);
    }
  }

  /** The segment times add up to the requested total time. */
  lemma SplineTimesSumToTime(dist: Metric, segs: seq<(Vec2, Vec2)>, time: real)
    requires segs != [] && TotalDistance(dist, segs) != 0.0
    ensures Sum(SplineTimes(dist, segs, time)) == time
  {
    var total := TotalDistance(dist, segs);
    SharesSum(dist, segs, time, total);
    WholeShare(time, total);
  }

  /** No segment gets a negative time. */
  lemma SplineTimesNonnegative(dist: Metric, segs: seq<(Vec2, Vec2)>, time: real, i: nat)
    requires IsDistance(dist) && time >= 0.0 && i < |segs|
    requires TotalDistance(dist, segs) > 0.0
    ensures SplineTimes(dist, segs, time)[i] >= 0.0
  {
    ShareNonnegative(SegmentLength(dist, segs[i]), time, TotalDistance(dist, segs));
  }

  lemma WholeShare(time: real, total: real)
    requires total != 0.0
    ensures time * (total / total) == time
  {
    assert total / total == 1.0;
  }

  lemma ShareNonnegative(d: real, time: real, total: real)
    requires d >= 0.0 && time >= 0.0 && total > 0.0
    ensures time * (d / total) >= 0.0
  {
    assert d / total >= 0.0;
  }

  // ---------------------------------------------------------------------------------------
  // What one segment of the sampling loop observed and sent

  /**
   * The elapsed times one segment's loop read from the clock: `first` right after the
   * initial move, then one per interpolated sample. When the initial move itself fails no
   * time is read; such a run has `first == 0.0` and no samples.
   */
  datatype SegmentRun = SegmentRun(first: real, samples: seq<real>)

  /** The elapsed time the loop read last. */
  function LastReading(run: SegmentRun): real
  {
    if run.samples == [] then run.first else run.samples[|run.samples| - 1]
  }

  /** The run without its last sample. */
  function Earlier(run: SegmentRun): SegmentRun
    requires run.samples != []
  {
    SegmentRun(run.first, run.samples[..|run.samples| - 1])
  }

  /**
   * The readings never go back, none is earlier than the segment's start, and each sample
   * was taken because the reading before it was still below `spline`.
   */
  predicate Sampled(run: SegmentRun, spline: real)
    decreases |run.samples|
  {
    if run.samples == [] then 0.0 <= run.first
    else
      && Sampled(Earlier(run), spline)
      && LastReading(Earlier(run)) <= run.samples[|run.samples| - 1]
      && LastReading(Earlier(run)) < spline
  }

  /** The loop stopped on its own: the time read last reached `spline`. */
  predicate Finished(run: SegmentRun, spline: real)
  {
    Sampled(run, spline) && LastReading(run) >= spline
  }

  lemma {:induction false} SampledNonnegative(run: SegmentRun, spline: real)
    requires Sampled(run, spline)
    ensures 0.0 <= run.first <= LastReading(run)
    decreases |run.samples|
  {
    if run.samples != [] {
      SampledNonnegative(Earlier(run), spline);
    }
  }

  /** A segment only samples when it was given a positive time. */
  lemma SampledPositive(run: SegmentRun, spline: real)
    requires Sampled(run, spline) && run.samples != []
    ensures spline > 0.0
  {
    SampledNonnegative(Earlier(run), spline);
  }

  /** `Sampled` spelt out: samples in order from `first` on, and all but the last below `spline`. */
  lemma {:induction false} SampledExplicit(run: SegmentRun, spline: real)
    requires Sampled(run, spline)
    ensures run.samples != [] ==> run.first <= run.samples[0] && run.first < spline
    ensures forall j, k :: 0 <= j <= k < |run.samples| ==> run.samples[j] <= run.samples[k]
    ensures forall j :: 0 <= j < |run.samples| - 1 ==> run.samples[j] < spline
    decreases |run.samples|
  {
    if run.samples != [] {
      var e := Earlier(run);
      SampledExplicit(e, spline);
      SampledNonnegative(e, spline);
      var n := |run.samples| - 1;
      assert forall j :: 0 <= j < n ==> run.samples[j] == e.samples[j];
      if n > 0 {
        assert e.samples[n - 1] == LastReading(e);
      }
    }
  }

  lemma SampledSnoc(run: SegmentRun, spline: real, s: real)
    requires Sampled(run, spline) && LastReading(run) <= s && LastReading(run) < spline
    ensures Sampled(SegmentRun(run.first, run.samples + [s]), spline)
    ensures LastReading(SegmentRun(run.first, run.samples + [s])) == s
  {
    assert Earlier(SegmentRun(run.first, run.samples + [s])) == run;
  }

  /** The moves one segment sends: its exact `from` point, then one sample per recorded time. */
  function SegmentPlan(seg: (Vec2, Vec2), spline: real, coordinate: Coordinate, samples: seq<real>): (r: seq<Token>)
    requires samples != [] ==> spline > 0.0
    ensures |r| == |samples| + 1
    ensures r[0] == MoveTo(seg.0, coordinate)
    decreases |samples|
  {
    if samples == [] then [MoveTo(seg.0, coordinate)]
    else
      var n := |samples| - 1;
      SegmentPlan(seg, spline, coordinate, samples[..n]) + [MoveTo(Lerp(seg.0, seg.1, samples[n] / spline), coordinate)]
  }

  /** The runs recorded so far fit the segments: one per segment at most, each consistent with its time. */
  predicate RunsFit(segs: seq<(Vec2, Vec2)>, splines: seq<real>, runs: seq<SegmentRun>)
  {
    && |runs| <= |segs| == |splines|
    && forall i :: 0 <= i < |runs| ==> Sampled(runs[i], splines[i])
  }

  /** Each of `runs` reached the time of its segment. */
  predicate AllFinished(runs: seq<SegmentRun>, splines: seq<real>)
    requires |runs| <= |splines|
    decreases |runs|
  {
    runs == [] || (AllFinished(runs[..|runs| - 1], splines) && Finished(runs[|runs| - 1], splines[|runs| - 1]))
  }

  lemma {:induction false} AllFinishedEach(runs: seq<SegmentRun>, splines: seq<real>)
    requires |runs| <= |splines| && AllFinished(runs, splines)
    ensures forall i :: 0 <= i < |runs| ==> Finished(runs[i], splines[i])
    decreases |runs|
  {
    if runs != [] {
      var n := |runs| - 1;
      AllFinishedEach(runs[..n], splines);
      assert forall i :: 0 <= i < n ==> runs[..n][i] == runs[i];
    }
  }

  lemma RunsFitSampled(segs: seq<(Vec2, Vec2)>, splines: seq<real>, runs: seq<SegmentRun>, i: nat)
    requires RunsFit(segs, splines, runs) && i < |runs|
    ensures runs[i].samples != [] ==> splines[i] > 0.0
  {
    if runs[i].samples != [] {
      SampledPositive(runs[i], splines[i]);
    }
  }

  /** Every token the path loop sends for the given runs, segment after segment. */
  function PathPlan(segs: seq<(Vec2, Vec2)>, splines: seq<real>, coordinate: Coordinate, runs: seq<SegmentRun>): seq<Token>
    requires RunsFit(segs, splines, runs)
    decreases |runs|
  {
    if runs == [] then []
    else
      var n := |runs| - 1;
      RunsFitSampled(segs, splines, runs, n);
      PathPlan(segs, splines, coordinate, runs[..n]) + SegmentPlan(segs[n], splines[n], coordinate, runs[n].samples)
  }

  lemma SegmentPlanSnoc(seg: (Vec2, Vec2), spline: real, coordinate: Coordinate, samples: seq<real>, s: real)
    requires spline > 0.0
    ensures SegmentPlan(seg, spline, coordinate, samples + [s])
         == SegmentPlan(seg, spline, coordinate, samples) + [MoveTo(Lerp(seg.0, seg.1, s / spline), coordinate)]
  {
    assert (samples + [s])[..|samples|] == samples;
  }

  lemma PathPlanSnoc(segs: seq<(Vec2, Vec2)>, splines: seq<real>, coordinate: Coordinate, runs: seq<SegmentRun>, run: SegmentRun)
    requires RunsFit(segs, splines, runs + [run])
    ensures RunsFit(segs, splines, runs)
    ensures run.samples != [] ==> splines[|runs|] > 0.0
    ensures PathPlan(segs, splines, coordinate, runs + [run])
         == PathPlan(segs, splines, coordinate, runs) + SegmentPlan(segs[|runs|], splines[|runs|], coordinate, run.samples)
  {
    RunsFitSampled(segs, splines, runs + [run], |runs|);
    assert (runs + [run])[..|runs|] == runs;
  }

  /** Where segment `i`'s moves begin within the whole plan. */
  function Offset(segs: seq<(Vec2, Vec2)>, splines: seq<real>, coordinate: Coordinate, runs: seq<SegmentRun>, i: nat): nat
    requires RunsFit(segs, splines, runs) && i <= |runs|
  {
    |PathPlan(segs, splines, coordinate, runs[..i])|
  }

  lemma {:induction false} PathPlanPrefix(segs: seq<(Vec2, Vec2)>, splines: seq<real>, coordinate: Coordinate, runs: seq<SegmentRun>, k: nat)
    requires RunsFit(segs, splines, runs) && k <= |runs|
    ensures PathPlan(segs, splines, coordinate, runs[..k]) <= PathPlan(segs, splines, coordinate, runs)
    decreases |runs|
  {
    if k < |runs| {
      var n := |runs| - 1;
      assert runs[..n][..k] == runs[..k];
      PathPlanPrefix(segs, splines, coordinate, runs[..n], k);
    } else {
      assert runs[..k] == runs;
    }
  }

  /** The runs of the first `k` segments fit too. */
  lemma RunsFitPrefix(segs: seq<(Vec2, Vec2)>, splines: seq<real>, runs: seq<SegmentRun>, k: nat)
    requires RunsFit(segs, splines, runs) && k <= |runs|
    ensures RunsFit(segs, splines, runs[..k])
  {
    assert forall j :: 0 <= j < k ==> runs[..k][j] == runs[j];
  }

  /** The plan up to segment `i` is the plan before it followed by segment `i`'s own moves. */
  lemma PathPlanThrough(segs: seq<(Vec2, Vec2)>, splines: seq<real>, coordinate: Coordinate, runs: seq<SegmentRun>, i: nat)
    requires RunsFit(segs, splines, runs) && i < |runs|
    ensures RunsFit(segs, splines, runs[..i]) && RunsFit(segs, splines, runs[..i + 1])
    ensures runs[i].samples != [] ==> splines[i] > 0.0
    ensures PathPlan(segs, splines, coordinate, runs[..i + 1])
         == PathPlan(segs, splines, coordinate, runs[..i]) + SegmentPlan(segs[i], splines[i], coordinate, runs[i].samples)
  {
    RunsFitPrefix(segs, splines, runs, i + 1);
    assert runs[..i + 1] == runs[..i] + [runs[i]];
    PathPlanSnoc(segs, splines, coordinate, runs[..i], runs[i]);
  }

  /** Every segment's moves start with a move to that segment's exact `from` point. */
  lemma SegmentStartsAtFrom(segs: seq<(Vec2, Vec2)>, splines: seq<real>, coordinate: Coordinate, runs: seq<SegmentRun>, i: nat)
    requires RunsFit(segs, splines, runs) && i < |runs|
    ensures Offset(segs, splines, coordinate, runs, i) < |PathPlan(segs, splines, coordinate, runs)|
    ensures PathPlan(segs, splines, coordinate, runs)[Offset(segs, splines, coordinate, runs, i)] == MoveTo(segs[i].0, coordinate)
  {
    PathPlanThrough(segs, splines, coordinate, runs, i);
    var pre := PathPlan(segs, splines, coordinate, runs[..i]);
    var moves := SegmentPlan(segs[i], splines[i], coordinate, runs[i].samples);
    PathPlanPrefix(segs, splines, coordinate, runs, i + 1);
    assert (pre + moves)[|pre|] == moves[0];
  }

  /** A segment of zero length gets no time, so it sends its initial move and nothing else. */
  lemma ZeroLengthSegmentSingleMove(dist: Metric, segs: seq<(Vec2, Vec2)>, time: real, coordinate: Coordinate, i: nat, run: SegmentRun)
    requires IsDistance(dist) && i < |segs| && TotalDistance(dist, segs) > 0.0
    requires segs[i].0 == segs[i].1
    requires Finished(run, SplineTimes(dist, segs, time)[i])
    ensures run.samples == []
    ensures SegmentPlan(segs[i], SplineTimes(dist, segs, time)[i], coordinate, run.samples) == [MoveTo(segs[i].0, coordinate)]
  {
    assert SegmentLength(dist, segs[i]) == 0.0;
    assert SplineTimes(dist, segs, time)[i] == 0.0;
    if run.samples != [] {
      SampledPositive(run, 0.0);
    }
  }

  /**
   * A segment that sent interpolated samples and stopped on its own stopped after a sample at
   * fraction 1 or more: the last move is at or past the segment's end (there is no clamping).
   */
  lemma LastSampleAtOrPastEnd(seg: (Vec2, Vec2), spline: real, coordinate: Coordinate, run: SegmentRun)
    requires Finished(run, spline) && run.samples != []
    ensures spline > 0.0
    ensures var f := run.samples[|run.samples| - 1] / spline;
      && f >= 1.0
      && SegmentPlan(seg, spline, coordinate, run.samples)[|run.samples|] == MoveTo(Lerp(seg.0, seg.1, f), coordinate)
  {
    SampledPositive(run, spline);
    assert run.samples[|run.samples| - 1] >= spline;
  }

  /** The move sent for sample `j` of a segment is at the fraction of the segment that sample read. */
  lemma {:induction false} SegmentPlanAt(seg: (Vec2, Vec2), spline: real, coordinate: Coordinate, samples: seq<real>, j: nat)
    requires spline > 0.0 && j < |samples|
    ensures SegmentPlan(seg, spline, coordinate, samples)[j + 1] == MoveTo(Lerp(seg.0, seg.1, samples[j] / spline), coordinate)
    decreases |samples|
  {
    var n := |samples| - 1;
    if j < n {
      SegmentPlanAt(seg, spline, coordinate, samples[..n], j);
    }
  }

  // ---------------------------------------------------------------------------------------
  // Where a run's elapsed times come from

  /**
   * `run` holds what one segment read from the clock `reading` when its start reading was
   * tick `t`: the time elapsed at tick `t + 1`, right after the initial move, and the time
   * elapsed at tick `t + 2 + j` for its `j`-th sample.
   */
  ghost predicate ReadFrom(reading: nat -> real, t: nat, run: SegmentRun)
    decreases |run.samples|
  {
    if run.samples == [] then run.first == reading(t + 1) - reading(t)
    else ReadFrom(reading, t, Earlier(run)) && LastReading(run) == reading(t + 1 + |run.samples|) - reading(t)
  }

  /** `ReadFrom` spelt out: the first elapsed time at tick `t + 1`, sample `j` at tick `t + 2 + j`. */
  lemma {:induction false} ReadFromExplicit(reading: nat -> real, t: nat, run: SegmentRun)
    requires ReadFrom(reading, t, run)
    ensures run.first == reading(t + 1) - reading(t)
    ensures forall j :: 0 <= j < |run.samples| ==> run.samples[j] == reading(t + 2 + j) - reading(t)
    decreases |run.samples|
  {
    if run.samples != [] {
      var e := Earlier(run);
      ReadFromExplicit(reading, t, e);
      assert forall j :: 0 <= j < |e.samples| ==> run.samples[j] == e.samples[j];
    }
  }

  /** The readings of a segment whose initial move went through: its start, one after that move, one per sample. */
  function RunTicks(run: SegmentRun): nat
  {
    2 + |run.samples|
  }

  /** `runs` read the clock one segment after the other from tick `t` on; `end` is the first tick left unread. */
  ghost predicate RunsReadFrom(reading: nat -> real, t: nat, runs: seq<SegmentRun>, end: nat)
    decreases |runs|
  {
    if runs == [] then end == t
    else
      var last := runs[|runs| - 1];
      && end >= RunTicks(last)
      && RunsReadFrom(reading, t, runs[..|runs| - 1], end - RunTicks(last))
      && ReadFrom(reading, end - RunTicks(last), last)
  }

  /**
   * The readings of a walk from tick `t` to tick `end`: those of `RunsReadFrom`, except that a
   * walk that `failed` on the initial move of its last segment read only that segment's start.
   */
  ghost predicate WalkRead(reading: nat -> real, t: nat, runs: seq<SegmentRun>, failed: bool, end: nat)
  {
    if failed && runs != [] && runs[|runs| - 1].samples == [] then
      end >= 1 && RunsReadFrom(reading, t, runs[..|runs| - 1], end - 1)
    else
      RunsReadFrom(reading, t, runs, end)
  }

  /** One more sample, read at the next tick, extends what a segment read. */
  lemma ReadFromSnoc(reading: nat -> real, t: nat, run: SegmentRun, s: real)
    requires ReadFrom(reading, t, run) && s == reading(t + RunTicks(run)) - reading(t)
    ensures ReadFrom(reading, t, SegmentRun(run.first, run.samples + [s]))
  {
    assert Earlier(SegmentRun(run.first, run.samples + [s])) == run;
  }

  /** One more segment, read from where the walk so far stopped, extends the walk. */
  lemma WalkReadSnoc(reading: nat -> real, t0: nat, runs: seq<SegmentRun>, t: nat, run: SegmentRun, failed: bool, end: nat)
    requires RunsReadFrom(reading, t0, runs, t)
    requires failed && run.samples == [] ==> end == t + 1
    requires !(failed && run.samples == []) ==> end == t + RunTicks(run) && ReadFrom(reading, t, run)
    ensures WalkRead(reading, t0, runs + [run], failed, end)
  {
    assert (runs + [run])[..|runs|] == runs;
  }

  /** The walk so far starts no later than it ends. */
  lemma {:induction false} RunsReadForward(reading: nat -> real, t: nat, runs: seq<SegmentRun>, end: nat)
    requires RunsReadFrom(reading, t, runs, end)
    ensures t + 2 * |runs| <= end
    decreases |runs|
  {
    if runs != [] {
      RunsReadForward(reading, t, runs[..|runs| - 1], end - RunTicks(runs[|runs| - 1]));
    }
  }

  /**
   * Each interpolated move of a segment goes to the fraction of the segment given by the
   * time the clock showed when that sample was taken.
   */
  lemma SampleMoveAtReading(reading: nat -> real, t: nat, seg: (Vec2, Vec2), spline: real, coordinate: Coordinate,
                            run: SegmentRun, j: nat)
    requires ReadFrom(reading, t, run) && spline > 0.0 && j < |run.samples|
    ensures SegmentPlan(seg, spline, coordinate, run.samples)[j + 1]
         == MoveTo(Lerp(seg.0, seg.1, (reading(t + 2 + j) - reading(t)) / spline), coordinate)
  {
    SegmentPlanAt(seg, spline, coordinate, run.samples, j);
    ReadFromExplicit(reading, t, run);
  }
}
