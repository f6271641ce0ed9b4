/** Sliding windows over whole runs of samples, accepted or not. */
module StatWindows {
  import opened Machine
  import opened StatModel

  function Max(a: int, b: int): int { if a < b then b else a }

  function SumChanges(h: seq<Point>): int
  {
    if h == [] then 0 else h[0].change + SumChanges(h[1..])
  }

  /** The change recorded at every accepted sample of the run. */
  function Points(samples: seq<Raw>, t: Track): seq<Point>
  {
    if samples == [] then []
    else
      var n := |samples| - 1;
      var p := Feed(samples[..n]);
      Points(samples[..n], t) + (if p.timeTick > samples[n].time then [] else [PointOf(p, samples[n], t)])
  }

  /** The value stored at every accepted sample of the run. */
  function Levels(samples: seq<Raw>, t: Track): seq<int>
  {
    if samples == [] then []
    else
      var n := |samples| - 1;
      var p := Feed(samples[..n]);
      Levels(samples[..n], t)
      + (if p.timeTick > samples[n].time then [] else [ValueOf(StoredStat(p, samples[n]), t)])
  }

  /** Points come in time order, each with a positive interval that does not reach back
      before time 0. */
  ghost predicate Timed(pts: seq<Point>, last: uint32)
  {
    && (forall i :: 0 <= i < |pts| ==>
          1 <= pts[i].interval && (pts[i].time > 0 ==> pts[i].interval <= pts[i].time <= last))
    && (forall i, j :: 0 <= i < j < |pts| ==> pts[i].time <= pts[j].time)
    && (forall i :: 0 <= i < |pts| ==> pts[i].time <= last)
  }

  lemma TimedSnoc(pts: seq<Point>, last: uint32, pt: Point)
    requires Timed(pts, last) && last <= pt.time
    requires 1 <= pt.interval && (pt.time > 0 ==> pt.interval <= pt.time)
    ensures Timed(pts + [pt], pt.time)
  {
  }

  lemma {:induction false} PointsTimed(samples: seq<Raw>, t: Track)
    ensures Timed(Points(samples, t), Feed(samples).timeTick)
  {
    if samples != [] {
      var n := |samples| - 1;
      var p := Feed(samples[..n]);
      PointsTimed(samples[..n], t);
      if p.timeTick <= samples[n].time {
        TimedSnoc(Points(samples[..n], t), p.timeTick, PointOf(p, samples[n], t));
      }
    }
  }

  /** A window holds exactly the points not older than the window, and none from before
      the clock reached the window length. */
  ghost predicate WindowOk(r: Rolling, pts: seq<Point>, now: uint32, window: uint32)
  {
    var k := |pts| - |r.history|;
    && k >= 0
    && r.history == pts[k..]
    && r.sum == SumChanges(r.history)
    && (forall i :: 0 <= i < k ==> pts[i].time < Max(window, now - window))
    && (forall i :: k <= i < |pts| ==> pts[i].time >= Max(window, now - window))
  }

  lemma {:induction false} SumSnoc(h: seq<Point>, pt: Point)
    ensures SumChanges(h + [pt]) == SumChanges(h) + pt.change
  {
    if h == [] {
      assert h + [pt] == [pt];
    } else {
      assert (h + [pt])[1..] == h[1..] + [pt];
      SumSnoc(h[1..], pt);
    }
  }

  /** Pruning removes the longest prefix of old points and keeps the sum in step. */
  lemma {:induction false} PruneIsSuffix(r: Rolling, cutoff: uint32) returns (k: nat)
    requires r.sum == SumChanges(r.history)
    ensures k <= |r.history|
    ensures Prune(r, cutoff) == Rolling(r.history[k..], SumChanges(r.history[k..]))
    ensures forall i :: 0 <= i < k ==> r.history[i].time < cutoff
    ensures k < |r.history| ==> r.history[k].time >= cutoff
    decreases |r.history|
  {
    if r.history != [] && r.history[0].time < cutoff {
      var rest := Rolling(r.history[1..], r.sum - r.history[0].change);
      var j := PruneIsSuffix(rest, cutoff);
      assert rest.history[j..] == r.history[j + 1..];
      k := j + 1;
    } else {
      k := 0;
      assert r.history[0..] == r.history;
    }
  }

  /** A window, not yet pruned, over all[k..]. */
  ghost predicate Unpruned(r: Rolling, all: seq<Point>, k: nat, now: uint32, window: uint32)
  {
    && k <= |all| && r.history == all[k..] && r.sum == SumChanges(r.history)
    && (forall i :: 0 <= i < k ==> all[i].time < Max(window, now - window))
    && (forall i :: k <= i < |all| ==> all[i].time >= window || now < window)
  }

  /** Pruning a window that has just grown by one point. */
  lemma PruneKeepsWindow(r: Rolling, all: seq<Point>, k0: nat, now: uint32, cutoff: uint32, window: uint32)
    requires Unpruned(r, all, k0, now, window) && Timed(all, now)
    requires if now >= window then cutoff == now - window else cutoff > now
    ensures WindowOk(Prune(r, cutoff), all, now, window)
  {
    var k := PruneIsSuffix(r, cutoff);
    assert r.history[k..] == all[k0 + k..];
    forall i | k0 <= i < k0 + k
      ensures all[i].time < Max(window, now - window)
    {
      assert all[i] == r.history[i - k0];
    }
    forall i | k0 + k <= i < |all|
      ensures all[i].time >= Max(window, now - window)
    {
      assert all[k0 + k] == r.history[k];
    }
  }

  lemma StillOld(pts: seq<Point>, k: nat, now: uint32, pt: Point, window: uint32)
    requires k <= |pts| && now <= pt.time && forall i :: 0 <= i < k ==> pts[i].time < Max(window, now - window)
    ensures forall i :: 0 <= i < k ==> (pts + [pt])[i].time < Max(window, pt.time - window)
  {
  }

  lemma LateEnough(pts: seq<Point>, k: nat, now: uint32, pt: Point, window: uint32)
    requires k <= |pts| && now <= pt.time
    requires forall i :: k <= i < |pts| ==> pts[i].time >= Max(window, now - window)
    ensures forall i :: k <= i < |pts| + 1 ==> (pts + [pt])[i].time >= window || pt.time < window
  {
  }

  /** The window and all points with one point more. */
  ghost predicate Grown(r: Rolling, pts: seq<Point>, pt: Point, r': Rolling, all: seq<Point>)
  {
    r' == Rolling(r.history + [pt], r.sum + pt.change) && all == pts + [pt]
  }

  lemma GrownUnpruned(
    r: Rolling, pts: seq<Point>, now: uint32, pt: Point, window: uint32, r': Rolling, all: seq<Point>)
    requires WindowOk(r, pts, now, window) && now <= pt.time && Grown(r, pts, pt, r', all)
    ensures Unpruned(r', all, |all| - |r'.history|, pt.time, window)
  {
    var k := |pts| - |r.history|;
    SumSnoc(r.history, pt);
    assert pts[k..] + [pt] == (pts + [pt])[k..];
    StillOld(pts, k, now, pt, window);
    LateEnough(pts, k, now, pt, window);
  }

  lemma PruneAtCutoff(r: Rolling, all: seq<Point>, now: uint32, window: uint32)
    requires |r.history| <= |all| && Unpruned(r, all, |all| - |r.history|, now, window)
    requires Timed(all, now) && window <= 3000
    ensures WindowOk(Prune(r, Wrap32(now - window)), all, now, window)
  {
    CutoffIs(now, window);
    PruneKeepsWindow(r, all, |all| - |r.history|, now, Wrap32(now - window), window);
  }

  lemma RollKeepsWindow(
    r: Rolling, pts: seq<Point>, now: uint32, pt: Point, window: uint32, r': Rolling, all: seq<Point>)
    requires WindowOk(r, pts, now, window) && now <= pt.time && window <= 3000
    requires Grown(r, pts, pt, r', all) && Timed(all, pt.time)
    ensures WindowOk(Roll(r, pt, window), all, pt.time, window)
  {
    GrownUnpruned(r, pts, now, pt, window, r', all);
    PruneAtCutoff(r', all, pt.time, window);
  }

  /** The cutoff wraps past every possible time while the clock is below the window. */
  lemma CutoffIs(time: uint32, window: uint32)
    requires window <= 3000
    ensures Wrap32(time - window) == if time >= window then time - window else time - window + U32
  {
  }

  lemma FreshWindow(t: Track)
    ensures WindowOk(RollingOf(FRESH, t), [], 0, Window(t))
  {
  }

  lemma WindowStep(p: Tally, raw: Raw, t: Track, pts: seq<Point>)
    requires p.timeTick <= raw.time && WindowOk(RollingOf(p, t), pts, p.timeTick, Window(t))
    requires Timed(pts, p.timeTick)
    ensures WindowOk(RollingOf(Apply(p, raw), t), pts + [PointOf(p, raw, t)], raw.time, Window(t))
  {
    TimedSnoc(pts, p.timeTick, PointOf(p, raw, t));
    var pt := PointOf(p, raw, t);
    var r := RollingOf(p, t);
    var r' := Rolling(r.history + [pt], r.sum + pt.change);
    RollKeepsWindow(r, pts, p.timeTick, pt, Window(t), r', pts + [pt]);
  }

  lemma PointsStep(samples: seq<Raw>, t: Track)
    requires samples != []
    ensures var before, raw := samples[..|samples| - 1], samples[|samples| - 1];
      var p, pts := Feed(before), Points(before, t);
      if p.timeTick > raw.time then Feed(samples) == p && Points(samples, t) == pts
      else
        && Feed(samples) == Apply(p, raw) && Feed(samples).timeTick == raw.time
        && Points(samples, t) == pts + [PointOf(p, raw, t)]
  {
  }

  /** In every run each window holds exactly the samples accepted at a time in
      [max(W, T - W), T], with their sum. */
  lemma {:induction false} RunKeepsWindows(samples: seq<Raw>, t: Track)
    ensures WindowOk(RollingOf(Feed(samples), t), Points(samples, t), Feed(samples).timeTick, Window(t))
  {
    if samples == [] {
      FreshWindow(t);
    } else {
      var before := samples[..|samples| - 1];
      RunKeepsWindows(before, t);
      PointsTimed(before, t);
      PointsStep(samples, t);
      if Feed(before).timeTick <= samples[|samples| - 1].time {
        WindowStep(Feed(before), samples[|samples| - 1], t, Points(before, t));
      }
    }
  }

  /** Before the clock reaches the window length every window is empty. */
  lemma EarlyWindowsEmpty(samples: seq<Raw>, t: Track)
    requires Feed(samples).timeTick < Window(t)
    ensures RollingOf(Feed(samples), t) == Rolling([], 0)
  {
    RunKeepsWindows(samples, t);
    PointsTimed(samples, t);
    NothingYet(RollingOf(Feed(samples), t), Points(samples, t), Feed(samples).timeTick, Window(t));
  }

  lemma NothingYet(r: Rolling, pts: seq<Point>, now: uint32, window: uint32)
    requires WindowOk(r, pts, now, window) && Timed(pts, now) && now < window
    ensures r == Rolling([], 0)
  {
    if r.history != [] {
      OldestInWindow(r, pts, now, window);
      assert false;
    }
  }

  lemma OldestInWindow(r: Rolling, pts: seq<Point>, now: uint32, window: uint32)
    requires WindowOk(r, pts, now, window) && Timed(pts, now) && r.history != []
    ensures window <= r.history[0].time <= now
    ensures 1 <= r.history[0].interval && (r.history[0].time > 0 ==> r.history[0].interval <= r.history[0].time)
  {
    assert r.history[0] == pts[|pts| - |r.history|];
  }

  /** The divisor of a rate is at least 1 and reaches back exactly to the sample before
      the window's first; the subtraction never wraps. */
  lemma DenominatorPositive(samples: seq<Raw>, t: Track)
    requires RollingOf(Feed(samples), t).history != []
    ensures var r := RollingOf(Feed(samples), t); var now := Feed(samples).timeTick;
      && Denominator(r, now) == now - r.history[0].time + r.history[0].interval
      && Denominator(r, now) >= 1
  {
    RunKeepsWindows(samples, t);
    PointsTimed(samples, t);
    OldestInWindow(RollingOf(Feed(samples), t), Points(samples, t), Feed(samples).timeTick, Window(t));
  }

  // ---- Telescoping ----

  /** Each change is the difference of neighbouring stored values, the first one 0. */
  ghost predicate Telescopes(pts: seq<Point>, levels: seq<int>)
  {
    |pts| == |levels| && forall i :: 0 <= i < |pts| ==> pts[i].change == levels[i] - levels[Max(i - 1, 0)]
  }

  lemma FirstSampleUnchanged(raw: Raw, t: Track)
    ensures ValueOf(StoredStat(FRESH, raw), t) == ValueOf(OldStat(None, raw), t)
  {
  }

  lemma AppliedValue(p: Tally, raw: Raw, t: Track)
    requires p.timeTick <= raw.time
    ensures var q := Apply(p, raw); q.stat.Some? && ValueOf(q.stat.value, t) == ValueOf(StoredStat(p, raw), t)
  {
  }

  /** The stored value after the run is the last level; no level means no accepted sample. */
  ghost predicate LevelsEnd(p: Tally, levels: seq<int>, t: Track)
  {
    if levels == [] then p == FRESH
    else p.stat.Some? && ValueOf(p.stat.value, t) == levels[|levels| - 1]
  }

  lemma LevelStep(p: Tally, raw: Raw, t: Track, pts: seq<Point>, levels: seq<int>)
    requires p.timeTick <= raw.time && Telescopes(pts, levels) && LevelsEnd(p, levels, t)
    ensures Telescopes(pts + [PointOf(p, raw, t)], levels + [ValueOf(StoredStat(p, raw), t)])
    ensures LevelsEnd(Apply(p, raw), levels + [ValueOf(StoredStat(p, raw), t)], t)
  {
    AppliedValue(p, raw, t);
    if levels == [] { FirstSampleUnchanged(raw, t); }
    var level := ValueOf(StoredStat(p, raw), t);
    assert PointOf(p, raw, t).change == level - (if levels == [] then level else levels[|levels| - 1]);
    SnocTelescopes(pts, levels, PointOf(p, raw, t), level);
  }

  lemma SnocTelescopes(pts: seq<Point>, levels: seq<int>, pt: Point, level: int)
    requires Telescopes(pts, levels)
    requires pt.change == level - (if levels == [] then level else levels[|levels| - 1])
    ensures Telescopes(pts + [pt], levels + [level])
  {
  }

  lemma {:induction false} LevelsAre(samples: seq<Raw>, t: Track)
    ensures Telescopes(Points(samples, t), Levels(samples, t))
    ensures LevelsEnd(Feed(samples), Levels(samples, t), t)
    ensures forall i :: 0 <= i < |Levels(samples, t)| ==> 0 <= Levels(samples, t)[i] < U32
  {
    if samples != [] {
      var n := |samples| - 1;
      LevelsAre(samples[..n], t);
      if Feed(samples[..n]).timeTick <= samples[n].time {
        LevelStep(Feed(samples[..n]), samples[n], t, Points(samples[..n], t), Levels(samples[..n], t));
      }
    }
  }

  lemma {:induction false} SumTelescopes(pts: seq<Point>, levels: seq<int>, k: nat)
    requires Telescopes(pts, levels) && k < |pts|
    ensures SumChanges(pts[k..]) == levels[|levels| - 1] - levels[Max(k - 1, 0)]
    decreases |pts| - k
  {
    assert pts[k..][1..] == pts[k + 1..];
    if k + 1 < |pts| {
      SumTelescopes(pts, levels, k + 1);
    }
  }

  /** In every run a non-empty window's sum is the current value minus the value just
      before its oldest sample, so it always fits 33 bits and is exact in a float64. */
  lemma WindowSumTelescopes(samples: seq<Raw>, t: Track)
    requires RollingOf(Feed(samples), t).history != []
    ensures var r := RollingOf(Feed(samples), t); var levels := Levels(samples, t);
      && |r.history| <= |levels| && Feed(samples).stat.Some?
      && r.sum == ValueOf(Feed(samples).stat.value, t) - levels[Max(|levels| - |r.history| - 1, 0)]
      && -U32 < r.sum < U32
  {
    RunHasFacts(samples, t);
    SumOfWindow(Feed(samples), Points(samples, t), Levels(samples, t), t);
  }

  ghost predicate WindowFacts(p: Tally, pts: seq<Point>, levels: seq<int>, t: Track)
  {
    && WindowOk(RollingOf(p, t), pts, p.timeTick, Window(t)) && Telescopes(pts, levels)
    && LevelsEnd(p, levels, t) && forall i :: 0 <= i < |levels| ==> 0 <= levels[i] < U32
  }

  lemma RunHasFacts(samples: seq<Raw>, t: Track)
    ensures WindowFacts(Feed(samples), Points(samples, t), Levels(samples, t), t)
  {
    RunKeepsWindows(samples, t);
    LevelsAre(samples, t);
  }

  lemma SumOfWindow(p: Tally, pts: seq<Point>, levels: seq<int>, t: Track)
    requires RollingOf(p, t).history != [] && WindowFacts(p, pts, levels, t)
    ensures var r := RollingOf(p, t);
      && |r.history| <= |levels| && p.stat.Some?
      && r.sum == ValueOf(p.stat.value, t) - levels[Max(|levels| - |r.history| - 1, 0)]
      && -U32 < r.sum < U32
  {
    SumTelescopes(pts, levels, |pts| - |RollingOf(p, t).history|);
  }
}
