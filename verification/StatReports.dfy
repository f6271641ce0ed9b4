/** What the windows mean for the reader of the statistics: which samples a window is
    missing, and what a reported rate is. */
module StatReports {
  import opened Machine
  import opened StatModel
  import opened StatWindows

  // ---- Samples lost around the start of the clock ----

  /** No sample was accepted at a time the window should cover but below its own length. */
  ghost predicate NoneEarly(pts: seq<Point>, now: uint32, window: uint32)
  {
    forall i :: 0 <= i < |pts| ==> !(Max(0, now - window) <= pts[i].time < window)
  }

  /** The window holds every sample accepted at a time in [now - window, now]. */
  ghost predicate Complete(r: Rolling, pts: seq<Point>, now: uint32, window: uint32)
  {
    var k := |pts| - |r.history|;
    k >= 0 && r.history == pts[k..] && forall i :: 0 <= i < |pts| && now - window <= pts[i].time ==> i >= k
  }

  lemma CompleteIff(r: Rolling, pts: seq<Point>, now: uint32, window: uint32)
    requires WindowOk(r, pts, now, window)
    ensures Complete(r, pts, now, window) <==> NoneEarly(pts, now, window)
  {
    var k := |pts| - |r.history|;
    if Complete(r, pts, now, window) {
      forall i | 0 <= i < |pts|
        ensures !(Max(0, now - window) <= pts[i].time < window)
      {
        if Max(0, now - window) <= pts[i].time { assert i >= k; }
      }
    }
  }

  /** In every run a window holds all samples accepted in [T - W, T] exactly when none of
      them came before W; up to the clock 2W it may be missing some. */
  lemma WindowCompleteIff(samples: seq<Raw>, t: Track)
    ensures var p, pts := Feed(samples), Points(samples, t);
      Complete(RollingOf(p, t), pts, p.timeTick, Window(t)) <==> NoneEarly(pts, p.timeTick, Window(t))
  {
    RunKeepsWindows(samples, t);
    CompleteIff(RollingOf(Feed(samples), t), Points(samples, t), Feed(samples).timeTick, Window(t));
  }

  /** A wood sample at time 1000 is gone at time 1500, though the window covers 1500. */
  lemma LateLossExample(raw: Raw)
    requires raw.time == 1000
    ensures var samples := [raw, raw.(time := 1500)]; var h := RollingOf(Feed(samples), Wood).history;
      && Accepted(samples) == samples && Feed(samples).timeTick == 1500
      && |h| == 1 && h[0].time == 1500
  {
    var samples := [raw, raw.(time := 1500)];
    TwoAccepted(raw);
    RunKeepsWindows(samples, Wood);
    var pts := Points(samples, Wood);
    assert pts[0].time == 1000 && pts[1].time == 1500;
  }

  lemma TwoAccepted(raw: Raw)
    requires raw.time == 1000
    ensures var samples := [raw, raw.(time := 1500)];
      && Accepted(samples) == samples && Feed(samples).timeTick == 1500 && |Points(samples, Wood)| == 2
      && Points(samples, Wood)[0].time == 1000 && Points(samples, Wood)[1].time == 1500
  {
    var samples := [raw, raw.(time := 1500)];
    assert samples[..1] == [raw] && [raw][..0] == [];
    PointsStep([raw], Wood);
    PointsStep(samples, Wood);
    assert Accepted([raw]) == [raw];
  }

  // ---- Reported rates ----

  function RateOn(r: Rates, t: Track): real
  {
    match t
    case Wood => r.wood
    case Food => r.food
    case Stone => r.stone
    case Peasants => r.peasants
    case Units => r.units
    case Population2 => r.population2
  }

  /** The rate of the window as it stands after the run. */
  function RateAfter(samples: seq<Raw>, t: Track): real
  {
    RateOf(RollingOf(Feed(samples), t), Feed(samples).timeTick, Coefficient(t))
  }

  /** The rates reported with an accepted sample are those of the windows it leaves. */
  lemma RatesReported(before: seq<Raw>, raw: Raw, t: Track)
    requires Feed(before).timeTick <= raw.time
    ensures RateOn(RatesOf(Feed(before), raw), t) == RateAfter(before + [raw], t)
  {
    assert (before + [raw])[..|before|] == before;
    assert RollingOf(Apply(Feed(before), raw), t) == Rolled(Feed(before), raw, t);
  }

  /** The time of the sample before the i-th accepted one, 0 if there is none. */
  function TimeBefore(pts: seq<Point>, i: nat): uint32
    requires i < |pts|
  {
    if i == 0 then 0 else pts[i - 1].time
  }

  function Gap(from: uint32, to: uint32): int { if from == to then 1 else to - from }

  /** The interval reaches back to the sample before. */
  predicate ReachesBack(pts: seq<Point>, i: nat)
    requires i < |pts|
  {
    pts[i].interval == Gap(TimeBefore(pts, i), pts[i].time)
  }

  ghost predicate Spaced(pts: seq<Point>, now: uint32)
  {
    && (forall i :: 0 <= i < |pts| ==> ReachesBack(pts, i))
    && now == (if pts == [] then 0 else pts[|pts| - 1].time)
  }

  lemma SpacedSnoc(pts: seq<Point>, now: uint32, pt: Point)
    requires Spaced(pts, now) && pt.interval == Gap(now, pt.time)
    ensures Spaced(pts + [pt], pt.time)
  {
    forall i | 0 <= i < |pts + [pt]|
      ensures ReachesBack(pts + [pt], i)
    {
      if i < |pts| {
        assert ReachesBack(pts, i);
      } else {
        assert TimeBefore(pts + [pt], i) == now;
      }
    }
  }

  lemma {:induction false} PointsSpaced(samples: seq<Raw>, t: Track)
    ensures Spaced(Points(samples, t), Feed(samples).timeTick)
  {
    if samples != [] {
      var before, raw := samples[..|samples| - 1], samples[|samples| - 1];
      PointsSpaced(before, t);
      PointsStep(samples, t);
      if Feed(before).timeTick <= raw.time {
        SpacedSnoc(Points(before, t), Feed(before).timeTick, PointOf(Feed(before), raw, t));
      }
    }
  }

  /** The time the window's oldest sample accounts for: since the sample before it, or 1 on
      top of its age if the two came at the same time. */
  function Span(pts: seq<Point>, k: nat, now: uint32): int
    requires k < |pts|
  {
    now - pts[k].time + Gap(TimeBefore(pts, k), pts[k].time)
  }

  /** The value stored just before the k-th accepted sample; the first sample counts as its
      own predecessor. */
  function ValueBefore(levels: seq<int>, k: nat): int
    requires k < |levels|
  {
    levels[Max(k - 1, 0)]
  }

  /** A rate of `coef` times growth over span. */
  predicate IsRate(rate: real, coef: real, growth: int, span: int)
  {
    span >= 1 && rate == growth as real / span as real * coef && (rate == 0.0 <==> growth == 0)
  }

  lemma QuotientZero(x: int, d: int, c: real)
    requires d > 0 && c > 0.0
    ensures x as real / d as real * c == 0.0 <==> x == 0
  {
    var q := x as real / d as real;
    assert q * d as real == x as real;
    if q * c == 0.0 {
      assert q == 0.0;
    }
  }

  lemma RateRates(r: Rolling, now: uint32, coef: real, growth: int, span: int)
    requires r.history != [] && coef > 0.0 && growth == r.sum && span == Denominator(r, now) >= 1
    ensures IsRate(RateOf(r, now, coef), coef, growth, span)
  {
    QuotientZero(growth, span, coef);
  }

  lemma SpanIs(r: Rolling, pts: seq<Point>, now: uint32)
    requires r.history != [] && |r.history| <= |pts| && r.history == pts[|pts| - |r.history|..] && Spaced(pts, now)
    requires Denominator(r, now) == now - r.history[0].time + r.history[0].interval
    ensures Denominator(r, now) == Span(pts, |pts| - |r.history|, now)
  {
    var k := |pts| - |r.history|;
    assert r.history[0] == pts[k];
    assert ReachesBack(pts, k);
  }

  /** The growth and the span behind a rate; k is the oldest sample in the window. */
  ghost predicate RateParts(
    p: Tally, pts: seq<Point>, levels: seq<int>, t: Track, k: int, growth: int, span: int)
  {
    && 0 <= k < |pts| == |levels| && k == |pts| - |RollingOf(p, t).history| && p.stat.Some?
    && growth == ValueOf(p.stat.value, t) - ValueBefore(levels, k) && span == Span(pts, k, p.timeTick)
  }

  lemma HistoryIsSuffix(samples: seq<Raw>, t: Track)
    ensures var h, pts := RollingOf(Feed(samples), t).history, Points(samples, t);
      |h| <= |pts| == |Levels(samples, t)| && h == pts[|pts| - |h|..]
  {
    RunHasFacts(samples, t);
    SuffixOfPoints(Feed(samples), Points(samples, t), Levels(samples, t), t);
  }

  lemma SuffixOfPoints(p: Tally, pts: seq<Point>, levels: seq<int>, t: Track)
    requires WindowFacts(p, pts, levels, t)
    ensures var h := RollingOf(p, t).history; |h| <= |pts| == |levels| && h == pts[|pts| - |h|..]
  {
  }

  lemma PartsOf(samples: seq<Raw>, t: Track) returns (k: int, growth: int, span: int)
    requires RollingOf(Feed(samples), t).history != []
    ensures RateParts(Feed(samples), Points(samples, t), Levels(samples, t), t, k, growth, span)
    ensures growth == RollingOf(Feed(samples), t).sum
    ensures span == Denominator(RollingOf(Feed(samples), t), Feed(samples).timeTick) >= 1
  {
    HistoryIsSuffix(samples, t);
    WindowSumTelescopes(samples, t);
    DenominatorPositive(samples, t);
    PointsSpaced(samples, t);
    SpanIs(RollingOf(Feed(samples), t), Points(samples, t), Feed(samples).timeTick);
    k := |Points(samples, t)| - |RollingOf(Feed(samples), t).history|;
    growth := ValueOf(Feed(samples).stat.value, t) - ValueBefore(Levels(samples, t), k);
    span := Span(Points(samples, t), k, Feed(samples).timeTick);
  }

  /** In every run: a window's rate is its coefficient times the growth of the value since
      just before the oldest sample it holds, over the time since the sample before that
      one; 0 if the window is empty, and otherwise only if the value is back where it was. */
  lemma RateIs(samples: seq<Raw>, t: Track) returns (k: int, growth: int, span: int)
    ensures if RollingOf(Feed(samples), t).history == [] then RateAfter(samples, t) == 0.0
      else
        && RateParts(Feed(samples), Points(samples, t), Levels(samples, t), t, k, growth, span)
        && IsRate(RateAfter(samples, t), Coefficient(t), growth, span)
  {
    if RollingOf(Feed(samples), t).history != [] {
      k, growth, span := PartsOf(samples, t);
      RateRates(RollingOf(Feed(samples), t), Feed(samples).timeTick, Coefficient(t), growth, span);
    } else {
      k, growth, span := 0, 0, 0;
    }
  }
}
