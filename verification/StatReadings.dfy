/** What is stored and reported, in terms of the payload bytes and of the accepted readings
    alone. */
module StatReadings {
  import opened Machine
  import opened StatModel
  import opened StatWindows
  import opened StatCounters
  import opened StatReports

  // ---- The payload ----

  /** A little-endian number of two bytes at offset i. */
  function Two(b: Bytes, i: nat): nat
    requires i + 2 <= |b|
  {
    var low: nat, high: nat := b[i], b[i + 1];
    low + 0x100 * high
  }

  function Four(b: Bytes, i: nat): nat
    requires i + 4 <= |b|
  {
    Two(b, i) + 0x1_0000 * Two(b, i + 2)
  }

  lemma ReadTwo(b: Bytes, i: nat)
    requires i + 2 <= |b|
    ensures FromLE(b[i..i + 2]) == Two(b, i)
  {
    var w := b[i..i + 2];
    assert w[1..][1..] == [];
    assert FromLE(w) == w[0] + 256 * FromLE(w[1..]) && FromLE(w[1..]) == w[1] + 256 * FromLE([]);
  }

  lemma ReadFour(b: Bytes, i: nat)
    requires i + 4 <= |b|
    ensures FromLE(b[i..i + 4]) == Four(b, i)
  {
    var w := b[i..i + 4];
    assert w[1..][1..] == b[i + 2..i + 4];
    ReadTwo(b, i + 2);
    assert FromLE(w) == w[0] + 256 * FromLE(w[1..]);
    assert FromLE(w[1..]) == w[1] + 256 * FromLE(b[i + 2..i + 4]);
  }

  /** Which bytes of a payload each reading is. */
  lemma DecodedBytes(b: Bytes)
    ensures DecodeStat(b).Some? <==> |b| >= 42
    ensures |b| >= 42 ==>
      var r := DecodeStat(b).value;
      && r.time == Four(b, 0) && r.pc == b[4] && r.playerId == Four(b, 5) && r.status == b[9]
      && r.scores == Two(b, 10) && r.population == Two(b, 12)
      && r.wood == Four(b, 14) && r.gold == Four(b, 18) && r.stone == Four(b, 22)
      && r.food == Four(b, 26) && r.iron == Four(b, 30) && r.coal == Four(b, 34)
      && r.peasants == Two(b, 38) && r.units == Two(b, 40)
  {
    if |b| >= 42 {
      ReadFour(b, 0);
      ReadFour(b, 5);
      ReadTwo(b, 10);
      ReadTwo(b, 12);
      ReadFour(b, 14);
      ReadFour(b, 18);
      ReadFour(b, 22);
      ReadFour(b, 26);
      ReadFour(b, 30);
      ReadFour(b, 34);
      ReadTwo(b, 38);
      ReadTwo(b, 40);
    }
  }

  // ---- What is stored ----

  /** The readings of a sample that are stored as they are. */
  predicate Copied(s: PlayerStat, r: Raw)
  {
    && s.time == r.time && s.pc == r.pc && s.playerId == r.playerId && s.status == r.status
    && s.scores == r.scores && s.population == r.population
    && s.wood == r.wood && s.gold == r.gold && s.stone == r.stone
    && s.food == r.food && s.iron == r.iron && s.coal == r.coal
  }

  /** In every run the stored sample and the clock are those of the last accepted reading. */
  lemma {:induction false} StoredIsLast(samples: seq<Raw>)
    ensures var p, accepted := Feed(samples), Accepted(samples);
      if accepted == [] then p == FRESH
      else p.stat.Some? && Copied(p.stat.value, Last(accepted)) && p.timeTick == Last(accepted).time
  {
    if samples != [] {
      StoredIsLast(samples[..|samples| - 1]);
      AcceptedStep(samples);
    }
  }

  /** A sample is accepted exactly when it is not older than the last accepted one. */
  lemma AcceptedIff(before: seq<Raw>, raw: Raw)
    ensures Accepted(before + [raw]) ==
      if Accepted(before) == [] || Last(Accepted(before)).time <= raw.time then Accepted(before) + [raw]
      else Accepted(before)
  {
    StoredIsLast(before);
    assert (before + [raw])[..|before|] == before;
    AcceptedStep(before + [raw]);
  }

  // ---- The plain rates ----

  /** A plain rate: 12.5 times the growth since the previous accepted reading, over the time
      since it, or over 1 if the two came at one time. */
  ghost predicate IsPlainRate(rate: real, now: uint32, before: uint32, time: uint32, timeBefore: uint32)
  {
    var span := if time == timeBefore then 1 else time - timeBefore;
    && rate * span as real == 12.5 * (now - before) as real
    && (rate > 0.0 <==> now > before) && (rate < 0.0 <==> now < before)
  }

  lemma QuotientSign(x: int, d: int, q: real)
    requires d >= 1 && q == x as real / d as real * 25.0 / 2.0
    ensures q * d as real == 12.5 * x as real
    ensures (q > 0.0 <==> x > 0) && (q < 0.0 <==> x < 0)
  {
    var h := x as real / d as real;
    assert h * d as real == x as real;
    assert q == 12.5 * h;
    assert (12.5 * h) * d as real == 12.5 * (h * d as real);
    if h > 0.0 {
      assert h * d as real > 0.0;
    } else if h < 0.0 {
      assert (-h) * d as real > 0.0;
    }
  }

  lemma PlainIs(rate: real, now: uint32, before: uint32, time: uint32, timeBefore: uint32, interval: uint32)
    requires interval >= 1 && rate == PlainRate(now, before, interval)
    requires interval == if time == timeBefore then 1 else time - timeBefore
    ensures IsPlainRate(rate, now, before, time, timeBefore)
  {
    QuotientSign(now - before, interval, rate);
  }

  lemma NoGrowth(x: uint32, interval: uint32)
    requires interval >= 1
    ensures PlainRate(x, x, interval) == 0.0
  {
  }

  lemma PlainParts(p: Tally, raw: Raw)
    requires p.timeTick <= raw.time
    ensures var was, i, rates := OldStat(p.stat, raw), Interval(p, raw), RatesOf(p, raw);
      && rates.gold == PlainRate(raw.gold, was.gold, i) && rates.iron == PlainRate(raw.iron, was.iron, i)
      && rates.coal == PlainRate(raw.coal, was.coal, i)
  {
  }

  lemma FirstPlainRates(raw: Raw)
    ensures var rates := RatesOf(FRESH, raw); rates.gold == 0.0 && rates.iron == 0.0 && rates.coal == 0.0
  {
    PlainParts(FRESH, raw);
    NoGrowth(raw.gold, Interval(FRESH, raw));
    NoGrowth(raw.iron, Interval(FRESH, raw));
    NoGrowth(raw.coal, Interval(FRESH, raw));
  }

  lemma LaterPlainRates(p: Tally, raw: Raw, was: Raw, rates: Rates)
    requires p.stat.Some? && Copied(p.stat.value, was) && p.timeTick == was.time <= raw.time
    requires rates == RatesOf(p, raw)
    ensures IsPlainRate(rates.gold, raw.gold, was.gold, raw.time, was.time)
    ensures IsPlainRate(rates.iron, raw.iron, was.iron, raw.time, was.time)
    ensures IsPlainRate(rates.coal, raw.coal, was.coal, raw.time, was.time)
  {
    PlainParts(p, raw);
    PlainIs(rates.gold, raw.gold, was.gold, raw.time, was.time, Interval(p, raw));
    PlainIs(rates.iron, raw.iron, was.iron, raw.time, was.time, Interval(p, raw));
    PlainIs(rates.coal, raw.coal, was.coal, raw.time, was.time, Interval(p, raw));
  }

  /** In every run gold, iron and coal are reported as 0 with the first accepted sample, and
      otherwise as the growth since the accepted reading before. */
  lemma PlainRatesAre(before: seq<Raw>, raw: Raw)
    requires Feed(before).timeTick <= raw.time
    ensures var rates, accepted := RatesOf(Feed(before), raw), Accepted(before);
      if accepted == [] then rates.gold == 0.0 && rates.iron == 0.0 && rates.coal == 0.0
      else
        var was := Last(accepted);
        && IsPlainRate(rates.gold, raw.gold, was.gold, raw.time, was.time)
        && IsPlainRate(rates.iron, raw.iron, was.iron, raw.time, was.time)
        && IsPlainRate(rates.coal, raw.coal, was.coal, raw.time, was.time)
  {
    StoredIsLast(before);
    if Accepted(before) == [] {
      FirstPlainRates(raw);
    } else {
      LaterPlainRates(Feed(before), raw, Last(Accepted(before)), RatesOf(Feed(before), raw));
    }
  }

  // ---- The windowed rates on readings ----

  /** The value a window follows at the i-th accepted sample: the stock as read, a counter
      unwrapped, to 32 bits. */
  function Reading(accepted: seq<Raw>, i: nat, t: Track): nat
    requires i < |accepted|
  {
    match t
    case Wood => accepted[i].wood
    case Food => accepted[i].food
    case Stone => accepted[i].stone
    case Peasants => Unwrapped(PeasantReadings(accepted[..i + 1])) % U32
    case Units => Unwrapped(UnitReadings(accepted[..i + 1])) % U32
    case Population2 => Total(accepted[..i + 1]) % U32
  }

  ghost predicate LevelsMatch(levels: seq<int>, accepted: seq<Raw>, t: Track)
  {
    |levels| == |accepted| && forall i :: 0 <= i < |accepted| ==> levels[i] == Reading(accepted, i, t)
  }

  lemma ReadingPrefix(accepted: seq<Raw>, raw: Raw, i: nat, t: Track)
    requires i < |accepted|
    ensures Reading(accepted + [raw], i, t) == Reading(accepted, i, t)
  {
    assert (accepted + [raw])[..i + 1] == accepted[..i + 1];
  }

  lemma LevelsMatchSnoc(levels: seq<int>, accepted: seq<Raw>, t: Track, level: int, raw: Raw)
    requires LevelsMatch(levels, accepted, t) && level == Reading(accepted + [raw], |accepted|, t)
    ensures LevelsMatch(levels + [level], accepted + [raw], t)
  {
    forall i | 0 <= i < |accepted| + 1
      ensures (levels + [level])[i] == Reading(accepted + [raw], i, t)
    {
      if i < |accepted| { ReadingPrefix(accepted, raw, i, t); }
    }
  }

  lemma NewReading(p: Tally, accepted: seq<Raw>, raw: Raw, t: Track)
    requires CountersOk(p, accepted) && p.timeTick <= raw.time
    ensures ValueOf(StoredStat(p, raw), t) == Reading(accepted + [raw], |accepted|, t)
  {
    var all := accepted + [raw];
    assert all[..|accepted| + 1] == all;
    UnwrapStep(p, accepted, raw);
    StoredTotal(p, accepted, raw);
  }

  lemma {:induction false} LevelsAreReadings(samples: seq<Raw>, t: Track)
    ensures LevelsMatch(Levels(samples, t), Accepted(samples), t)
  {
    if samples != [] {
      var before, raw := samples[..|samples| - 1], Last(samples);
      LevelsAreReadings(before, t);
      RunUnwraps(before);
      AcceptedStep(samples);
      if Feed(before).timeTick <= raw.time {
        NewReading(Feed(before), Accepted(before), raw, t);
        LevelsMatchSnoc(Levels(before, t), Accepted(before), t, ValueOf(StoredStat(Feed(before), raw), t), raw);
      }
    }
  }

  lemma {:induction false} PointTimes(samples: seq<Raw>, t: Track)
    ensures |Points(samples, t)| == |Accepted(samples)|
    ensures forall i :: 0 <= i < |Accepted(samples)| ==> Points(samples, t)[i].time == Accepted(samples)[i].time
  {
    if samples != [] { PointTimes(samples[..|samples| - 1], t); }
  }

  /** k is the first accepted sample whose time is neither below the window length nor older
      than the window. */
  ghost predicate Oldest(accepted: seq<Raw>, k: nat, window: nat)
    requires accepted != []
  {
    var from := Max(window, Last(accepted).time - window);
    && k <= |accepted|
    && (forall i :: 0 <= i < k ==> accepted[i].time < from)
    && (forall i :: k <= i < |accepted| ==> accepted[i].time >= from)
  }

  /** Window length and coefficient of each rate. */
  predicate Tuned(t: Track, window: nat, coef: real)
  {
    match t
    case Wood => window == 1500 && coef == 12.5
    case Stone => window == 1500 && coef == 12.5
    case Food => window == 3000 && coef == 12.5
    case Peasants => window == 600 && coef == 200.0
    case Units => window == 1000 && coef == 50.0
    case Population2 => window == 1000 && coef == 50.0
  }

  /** The time from the sample before the k-th to the last one, plus 1 if the k-th came at
      the same time as the one before. */
  function SpanOf(accepted: seq<Raw>, k: nat): int
    requires k < |accepted|
  {
    var from := if k == 0 then 0 else accepted[k - 1].time;
    Last(accepted).time - from + (if accepted[k].time == from then 1 else 0)
  }

  lemma OldestIs(samples: seq<Raw>, t: Track) returns (k: nat)
    requires Accepted(samples) != []
    ensures Oldest(Accepted(samples), k, Window(t))
    ensures k == |Points(samples, t)| - |RollingOf(Feed(samples), t).history|
  {
    RunKeepsWindows(samples, t);
    PointTimes(samples, t);
    StoredIsLast(samples);
    k := |Points(samples, t)| - |RollingOf(Feed(samples), t).history|;
  }

  lemma SpanIsOnReadings(samples: seq<Raw>, t: Track, k: nat)
    requires k < |Accepted(samples)|
    ensures |Points(samples, t)| == |Accepted(samples)|
    ensures Span(Points(samples, t), k, Feed(samples).timeTick) == SpanOf(Accepted(samples), k)
  {
    PointTimes(samples, t);
    StoredIsLast(samples);
    var pts, accepted := Points(samples, t), Accepted(samples);
    assert TimeBefore(pts, k) == if k == 0 then 0 else accepted[k - 1].time;
  }

  lemma Tuning(t: Track, window: nat, coef: real)
    requires Tuned(t, window, coef)
    ensures Window(t) == window && Coefficient(t) == coef
  {
  }

  /** In every run, on the readings alone: the rate a window reports is 0 if no sample is in
      it, and otherwise its coefficient times the growth since the reading before the oldest
      sample in it (the first reading counting as its own predecessor), over their span. */
  lemma WindowedRateIs(samples: seq<Raw>, t: Track, window: nat, coef: real) returns (k: nat)
    requires Tuned(t, window, coef) && Accepted(samples) != []
    ensures Oldest(Accepted(samples), k, window)
    ensures var accepted := Accepted(samples); var n := |accepted|;
      if k == n then RateAfter(samples, t) == 0.0
      else IsRate(RateAfter(samples, t), coef,
                  Reading(accepted, n - 1, t) - Reading(accepted, Max(k - 1, 0), t), SpanOf(accepted, k))
  {
    Tuning(t, window, coef);
    PointTimes(samples, t);
    k := OldestIs(samples, t);
    var j, growth, span := RateIs(samples, t);
    if k < |Accepted(samples)| { PartsOnReadings(samples, t, k, growth, span); }
  }

  lemma PartsOnReadings(samples: seq<Raw>, t: Track, k: nat, growth: int, span: int)
    requires k < |Accepted(samples)|
    requires RateParts(Feed(samples), Points(samples, t), Levels(samples, t), t, k, growth, span)
    ensures var accepted := Accepted(samples);
      && growth == Reading(accepted, |accepted| - 1, t) - Reading(accepted, Max(k - 1, 0), t)
      && span == SpanOf(accepted, k)
  {
    LevelsAreReadings(samples, t);
    LevelsAre(samples, t);
    SpanIsOnReadings(samples, t, k);
  }
}
