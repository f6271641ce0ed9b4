/** What the unwrapped counters, the score and the casualty tally mean over whole runs. */
module StatCounters {
  import opened Machine
  import opened StatModel

  function Last<T>(s: seq<T>): T
    requires s != []
  {
    s[|s| - 1]
  }

  /** Rejected samples leave the player untouched: only accepted ones matter. */
  lemma AcceptedStep(samples: seq<Raw>)
    requires samples != []
    ensures var before := samples[..|samples| - 1]; var raw := Last(samples);
      if Feed(before).timeTick > raw.time
      then Feed(samples) == Feed(before) && Accepted(samples) == Accepted(before)
      else Feed(samples) == Apply(Feed(before), raw) && Accepted(samples) == Accepted(before) + [raw]
  {
  }

  // ---- 16-bit counters ----

  /** The least value not below u that is congruent to the reading modulo 65536. */
  function Advance(u: nat, raw: uint16): (v: nat)
    ensures u <= v < u + U16 && v % U16 == raw
  {
    if raw < u % U16 then (u / U16 + 1) * U16 + raw else u / U16 * U16 + raw
  }

  lemma AdvanceIsLeast(u: nat, raw: uint16, x: nat)
    requires u <= x && x % U16 == raw
    ensures Advance(u, raw) <= x
  {
  }

  /** A reading that moved by less than 65536 is recovered. */
  lemma AdvanceRecovers(u: nat, x: nat)
    requires u <= x < u + U16
    ensures Advance(u, x % U16) == x
  {
  }

  /** The readings of one counter, unwrapped without any width limit. */
  function Unwrapped(readings: seq<uint16>): nat
  {
    if readings == [] then 0
    else if |readings| == 1 then readings[0]
    else Advance(Unwrapped(readings[..|readings| - 1]), Last(readings))
  }

  /** Cycle count and stored value are the two 32-bit faces of the unwrapped value. */
  ghost predicate CounterOk(u: nat, cycle: uint32, stored: uint32)
  {
    cycle == (u / U16) % U32 && stored == u % U32
  }

  lemma ShiftedMod(q: nat, low: nat)
    requires low < U16
    ensures (q * U16 + low) % U32 == (q % U16) * U16 + low
  {
    assert q * U16 + low == (q / U16) * U32 + ((q % U16) * U16 + low);
    ModUnique(q * U16 + low, U32, q / U16, (q % U16) * U16 + low);
  }

  lemma ModMod(q: nat)
    ensures (q % U32) % U16 == q % U16
  {
    var r := q % U32;
    assert q == ((q / U32) * U16 + r / U16) * U16 + r % U16;
    ModUnique(q, U16, (q / U32) * U16 + r / U16, r % U16);
  }

  lemma SplitCycle(q: nat, low: nat)
    requires low < U16
    ensures Wrap32(Wrap32((q % U32) * U16) + low) == (q * U16 + low) % U32
    ensures Wrap32((q * U16 + low) % U32 - Wrap32((q % U32) * U16)) == low
  {
    ShiftedMod(q, low);
    ShiftedMod(q % U32, 0);
    ModMod(q);
  }

  lemma AdvanceSplit(u: nat, raw: uint16)
    ensures var q' := if raw < u % U16 then u / U16 + 1 else u / U16;
      Advance(u, raw) == q' * U16 + raw && Advance(u, raw) / U16 == q'
  {
    var q' := if raw < u % U16 then u / U16 + 1 else u / U16;
    ModUnique(q' * U16 + raw, U16, q', raw);
  }

  lemma CycleStep(q: nat, low: nat, raw: uint16)
    requires low < U16
    ensures CounterCycle((q * U16 + low) % U32, q % U32, raw) == (if raw < low then q + 1 else q) % U32
  {
    SplitCycle(q, low);
  }

  lemma CounterStep(u: nat, cycle: uint32, stored: uint32, raw: uint16)
    requires CounterOk(u, cycle, stored)
    ensures var cycle' := CounterCycle(stored, cycle, raw);
      CounterOk(Advance(u, raw), cycle', CounterValue(cycle', raw))
  {
    var q, low := u / U16, u % U16;
    assert u == q * U16 + low;
    AdvanceSplit(u, raw);
    CycleStep(q, low, raw);
    SplitCycle(if raw < low then q + 1 else q, raw);
  }

  function PeasantReadings(s: seq<Raw>): seq<uint16> { seq(|s|, i requires 0 <= i < |s| => s[i].peasants) }

  function UnitReadings(s: seq<Raw>): seq<uint16> { seq(|s|, i requires 0 <= i < |s| => s[i].units) }

  ghost predicate CountersOk(p: Tally, accepted: seq<Raw>)
  {
    if accepted == [] then p == FRESH
    else
      && p.stat.Some?
      && CounterOk(Unwrapped(PeasantReadings(accepted)), p.cycle.peasants, p.stat.value.peasants)
      && CounterOk(Unwrapped(UnitReadings(accepted)), p.cycle.units, p.stat.value.units)
  }

  lemma UnwrappedSnoc(readings: seq<uint16>, raw: uint16)
    ensures Unwrapped(readings + [raw]) == if readings == [] then raw else Advance(Unwrapped(readings), raw)
  {
    assert (readings + [raw])[..|readings|] == readings;
  }

  lemma FirstReading(raw: uint16)
    ensures CounterCycle(raw, 0, raw) == 0 && CounterValue(0, raw) == raw && CounterOk(raw, 0, raw)
  {
  }

  /** In every run the stored peasant and unit counts are the unwrapped readings, to 32 bits. */
  lemma {:induction false} RunUnwraps(samples: seq<Raw>)
    ensures CountersOk(Feed(samples), Accepted(samples))
  {
    if samples != [] {
      var before, raw := samples[..|samples| - 1], Last(samples);
      RunUnwraps(before);
      AcceptedStep(samples);
      if Feed(before).timeTick <= raw.time {
        UnwrapStep(Feed(before), Accepted(before), raw);
      }
    }
  }

  lemma UnwrapStep(p: Tally, accepted: seq<Raw>, raw: Raw)
    requires CountersOk(p, accepted) && p.timeTick <= raw.time
    ensures CountersOk(Apply(p, raw), accepted + [raw])
  {
    assert PeasantReadings(accepted + [raw]) == PeasantReadings(accepted) + [raw.peasants];
    assert UnitReadings(accepted + [raw]) == UnitReadings(accepted) + [raw.units];
    UnwrappedSnoc(PeasantReadings(accepted), raw.peasants);
    UnwrappedSnoc(UnitReadings(accepted), raw.units);
    if accepted == [] {
      FirstReading(raw.peasants);
      FirstReading(raw.units);
    } else {
      CounterStep(Unwrapped(PeasantReadings(accepted)), p.cycle.peasants, p.stat.value.peasants, raw.peasants);
      CounterStep(Unwrapped(UnitReadings(accepted)), p.cycle.units, p.stat.value.units, raw.units);
    }
  }

  /** A true counter that starts below 65536 and grows by less than 65536 a step. */
  ghost predicate SlowCounter(truth: seq<nat>)
  {
    && truth != [] && truth[0] < U16
    && forall i, j :: 0 <= i < |truth| && j == i + 1 && j < |truth| ==> truth[i] <= truth[j] < truth[i] + U16
  }

  ghost predicate ReadsAs(readings: seq<uint16>, truth: seq<int>)
  {
    |readings| == |truth| && forall i :: 0 <= i < |truth| ==> readings[i] == truth[i] % U16
  }

  lemma {:induction false} UnwrappedTracks(truth: seq<nat>, readings: seq<uint16>)
    requires SlowCounter(truth) && ReadsAs(readings, truth)
    ensures Unwrapped(readings) == Last(truth)
  {
    var n := |truth| - 1;
    if n > 0 {
      UnwrappedTracks(truth[..n], readings[..n]);
      AdvanceRecovers(truth[n - 1], truth[n]);
    }
  }

  /** Any such counter is tracked exactly, to 32 bits, between accepted samples. */
  lemma PeasantsTracked(samples: seq<Raw>, truth: seq<nat>)
    requires SlowCounter(truth) && ReadsAs(PeasantReadings(Accepted(samples)), truth)
    ensures Feed(samples).stat.Some? && Feed(samples).stat.value.peasants == Last(truth) % U32
  {
    RunUnwraps(samples);
    UnwrappedTracks(truth, PeasantReadings(Accepted(samples)));
  }

  lemma UnitsTracked(samples: seq<Raw>, truth: seq<nat>)
    requires SlowCounter(truth) && ReadsAs(UnitReadings(Accepted(samples)), truth)
    ensures Feed(samples).stat.Some? && Feed(samples).stat.value.units == Last(truth) % U32
  {
    RunUnwraps(samples);
    UnwrappedTracks(truth, UnitReadings(Accepted(samples)));
  }

  // ---- The score ----

  /** The value congruent to the reading that lies nearest to x (below x on a tie upwards,
      above it on a tie downwards). */
  function Follow(x: int, raw: uint16): (y: int)
    ensures y % U16 == raw && -0x8000 <= y - x <= 0x8000
  {
    var change := raw - x % U16;
    if change > 0x7FFF then x + change - U16 else if change < -0x7FFF then x + change + U16 else x + change
  }

  /** A move of at most 32767 is recovered. */
  lemma FollowRecovers(x: int, y: int)
    requires -0x7FFF <= y - x <= 0x7FFF
    ensures Follow(x, y % U16) == y
  {
  }

  function Followed(readings: seq<uint16>): int
  {
    if readings == [] then 0
    else if |readings| == 1 then readings[0]
    else Follow(Followed(readings[..|readings| - 1]), Last(readings))
  }

  function ScoreReadings(s: seq<Raw>): seq<uint16> { seq(|s|, i requires 0 <= i < |s| => s[i].scores) }

  ghost predicate ScoreOk(p: Tally, accepted: seq<Raw>)
  {
    if accepted == [] then p == FRESH
    else
      && p.stat.Some?
      && p.stat.value.realScores == Followed(ScoreReadings(accepted))
      && p.stat.value.realScores == p.cycle.scores * U16 + p.stat.value.scores
      && p.stat.value.scores < U16
  }

  lemma OneScore(cycle: int, was: uint32, raw: uint16)
    requires was < U16
    ensures ScoreCycle(was, cycle, raw) * U16 + raw == Follow(cycle * U16 + was, raw)
  {
    ModUnique(cycle * U16 + was, U16, cycle, was);
  }

  lemma FollowedSnoc(readings: seq<uint16>, raw: uint16)
    ensures Followed(readings + [raw]) == if readings == [] then raw else Follow(Followed(readings), raw)
  {
    assert (readings + [raw])[..|readings|] == readings;
  }

  lemma ScoreStep(p: Tally, accepted: seq<Raw>, raw: Raw)
    requires ScoreOk(p, accepted) && p.timeTick <= raw.time
    ensures ScoreOk(Apply(p, raw), accepted + [raw])
  {
    assert ScoreReadings(accepted + [raw]) == ScoreReadings(accepted) + [raw.scores];
    FollowedSnoc(ScoreReadings(accepted), raw.scores);
    AppliedScore(p, raw);
    if accepted != [] { OneScore(p.cycle.scores, p.stat.value.scores, raw.scores); }
  }

  lemma AppliedScore(p: Tally, raw: Raw)
    requires p.timeTick <= raw.time
    ensures var q := Apply(p, raw); var was := OldStat(p.stat, raw);
      && q.stat.Some? && q.stat.value.scores == raw.scores
      && q.cycle.scores == ScoreCycle(was.scores, p.cycle.scores, raw.scores)
      && q.stat.value.realScores == q.cycle.scores * U16 + raw.scores
  {
  }

  /** In every run the reported score follows the readings to the nearest congruent value,
      so one sample never moves it by more than 32768. */
  lemma {:induction false} RunFollowsScore(samples: seq<Raw>)
    ensures ScoreOk(Feed(samples), Accepted(samples))
    ensures samples != [] && Feed(samples[..|samples| - 1]).stat.Some? ==>
      && Feed(samples).stat.Some?
      && -0x8000 <= Feed(samples).stat.value.realScores
                    - Feed(samples[..|samples| - 1]).stat.value.realScores <= 0x8000
  {
    if samples != [] {
      var before, raw := samples[..|samples| - 1], Last(samples);
      RunFollowsScore(before);
      AcceptedStep(samples);
      if Feed(before).timeTick <= raw.time {
        ScoreStep(Feed(before), Accepted(before), raw);
        if Feed(before).stat.Some? { ScoreJump(Feed(before), Accepted(before), raw); }
      }
    }
  }

  lemma ScoreJump(p: Tally, accepted: seq<Raw>, raw: Raw)
    requires ScoreOk(p, accepted) && p.timeTick <= raw.time && p.stat.Some?
    ensures var q := Apply(p, raw);
      q.stat.Some? && -0x8000 <= q.stat.value.realScores - p.stat.value.realScores <= 0x8000
  {
    AppliedScore(p, raw);
    OneScore(p.cycle.scores, p.stat.value.scores, raw.scores);
  }

  /** A true score that starts in 0..65535 and moves by at most 32767 a step. */
  ghost predicate SlowScore(truth: seq<int>)
  {
    && truth != [] && 0 <= truth[0] < U16
    && forall i, j :: 0 <= i < |truth| && j == i + 1 && j < |truth| ==> -0x7FFF <= truth[j] - truth[i] <= 0x7FFF
  }

  lemma {:induction false} FollowedTracks(truth: seq<int>, readings: seq<uint16>)
    requires SlowScore(truth) && ReadsAs(readings, truth)
    ensures Followed(readings) == Last(truth)
  {
    var n := |truth| - 1;
    if n > 0 {
      FollowedTracks(truth[..n], readings[..n]);
      FollowRecovers(truth[n - 1], truth[n]);
    }
  }

  /** Any such score is reported exactly. */
  lemma ScoreTracked(samples: seq<Raw>, truth: seq<int>)
    requires SlowScore(truth) && ReadsAs(ScoreReadings(Accepted(samples)), truth)
    ensures Feed(samples).stat.Some? && Feed(samples).stat.value.realScores == Last(truth)
  {
    RunFollowsScore(samples);
    FollowedTracks(truth, ScoreReadings(Accepted(samples)));
  }

  // ---- The casualty tally ----

  /** Population and Population2 at the first and latest accepted sample, and how often
      each of them dropped from one accepted sample to the next. */
  datatype Census = Census(first: nat, first2: nat, last: nat, last2: nat, drops: nat, drops2: nat)

  function Count(c: Option<Census>, s: PlayerStat): Census
  {
    match c
    case None => Census(s.population, s.population2, s.population, s.population2, 0, 0)
    case Some(c) =>
      Census(c.first, c.first2, s.population, s.population2,
             c.drops + (if s.population < c.last then 1 else 0),
             c.drops2 + (if s.population2 < c.last2 then 1 else 0))
  }

  function CensusOf(samples: seq<Raw>): Option<Census>
  {
    if samples == [] then None
    else
      var before := samples[..|samples| - 1];
      if Feed(before).timeTick > Last(samples).time then CensusOf(before)
      else Some(Count(CensusOf(before), StoredStat(Feed(before), Last(samples))))
  }

  /** Each drop of an unsigned quantity adds 2^32 to its 32-bit difference. */
  function Expected(c: Census): int
  {
    (c.last2 - c.first2) - (c.last - c.first) + U32 * (c.drops2 - c.drops)
  }

  ghost predicate CensusOk(p: Tally, c: Option<Census>)
  {
    match c
    case None => p == FRESH
    case Some(c) =>
      && p.stat.Some? && c.last < U32 && c.last2 < U32
      && p.stat.value.population == c.last && p.stat.value.population2 == c.last2
      && p.stat.value.casuality == Expected(c)
  }

  lemma Difference32(cur: uint32, prev: uint32)
    ensures Wrap32(cur - prev) == cur - prev + (if cur < prev then U32 else 0)
  {
  }

  lemma CensusStep(p: Tally, raw: Raw, c: Option<Census>)
    requires CensusOk(p, c) && p.timeTick <= raw.time
    ensures CensusOk(Apply(p, raw), Some(Count(c, StoredStat(p, raw))))
  {
    var s := StoredStat(p, raw);
    if c.Some? {
      Difference32(s.population2, c.value.last2);
      Difference32(s.population, c.value.last);
    } else {
      FirstReading(raw.peasants);
      FirstReading(raw.units);
    }
  }

  /** In every run the tally is the population gain difference plus 2^32 per drop of
      Population2 and minus 2^32 per drop of Population. */
  lemma {:induction false} CasualtiesClosedForm(samples: seq<Raw>)
    ensures CensusOk(Feed(samples), CensusOf(samples))
  {
    if samples != [] {
      var before, raw := samples[..|samples| - 1], Last(samples);
      CasualtiesClosedForm(before);
      if Feed(before).timeTick <= raw.time { CensusStep(Feed(before), raw, CensusOf(before)); }
    }
  }

  /** Measured on the stored 32-bit Population2, the tally is the plain difference exactly
      when both populations dropped equally often, and always modulo 2^32. */
  lemma CasualtiesExactIff(samples: seq<Raw>)
    requires CensusOf(samples).Some?
    ensures Feed(samples).stat.Some?
    ensures var c := CensusOf(samples).value; var plain := (c.last2 - c.first2) - (c.last - c.first);
      && (Feed(samples).stat.value.casuality == plain <==> c.drops2 == c.drops)
      && (Feed(samples).stat.value.casuality - plain) % U32 == 0
  {
    CasualtiesClosedForm(samples);
    var c := CensusOf(samples).value;
    ModUnique(U32 * (c.drops2 - c.drops), U32, c.drops2 - c.drops, 0);
  }

  // ---- The tally in terms of the readings alone ----

  /** All peasants and units counted so far, unwrapped without any width limit. */
  function Total(accepted: seq<Raw>): nat
  {
    Unwrapped(PeasantReadings(accepted)) + Unwrapped(UnitReadings(accepted))
  }

  /** How often the population reading fell. */
  function PopulationDrops(accepted: seq<Raw>): nat
  {
    if |accepted| <= 1 then 0
    else
      var n := |accepted| - 1;
      PopulationDrops(accepted[..n]) + (if accepted[n].population < accepted[n - 1].population then 1 else 0)
  }

  ghost predicate NeverDrops(accepted: seq<Raw>)
  {
    forall i, j :: 0 <= i < |accepted| && j == i + 1 && j < |accepted| ==>
      accepted[i].population <= accepted[j].population
  }

  lemma {:induction false} NoDropsIff(accepted: seq<Raw>)
    ensures PopulationDrops(accepted) == 0 <==> NeverDrops(accepted)
  {
    if |accepted| > 1 {
      var n := |accepted| - 1;
      NoDropsIff(accepted[..n]);
      forall i, j | 0 <= i < n && j == i + 1 && j < n
        ensures accepted[..n][i] == accepted[i] && accepted[..n][j] == accepted[j]
      {
      }
      if NeverDrops(accepted) { assert accepted[n - 1].population <= accepted[n].population; }
    }
  }

  ghost predicate CensusReads(c: Option<Census>, accepted: seq<Raw>)
  {
    if accepted == [] then c == None
    else
      && c.Some?
      && c.value.first == accepted[0].population && c.value.last == Last(accepted).population
      && c.value.drops == PopulationDrops(accepted)
      && c.value.first2 == accepted[0].peasants + accepted[0].units
      && c.value.last2 + U32 * c.value.drops2 == Total(accepted)
  }

  /** The 32-bit total wraps exactly when it drops, since it moves by less than 2^17. */
  lemma WrapIsDrop(t: nat, t': nat, last: nat, drops: nat)
    requires last + U32 * drops == t && last < U32 && t <= t' < t + 2 * U16
    ensures t' % U32 + U32 * (drops + (if t' % U32 < last then 1 else 0)) == t'
  {
    if t' - U32 * drops < U32 {
      ModUnique(t', U32, drops, t' - U32 * drops);
    } else {
      ModUnique(t', U32, drops + 1, t' - U32 * (drops + 1));
    }
  }

  lemma SumWrap(a: nat, b: nat)
    ensures Wrap32(b % U32 + a % U32) == (a + b) % U32
  {
    var k := a / U32 + b / U32;
    assert a + b == U32 * k + (a % U32 + b % U32);
    var j := (a % U32 + b % U32) / U32;
    ModUnique(a + b, U32, k + j, (a % U32 + b % U32) % U32);
  }

  lemma TotalSnoc(accepted: seq<Raw>, raw: Raw)
    ensures accepted == [] ==> Total(accepted + [raw]) == raw.peasants + raw.units
    ensures
      var peasants := Advance(Unwrapped(PeasantReadings(accepted)), raw.peasants);
      var units := Advance(Unwrapped(UnitReadings(accepted)), raw.units);
      accepted != [] ==> Total(accepted + [raw]) == peasants + units
  {
    assert PeasantReadings(accepted + [raw]) == PeasantReadings(accepted) + [raw.peasants];
    assert UnitReadings(accepted + [raw]) == UnitReadings(accepted) + [raw.units];
    UnwrappedSnoc(PeasantReadings(accepted), raw.peasants);
    UnwrappedSnoc(UnitReadings(accepted), raw.units);
  }

  lemma StoredTotal(p: Tally, accepted: seq<Raw>, raw: Raw)
    requires CountersOk(p, accepted) && p.timeTick <= raw.time
    ensures StoredStat(p, raw).population2 == Total(accepted + [raw]) % U32
  {
    UnwrapStep(p, accepted, raw);
    SumWrap(Unwrapped(PeasantReadings(accepted + [raw])), Unwrapped(UnitReadings(accepted + [raw])));
  }

  /** What a further accepted sample does to the total and to the stored Population2. */
  lemma TotalStep(p: Tally, accepted: seq<Raw>, raw: Raw)
    requires CountersOk(p, accepted) && p.timeTick <= raw.time
    ensures StoredStat(p, raw).population2 == Total(accepted + [raw]) % U32
    ensures if accepted == [] then Total(accepted + [raw]) == raw.peasants + raw.units
            else Total(accepted) <= Total(accepted + [raw]) < Total(accepted) + 2 * U16
  {
    StoredTotal(p, accepted, raw);
    TotalSnoc(accepted, raw);
  }

  lemma CensusReadsStep(c: Option<Census>, accepted: seq<Raw>, raw: Raw, s: PlayerStat)
    requires CensusReads(c, accepted) && (c.Some? ==> c.value.last2 < U32)
    requires s.population == raw.population && s.population2 == Total(accepted + [raw]) % U32
    requires if accepted == [] then Total(accepted + [raw]) == raw.peasants + raw.units
             else Total(accepted) <= Total(accepted + [raw]) < Total(accepted) + 2 * U16
    ensures CensusReads(Some(Count(c, s)), accepted + [raw])
  {
    assert (accepted + [raw])[..|accepted|] == accepted;
    if c.Some? {
      WrapIsDrop(Total(accepted), Total(accepted + [raw]), c.value.last2, c.value.drops2);
    }
  }

  lemma {:induction false} RunCensusReads(samples: seq<Raw>)
    ensures CensusReads(CensusOf(samples), Accepted(samples))
  {
    if samples != [] {
      var before, raw := samples[..|samples| - 1], Last(samples);
      RunCensusReads(before);
      AcceptedStep(samples);
      if Feed(before).timeTick <= raw.time {
        RunUnwraps(before);
        CasualtiesClosedForm(before);
        TotalStep(Feed(before), Accepted(before), raw);
        CensusReadsStep(CensusOf(before), Accepted(before), raw, StoredStat(Feed(before), raw));
      }
    }
  }

  /** What the tally should be: the units and peasants gained minus the population gained. */
  function TrueCasualties(accepted: seq<Raw>): int
    requires accepted != []
  {
    (Total(accepted) - accepted[0].peasants - accepted[0].units)
    - (Last(accepted).population - accepted[0].population)
  }

  /** In every run the tally is the true number less 2^32 for every time the population
      reading fell; so it is right exactly when the population reading never fell. */
  lemma CasualtiesRightIff(samples: seq<Raw>)
    requires Accepted(samples) != []
    ensures Feed(samples).stat.Some?
    ensures var accepted := Accepted(samples); var tally := Feed(samples).stat.value.casuality;
      && tally == TrueCasualties(accepted) - U32 * PopulationDrops(accepted)
      && (tally == TrueCasualties(accepted) <==> NeverDrops(accepted))
  {
    CasualtiesClosedForm(samples);
    RunCensusReads(samples);
    NoDropsIff(Accepted(samples));
  }

  /** One villager fewer, nothing else changed: the tally falls by 2^32 - 1 instead of
      rising by 1. */
  lemma DropExample(raw: Raw)
    requires raw.population == 10
    ensures var samples := [raw, raw.(population := 9)];
      Feed(samples).stat.Some? && Feed(samples).stat.value.casuality == 1 - U32
  {
    var samples := [raw, raw.(population := 9)];
    assert samples[..1] == [raw] && [raw][..0] == [];
    CasualtiesClosedForm([raw]);
    CasualtiesClosedForm(samples);
    var first := StoredStat(FRESH, raw);
    assert Feed([raw]) == Apply(FRESH, raw);
    assert CensusOf([raw]) == Some(Count(None, first));
    FirstReading(raw.peasants);
    FirstReading(raw.units);
  }
}
