/** The per-player STAT accumulator: 16-bit counters unwrapped into longer ones, sliding
    windows of changes, and a casualty tally, all in the source's 32-bit arithmetic.
    Floating-point quantities are exact numbers here: sums of changes are integers,
    rates are reals. */
module StatModel {
  import opened Machine

  /** The 42-byte STAT payload. */
  datatype Raw = Raw(
    time: uint32, pc: byte, playerId: uint32, status: byte, scores: uint16, population: uint16,
    wood: uint32, gold: uint32, stone: uint32, food: uint32, iron: uint32, coal: uint32,
    peasants: uint16, units: uint16)

  /** The per-tick and windowed rates of a stored sample; nothing later reads them back,
      so they are kept beside the sample rather than in it. */
  datatype Rates = Rates(
    gold: real, iron: real, coal: real, wood: real, food: real, stone: real,
    peasants: real, units: real, population2: real)

  datatype PlayerStat = PlayerStat(
    time: uint32, pc: byte, playerId: uint32, status: byte, scores: uint32, realScores: int,
    population: uint32, wood: uint32, gold: uint32, stone: uint32, food: uint32, iron: uint32,
    coal: uint32, peasants: uint32, units: uint32, population2: uint32, casuality: int)

  datatype Cycle = Cycle(peasants: uint32, units: uint32, scores: int)
  datatype Point = Point(change: int, time: uint32, interval: uint32)
  datatype Rolling = Rolling(history: seq<Point>, sum: int)

  /** The quantities with a sliding window. */
  datatype Track = Wood | Food | Stone | Peasants | Units | Population2

  /** What STAT handling remembers about a player. */
  datatype Tally = Tally(timeTick: uint32, stat: Option<PlayerStat>, cycle: Cycle, rolling: map<Track, Rolling>)

  const NO_CYCLE := Cycle(0, 0, 0)
  const NO_ROLLING := map t: Track :: Rolling([], 0)
  const FRESH := Tally(0, None, NO_CYCLE, NO_ROLLING)

  function Window(t: Track): (w: uint32)
    ensures 600 <= w <= 3000
  {
    match t
    case Wood => 1500
    case Stone => 1500
    case Food => 3000
    case Peasants => 600
    case Units => 1000
    case Population2 => 1000
  }

  function Coefficient(t: Track): real
  {
    match t
    case Peasants => 200.0
    case Units => 50.0
    case Population2 => 50.0
    case _ => 12.5
  }

  function ValueOf(s: PlayerStat, t: Track): uint32
  {
    match t
    case Wood => s.wood
    case Food => s.food
    case Stone => s.stone
    case Peasants => s.peasants
    case Units => s.units
    case Population2 => s.population2
  }

  function RollingOf(p: Tally, t: Track): Rolling
  {
    if t in p.rolling then p.rolling[t] else Rolling([], 0)
  }

  // ---- Decoding ----

  function Field(raw: Bytes, from: nat, width: nat): nat
    requires from + width <= |raw|
  {
    FromLE(raw[from..from + width])
  }

  lemma FieldFits(raw: Bytes, from: nat, width: nat)
    requires from + width <= |raw|
    ensures Field(raw, from, width) < Pow256(width)
  {
    FromLEBound(raw[from..from + width]);
  }

  function U32At(raw: Bytes, from: nat): uint32
    requires from + 4 <= |raw|
  {
    Widths(); FieldFits(raw, from, 4);
    Field(raw, from, 4)
  }

  function U16At(raw: Bytes, from: nat): uint16
    requires from + 2 <= |raw|
  {
    Widths(); FieldFits(raw, from, 2);
    Field(raw, from, 2)
  }

  /** DecodeStat: anything shorter than 42 bytes is refused. */
  function DecodeStat(raw: Bytes): Option<Raw>
  {
    if |raw| < 42 then None
    else Some(Raw(
      U32At(raw, 0), raw[4], U32At(raw, 5), raw[9], U16At(raw, 10), U16At(raw, 12),
      U32At(raw, 14), U32At(raw, 18), U32At(raw, 22), U32At(raw, 26), U32At(raw, 30), U32At(raw, 34),
      U16At(raw, 38), U16At(raw, 40)))
  }

  /** The payload layout, little-endian throughout. */
  function HeadBytes(r: Raw): (b: Bytes)
    ensures |b| == 14
  {
    ToLE(r.time, 4) + [r.pc] + ToLE(r.playerId, 4) + [r.status] + ToLE(r.scores, 2) + ToLE(r.population, 2)
  }

  function StockBytes(r: Raw): (b: Bytes)
    ensures |b| == 24
  {
    ToLE(r.wood, 4) + ToLE(r.gold, 4) + ToLE(r.stone, 4) + ToLE(r.food, 4) + ToLE(r.iron, 4) + ToLE(r.coal, 4)
  }

  function CountBytes(r: Raw): (b: Bytes)
    ensures |b| == 4
  {
    ToLE(r.peasants, 2) + ToLE(r.units, 2)
  }

  lemma U32Read(b: Bytes, from: nat, n: uint32)
    requires from + 4 <= |b| && b[from..from + 4] == ToLE(n, 4)
    ensures U32At(b, from) == n
  {
    Widths();
    FromToLE(n, 4);
  }

  lemma U16Read(b: Bytes, from: nat, n: uint16)
    requires from + 2 <= |b| && b[from..from + 2] == ToLE(n, 2)
    ensures U16At(b, from) == n
  {
    Widths();
    FromToLE(n, 2);
  }

  lemma SliceOfSlice(b: Bytes, from: nat, to: nat, i: nat, j: nat)
    requires i <= j && from + j <= to <= |b|
    ensures b[from..to][i..j] == b[from + i..from + j]
  {
    var s, t := b[from..to][i..j], b[from + i..from + j];
    forall k | 0 <= k < j - i ensures s[k] == t[k] { assert s[k] == b[from..to][i + k]; }
  }

  lemma HeadRead(b: Bytes, r: Raw)
    requires |b| >= 14 && b[..14] == HeadBytes(r)
    ensures U32At(b, 0) == r.time && b[4] == r.pc && U32At(b, 5) == r.playerId && b[9] == r.status
    ensures U16At(b, 10) == r.scores && U16At(b, 12) == r.population
  {
    var h := HeadBytes(r);
    assert b[0..4] == h[0..4] == ToLE(r.time, 4);
    assert b[4] == h[4] && b[9] == h[9];
    assert b[5..9] == h[5..9] == ToLE(r.playerId, 4);
    assert b[10..12] == h[10..12] == ToLE(r.scores, 2);
    assert b[12..14] == h[12..14] == ToLE(r.population, 2);
    U32Read(b, 0, r.time);
    U32Read(b, 5, r.playerId);
    U16Read(b, 10, r.scores);
    U16Read(b, 12, r.population);
  }

  lemma StockRead(b: Bytes, r: Raw)
    requires |b| >= 38 && b[14..38] == StockBytes(r)
    ensures U32At(b, 14) == r.wood && U32At(b, 18) == r.gold && U32At(b, 22) == r.stone
    ensures U32At(b, 26) == r.food && U32At(b, 30) == r.iron && U32At(b, 34) == r.coal
  {
    var s := StockBytes(r);
    SliceOfSlice(b, 14, 38, 0, 4);
    SliceOfSlice(b, 14, 38, 4, 8);
    SliceOfSlice(b, 14, 38, 8, 12);
    SliceOfSlice(b, 14, 38, 12, 16);
    SliceOfSlice(b, 14, 38, 16, 20);
    SliceOfSlice(b, 14, 38, 20, 24);
    assert b[14..18] == s[0..4] == ToLE(r.wood, 4);
    assert b[18..22] == s[4..8] == ToLE(r.gold, 4);
    assert b[22..26] == s[8..12] == ToLE(r.stone, 4);
    assert b[26..30] == s[12..16] == ToLE(r.food, 4);
    assert b[30..34] == s[16..20] == ToLE(r.iron, 4);
    assert b[34..38] == s[20..24] == ToLE(r.coal, 4);
    U32Read(b, 14, r.wood);
    U32Read(b, 18, r.gold);
    U32Read(b, 22, r.stone);
    U32Read(b, 26, r.food);
    U32Read(b, 30, r.iron);
    U32Read(b, 34, r.coal);
  }

  lemma CountRead(b: Bytes, r: Raw)
    requires |b| >= 42 && b[38..42] == CountBytes(r)
    ensures U16At(b, 38) == r.peasants && U16At(b, 40) == r.units
  {
    var c := CountBytes(r);
    assert b[38..40] == c[0..2] == ToLE(r.peasants, 2);
    assert b[40..42] == c[2..4] == ToLE(r.units, 2);
    U16Read(b, 38, r.peasants);
    U16Read(b, 40, r.units);
  }

  /** Decoding recovers every field of a laid-out payload, whatever follows it. */
  lemma DecodeRecovers(r: Raw, tail: Bytes)
    ensures DecodeStat(HeadBytes(r) + StockBytes(r) + CountBytes(r) + tail) == Some(r)
  {
    var b := HeadBytes(r) + StockBytes(r) + CountBytes(r) + tail;
    assert b[..14] == HeadBytes(r) && b[14..38] == StockBytes(r) && b[38..42] == CountBytes(r);
    HeadRead(b, r);
    StockRead(b, r);
    CountRead(b, r);
  }

  // ---- One sample ----

  /** OldStat: a player's first sample is compared with itself. */
  function OldStat(prev: Option<PlayerStat>, cur: Raw): PlayerStat
  {
    match prev
    case Some(p) => p
    case None =>
      PlayerStat(0, cur.pc, cur.playerId, cur.status, cur.scores, 0, cur.population, cur.wood, cur.gold,
                 cur.stone, cur.food, cur.iron, cur.coal, cur.peasants, cur.units,
                 Wrap32(cur.units + cur.peasants), 0)
  }

  /** A reading below the low half of the old value means the 16-bit counter wrapped. */
  function CounterCycle(was: uint32, cycle: uint32, raw: uint16): uint32
  {
    if raw < Wrap32(was - Wrap32(cycle * U16)) then Wrap32(cycle + 1) else cycle
  }

  function CounterValue(cycle: uint32, raw: uint16): uint32 { Wrap32(raw + Wrap32(cycle * U16)) }

  function Abs(x: int): int { if x < 0 then -x else x }

  /** A jump of more than half the range is a wrap in the other direction. */
  function ScoreCycle(was: uint32, cycle: int, raw: uint16): int
  {
    var change := raw - was;
    if Abs(change) > 0x7FFF then (if change > 0 then cycle - 1 else cycle + 1) else cycle
  }

  function NextCycle(p: Tally, raw: Raw): Cycle
  {
    var was := OldStat(p.stat, raw);
    Cycle(CounterCycle(was.peasants, p.cycle.peasants, raw.peasants),
          CounterCycle(was.units, p.cycle.units, raw.units),
          ScoreCycle(was.scores, p.cycle.scores, raw.scores))
  }

  function Interval(p: Tally, raw: Raw): (i: uint32)
    requires p.timeTick <= raw.time
    ensures i >= 1
  {
    if raw.time == p.timeTick then 1 else raw.time - p.timeTick
  }

  /** The stored sample. */
  function StoredStat(p: Tally, raw: Raw): PlayerStat
  {
    var was := OldStat(p.stat, raw);
    var cycle := NextCycle(p, raw);
    var peasants := CounterValue(cycle.peasants, raw.peasants);
    var units := CounterValue(cycle.units, raw.units);
    var population2 := Wrap32(units + peasants);
    var casualties := Wrap32(population2 - was.population2) - Wrap32(raw.population - was.population);
    PlayerStat(raw.time, raw.pc, raw.playerId, raw.status, raw.scores, cycle.scores * U16 + raw.scores,
               raw.population, raw.wood, raw.gold, raw.stone, raw.food, raw.iron, raw.coal,
               peasants, units, population2, was.casuality + casualties)
  }

  /** Drop points from the front while they are older than the cutoff. */
  function Prune(r: Rolling, cutoff: uint32): Rolling
    decreases |r.history|
  {
    if r.history != [] && r.history[0].time < cutoff then
      Prune(Rolling(r.history[1..], r.sum - r.history[0].change), cutoff)
    else r
  }

  function Roll(r: Rolling, pt: Point, window: uint32): Rolling
  {
    Prune(Rolling(r.history + [pt], r.sum + pt.change), Wrap32(pt.time - window))
  }

  /** The 32-bit divisor of a windowed rate. */
  function Denominator(r: Rolling, time: uint32): uint32
    requires r.history != []
  {
    Wrap32(time - Wrap32(r.history[0].time - r.history[0].interval))
  }

  function RateOf(r: Rolling, time: uint32, coef: real): real
  {
    if r.history == [] then 0.0
    else
      var d := Denominator(r, time);
      r.sum as real / (if d <= 0 then 1 else d) as real * coef
  }

  function PointOf(p: Tally, raw: Raw, t: Track): Point
    requires p.timeTick <= raw.time
  {
    Point(ValueOf(StoredStat(p, raw), t) - ValueOf(OldStat(p.stat, raw), t), raw.time, Interval(p, raw))
  }

  function Rolled(p: Tally, raw: Raw, t: Track): Rolling
    requires p.timeTick <= raw.time
  {
    Roll(RollingOf(p, t), PointOf(p, raw, t), Window(t))
  }

  function PlainRate(cur: uint32, was: uint32, interval: uint32): real
    requires interval >= 1
  {
    (cur - was) as real / interval as real * 25.0 / 2.0
  }

  function WindowedRate(p: Tally, raw: Raw, t: Track): real
    requires p.timeTick <= raw.time
  {
    RateOf(Rolled(p, raw, t), raw.time, Coefficient(t))
  }

  function RatesOf(p: Tally, raw: Raw): Rates
    requires p.timeTick <= raw.time
  {
    var was := OldStat(p.stat, raw);
    var i := Interval(p, raw);
    Rates(PlainRate(raw.gold, was.gold, i), PlainRate(raw.iron, was.iron, i), PlainRate(raw.coal, was.coal, i),
          WindowedRate(p, raw, Wood), WindowedRate(p, raw, Food), WindowedRate(p, raw, Stone),
          WindowedRate(p, raw, Peasants), WindowedRate(p, raw, Units), WindowedRate(p, raw, Population2))
  }

  /** A sample that is not older than the player's last one is taken in. */
  function Apply(p: Tally, raw: Raw): Tally
    requires p.timeTick <= raw.time
  {
    Tally(raw.time, Some(StoredStat(p, raw)), NextCycle(p, raw),
          map t: Track :: Rolled(p, raw, t))
  }

  // ---- Runs of samples ----

  function Feed(samples: seq<Raw>): Tally
  {
    if samples == [] then FRESH
    else
      var p := Feed(samples[..|samples| - 1]);
      var raw := samples[|samples| - 1];
      if p.timeTick > raw.time then p else Apply(p, raw)
  }

  /** The samples of a run that were accepted. */
  function Accepted(samples: seq<Raw>): seq<Raw>
  {
    if samples == [] then []
    else
      var n := |samples| - 1;
      Accepted(samples[..n]) + (if Feed(samples[..n]).timeTick > samples[n].time then [] else [samples[n]])
  }
}
