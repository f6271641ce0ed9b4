/** UpdateStat: decode, validate, and update a player's tally in place. */
module StatService {
  import opened Machine
  import opened StatModel
  import opened Domain
  import StatReadings

  datatype Verdict = Applied | ShortBuffer | PlayerMismatch | TickAhead

  function VerdictOf(raw: Option<Raw>, id: uint32, timeTick: uint32): Verdict
  {
    match raw
    case None => ShortBuffer
    case Some(s) => if s.playerId != id then PlayerMismatch else if timeTick > s.time then TickAhead else Applied
  }

  /** The verdict on the bytes: too short; not the player's own id at offset 5; older than
      the player's last sample, by the time at offset 0; or applied. */
  lemma VerdictIs(bytes: Bytes, id: uint32, timeTick: uint32)
    ensures var v := VerdictOf(DecodeStat(bytes), id, timeTick);
      if |bytes| < 42 then v == ShortBuffer
      else if StatReadings.Four(bytes, 5) != id then v == PlayerMismatch
      else v == if StatReadings.Four(bytes, 0) < timeTick then TickAhead else Applied
  {
    StatReadings.DecodedBytes(bytes);
  }

  /** The colour of the first started teammate other than the player. */
  ghost function TeamColor(users: seq<Player>, id: uint32, theam: uint32): Option<uint32>
    reads users
  {
    if users == [] then None
    else if users[0].id != id && users[0].theam == theam then Some(users[0].color)
    else TeamColor(users[1..], id, theam)
  }

  ghost predicate Teammate(user: Player, id: uint32, theam: uint32)
    reads user
  {
    user.id != id && user.theam == theam
  }

  /** It is that of a teammate with no other before him, and None only without one. */
  lemma {:induction false} TeamColorIsFirst(users: seq<Player>, id: uint32, theam: uint32)
    ensures match TeamColor(users, id, theam)
      case None => forall i :: 0 <= i < |users| ==> !Teammate(users[i], id, theam)
      case Some(color) =>
        exists i :: 0 <= i < |users| && Teammate(users[i], id, theam) && users[i].color == color
          && forall j :: 0 <= j < i ==> !Teammate(users[j], id, theam)
  {
    if users != [] {
      TeamColorIsFirst(users[1..], id, theam);
      if Teammate(users[0], id, theam) {
        assert TeamColor(users, id, theam) == Some(users[0].color);
      } else if TeamColor(users, id, theam).Some? {
        var i :| 0 <= i < |users[1..]| && Teammate(users[1..][i], id, theam)
          && users[1..][i].color == TeamColor(users, id, theam).value
          && forall j :: 0 <= j < i ==> !Teammate(users[1..][j], id, theam);
        assert users[i + 1] == users[1..][i];
        forall j | 0 <= j < i + 1 ensures !Teammate(users[j], id, theam) {
          if j > 0 { assert users[j] == users[1..][j - 1]; }
        }
      } else {
        forall i | 0 <= i < |users| ensures !Teammate(users[i], id, theam) {
          if i > 0 { assert users[i] == users[1..][i - 1]; }
        }
      }
    }
  }

  method InheritColor(player: Player, users: seq<Player>)
    modifies player`zombie, player`color
    ensures var color := old(TeamColor(users, player.id, player.theam));
      && player.zombie == (color.Some? || old(player.zombie))
      && player.color == (if color.Some? then color.value else old(player.color))
  {
    for i := 0 to |users|
      invariant player.zombie == old(player.zombie) && player.color == old(player.color)
      invariant TeamColor(users, player.id, player.theam) == TeamColor(users[i..], player.id, player.theam)
      invariant old(TeamColor(users, player.id, player.theam)) == TeamColor(users, player.id, player.theam)
    {
      if users[i].id != player.id && users[i].theam == player.theam {
        player.zombie, player.color := true, users[i].color;
        return;
      }
      assert users[i..][1..] == users[i + 1..];
    }
  }

  /** The closure updateRolling: append the change, then prune old points. */
  method UpdateRolling(player: Player, t: Track, pt: Point)
    modifies player`statHistory, player`statSum
    ensures var r := Roll(old(player.RollingNow(t)), pt, Window(t));
      && player.statHistory == old(player.statHistory)[t := r.history]
      && player.statSum == old(player.statSum)[t := r.sum]
      && player.RollingNow(t) == r
    ensures forall u: Track :: u != t ==> player.RollingNow(u) == old(player.RollingNow(u))
  {
    var r := player.RollingNow(t);
    var h, sum := r.history + [pt], r.sum + pt.change;
    player.statHistory, player.statSum := player.statHistory[t := h], player.statSum[t := sum];
    var cutoff := Wrap32(pt.time - Window(t));
    ghost var goal := Prune(Rolling(h, sum), cutoff);
    assert goal == Roll(old(player.RollingNow(t)), pt, Window(t));
    PruneFront(player, t, cutoff);
  }

  method PruneFront(player: Player, t: Track, cutoff: uint32)
    requires t in player.statHistory && t in player.statSum
    modifies player`statHistory, player`statSum
    ensures var r := Prune(Rolling(old(player.statHistory[t]), old(player.statSum[t])), cutoff);
      && player.statHistory == old(player.statHistory)[t := r.history]
      && player.statSum == old(player.statSum)[t := r.sum]
  {
    ghost var history0, sum0 := player.statHistory, player.statSum;
    ghost var goal := Prune(Rolling(history0[t], sum0[t]), cutoff);
    while |player.statHistory[t]| > 0 && player.statHistory[t][0].time < cutoff
      invariant t in player.statHistory && t in player.statSum
      invariant player.statHistory == history0[t := player.statHistory[t]]
      invariant player.statSum == sum0[t := player.statSum[t]]
      invariant Prune(Rolling(player.statHistory[t], player.statSum[t]), cutoff) == goal
      decreases |player.statHistory[t]|
    {
      var h, sum := player.statHistory[t], player.statSum[t];
      player.statSum := player.statSum[t := sum - h[0].change];
      player.statHistory := player.statHistory[t := h[1..]];
    }
  }

  function PointBetween(was: PlayerStat, now: PlayerStat, t: Track, interval: uint32): Point
  {
    Point(ValueOf(now, t) - ValueOf(was, t), now.time, interval)
  }

  predicate IsStock(t: Track) { t.Wood? || t.Food? || t.Stone? }

  method UpdateStockWindows(player: Player, was: PlayerStat, now: PlayerStat, interval: uint32)
    modifies player`statHistory, player`statSum
    ensures forall u: Track :: IsStock(u) ==>
      player.RollingNow(u) == Roll(old(player.RollingNow(u)), PointBetween(was, now, u, interval), Window(u))
    ensures forall u: Track :: !IsStock(u) ==> player.RollingNow(u) == old(player.RollingNow(u))
  {
    UpdateRolling(player, Wood, PointBetween(was, now, Wood, interval));
    UpdateRolling(player, Food, PointBetween(was, now, Food, interval));
    UpdateRolling(player, Stone, PointBetween(was, now, Stone, interval));
  }

  method UpdateHeadWindows(player: Player, was: PlayerStat, now: PlayerStat, interval: uint32)
    modifies player`statHistory, player`statSum
    ensures forall u: Track :: !IsStock(u) ==>
      player.RollingNow(u) == Roll(old(player.RollingNow(u)), PointBetween(was, now, u, interval), Window(u))
    ensures forall u: Track :: IsStock(u) ==> player.RollingNow(u) == old(player.RollingNow(u))
  {
    UpdateRolling(player, Peasants, PointBetween(was, now, Peasants, interval));
    UpdateRolling(player, Units, PointBetween(was, now, Units, interval));
    UpdateRolling(player, Population2, PointBetween(was, now, Population2, interval));
  }

  /** All six windows roll. */
  method UpdateWindows(player: Player, ghost p: Tally, raw: Raw, was: PlayerStat, now: PlayerStat, interval: uint32)
    requires p == player.State() && p.timeTick <= raw.time
    requires was == OldStat(p.stat, raw) && now == StoredStat(p, raw) && interval == Interval(p, raw)
    modifies player`statHistory, player`statSum
    ensures forall u: Track :: player.RollingNow(u) == Rolled(p, raw, u)
  {
    UpdateStockWindows(player, was, now, interval);
    UpdateHeadWindows(player, was, now, interval);
    WindowsRolled(p, raw);
  }

  method ReportRates(player: Player, ghost p: Tally, raw: Raw, was: PlayerStat, interval: uint32) returns (rates: Rates)
    requires p.timeTick <= raw.time && was == OldStat(p.stat, raw) && interval == Interval(p, raw)
    requires forall u: Track :: player.RollingNow(u) == Rolled(p, raw, u)
    ensures rates == RatesOf(p, raw)
  {
    rates := Rates(
      PlainRate(raw.gold, was.gold, interval), PlainRate(raw.iron, was.iron, interval),
      PlainRate(raw.coal, was.coal, interval),
      RateOf(player.RollingNow(Wood), raw.time, Coefficient(Wood)),
      RateOf(player.RollingNow(Food), raw.time, Coefficient(Food)),
      RateOf(player.RollingNow(Stone), raw.time, Coefficient(Stone)),
      RateOf(player.RollingNow(Peasants), raw.time, Coefficient(Peasants)),
      RateOf(player.RollingNow(Units), raw.time, Coefficient(Units)),
      RateOf(player.RollingNow(Population2), raw.time, Coefficient(Population2)));
  }

  /** Unwrap the counters and the score and assemble the sample to store. (Resetting an
      all-zero cycle to its zero value first, as the source does, changes nothing.) */
  method ComputeStat(player: Player, raw: Raw, was: PlayerStat) returns (cycle: Cycle, now: PlayerStat)
    requires was == OldStat(player.stat, raw)
    ensures cycle == NextCycle(player.State(), raw) && now == StoredStat(player.State(), raw)
  {
    cycle := player.statCycle;
    cycle := cycle.(peasants := CounterCycle(was.peasants, cycle.peasants, raw.peasants));
    var peasants: int := CounterValue(cycle.peasants, raw.peasants);
    cycle := cycle.(units := CounterCycle(was.units, cycle.units, raw.units));
    var units: int := CounterValue(cycle.units, raw.units);
    cycle := cycle.(scores := ScoreCycle(was.scores, cycle.scores, raw.scores));
    var population2 := Wrap32(units + peasants);
    var casualties := Wrap32(population2 - was.population2) - Wrap32(raw.population - was.population);
    now := PlayerStat(
      raw.time, raw.pc, raw.playerId, raw.status, raw.scores, cycle.scores * U16 + raw.scores, raw.population,
      raw.wood, raw.gold, raw.stone, raw.food, raw.iron, raw.coal, peasants, units, population2,
      was.casuality + casualties);
  }

  /** A player whose first sample is empty-handed takes a teammate's colour. */
  ghost function ColorAfter(player: Player, raw: Raw, users: seq<Player>): Option<uint32>
    reads player, users
  {
    if player.stat.None? && raw.scores == 0 && raw.population == 0
    then TeamColor(users, player.id, player.theam) else None
  }

  /** Who inherits a colour: a player without any sample so far, whose reading has neither
      score nor population, if there is a teammate. */
  lemma InheritsIff(player: Player, raw: Raw, users: seq<Player>)
    ensures ColorAfter(player, raw, users).Some? <==>
      && player.stat.None? && raw.scores == 0 && raw.population == 0
      && exists i :: 0 <= i < |users| && Teammate(users[i], player.id, player.theam)
  {
    TeamColorIsFirst(users, player.id, player.theam);
  }

  ghost predicate Inherited(player: Player, color: Option<uint32>, zombie: bool, before: uint32)
    reads player
  {
    && player.zombie == (color.Some? || zombie)
    && player.color == (if color.Some? then color.value else before)
  }

  lemma WindowsRolled(p: Tally, raw: Raw)
    requires p.timeTick <= raw.time
    ensures forall u: Track ::
      PointOf(p, raw, u) == PointBetween(OldStat(p.stat, raw), StoredStat(p, raw), u, Interval(p, raw))
  {
  }

  /** Roll the windows and report the rates. */
  method RollAndReport(player: Player, ghost p: Tally, raw: Raw, was: PlayerStat, now: PlayerStat, interval: uint32)
    requires p == player.State() && p.timeTick <= raw.time
    requires was == OldStat(p.stat, raw) && now == StoredStat(p, raw) && interval == Interval(p, raw)
    modifies player`statHistory, player`statSum, player`statRates
    ensures forall u: Track :: player.RollingNow(u) == Rolled(p, raw, u)
    ensures player.statRates == RatesOf(p, raw)
  {
    UpdateWindows(player, p, raw, was, now, interval);
    player.statRates := ReportRates(player, p, raw, was, interval);
  }

  /** The arithmetic of an accepted sample: the new tally is Apply of the old one. */
  method TakeSample(player: Player, raw: Raw)
    requires player.timeTick <= raw.time
    modifies player`statHistory, player`statSum, player`statRates, player`statCycle, player`timeTick, player`stat
    ensures player.State() == Apply(old(player.State()), raw)
    ensures player.statRates == RatesOf(old(player.State()), raw)
    ensures unchanged(player`zombie, player`color)
  {
    ghost var p := player.State();
    var was := OldStat(player.stat, raw);
    var cycle, now := ComputeStat(player, raw, was);
    var interval := if raw.time == player.timeTick then 1 else raw.time - player.timeTick;
    RollAndReport(player, p, raw, was, now, interval);
    Settle(player, p, raw, cycle, now);
  }

  /** The colour part of an accepted sample. */
  method InheritIfFirst(player: Player, raw: Raw, users: seq<Player>)
    modifies player`zombie, player`color
    ensures player.State() == old(player.State())
    ensures Inherited(player, old(ColorAfter(player, raw, users)), old(player.zombie), old(player.color))
  {
    if player.stat.None? && raw.scores == 0 && raw.population == 0 {
      InheritColor(player, users);
    }
  }

  /** The accepted path. */
  method Accept(player: Player, raw: Raw, users: seq<Player>)
    requires player.timeTick <= raw.time
    modifies player
    ensures player.State() == Apply(old(player.State()), raw)
    ensures player.statRates == RatesOf(old(player.State()), raw)
    ensures player.nation == old(player.nation) && player.theam == old(player.theam)
    ensures Inherited(player, old(ColorAfter(player, raw, users)), old(player.zombie), old(player.color))
  {
    InheritIfFirst(player, raw, users);
    TakeSample(player, raw);
  }

  /** The last assignments. */
  method Settle(player: Player, ghost p: Tally, raw: Raw, cycle: Cycle, now: PlayerStat)
    requires p.timeTick <= raw.time && cycle == NextCycle(p, raw) && now == StoredStat(p, raw)
    requires forall u: Track :: player.RollingNow(u) == Rolled(p, raw, u)
    modifies player`statCycle, player`timeTick, player`stat
    ensures player.State() == Apply(p, raw)
  {
    player.statCycle, player.timeTick, player.stat := cycle, raw.time, Some(now);
    forall u: Track
      ensures player.State().rolling[u] == Rolled(p, raw, u)
    {
      assert player.State().rolling[u] == player.RollingNow(u);
    }
  }

  /** The later of the two. */
  function RaisedTo(tick: uint32, time: uint32): (t: uint32)
    ensures t >= tick && t >= time && t in {tick, time}
  {
    if tick < time then time else tick
  }

  /** The part of UpdateStat behind the identity check. */
  method UpdateFrom(player: Player, room: Room, raw: Raw) returns (verdict: Verdict)
    requires raw.playerId == player.id
    modifies player, room`timeTick
    ensures verdict == VerdictOf(Some(raw), player.id, old(player.timeTick))
    ensures verdict == TickAhead ==> unchanged(player)
    ensures verdict == Applied ==>
      && player.State() == Apply(old(player.State()), raw)
      && player.statRates == RatesOf(old(player.State()), raw)
      && player.nation == old(player.nation) && player.theam == old(player.theam)
      && Inherited(player, old(ColorAfter(player, raw, room.startedUsers)), old(player.zombie), old(player.color))
    ensures room.timeTick == RaisedTo(old(room.timeTick), raw.time)
  {
    if room.timeTick < raw.time {
      room.timeTick := raw.time;
    }
    if player.timeTick > raw.time {
      return TickAhead;
    }
    Accept(player, raw, room.startedUsers);
    verdict := Applied;
  }

  /** Service.UpdateStat: what each verdict leaves behind. */
  method UpdateStat(player: Player?, room: Room?, bytes: Bytes) returns (verdict: Verdict)
    modifies player, room
    ensures player == null || room == null ==> verdict == ShortBuffer
    ensures player != null && room != null ==> verdict == VerdictOf(DecodeStat(bytes), player.id, old(player.timeTick))
    ensures player != null && verdict != Applied ==> unchanged(player)
    ensures verdict == Applied ==>
      var raw := DecodeStat(bytes).value;
      && player.State() == Apply(old(player.State()), raw)
      && player.statRates == RatesOf(old(player.State()), raw)
      && player.nation == old(player.nation) && player.theam == old(player.theam)
      && Inherited(player, old(ColorAfter(player, raw, room.startedUsers)), old(player.zombie), old(player.color))
    ensures room != null ==>
      && room.Rec() == old(room.Rec())
      && room.players == old(room.players) && room.startedUsers == old(room.startedUsers)
    ensures room != null ==>
      room.timeTick == if verdict in {Applied, TickAhead}
        then RaisedTo(old(room.timeTick), DecodeStat(bytes).value.time) else old(room.timeTick)
  {
    if player == null || room == null {
      return ShortBuffer;
    }
    var raw := DecodeStat(bytes);
    if raw.None? {
      return ShortBuffer;
    }
    if raw.value.playerId != player.id {
      return PlayerMismatch;
    }
    verdict := UpdateFrom(player, room, raw.value);
  }
}
