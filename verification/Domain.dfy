/** The objects the server updates in place. */
module Domain {
  import opened Machine
  import opened ControlSum
  import opened LobbyModel
  import opened StatModel

  /** A missing history is empty, a missing sum 0. */
  function RollingFrom(history: map<Track, seq<Point>>, sums: map<Track, int>, t: Track): Rolling
  {
    Rolling(if t in history then history[t] else [], if t in sums then sums[t] else 0)
  }

  function AllRolling(history: map<Track, seq<Point>>, sums: map<Track, int>): map<Track, Rolling>
  {
    map t: Track :: RollingFrom(history, sums, t)
  }

  class Player {
    const id: uint32
    var nation: uint32
    var theam: uint32
    var color: uint32
    var zombie: bool
    var timeTick: uint32
    var stat: Option<PlayerStat>
    var statCycle: Cycle
    var statHistory: map<Track, seq<Point>>
    var statSum: map<Track, int>
    var statRates: Rates

    constructor (playerId: uint32)
      ensures id == playerId && State() == FRESH
    {
      id := playerId;
      nation, theam, color, zombie, timeTick := 0, 0, 0, false, 0;
      stat, statCycle, statHistory, statSum := None, NO_CYCLE, map[], map[];
      statRates := Rates(0.0, 0.0, 0.0, 0.0, 0.0, 0.0, 0.0, 0.0, 0.0);
    }

    function RollingNow(t: Track): Rolling
      reads this
    {
      RollingFrom(statHistory, statSum, t)
    }

    ghost function State(): Tally
      reads this
    {
      Tally(timeTick, stat, statCycle, AllRolling(statHistory, statSum))
    }
  }

  class Room {
    const id: RoomId
    const hostId: PlayerId
    const password: Bytes
    const maxPlayers: int
    var playersCount: int
    var players: map<PlayerId, Player?>
    var started: bool
    var startPlayers: int
    var row: Row
    var ctlSum: uint32
    var timeTick: uint32
    var startedUsers: seq<Player>

    constructor (roomId: RoomId, host: Player?, params: RoomParams, newRow: Row, sum: uint32)
      ensures id == roomId && players == map[hostId := host] && hostId == (if host == null then 0 else host.id)
      ensures Rec() == RoomRec(hostId, params.password, params.maxPlayers, 1, {hostId}, false, 0, newRow, sum)
    {
      id := roomId;
      var pid := if host == null then 0 else host.id;
      hostId, password, maxPlayers := pid, params.password, params.maxPlayers;
      playersCount, players := 1, map[pid := host];
      started, startPlayers, row, ctlSum := false, 0, newRow, sum;
      timeTick, startedUsers := 0, [];
    }

    /** The part of a room the lobby is about. */
    ghost function Rec(): RoomRec
      reads this
    {
      RoomRec(hostId, password, maxPlayers, playersCount, players.Keys, started, startPlayers, row, ctlSum)
    }

    /** Players are filed under their own ids. */
    ghost predicate KeyedById()
      reads this
    {
      forall pid :: pid in players && players[pid] != null ==> players[pid].id == pid
    }
  }
}
