/** The Room and Player records and the room invariant.

    The `Room` and `Player` classes of the server live in modules that are
    not part of this model; what they do is fixed here by assumption:
    - `hasPlayer(name)` is membership of `name` among the players' usernames
      (exact, case-sensitive string equality);
    - a new Player starts with score 0, `AddPoint` adds one vote and
      `ClearScore` sets the score back to 0;
    - `resetLifetime()` sets `lifetime` to `RoundLength`;
    - `shiftScores()` and `getDisplayPercentage()` depend only on the two
      contestants' scores and are otherwise unknown (`Dynamics`). */
module Rooms {
  import opened Messages

  type Code = string

  datatype Player = Player(username: string, score: nat)

  /** The two contestants of a round, as indices into `players`; the server
      holds references to the same Player objects. */
  datatype Pick = Pick(first: nat, second: nat)

  /** `lifetime` counts half seconds, so one timer tick lowers it by exactly 1. */
  datatype Room = Room(players: seq<Player>, inProgress: bool, lifetime: int, selected: Option<Pick>)

  /** 60 seconds of round time, in half-second units. */
  const RoundLength: int := 120

  /** The unseen score arithmetic: the per-tick decay applied to the
      contestants' scores, and the lead percentage derived from them. */
  datatype Dynamics = Dynamics(shift: Scores -> Scores, percentage: Scores -> real)

  /** The scores of the first and the second contestant. */
  datatype Scores = Scores(first: nat, second: nat)

  /** A freshly constructed room: nobody in it, no round running, no
      contestants. The initial `lifetime` is assumed; it is reset by every
      start before it is read. */
  function NewRoom(): Room
  {
    Room([], false, RoundLength, None)
  }

  function Names(players: seq<Player>): seq<string>
  {
    seq(|players|, i requires 0 <= i < |players| => players[i].username)
  }

  /** Assumed meaning of `room.hasPlayer(name)`. */
  predicate HasPlayer(room: Room, name: string)
  {
    name in Names(room.players)
  }

  predicate Distinct(names: seq<string>)
  {
    forall i, j :: 0 <= i < j < |names| ==> names[i] != names[j]
  }

  predicate PickFits(players: seq<Player>, pick: Pick)
  {
    pick.first < |players| && pick.second < |players| && pick.first != pick.second
  }

  /** What every room the server can reach satisfies: usernames are unique,
      the contestants are two distinct current players, and a running round
      has contestants and at least one tick of time left. */
  predicate Valid(room: Room)
  {
    && Distinct(Names(room.players))
    && (room.selected.Some? ==> PickFits(room.players, room.selected.value))
    && (room.inProgress ==> room.selected.Some? && room.lifetime >= 1)
  }

  predicate HasContestants(room: Room)
  {
    room.selected.Some? && PickFits(room.players, room.selected.value)
  }

  function ContestantScores(room: Room): Scores
    requires HasContestants(room)
  {
    Scores(room.players[room.selected.value.first].score, room.players[room.selected.value.second].score)
  }

  /** Overwrites the two contestants' scores and nothing else. */
  function WithContestantScores(room: Room, scores: Scores): (r: Room)
    requires HasContestants(room)
    ensures HasContestants(r) && ContestantScores(r) == scores
    ensures Names(r.players) == Names(room.players)
    ensures forall i :: 0 <= i < |room.players| && i != room.selected.value.first && i != room.selected.value.second
                        ==> r.players[i] == room.players[i]
    ensures r.inProgress == room.inProgress && r.lifetime == room.lifetime && r.selected == room.selected
  {
    var pick := room.selected.value;
    var ps := room.players[pick.first := room.players[pick.first].(score := scores.first)];
    room.(players := ps[pick.second := ps[pick.second].(score := scores.second)])
  }
}
