/** The socket handlers of the server, each one an atomic transition from the
    room registry and an inbound payload to the new registry and the events
    it emits. Every guard is checked before anything is changed, so a
    rejected request leaves the registry exactly as it was. */
module Handlers {
  import opened Messages
  import opened Rooms

  type Registry = map<Code, Room>

  /** The registry after a handler, and what it emitted, in order. */
  datatype Step = Step(rooms: Registry, out: seq<Emit>)

  datatype RoomUser = RoomUser(roomcode: Code, username: string)

  /** The two values the unseen Room module chooses when a round starts:
      the category `getAndRemoveRandomCategory()` draws and the contestants
      `selectPlayers()` picks. */
  datatype Draw = Draw(category: string, pick: Pick)

  /** `player` is absent when the JSON object has no "player" key. */
  datatype VoteArgs = VoteArgs(roomcode: Code, player: Option<int>)

  /** The registry keeps its keys and every room except the one at `code`. */
  predicate OnlyRoomChanged(rooms: Registry, rooms': Registry, code: Code)
  {
    rooms'.Keys == rooms.Keys && forall c :: c in rooms && c != code ==> rooms'[c] == rooms[c]
  }

  /** Nothing changed, and a single `game_error` with `text` went back to the caller. */
  predicate RejectedWith(rooms: Registry, s: Step, text: string)
  {
    s.rooms == rooms && s.out == [Emit(Requester, GameErrorMsg(text))]
  }

  function ErrorReply(rooms: Registry, text: string): Step
  {
    Step(rooms, [Emit(Requester, GameErrorMsg(text))])
  }

  /** The request room handler once a fresh code has been generated. */
  function CreateRoom(rooms: Registry, code: Code): (s: Step)
    requires code !in rooms
    ensures s.rooms.Keys == rooms.Keys + {code}
    ensures forall c :: c in rooms ==> s.rooms[c] == rooms[c]
    ensures s.rooms[code].players == [] && !s.rooms[code].inProgress && s.rooms[code].selected.None?
    ensures s.out == [Emit(Requester, RequestRoomMsg(code))]
  {
    Step(rooms[code := NewRoom()], [Emit(Requester, RequestRoomMsg(code))])
  }

  predicate Joined(s: Step)
  {
    |s.out| == 1 && s.out[0].msg.JoinRoomMsg? && s.out[0].msg.joined
  }

  /** The join room handler. Checks, in order: the room exists, no round is
      running, the name is free. The in-progress check wins over a taken name. */
  function JoinRoom(rooms: Registry, p: Payload<RoomUser>): (s: Step)
    ensures p.Malformed? ==> RejectedWith(rooms, s, InvalidJson)
    ensures Joined(s) <==> (p.Parsed? && p.args.roomcode in rooms && !rooms[p.args.roomcode].inProgress
                            && !HasPlayer(rooms[p.args.roomcode], p.args.username))
    ensures !Joined(s) ==> s.rooms == rooms && |s.out| == 1 && s.out[0].to == Requester
    ensures p.Parsed? && p.args.roomcode !in rooms ==>
              s.out[0].msg == JoinRoomMsg(false, "", RoomDoesNotExist, 0)
    ensures p.Parsed? && p.args.roomcode in rooms && rooms[p.args.roomcode].inProgress ==>
              s.out[0].msg == JoinRoomMsg(false, "", GameInProgress, |rooms[p.args.roomcode].players|)
    ensures p.Parsed? && p.args.roomcode in rooms && !rooms[p.args.roomcode].inProgress
            && HasPlayer(rooms[p.args.roomcode], p.args.username) ==>
              s.out[0].msg == JoinRoomMsg(false, "", UsernameTaken, |rooms[p.args.roomcode].players|)
    ensures Joined(s) ==>
              var code, room0 := p.args.roomcode, rooms[p.args.roomcode];
              && OnlyRoomChanged(rooms, s.rooms, code)
              && |s.rooms[code].players| == |room0.players| + 1
              && s.rooms[code].players[..|room0.players|] == room0.players
              && s.rooms[code].players[|room0.players|] == Player(p.args.username, 0)
              && s.rooms[code].inProgress == room0.inProgress
              && s.rooms[code].lifetime == room0.lifetime
              && s.rooms[code].selected == room0.selected
              && s.out == [Emit(Members(code), JoinRoomMsg(true, p.args.username, "", |room0.players| + 1))]
  {
    match p
    case Malformed => ErrorReply(rooms, InvalidJson)
    case Parsed(RoomUser(code, name)) =>
      if code !in rooms then
        Step(rooms, [Emit(Requester, JoinRoomMsg(false, "", RoomDoesNotExist, 0))])
      else
        var room := rooms[code];
        if room.inProgress then
          Step(rooms, [Emit(Requester, JoinRoomMsg(false, "", GameInProgress, |room.players|))])
        else if HasPlayer(room, name) then
          Step(rooms, [Emit(Requester, JoinRoomMsg(false, "", UsernameTaken, |room.players|))])
        else
          var room' := room.(players := room.players + [Player(name, 0)]);
          Step(rooms[code := room'], [Emit(Members(code), JoinRoomMsg(true, name, "", |room'.players|))])
  }

  predicate Rejoined(s: Step)
  {
    |s.out| == 1 && s.out[0].msg.RejoinRoomMsg? && s.out[0].msg.rejoined
  }

  /** The rejoin room handler: a pure lookup that answers only the caller.
      It does not look at `inProgress`. An unknown name is reported with the
      "Username is taken" text. */
  function RejoinRoom(rooms: Registry, p: Payload<RoomUser>): (s: Step)
    ensures s.rooms == rooms
    ensures |s.out| == 1 && s.out[0].to == Requester
    ensures p.Malformed? ==> s.out[0].msg == GameErrorMsg(InvalidJson)
    ensures Rejoined(s) <==> p.Parsed? && p.args.roomcode in rooms && HasPlayer(rooms[p.args.roomcode], p.args.username)
    ensures Rejoined(s) ==> s.out[0].msg == RejoinRoomMsg(true, p.args.username, "")
    ensures p.Parsed? && p.args.roomcode !in rooms ==> s.out[0].msg == RejoinRoomMsg(false, "", RoomDoesNotExist)
    ensures p.Parsed? && p.args.roomcode in rooms && !HasPlayer(rooms[p.args.roomcode], p.args.username) ==>
              s.out[0].msg == RejoinRoomMsg(false, "", UsernameTaken)
  {
    match p
    case Malformed => ErrorReply(rooms, InvalidJson)
    case Parsed(RoomUser(code, name)) =>
      if code !in rooms then
        Step(rooms, [Emit(Requester, RejoinRoomMsg(false, "", RoomDoesNotExist))])
      else if HasPlayer(rooms[code], name) then
        Step(rooms, [Emit(Requester, RejoinRoomMsg(true, name, ""))])
      else
        Step(rooms, [Emit(Requester, RejoinRoomMsg(false, "", UsernameTaken))])
  }

  /** The guard shared by everybody in and start game: the error text of the
      first check that fails, if any. */
  function RoundGuard(rooms: Registry, code: Code): Option<string>
  {
    if code !in rooms then Some(RoomcodeDoesNotExist)
    else if |rooms[code].players| < 2 then Some(NotEnoughPlayers)
    else if rooms[code].inProgress then Some(GameInProgress)
    else None
  }

  /** The everybody in handler: a broadcast behind the round guard. It never
      changes the registry. */
  function EverybodyIn(rooms: Registry, p: Payload<Code>): (s: Step)
    ensures s.rooms == rooms
    ensures p.Malformed? ==> RejectedWith(rooms, s, InvalidJson)
    ensures p.Parsed? && p.args !in rooms ==> RejectedWith(rooms, s, RoomcodeDoesNotExist)
    ensures p.Parsed? && p.args in rooms && |rooms[p.args].players| < 2 ==> RejectedWith(rooms, s, NotEnoughPlayers)
    ensures p.Parsed? && p.args in rooms && |rooms[p.args].players| >= 2 && rooms[p.args].inProgress ==>
              RejectedWith(rooms, s, GameInProgress)
    ensures p.Parsed? && p.args in rooms && |rooms[p.args].players| >= 2 && !rooms[p.args].inProgress ==>
              s.out == [Emit(Members(p.args), EverybodyInMsg)]
  {
    match p
    case Malformed => ErrorReply(rooms, InvalidJson)
    case Parsed(code) =>
      match RoundGuard(rooms, code)
      case Some(text) => ErrorReply(rooms, text)
      case None => Step(rooms, [Emit(Members(code), EverybodyInMsg)])
  }

  /** What `selectPlayers()` is assumed to return: two distinct players of
      the room, whenever the room exists and has at least two. */
  predicate DrawFits(rooms: Registry, p: Payload<Code>, draw: Draw)
  {
    p.Parsed? && p.args in rooms && |rooms[p.args].players| >= 2 ==> PickFits(rooms[p.args].players, draw.pick)
  }

  predicate Started(s: Step)
  {
    |s.out| == 2 && s.out[0].msg.StartGameMsg?
  }

  /** The start game handler up to the point where the interval is set; the
      ticks themselves are `Timer.Tick`. */
  function StartGame(rooms: Registry, p: Payload<Code>, draw: Draw): (s: Step)
    requires DrawFits(rooms, p, draw)
    ensures p.Malformed? ==> RejectedWith(rooms, s, InvalidJson)
    ensures p.Parsed? && p.args !in rooms ==> RejectedWith(rooms, s, RoomcodeDoesNotExist)
    ensures p.Parsed? && p.args in rooms && |rooms[p.args].players| < 2 ==> RejectedWith(rooms, s, NotEnoughPlayers)
    ensures p.Parsed? && p.args in rooms && |rooms[p.args].players| >= 2 && rooms[p.args].inProgress ==>
              RejectedWith(rooms, s, GameInProgress)
    ensures Started(s) <==> p.Parsed? && p.args in rooms && |rooms[p.args].players| >= 2 && !rooms[p.args].inProgress
    ensures Started(s) ==>
              var code, room0 := p.args, rooms[p.args];
              && OnlyRoomChanged(rooms, s.rooms, code)
              && s.rooms[code].players == room0.players
              && s.rooms[code].inProgress
              && s.rooms[code].lifetime == RoundLength
              && s.rooms[code].selected == Some(draw.pick)
              && s.out == [Emit(Members(code), StartGameMsg(draw.category,
                                                            room0.players[draw.pick.first].username,
                                                            room0.players[draw.pick.second].username)),
                           Emit(Members(code), TimeChangedMsg(RoundLength))]
  {
    match p
    case Malformed => ErrorReply(rooms, InvalidJson)
    case Parsed(code) =>
      match RoundGuard(rooms, code)
      case Some(text) => ErrorReply(rooms, text)
      case None =>
        var room := rooms[code];
        var started := room.(inProgress := true, lifetime := RoundLength, selected := Some(draw.pick));
        Step(rooms[code := started],
             [Emit(Members(code), StartGameMsg(draw.category,
                                               room.players[draw.pick.first].username,
                                               room.players[draw.pick.second].username)),
              Emit(Members(code), TimeChangedMsg(RoundLength))])
  }

  /** Where the source's behaviour is defined: a vote that passes both checks
      indexes `selectedPlayers` with 0 or 1 after a round has picked them. */
  predicate VoteDefined(rooms: Registry, p: Payload<VoteArgs>)
  {
    p.Parsed? && p.args.roomcode in rooms && p.args.player.Some? ==>
      HasContestants(rooms[p.args.roomcode]) && 0 <= p.args.player.value <= 1
  }

  predicate Counted(s: Step)
  {
    |s.out| == 1 && s.out[0].msg.VoteMsg?
  }

  /** The vote handler: one point for contestant `player`, then the new lead
      percentage to the whole room. A missing room is reported before a
      missing "player" field; `inProgress` is not consulted. */
  function Vote(rooms: Registry, p: Payload<VoteArgs>, dyn: Dynamics): (s: Step)
    requires VoteDefined(rooms, p)
    ensures p.Malformed? ==> RejectedWith(rooms, s, InvalidJson)
    ensures p.Parsed? && p.args.roomcode !in rooms ==> RejectedWith(rooms, s, RoomcodeDoesNotExist)
    ensures p.Parsed? && p.args.roomcode in rooms && p.args.player.None? ==> RejectedWith(rooms, s, PlayerMissing)
    ensures Counted(s) <==> p.Parsed? && p.args.roomcode in rooms && p.args.player.Some?
    ensures Counted(s) ==>
              var code, room0, idx := p.args.roomcode, rooms[p.args.roomcode], p.args.player.value;
              var voted := if idx == 0 then room0.selected.value.first else room0.selected.value.second;
              && OnlyRoomChanged(rooms, s.rooms, code)
              && |s.rooms[code].players| == |room0.players|
              && s.rooms[code].players[voted] == room0.players[voted].(score := room0.players[voted].score + 1)
              && (forall i :: 0 <= i < |room0.players| && i != voted ==> s.rooms[code].players[i] == room0.players[i])
              && s.rooms[code].inProgress == room0.inProgress
              && s.rooms[code].lifetime == room0.lifetime
              && s.rooms[code].selected == room0.selected
              && s.out == [Emit(Members(code), VoteMsg(dyn.percentage(ContestantScores(s.rooms[code]))))]
  {
    match p
    case Malformed => ErrorReply(rooms, InvalidJson)
    case Parsed(VoteArgs(code, player)) =>
      if code !in rooms then ErrorReply(rooms, RoomcodeDoesNotExist)
      else if player.None? then ErrorReply(rooms, PlayerMissing)
      else
        var room := rooms[code];
        var before := ContestantScores(room);
        var after := if player.value == 0 then before.(first := before.first + 1)
                     else before.(second := before.second + 1);
        var room' := WithContestantScores(room, after);
        Step(rooms[code := room'], [Emit(Members(code), VoteMsg(dyn.percentage(ContestantScores(room'))))])
  }

  /** The close room handler: tell the room, then drop its entry. The round
      timer of a running game is not stopped. */
  function CloseRoom(rooms: Registry, p: Payload<Code>): (s: Step)
    ensures p.Malformed? ==> RejectedWith(rooms, s, InvalidJson)
    ensures p.Parsed? && p.args !in rooms ==> RejectedWith(rooms, s, RoomcodeDoesNotExist)
    ensures p.Parsed? && p.args in rooms ==>
              && s.rooms.Keys == rooms.Keys - {p.args}
              && (forall c :: c in s.rooms ==> s.rooms[c] == rooms[c])
              && s.out == [Emit(Members(p.args), CloseRoomMsg)]
  {
    match p
    case Malformed => ErrorReply(rooms, InvalidJson)
    case Parsed(code) =>
      if code !in rooms then ErrorReply(rooms, RoomcodeDoesNotExist)
      else Step(map c | c in rooms && c != code :: rooms[c], [Emit(Members(code), CloseRoomMsg)])
  }
}
