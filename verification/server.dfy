/** The whole server as one state machine over the room registry. Node runs
    one handler or one timer callback at a time, so the registry moves by one
    atomic `Handle` step per inbound event or timer firing. */
module Server {
  import opened Messages
  import opened Rooms
  import opened RoomCodes
  import opened Handlers
  import opened Timer

  /** One inbound socket event or timer firing. The request room event carries
      the code `getRandomRoomCode` produced; start game carries what the Room
      module draws; `Fire` is a tick of the round timer of the room that is
      still registered under `code`. */
  datatype Event =
    | Request(code: Code)
    | Join(join: Payload<RoomUser>)
    | Rejoin(rejoin: Payload<RoomUser>)
    | AllIn(allIn: Payload<Code>)
    | Start(start: Payload<Code>, draw: Draw)
    | Fire(timer: Code)
    | Cast(vote: Payload<VoteArgs>)
    | Close(close: Payload<Code>)

  /** Every key is a generated code and every room keeps the room invariant. */
  predicate RegistryValid(rooms: Registry)
  {
    forall c :: c in rooms ==> IsRoomCode(c) && Valid(rooms[c])
  }

  /** When an event is within the model: the code is the generator's (fresh
      and well formed), the Room module's pick fits, the timer of a room only
      fires while its round runs, and a vote indexes a contestant. */
  predicate Enabled(rooms: Registry, e: Event)
  {
    match e
    case Request(code) => IsRoomCode(code) && code !in rooms
    case Start(p, draw) => DrawFits(rooms, p, draw)
    case Fire(code) => code in rooms && rooms[code].inProgress
    case Cast(p) => VoteDefined(rooms, p)
    case _ => true
  }

  /** The event was turned down: one negative answer to the caller only. */
  predicate Rejected(s: Step)
  {
    && |s.out| == 1
    && s.out[0].to == Requester
    && (|| s.out[0].msg.GameErrorMsg?
        || (s.out[0].msg.JoinRoomMsg? && !s.out[0].msg.joined)
        || (s.out[0].msg.RejoinRoomMsg? && !s.out[0].msg.rejoined))
  }

  lemma JoinKeepsNamesDistinct(players: seq<Player>, name: string)
    requires Distinct(Names(players)) && name !in Names(players)
    ensures Distinct(Names(players + [Player(name, 0)]))
  {
    assert Names(players + [Player(name, 0)]) == Names(players) + [name];
  }

  /** The room at `code` after its timer fires once. */
  function FireAt(rooms: Registry, code: Code, dyn: Dynamics): (s: Step)
    requires code in rooms && Valid(rooms[code]) && rooms[code].inProgress
    ensures OnlyRoomChanged(rooms, s.rooms, code) && Valid(s.rooms[code])
  {
    var t := Tick(code, rooms[code], dyn);
    Step(rooms[code := t.room], t.out)
  }

  /** One atomic step of the server. It keeps the registry invariant, a
      rejected event changes nothing, and only request room adds a key and
      only close room removes one. */
  function Handle(rooms: Registry, e: Event, dyn: Dynamics): (s: Step)
    requires RegistryValid(rooms) && Enabled(rooms, e)
    ensures RegistryValid(s.rooms)
    ensures Rejected(s) ==> s.rooms == rooms
    ensures e.Request? ==> s.rooms.Keys == rooms.Keys + {e.code}
    ensures e.Close? && e.close.Parsed? && e.close.args in rooms ==> s.rooms.Keys == rooms.Keys - {e.close.args}
    ensures !e.Request? && !(e.Close? && e.close.Parsed? && e.close.args in rooms) ==> s.rooms.Keys == rooms.Keys
  {
    match e
    case Request(code) => CreateRoom(rooms, code)
    case Join(p) =>
      var s := JoinRoom(rooms, p);
      if Joined(s) then
        JoinKeepsNamesDistinct(rooms[p.args.roomcode].players, p.args.username);
        assert s.rooms[p.args.roomcode].players == rooms[p.args.roomcode].players + [Player(p.args.username, 0)];
        s
      else s
    case Rejoin(p) => RejoinRoom(rooms, p)
    case AllIn(p) => EverybodyIn(rooms, p)
    case Start(p, draw) => StartGame(rooms, p, draw)
    case Fire(code) => FireAt(rooms, code, dyn)
    case Cast(p) => Vote(rooms, p, dyn)
    case Close(p) => CloseRoom(rooms, p)
  }

  /** Replays a trace of events; `None` once an event falls outside the model. */
  function Run(rooms: Registry, events: seq<Event>, dyn: Dynamics): (r: Option<Registry>)
    requires RegistryValid(rooms)
    ensures r.Some? ==> RegistryValid(r.value)
    decreases |events|
  {
    if events == [] then Some(rooms)
    else if !Enabled(rooms, events[0]) then None
    else Run(Handle(rooms, events[0], dyn).rooms, events[1..], dyn)
  }

  /** The request room handler with its code generator in front. With the
      supplied draws used up on taken codes nothing happens. */
  method RequestRoom(rooms: Registry, random: seq<real>) returns (code: Option<Code>, s: Step)
    requires Draws(random)
    ensures code.Some? ==> IsRoomCode(code.value) && code.value !in rooms
    ensures code.Some? ==> s.rooms.Keys == rooms.Keys + {code.value} && s.out == [Emit(Requester, RequestRoomMsg(code.value))]
    ensures code.Some? ==> (forall c :: c in rooms ==> s.rooms[c] == rooms[c]) && s.rooms[code.value].players == []
    ensures code.Some? && RegistryValid(rooms) ==> RegistryValid(s.rooms)
    ensures code.None? ==> s.rooms == rooms && s.out == []
  {
    code := GetRandomRoomCode(rooms, random);
    if code.Some? {
      s := CreateRoom(rooms, code.value);
    } else {
      s := Step(rooms, []);
    }
  }
}
