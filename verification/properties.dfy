/** Properties that relate several handlers, or many calls of one. */
module Properties {
  import opened Messages
  import opened Rooms
  import opened Handlers
  import opened Timer
  import opened Server

  /** Join room for each name in turn, all into the room at `code`. */
  function JoinAll(rooms: Registry, code: Code, names: seq<string>): Registry
    decreases |names|
  {
    if names == [] then rooms
    else JoinAll(JoinRoom(rooms, Parsed(RoomUser(code, names[0]))).rooms, code, names[1..])
  }

  /** Joining names that clash neither with each other nor with the players
      already there, while no round runs, appends exactly those names in
      order and touches no other room. */
  lemma {:induction false} JoinAllAppends(rooms: Registry, code: Code, names: seq<string>)
    requires code in rooms && !rooms[code].inProgress
    requires Distinct(Names(rooms[code].players) + names)
    ensures var after := JoinAll(rooms, code, names);
            && OnlyRoomChanged(rooms, after, code)
            && Names(after[code].players) == Names(rooms[code].players) + names
            && after[code].players[..|rooms[code].players|] == rooms[code].players
            && !after[code].inProgress
    decreases |names|
  {
    if names != [] {
      var before := Names(rooms[code].players);
      var s := JoinRoom(rooms, Parsed(RoomUser(code, names[0])));
      assert (before + names)[|before|] == names[0];
      assert names[0] !in before by {
        forall i | 0 <= i < |before|
          ensures before[i] != names[0]
        {
          assert (before + names)[i] == before[i];
        }
      }
      assert Joined(s);
      var players' := s.rooms[code].players;
      assert players' == rooms[code].players + [Player(names[0], 0)];
      assert Names(players') == before + [names[0]];
      assert Names(players') + names[1..] == before + names;
      JoinAllAppends(s.rooms, code, names[1..]);
      var after := JoinAll(s.rooms, code, names[1..]);
      assert after[code].players[..|players'|] == players';
      assert after[code].players[..|rooms[code].players|] == players'[..|rooms[code].players|];
    }
  }

  /** Distinct names joined into a fresh room: the roster is exactly those
      names, so its length is the number of joins and `hasPlayer` holds of
      precisely them. */
  lemma FreshRoomRoster(rooms: Registry, code: Code, names: seq<string>)
    requires code in rooms && rooms[code] == NewRoom()
    requires Distinct(names)
    ensures var after := JoinAll(rooms, code, names);
            && code in after
            && |after[code].players| == |names|
            && forall name :: HasPlayer(after[code], name) <==> name in names
  {
    assert Names(rooms[code].players) + names == names;
    JoinAllAppends(rooms, code, names);
  }

  /** A player who joined can always rejoin, even once a round is running. */
  lemma JoinThenRejoin(rooms: Registry, code: Code, name: string, draw: Draw)
    requires Joined(JoinRoom(rooms, Parsed(RoomUser(code, name))))
    ensures var joined := JoinRoom(rooms, Parsed(RoomUser(code, name))).rooms;
            Rejoined(RejoinRoom(joined, Parsed(RoomUser(code, name))))
    ensures var joined := JoinRoom(rooms, Parsed(RoomUser(code, name))).rooms;
            DrawFits(joined, Parsed(code), draw) && Started(StartGame(joined, Parsed(code), draw)) ==>
              Rejoined(RejoinRoom(StartGame(joined, Parsed(code), draw).rooms, Parsed(RoomUser(code, name))))
  {
    var joined := JoinRoom(rooms, Parsed(RoomUser(code, name))).rooms;
    var n := |rooms[code].players|;
    assert Names(joined[code].players)[n] == name;
  }

  /** A started round locks the room: another start is refused with "Game is
      already in progress", and so is a join, whatever the name; nothing is
      changed by either. */
  lemma StartedRoundLocksRoom(rooms: Registry, code: Code, draw: Draw, draw': Draw, name: string)
    requires DrawFits(rooms, Parsed(code), draw)
    requires Started(StartGame(rooms, Parsed(code), draw))
    ensures var started := StartGame(rooms, Parsed(code), draw).rooms;
            && DrawFits(started, Parsed(code), draw')
            ==> RejectedWith(started, StartGame(started, Parsed(code), draw'), GameInProgress)
    ensures var started := StartGame(rooms, Parsed(code), draw).rooms;
            var s := JoinRoom(started, Parsed(RoomUser(code, name)));
            s.rooms == started && s.out[0].msg.failReason == GameInProgress
  {
  }

  /** After close room, every handler that names the code reports the room
      missing and changes nothing. */
  lemma ClosedRoomIsGone(rooms: Registry, code: Code, name: string, draw: Draw, player: Option<int>, dyn: Dynamics)
    requires code in rooms
    ensures var closed := CloseRoom(rooms, Parsed(code)).rooms;
            && code !in closed
            && JoinRoom(closed, Parsed(RoomUser(code, name))) == Step(closed, [Emit(Requester, JoinRoomMsg(false, "", RoomDoesNotExist, 0))])
            && RejoinRoom(closed, Parsed(RoomUser(code, name))) == Step(closed, [Emit(Requester, RejoinRoomMsg(false, "", RoomDoesNotExist))])
            && RejectedWith(closed, EverybodyIn(closed, Parsed(code)), RoomcodeDoesNotExist)
            && RejectedWith(closed, StartGame(closed, Parsed(code), draw), RoomcodeDoesNotExist)
            && RejectedWith(closed, Vote(closed, Parsed(VoteArgs(code, player)), dyn), RoomcodeDoesNotExist)
            && RejectedWith(closed, CloseRoom(closed, Parsed(code)), RoomcodeDoesNotExist)
  {
  }

  /** Everybody in and start game share their guard: the lobby signal goes
      out exactly when a start would begin a round. */
  lemma EverybodyInMatchesStart(rooms: Registry, code: Code, draw: Draw)
    requires DrawFits(rooms, Parsed(code), draw)
    ensures EverybodyIn(rooms, Parsed(code)).out == [Emit(Members(code), EverybodyInMsg)]
            <==> Started(StartGame(rooms, Parsed(code), draw))
  {
  }

  /** A whole round: start game, then the interval until it clears itself.
      It reports `RoundLength` times, the winner once, and leaves the room
      idle with the same roster, so that it can be started again. */
  method PlayRound(rooms: Registry, code: Code, draw: Draw, dyn: Dynamics) returns (after: Registry, out: seq<Emit>)
    requires RegistryValid(rooms) && DrawFits(rooms, Parsed(code), draw)
    requires code in rooms && |rooms[code].players| >= 2 && !rooms[code].inProgress
    ensures RegistryValid(after) && OnlyRoomChanged(rooms, after, code)
    ensures Names(after[code].players) == Names(rooms[code].players) && !after[code].inProgress
    ensures |out| == 2 + RoundLength + 1
    ensures out[0].msg.StartGameMsg? && out[1].msg == TimeChangedMsg(RoundLength)
    ensures forall i :: 2 <= i < 2 + RoundLength ==> out[i].msg == TimeChangedMsg(RoundLength + 1 - i)
    ensures out[2 + RoundLength].msg.TimeoutMsg?
    ensures Started(StartGame(after, Parsed(code), draw))
  {
    var s := StartGame(rooms, Parsed(code), draw);
    assert Started(s);
    var final, ticks := RunRound(code, s.rooms[code], dyn);
    after := s.rooms[code := final];
    out := s.out + ticks;
    assert |final.players| == |Names(final.players)| == |Names(rooms[code].players)| == |rooms[code].players|;
    assert forall c :: c in after ==> after[c] == final || after[c] == rooms[c];
  }
}
