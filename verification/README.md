# Hackbox backend: the room state machine

A Dafny model of the socket handlers in `index.js` of the Hackbox party-game
server. The server keeps every game session in one in-memory `rooms` map from
a four-letter room code to a Room. Clients create rooms, join and rejoin them
by code, signal "everybody in", start timed rounds between two contestants,
vote, and close rooms.

The model treats each handler as one atomic transition. Node runs one handler
or one timer callback at a time, so this is faithful to the source. A handler
is a pure function from the registry (`map<Code, Room>`) and a parsed payload
to a `Step`: the new registry and the events emitted, each addressed either
to the requesting socket or to every member of a room.

- `messages.dfy`: payloads, outbound events, audiences and the exact error texts.
- `rooms.dfy`: Room and Player records, the room invariant `Valid`, and the
  assumed behaviour of the Room and Player modules. Those modules are not
  part of this model: `hasPlayer` is username membership, scores are vote
  counts, and `resetLifetime` sets 120 half-seconds. Decay and the lead
  percentage are the parameters in `Dynamics`.
- `room_codes.dfy`: `getRandomRoomCode`, with the `Math.random` draws as input.
- `handlers.dfy`: request room, join, rejoin, everybody in, start game, vote
  and close room.
- `timer.dfy`: one firing of the round interval, and the whole countdown loop.
- `server.dfy`: all events behind one dispatcher. It keeps the registry
  invariant, leaves the registry unchanged on every rejection, and changes
  keys only on request room and close room.
- `properties.dfy`: lemmas that relate several handlers.

`lifetime` is counted in half seconds, so a tick lowers it by exactly 1 and a
round lasts 120 ticks.

## Model

| member | source | states |
|---|---|---|
| RoomCodes.Letter | index.js:313-316 | each random draw in [0,1) yields one upper-case letter A..Z, namely 'A' + floor(draw * 26) |
| RoomCodes.GetRandomRoomCode | index.js:303-321 | the code returned has 4 letters A..Z, is not already a room, and is the first candidate that is free; every earlier candidate was taken |
| Handlers.CreateRoom | index.js:23-33 | request room adds exactly one key: the new code maps to an empty idle room, every existing room stays as it was, and only the requester gets the code back |
| Handlers.JoinRoom | index.js:35-83 | join succeeds iff the room exists, is not in progress and lacks the name. The checks run in that order, so an in-progress room wins over a taken name. An unknown room reports `playerCount` 0. Every failure leaves the registry unchanged and answers only the caller. Success appends exactly one zero-score player at the end, keeps the earlier players, touches no other room, and broadcasts the new count |
| Handlers.RejoinRoom | index.js:84-116 | rejoin never changes the registry and always answers only the caller. It succeeds iff the room exists and already has that name, whether or not a round runs. An unknown name is reported as "Username is taken" |
| Handlers.EverybodyIn | index.js:118-145 | everybody in never changes the registry. It checks, in priority order: room missing, fewer than 2 players, round in progress. Only when all three pass does it broadcast |
| Handlers.StartGame | index.js:147-191 | start game runs the same three checks in the same order, and all of them come before any change, so a rejected start changes nothing. Success changes only that room: it marks the round in progress with the full `lifetime` and the chosen contestants, keeps the roster, and broadcasts their names and then the initial time |
| Handlers.Vote | index.js:238-261 | a missing room is reported before a missing "player" field, and each failure changes nothing. A vote adds exactly one point to the chosen contestant. No other player, room or round field changes. The new percentage goes to the room, and `inProgress` is not consulted |
| Handlers.CloseRoom | index.js:263-289 | closing an existing room removes exactly its key and keeps every other room, and it notifies the room. An unknown code is rejected with no change |
| Timer.Tick | index.js:193-215 | one tick lowers `lifetime` by exactly one half-second and broadcasts it. It clears the interval iff `lifetime` reaches 0 or below, and exactly then the round stops. On timeout the winner is 0 iff the decayed percentage is below one half, and both contestants' scores are cleared. Names, contestants and other players are kept, and so is the room invariant |
| Timer.RunRound | index.js:193-216 | a running round's interval fires exactly `lifetime` times, reporting each remaining time from `lifetime - 1` down to 0. With no votes between ticks, it then reports one winner, decided by the starting scores after that many decay steps. It stops with the room idle and the scores cleared |
| Rooms.WithContestantScores | index.js:212-214 | setting the two contestants' scores changes no other player, no name and no round field |
| Server.JoinKeepsNamesDistinct | index.js:59-67 | appending a name that `hasPlayer` rejected keeps usernames unique |
| Server.FireAt | index.js:193-215 | a tick of a registered room changes only that room and keeps it valid |
| Server.Handle | index.js:23-289 | every event keeps the registry invariant: codes are well formed, names are unique, contestants are two distinct players, and a running round has time left. A rejected event changes nothing. Only request room adds a key, and only a successful close room removes one |
| Server.Run | index.js:9 | every trace of events from a valid registry, including from the initial empty `rooms` map, keeps the registry invariant |
| Server.RequestRoom | index.js:23-26 | when the draws yield a free code, request room with its generator inserts exactly that one fresh, well-formed code, answers the requester with it, and keeps the registry invariant |
| Properties.JoinAllAppends | index.js:59-71 | successive joins of clash-free names append exactly those names, in order, to that room only |
| Properties.FreshRoomRoster | index.js:59-71 | after joining distinct names into a fresh room, the roster length equals the number of joins and `hasPlayer` holds exactly for those names |
| Properties.JoinThenRejoin | index.js:94-103 | a player who joined can rejoin, also after a round has started |
| Properties.StartedRoundLocksRoom | index.js:168-183 | after a successful start, a second start is refused with "Game is already in progress", and so is any join. Neither changes anything |
| Properties.ClosedRoomIsGone | index.js:272-288 | after closing a room, every handler that names its code reports the room missing and changes nothing |
| Properties.EverybodyInMatchesStart | index.js:129-171 | everybody in broadcasts exactly when start game would start a round: both handlers apply the same three checks |
| Properties.PlayRound | index.js:174-216 | a full round emits the start, the initial time, 120 countdown times and one timeout. It leaves the room idle with the same roster, and the room can be started again |

## Left out

- Transport: socket.io connections, `socket.join`, broadcast fan-out and the eviction of sockets in close room (index.js:278-286). These are network plumbing. The model records only who each event is addressed to.
- JSON parsing: the model represents it as `Malformed` versus parsed fields. Missing or non-string `roomcode`/`username` fields (JavaScript `undefined`) are not modelled. The vote's optional `player` field is.
- The express route, `http.listen`, the CSV category file and the disconnect log line (index.js:12-19, index.js:291-298). These are I/O.
- enter submission (index.js:219-236): a stateless relay of the payload to the room, with no guard and no state.
- `setInterval` scheduling and the 500 ms period: only the body of one firing is modelled (`Timer.Tick`). `lifetime` and the reported times are in half-second units rather than the source's floating-point seconds.
- The Room and Player modules are not part of this model. Their behaviour is assumed as documented in `rooms.dfy`. `getAndRemoveRandomCategory` and `selectPlayers` become an input `Draw`. The model assumes the pick is two distinct players of the room. What happens when the category pool runs out is not modelled. `shiftScores` and `getDisplayPercentage` are the uninterpreted functions in `Dynamics`.
- RoomCodes.GetRandomRoomCode: `Math.random` becomes a finite sequence of draws, so the model answers `None` once the draws run out while every candidate is taken. The source would keep drawing.
- Server.RequestRoom: when every candidate the supplied draws give is already taken, the model creates no room and emits nothing. The source always creates a room and replies, because it keeps drawing until a code is free.
- Timer.RunRound: covers only a round with no votes between ticks, so its winner comes from the decayed starting scores. Votes cast between firings are covered only step by step, through `Server.Handle`.
- Handlers.Vote: an out-of-range `player` index, or a vote before any round has picked contestants, makes the source throw. The model excludes these cases by its precondition.
- Timers of closed rooms: close room does not stop a running interval. The interval keeps ticking the removed Room object and broadcasting to its code until the countdown ends. The event `Server.Event.Fire`, handled by `Server.FireAt`, models ticks of rooms that are still registered. The orphaned room is outside the registry, so its ticks do not change the registry. The model does not track the broadcasts such a timer sends to a later room that reuses the same code.
- Close room does not end a running round: `inProgress` and the interval are untouched (index.js:272-288).
