/** Wire-level vocabulary of the game server: inbound payloads, outbound
    events, who receives them, and the exact error texts the handlers send. */
module Messages {

  datatype Option<+T> = None | Some(value: T)

  /** An inbound payload either fails to parse as JSON or yields its fields. */
  datatype Payload<+T> = Malformed | Parsed(args: T)

  /** `Requester` is `socket.emit` (the calling client only);
      `Members(code)` is `io.to(code).emit` (every client in that room). */
  datatype Audience = Requester | Members(code: string)

  /** Outbound events with the fields of their JSON bodies. Times are in
      half-second units (see `Rooms.RoundLength`). */
  datatype Message =
    | RequestRoomMsg(roomcode: string)
    | JoinRoomMsg(joined: bool, username: string, failReason: string, playerCount: nat)
    | RejoinRoomMsg(rejoined: bool, username: string, failReason: string)
    | EverybodyInMsg
    | StartGameMsg(category: string, player1Name: string, player2Name: string)
    | TimeChangedMsg(time: int)
    | TimeoutMsg(winner: nat)
    | VoteMsg(percentage: real)
    | CloseRoomMsg
    | GameErrorMsg(gameError: string)

  datatype Emit = Emit(to: Audience, msg: Message)

  const InvalidJson := "Invalid json format"
  /** failReason of "join room" / "rejoin room" for an unknown code */
  const RoomDoesNotExist := "Room does not exist"
  /** game_error text of the other handlers for an unknown code */
  const RoomcodeDoesNotExist := "Roomcode does not exist"
  const GameInProgress := "Game is already in progress"
  const UsernameTaken := "Username is taken"
  const NotEnoughPlayers := "Room does not have enough players"
  const PlayerMissing := "player missing from json object"
}
