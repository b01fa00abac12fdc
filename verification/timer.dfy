/** The round timer: the body of the interval callback that start game sets
    up, and the loop of ticks it amounts to.

    The callback captures the Room object itself, not its registry entry, so
    it keeps ticking a room that close room has already removed. The
    interval is live exactly while that room's `inProgress` is true: start
    game sets the flag just before `setInterval`, and the tick that clears
    the interval is the one that resets the flag. Nothing else touches it. */
module Timer {
  import opened Messages
  import opened Rooms

  /** The room after one tick, what the tick emitted, and whether it called
      `clearInterval`. */
  datatype TickStep = TickStep(room: Room, out: seq<Emit>, cleared: bool)

  /** `0` when the lead percentage is below one half, else `1`. */
  function Winner(dyn: Dynamics, scores: Scores): nat
  {
    if dyn.percentage(scores) < 0.5 then 0 else 1
  }

  /** One firing of the interval for the room broadcast to as `code`. */
  function Tick(code: Code, room: Room, dyn: Dynamics): (t: TickStep)
    requires Valid(room) && room.inProgress
    ensures Valid(t.room)
    ensures t.room.lifetime == room.lifetime - 1
    ensures t.cleared <==> t.room.lifetime <= 0
    ensures t.cleared <==> !t.room.inProgress
    ensures Names(t.room.players) == Names(room.players) && t.room.selected == room.selected
    ensures forall i :: 0 <= i < |room.players| && i != room.selected.value.first && i != room.selected.value.second
                        ==> t.room.players[i] == room.players[i]
    ensures !t.cleared ==>
              && ContestantScores(t.room) == dyn.shift(ContestantScores(room))
              && t.out == [Emit(Members(code), TimeChangedMsg(t.room.lifetime))]
    ensures t.cleared ==>
              && ContestantScores(t.room) == Scores(0, 0)
              && t.out == [Emit(Members(code), TimeChangedMsg(t.room.lifetime)),
                           Emit(Members(code), TimeoutMsg(Winner(dyn, dyn.shift(ContestantScores(room)))))]
  {
    var shifted := WithContestantScores(room.(lifetime := room.lifetime - 1), dyn.shift(ContestantScores(room)));
    var timeChanged := Emit(Members(code), TimeChangedMsg(shifted.lifetime));
    if shifted.lifetime <= 0 then
      var winner := Winner(dyn, ContestantScores(shifted));
      var ended := WithContestantScores(shifted.(inProgress := false), Scores(0, 0));
      TickStep(ended, [timeChanged, Emit(Members(code), TimeoutMsg(winner))], true)
    else
      TickStep(shifted, [timeChanged], false)
  }

  /** The contestants' scores after `n` decay steps with no votes between them. */
  function Decayed(dyn: Dynamics, scores: Scores, n: nat): Scores
  {
    if n == 0 then scores else dyn.shift(Decayed(dyn, scores, n - 1))
  }

  /** Runs the interval of a started round, with no votes between firings,
      until it clears itself. It fires exactly `lifetime` times, reporting
      `lifetime - 1`, ..., `1`, `0`; the last firing also reports the winner,
      and the room ends idle with its clock at 0 and its contestants' scores
      cleared. */
  method RunRound(code: Code, room: Room, dyn: Dynamics) returns (final: Room, out: seq<Emit>)
    requires Valid(room) && room.inProgress
    ensures Valid(final) && !final.inProgress && final.lifetime == 0
    ensures Names(final.players) == Names(room.players) && final.selected == room.selected
    ensures HasContestants(final) && ContestantScores(final) == Scores(0, 0)
    ensures |out| == room.lifetime + 1
    ensures forall i :: 0 <= i < room.lifetime ==> out[i] == Emit(Members(code), TimeChangedMsg(room.lifetime - 1 - i))
    ensures out[room.lifetime].to == Members(code) && out[room.lifetime].msg.TimeoutMsg?
    ensures out[room.lifetime].msg.winner == Winner(dyn, Decayed(dyn, ContestantScores(room), room.lifetime))
  {
    final := room;
    out := [];
    while final.inProgress
      invariant Valid(final) && HasContestants(final)
      invariant Names(final.players) == Names(room.players) && final.selected == room.selected
      invariant 0 <= final.lifetime <= room.lifetime
      invariant final.inProgress ==> |out| == room.lifetime - final.lifetime
      invariant !final.inProgress ==> final.lifetime == 0 && ContestantScores(final) == Scores(0, 0)
      invariant final.inProgress ==>
                  ContestantScores(final) == Decayed(dyn, ContestantScores(room), room.lifetime - final.lifetime)
      invariant !final.inProgress ==> |out| == room.lifetime + 1 && out[room.lifetime].to == Members(code)
                                      && out[room.lifetime].msg.TimeoutMsg?
                                      && out[room.lifetime].msg.winner
                                         == Winner(dyn, Decayed(dyn, ContestantScores(room), room.lifetime))
      invariant forall i :: 0 <= i < room.lifetime - final.lifetime ==>
                  out[i] == Emit(Members(code), TimeChangedMsg(room.lifetime - 1 - i))
      decreases final.lifetime
    {
      var t := Tick(code, final, dyn);
      out := out + t.out;
      final := t.room;
    }
  }
}
