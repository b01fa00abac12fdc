/** Room-code generation: four upper-case letters, retried until the code is
    not a key of the registry.

    `Math.random()` is replaced by a supplied sequence of draws, each in
    [0, 1); every attempt consumes four of them. The server retries without
    bound; the model stops and answers `None` when the supplied draws are
    used up with every candidate taken. */
module RoomCodes {
  import opened Messages
  import opened Rooms

  const CodeLength: nat := 4

  predicate IsRoomCode(s: string)
  {
    |s| == CodeLength && forall i :: 0 <= i < |s| ==> 'A' <= s[i] <= 'Z'
  }

  /** `String.fromCharCode(65 + Math.floor(draw * 26))` */
  function Letter(draw: real): (c: char)
    requires 0.0 <= draw < 1.0
    ensures 'A' <= c <= 'Z'
    ensures c as int - 'A' as int == (draw * 26.0).Floor
  {
    (65 + (draw * 26.0).Floor) as char
  }

  predicate Draws(random: seq<real>)
  {
    forall i :: 0 <= i < |random| ==> 0.0 <= random[i] < 1.0
  }

  /** The number of complete attempts the draws provide. */
  function Attempts(random: seq<real>): nat
  {
    |random| / CodeLength
  }

  /** The code built by attempt `k`. */
  function Candidate(random: seq<real>, k: nat): string
    requires Draws(random) && k < Attempts(random)
  {
    seq(CodeLength, i requires 0 <= i < CodeLength => Letter(random[CodeLength * k + i]))
  }

  /** The do-while loop of `getRandomRoomCode`, with its inner for-loop.
      The answer is the first candidate that is not already a room. */
  method GetRandomRoomCode(rooms: map<Code, Room>, random: seq<real>) returns (code: Option<Code>)
    requires Draws(random)
    ensures code.Some? ==> IsRoomCode(code.value) && code.value !in rooms
    ensures code.Some? ==> exists k :: 0 <= k < Attempts(random) && code.value == Candidate(random, k)
                                      && forall j :: 0 <= j < k ==> Candidate(random, j) in rooms
    ensures code.None? ==> forall k :: 0 <= k < Attempts(random) ==> Candidate(random, k) in rooms
  {
    var attempt := 0;
    while attempt < Attempts(random)
      invariant 0 <= attempt <= Attempts(random)
      invariant forall j :: 0 <= j < attempt ==> Candidate(random, j) in rooms
      decreases Attempts(random) - attempt
    {
      var roomCode := "";
      var i := 0;
      while i < CodeLength
        invariant 0 <= i <= CodeLength
        invariant |roomCode| == i
        invariant forall m :: 0 <= m < i ==> roomCode[m] == Letter(random[CodeLength * attempt + m])
      {
        roomCode := roomCode + [Letter(random[CodeLength * attempt + i])];
        i := i + 1;
      }
      assert roomCode == Candidate(random, attempt);
      if roomCode !in rooms {
        return Some(roomCode);
      }
      attempt := attempt + 1;
    }
    return None;
  }
}
