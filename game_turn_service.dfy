/**
  The turn service of the memory game: a player submits the whole sequence
  seen so far plus one new cell, the submission is judged against the
  previous turn, and the player then confirms the new cell, which is added
  to the game's sequence.
 */
module TurnService {
  import opened Records
  import opened GameStore
  import opened TurnLog
  import opened RoomStore
  import opened Integrity

  /** `compareSequences`: equal lengths and the same x, y and colour code at every index. */
  method CompareSequences(a: seq<Color>, b: seq<Color>) returns (same: bool)
    ensures same <==> |a| == |b| && forall i :: 0 <= i < |a| ==>
                        a[i].x == b[i].x && a[i].y == b[i].y && a[i].hex == b[i].hex
    ensures same <==> a == b
  {
    if |a| != |b| {
      return false;
    }
    var i := 0;
    while i < |a|
      invariant 0 <= i <= |a|
      invariant a[..i] == b[..i]
    {
      if a[i].x != b[i].x || a[i].y != b[i].y || a[i].hex != b[i].hex {
        return false;
      }
      assert a[..i + 1] == a[..i] + [a[i]] && b[..i + 1] == b[..i] + [b[i]];
      i := i + 1;
    }
    assert a == a[..i] && b == b[..i];
    return true;
  }

  /** `getOpponentPlayerId` on the game's room: the second seat for the host, the host for anyone else. */
  function Opponent(room: Room, current: PlayerId): (r: Option<PlayerId>)
    // only a room whose two seats hold the same id hands the game to the submitter
    ensures r == Some(current) ==> room.hostPlayerId == current && room.secondPlayerId == Some(current)
    // the winner is missing only when the host submits in a room without a second player
    ensures r.None? <==> room.hostPlayerId == current && room.secondPlayerId.None?
  {
    if room.hostPlayerId == current then room.secondPlayerId else Some(room.hostPlayerId)
  }

  /**
    In a room whose two seats hold different players, the opponent of either
    seat is the other seat, never the submitter, and the relation is symmetric.
   */
  lemma OpponentIsOtherSeat(room: Room, p: PlayerId)
    requires room.secondPlayerId.Some? && room.secondPlayerId.value != room.hostPlayerId
    requires p == room.hostPlayerId || p == room.secondPlayerId.value
    ensures Opponent(room, p).Some? && Opponent(room, p).value != p
    ensures Opponent(room, Opponent(room, p).value) == Some(p)
  {
  }

  /** Anyone who does not hold the host seat forfeits to the host. */
  lemma OpponentOfGuestIsHost(room: Room, p: PlayerId)
    requires p != room.hostPlayerId
    ensures Opponent(room, p) == Some(room.hostPlayerId)
  {
  }

  /**
    The sequence a new submission is judged against: the `sequenceInput` of
    the last turn `findByGame` returns, or the empty sequence.
   */
  function LastSequence(turns: seq<GameTurn>, g: GameId): (r: seq<Color>)
    ensures ForGame(turns, g) == [] ==> r == []
    ensures ForGame(turns, g) != [] ==>
              exists t :: t in turns && t.gameId == g && t.sequenceInput == r && HighestNumbered(turns, g, t)
  {
    var prev := FindByGame(turns, g);
    if |prev| > 0 then
      LastOfSortedIsHighest(prev);
      var last := prev[|prev| - 1];
      assert last in prev;
      assert HighestNumbered(turns, g, last);
      last.sequenceInput
    else
      []
  }

  /** The last turn of a list sorted by turn number has the greatest number in it. */
  lemma LastOfSortedIsHighest(s: seq<GameTurn>)
    requires SortedByTurnNumber(s) && |s| > 0
    ensures forall u :: u in s ==> u.turnNumber <= s[|s| - 1].turnNumber
  {
    forall u | u in s ensures u.turnNumber <= s[|s| - 1].turnNumber {
      var j :| 0 <= j < |s| && s[j] == u;
    }
  }

  /** `t` has the greatest turn number among the turns of game `g`. */
  ghost predicate HighestNumbered(turns: seq<GameTurn>, g: GameId, t: GameTurn)
  {
    forall u :: u in turns && u.gameId == g ==> u.turnNumber <= t.turnNumber
  }

  /**
    In a well-numbered log that last turn is the game's most recently
    appended turn, and its number is the game's turn count.
   */
  lemma LastSequenceIsLatestTurn(turns: seq<GameTurn>, g: GameId)
    requires WellNumbered(turns)
    ensures var f := ForGame(turns, g);
            && LastSequence(turns, g) == (if |f| > 0 then f[|f| - 1].sequenceInput else [])
            && (|f| > 0 ==> f[|f| - 1].turnNumber == |f|)
  {
    FindByGameInLogOrder(turns, g);
    NumberedInLogOrder(turns, g);
  }

  /**
    The verdict rule: a submission without its last cell equals the previous
    sequence exactly when it extends that sequence by one cell, or when both
    are empty.
   */
  lemma VerdictMeaning(prev: seq<Color>, input: seq<Color>)
    ensures AllButLast(input) == prev <==>
              (input == [] && prev == []) || (|input| == |prev| + 1 && input[..|prev|] == prev)
  {
    if |input| == |prev| + 1 && input[..|prev|] == prev {
      assert AllButLast(input) == input[..|prev|];
    }
  }

  /** A correct non-empty submission is exactly one cell longer than the previous one. */
  lemma CorrectSubmissionGrowsByOne(prev: seq<Color>, input: seq<Color>)
    requires AllButLast(input) == prev && input != []
    ensures |input| == |prev| + 1 && input[..|prev|] == prev
  {
    VerdictMeaning(prev, input);
  }

  /**
    Right after a room starts, the game's log holds only the seed turn: the
    next submission gets number 2, and it is correct exactly when it holds a
    single cell or none.
   */
  lemma FirstSubmissionAfterStart(turns: seq<GameTurn>, seed: GameTurn, input: seq<Color>)
    requires WellNumbered(turns)
    requires forall i :: 0 <= i < |turns| ==> turns[i].gameId != seed.gameId
    requires seed.turnNumber == 1 && seed.sequenceInput == []
    ensures |ForGame(turns + [seed], seed.gameId)| + 1 == 2
    ensures AllButLast(input) == LastSequence(turns + [seed], seed.gameId) <==> |input| <= 1
  {
    var g := seed.gameId;
    NoTurnsOfGame(turns, g);
    assert (turns + [seed])[..|turns|] == turns;
    assert ForGame(turns + [seed], g) == [seed];
    AppendKeepsNumbering(turns, seed);
    LastSequenceIsLatestTurn(turns + [seed], g);
  }

  datatype TurnError =
    | GameNotFound          // the game of the submission or confirmation is not stored
    | RoomNotFound          // the game's room is not stored
    | UnknownGameReference  // the turn insert refused by the game_id foreign key
    | NoPendingTurn         // the player has no unfinished turn in the game
    | ColorNotInRoom        // the confirmed cell is not in the room's palette

  class GameTurnService {
    const turnRepo: GameTurnRepository
    const gameRepo: GameRepository
    const roomRepo: RoomTable

    ghost predicate Valid()
      reads this, turnRepo, gameRepo
    {
      StoresValid(turnRepo, gameRepo)
    }

    constructor (turnRepo: GameTurnRepository, gameRepo: GameRepository, roomRepo: RoomTable)
      requires StoresValid(turnRepo, gameRepo)
      ensures Valid()
      ensures this.turnRepo == turnRepo && this.gameRepo == gameRepo && this.roomRepo == roomRepo
    {
      this.turnRepo := turnRepo;
      this.gameRepo := gameRepo;
      this.roomRepo := roomRepo;
    }

    /**
      `createTurn`: judges the submission against the previous turn, hands
      the game to the opponent when it is wrong, and records the turn in
      either case.
     */
    method CreateTurn(gameId: GameId, sequenceInput: seq<Color>, playerId: PlayerId)
      returns (r: Result<GameTurn, TurnError>)
      requires Valid()
      modifies turnRepo, gameRepo
      ensures Valid()
      ensures GamesEvolve(old(gameRepo.games), gameRepo.games)
      ensures var correct := AllButLast(sequenceInput) == LastSequence(old(turnRepo.turns), gameId);
              var known := gameId in old(gameRepo.games);
              && (r == Err(GameNotFound) <==> !correct && !known)
              && (r == Err(UnknownGameReference) <==> correct && !known)
              && (r == Err(RoomNotFound) <==>
                    !correct && known && old(gameRepo.games)[gameId].roomId !in roomRepo.rooms)
              && (r.Ok? <==> known && (correct || old(gameRepo.games)[gameId].roomId in roomRepo.rooms))
              && (r.Ok? ==> r.value.isCorrect == correct)

      // a rejected call changes nothing
      ensures r.Err? ==> unchanged(turnRepo, gameRepo)
      // an accepted call appends exactly one unfinished turn, numbered after the game's turns
      ensures r.Ok? ==>
                && r.value.gameId == gameId && r.value.playerId == playerId
                && r.value.sequenceInput == sequenceInput && !r.value.isTurnFinished
                && r.value.turnNumber == |ForGame(old(turnRepo.turns), gameId)| + 1
                && turnRepo.turns == old(turnRepo.turns) + [r.value]
      // a correct turn leaves the games alone; a wrong one finishes the game for the opponent
      ensures r.Ok? && r.value.isCorrect ==> gameRepo.games == old(gameRepo.games)
      ensures r.Ok? && !r.value.isCorrect ==>
                var game := old(gameRepo.games)[gameId];
                gameRepo.games ==
                  old(gameRepo.games)[gameId := WithWinner(game, Opponent(roomRepo.rooms[game.roomId], playerId))]
    {
      var previousTurns := FindByGame(turnRepo.turns, gameId);
      var lastSequence := if |previousTurns| > 0 then previousTurns[|previousTurns| - 1].sequenceInput else [];
      var isCorrect := CompareSequences(lastSequence, AllButLast(sequenceInput));
      assert lastSequence == LastSequence(old(turnRepo.turns), gameId);
      assert isCorrect <==> AllButLast(sequenceInput) == LastSequence(old(turnRepo.turns), gameId);

      if !isCorrect {
        var forfeit := ForfeitToOpponent(gameId, playerId);
        if forfeit.Fail? {
          return Err(forfeit.error);
        }
      }

      if gameId !in gameRepo.games {
        return Err(UnknownGameReference);
      }
      var turnNumber := |previousTurns| + 1;
      ghost var before := turnRepo.turns;
      var turn := turnRepo.Create(gameId, playerId, turnNumber, sequenceInput, isCorrect, false);
      AppendKeepsConsistent(gameRepo.games, before, turn);
      r := Ok(turn);
    }

    /**
      `getOpponentPlayerId` followed by `finishGameWithWinner`: the game is
      finished and the other seat of its room recorded as the winner.
     */
    method ForfeitToOpponent(gameId: GameId, playerId: PlayerId) returns (r: Outcome<TurnError>)
      requires Valid()
      modifies gameRepo
      ensures Valid()
      ensures GamesEvolve(old(gameRepo.games), gameRepo.games)
      ensures gameId !in old(gameRepo.games) ==> r == Fail(GameNotFound)
      ensures gameId in old(gameRepo.games) ==>
                var game := old(gameRepo.games)[gameId];
                && (game.roomId !in roomRepo.rooms ==> r == Fail(RoomNotFound))
                && (game.roomId in roomRepo.rooms ==>
                      && r == Pass
                      && gameRepo.games ==
                           old(gameRepo.games)[gameId := WithWinner(game, Opponent(roomRepo.rooms[game.roomId], playerId))])
      ensures r.Fail? ==> unchanged(gameRepo)
    {
      var game := gameRepo.FindById(gameId);
      if game.None? {
        return Fail(GameNotFound);
      }
      var roomId := game.value.roomId;
      if roomId !in roomRepo.rooms {
        return Fail(RoomNotFound);
      }
      var winnerId := Opponent(roomRepo.rooms[roomId], playerId);
      var found := gameRepo.FinishGameWithWinner(gameId, winnerId);
      GamesGrowKeepsConsistent(old(gameRepo.games), gameRepo.games, turnRepo.turns);
      r := Pass;
    }

    /** `finishTurn`, passed through to the turn repository. */
    method FinishTurn(turnId: TurnId) returns (r: Option<GameTurn>)
      requires Valid()
      modifies turnRepo
      ensures Valid()
      ensures var k := IndexOfId(old(turnRepo.turns), turnId);
              && (k.None? ==> r.None? && turnRepo.turns == old(turnRepo.turns))
              && (k.Some? ==> turnRepo.turns == MarkFinished(old(turnRepo.turns), k.value)
                              && r == Some(turnRepo.turns[k.value]))
    {
      ghost var before := turnRepo.turns;
      r := turnRepo.FinishTurn(turnId);
      if r.Some? {
        FinishKeepsConsistent(gameRepo.games, before, IndexOfId(before, turnId).value);
      }
    }

    /**
      `addColorToSequence`: the player confirms the new cell of their
      pending turn; it must be a cell of the room's palette.
     */
    method AddColorToSequence(gameId: GameId, playerId: PlayerId, newColor: Color)
      returns (r: Outcome<TurnError>)
      requires Valid()
      modifies turnRepo, gameRepo
      ensures Valid()
      ensures GamesEvolve(old(gameRepo.games), gameRepo.games)
      ensures var k := FindLastUnfinishedTurn(old(turnRepo.turns), gameId, playerId);
              var known := gameId in old(gameRepo.games);
              var roomId := if known then old(gameRepo.games)[gameId].roomId else 0;
              && (k.None? ==> r == Fail(NoPendingTurn))
              && (k.Some? && !known ==> r == Fail(GameNotFound))
              && (k.Some? && known && roomId !in roomRepo.rooms ==> r == Fail(RoomNotFound))
              && ((k.Some? && known && roomId in roomRepo.rooms
                   && newColor !in roomRepo.rooms[roomId].colorsConfig) ==> r == Fail(ColorNotInRoom))
              && (r.Pass? <==> k.Some? && known && roomId in roomRepo.rooms &&
                               newColor in roomRepo.rooms[roomId].colorsConfig)
              // on success: the cell joins the game's sequence and the pending turn is finished
              && (r.Pass? ==>
                    && gameRepo.games == old(gameRepo.games)[gameId := WithColor(old(gameRepo.games)[gameId], newColor)]
                    && turnRepo.turns == MarkFinished(old(turnRepo.turns), k.value))
      ensures r.Fail? ==> unchanged(turnRepo, gameRepo)
    {
      var k := FindLastUnfinishedTurn(turnRepo.turns, gameId, playerId);
      if k.None? {
        return Fail(NoPendingTurn);
      }
      var game := gameRepo.FindById(gameId);
      if game.None? {
        return Fail(GameNotFound);
      }
      var roomId := game.value.roomId;
      if roomId !in roomRepo.rooms {
        return Fail(RoomNotFound);
      }
      if newColor !in roomRepo.rooms[roomId].colorsConfig {
        return Fail(ColorNotInRoom);
      }

      CommitColor(gameId, k.value, newColor);
      r := Pass;
    }

    /**
      The two writes that end `addColorToSequence`: the cell is appended to
      the game's sequence and the pending turn at position `i` is finished.
     */
    method CommitColor(gameId: GameId, i: nat, newColor: Color)
      requires Valid()
      requires i < |turnRepo.turns| && gameId in gameRepo.games
      modifies turnRepo, gameRepo
      ensures Valid()
      ensures gameRepo.games == old(gameRepo.games)[gameId := WithColor(old(gameRepo.games)[gameId], newColor)]
      ensures turnRepo.turns == MarkFinished(old(turnRepo.turns), i)
    {
      var turn := turnRepo.turns[i];
      ghost var before := turnRepo.turns;
      var appended := gameRepo.AppendColorToSequence(gameId, newColor);
      GamesGrowKeepsConsistent(old(gameRepo.games), gameRepo.games, before);
      assert IndexOfId(before, turn.id) == Some(i);
      var finished := turnRepo.FinishTurn(turn.id);
      FinishKeepsConsistent(gameRepo.games, before, i);
    }

    /** `getTurnsByGame`: the game's history, in the order the turns were played. */
    method GetTurnsByGame(gameId: GameId) returns (r: seq<GameTurn>)
      requires Valid()
      ensures r == ForGame(turnRepo.turns, gameId)
      ensures forall k :: 0 <= k < |r| ==> r[k].turnNumber == k + 1
    {
      r := FindByGame(turnRepo.turns, gameId);
      FindByGameInLogOrder(turnRepo.turns, gameId);
      NumberedInLogOrder(turnRepo.turns, gameId);
    }
  }
}
