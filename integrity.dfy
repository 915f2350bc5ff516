/**
  What the games table and the turn log keep true together while the room
  and turn services act on them.
 */
module Integrity {
  import opened Records
  import opened TurnLog
  import opened GameStore

  /**
    Every turn belongs to a stored game (the `game_id` foreign key of the
    game_turns table), and the log is well numbered.
   */
  predicate Consistent(games: map<GameId, Game>, turns: seq<GameTurn>)
  {
    && (forall i :: 0 <= i < |turns| ==> turns[i].gameId in games)
    && WellNumbered(turns)
  }

  /**
    What the services keep true of the two repositories they share: each
    table's own invariant, and the two tables consistent with each other.
   */
  ghost predicate StoresValid(turnRepo: GameTurnRepository, gameRepo: GameRepository)
    reads turnRepo, gameRepo
  {
    && turnRepo.Valid()
    && gameRepo.Valid()
    && Consistent(gameRepo.games, turnRepo.turns)
  }

  /** No game disappears and no finished game returns to playing. */
  predicate GamesEvolve(before: map<GameId, Game>, after: map<GameId, Game>)
  {
    && before.Keys <= after.Keys
    && forall id :: id in before && before[id].status == GameStatus.Finished ==>
         after[id].status == GameStatus.Finished
  }

  /** A game that is not stored yet has no turns. */
  lemma NewGameHasNoTurns(games: map<GameId, Game>, turns: seq<GameTurn>, g: GameId)
    requires Consistent(games, turns) && g !in games
    ensures ForGame(turns, g) == []
  {
    NoTurnsOfGame(turns, g);
  }

  lemma {:induction false} NoTurnsOfGame(turns: seq<GameTurn>, g: GameId)
    requires forall i :: 0 <= i < |turns| ==> turns[i].gameId != g
    ensures ForGame(turns, g) == []
  {
    if turns != [] {
      NoTurnsOfGame(turns[..|turns| - 1], g);
    }
  }

  /** Updating or adding games keeps the log consistent with the table. */
  lemma GamesGrowKeepsConsistent(games: map<GameId, Game>, games': map<GameId, Game>, turns: seq<GameTurn>)
    requires Consistent(games, turns) && games.Keys <= games'.Keys
    ensures Consistent(games', turns)
  {
  }

  /** Appending a turn of a stored game, numbered one past its count, keeps consistency. */
  lemma AppendKeepsConsistent(games: map<GameId, Game>, turns: seq<GameTurn>, t: GameTurn)
    requires Consistent(games, turns)
    requires t.gameId in games && t.turnNumber == |ForGame(turns, t.gameId)| + 1
    ensures Consistent(games, turns + [t])
  {
    AppendKeepsNumbering(turns, t);
  }

  /** Finishing a turn keeps consistency. */
  lemma FinishKeepsConsistent(games: map<GameId, Game>, turns: seq<GameTurn>, i: nat)
    requires Consistent(games, turns) && i < |turns|
    ensures Consistent(games, MarkFinished(turns, i))
  {
    FinishKeepsNumbering(turns, i);
  }
}
