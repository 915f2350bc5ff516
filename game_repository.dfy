/**
  The games table and the repository that creates, reads and updates its
  records in place.
 */
module GameStore {
  import opened Records

  /** The cells a stored column holds: a non-array value reads as no cells. */
  function StoredCells(col: SequenceColumn): (r: seq<Color>)
    ensures col.Cells? ==> r == col.cells
    ensures col.NotAnArray? ==> r == []
  {
    if col.Cells? then col.cells else []
  }

  /** The sequence `appendColorToSequence` writes back: the stored cells, then the new one. */
  function Appended(col: SequenceColumn, newColor: Color): (r: seq<Color>)
    ensures |r| == |StoredCells(col)| + 1
    ensures r[..|r| - 1] == StoredCells(col)
    ensures r[|r| - 1] == newColor
  {
    StoredCells(col) + [newColor]
  }

  /** Appending to a column that does not hold an array starts over from the new cell alone. */
  lemma AppendedToNonArray(newColor: Color)
    ensures Appended(NotAnArray, newColor) == [newColor]
  {
  }

  /** The game fields `finishGameWithWinner` leaves behind. */
  function WithWinner(game: Game, winnerId: Option<PlayerId>): (g: Game)
    ensures g.status == GameStatus.Finished && g.winnerId == winnerId
    ensures g.roomId == game.roomId && g.currentSequence == game.currentSequence
  {
    game.(status := GameStatus.Finished, winnerId := winnerId)
  }

  /** The game fields `appendColorToSequence` leaves behind. */
  function WithColor(game: Game, newColor: Color): (g: Game)
    ensures g.currentSequence == Cells(Appended(game.currentSequence, newColor))
    ensures g.roomId == game.roomId && g.status == game.status && g.winnerId == game.winnerId
  {
    game.(currentSequence := Cells(Appended(game.currentSequence, newColor)))
  }

  class GameRepository {
    /** The games table, keyed by game id. */
    var games: map<GameId, Game>
    /** The next id the table hands out; it stands for a fresh uuid. */
    var nextId: GameId

    ghost predicate Valid()
      reads this
    {
      forall id :: id in games ==> id < nextId
    }

    constructor ()
      ensures Valid() && games == map[]
    {
      games := map[];
      nextId := 0;
    }

    /** `create`: a new game of the room, still playing and without a winner. */
    method Create(roomId: RoomId, currentSequence: seq<Color>) returns (id: GameId)
      requires Valid()
      modifies this
      ensures Valid()
      ensures id !in old(games)
      ensures games == old(games)[id := Game(roomId, GameStatus.Playing, None, Cells(currentSequence))]
    {
      id := nextId;
      games := games[id := Game(roomId, GameStatus.Playing, None, Cells(currentSequence))];
      nextId := nextId + 1;
    }

    /** `findById`. */
    function FindById(id: GameId): (r: Option<Game>)
      reads this
      ensures r.Some? <==> id in games
      ensures r.Some? ==> r.value == games[id]
    {
      if id in games then Some(games[id]) else None
    }

    /**
      `finishGameWithWinner`: the game is finished and the winner recorded;
      an unknown id throws and changes nothing.
     */
    method FinishGameWithWinner(gameId: GameId, winnerId: Option<PlayerId>) returns (found: bool)
      requires Valid()
      modifies this
      ensures Valid() && nextId == old(nextId)
      ensures found <==> gameId in old(games)
      ensures games == if found then old(games)[gameId := WithWinner(old(games)[gameId], winnerId)]
                       else old(games)
    {
      found := gameId in games;
      if !found {
        return;
      }
      games := games[gameId := WithWinner(games[gameId], winnerId)];
    }

    /**
      `appendColorToSequence`: the stored sequence grows by the new cell;
      an unknown id throws and changes nothing.
     */
    method AppendColorToSequence(gameId: GameId, newColor: Color) returns (found: bool)
      requires Valid()
      modifies this
      ensures Valid() && nextId == old(nextId)
      ensures found <==> gameId in old(games)
      ensures games == if found then old(games)[gameId := WithColor(old(games)[gameId], newColor)]
                       else old(games)
    {
      found := gameId in games;
      if !found {
        return;
      }
      games := games[gameId := WithColor(games[gameId], newColor)];
    }
  }
}
