/**
  Value records of the colour-sequence memory game: board cells, rooms,
  games and turns, as the database tables store them, plus the small
  wrappers the repositories and services return.
 */
module Records {

  datatype Option<+T> = None | Some(value: T)

  /** The value a service returns, or the error it throws. */
  datatype Result<+T, +E> = Ok(value: T) | Err(error: E)

  /** The outcome of a service call that returns nothing on success. */
  datatype Outcome<+E> = Pass | Fail(error: E)

  /** Users are identified by the strings the authentication layer hands over. */
  type PlayerId = string

  /** Rooms, games and turns are identified by values the tables generate. */
  type RoomId = nat
  type GameId = nat
  type TurnId = nat

  /** One board cell: its column, its row and its colour code such as "#1A2B3C". */
  datatype Color = Color(x: int, y: int, hex: string)

  /** The `status` column of the rooms table. */
  datatype RoomStatus = Waiting | Playing | Finished | Canceled

  /** A room as the room service reads it: the two seats, the status and the palette. */
  datatype Room = Room(
    hostPlayerId: PlayerId,
    secondPlayerId: Option<PlayerId>,
    status: RoomStatus,
    colorsConfig: seq<Color>)

  /** The `status` column of the games table. */
  datatype GameStatus = Playing | Finished

  /**
    The `current_sequence` column holds any JSON value; the game repository
    only understands an array of cells.
   */
  datatype SequenceColumn = Cells(cells: seq<Color>) | NotAnArray

  /** A game record; its id is its key in the games table. */
  datatype Game = Game(
    roomId: RoomId,
    status: GameStatus,
    winnerId: Option<PlayerId>,
    currentSequence: SequenceColumn)

  /** One record of the append-only turn log. */
  datatype GameTurn = GameTurn(
    id: TurnId,
    gameId: GameId,
    playerId: PlayerId,
    turnNumber: int,
    sequenceInput: seq<Color>,
    isCorrect: bool,
    isTurnFinished: bool)

  /** JavaScript truthiness of an optional player id: present and not the empty string. */
  predicate IsSet(id: Option<PlayerId>)
  {
    id.Some? && id.value != ""
  }

  /**
    `s.slice(0, -1)`: every element but the last one; the empty sequence
    stays empty.
   */
  function AllButLast<T>(s: seq<T>): (r: seq<T>)
    ensures |s| == 0 ==> r == []
    ensures |s| > 0 ==> |r| == |s| - 1 && r + [s[|s| - 1]] == s
  {
    if |s| == 0 then [] else s[..|s| - 1]
  }
}
