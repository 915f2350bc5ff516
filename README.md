# Colour-sequence memory game: turn validation, confirmation and room start

This project models, in Dafny, the core of the memory game played in a two-seat
room of the blackjack-server backend. Two players take turns extending a shared
list of board cells `{x, y, hex}`:

- `RoomService.startRoom` lets the host of a full, waiting room start it. This
  creates a game with an empty `currentSequence` and a seed turn (#1, host, empty,
  correct, unfinished).
- `GameTurnService.createTurn` judges a submission. The submission without its
  last cell must equal the `sequenceInput` of the game's previous turn. A wrong
  submission finishes the game, with the other seat as winner. The turn is
  recorded either way, numbered one past the game's turn count.
- `GameTurnService.addColorToSequence` confirms the new cell. The submitter's
  pending turn becomes finished and the cell is appended to the game's
  `currentSequence`, if the cell is in the room's `colorsConfig`.

The tables are state that the repositories update in place:

- `GameStore.GameRepository` holds the games table, a `map` from game id to record.
- `TurnLog.GameTurnRepository` holds the turn log, a `seq` in insertion order.
- `RoomStore.RoomTable` holds the rooms the services read, a `map`.

The services are classes over shared repository objects. Their methods state
the whole new state of every table in terms of the old one. They keep
`Integrity.Consistent`:

- every turn refers to a stored game (the `game_id` foreign key);
- the log is *well numbered*: each turn's number is one more than the number of
  earlier turns of the same game.

From that invariant the model proves two facts. `findByGame` returns a game's
turns in the order they were played. The "previous turn" the verdict uses is the
game's most recent turn.

The model follows the code in these points, some of which a reader might not expect:

- The verdict compares the submission with the previous turn's `sequenceInput`.
  It does not use the game's `currentSequence`. These are two separate sequences.
  The confirmed cell need not equal the last cell of the submission.
- An empty submission when the previous sequence is empty counts as correct.
  `slice(0, -1)` of `[]` is `[]`. A rule of exactly one new cell per turn would
  reject this; the code accepts it (`TurnService.VerdictMeaning` states the
  rule as written).
- The last cell of a submission is never judged. Any cell extends a correct prefix.
- A game's status is `playing` or `finished`, as in the games table migration.
  Turns may still be submitted after a game is finished. A later wrong turn then
  records a new winner.
- Rooms use `hostPlayerId`, `secondPlayerId`, `colorsConfig`, and the status set
  {waiting, playing, finished, canceled} of the rooms table migration.

Identifiers are abstract. Players are the strings the authentication layer
supplies. The tables hand out fresh numeric ids in place of uuids. The seat
guard of `startRoom` reads a seat as filled when the id is present and not the
empty string, which is JavaScript truthiness.

## Model

| member | source | states |
|---|---|---|
| Records.AllButLast | app/services/game_turn_service.ts:16 | `slice(0, -1)`: the empty submission stays empty; otherwise the result is one shorter and the result followed by the last cell is the submission |
| GameStore.StoredCells | app/repositories/game_repository.ts:33 | the `Array.isArray` fallback: a stored array gives its cells, any other stored value gives no cells |
| GameStore.Appended | app/repositories/game_repository.ts:33-34 | the written sequence is one cell longer, starts with the stored cells and ends with the new cell |
| GameStore.AppendedToNonArray | app/repositories/game_repository.ts:33 | a stored value that is not an array reads as empty, so the result is exactly `[newColor]` |
| GameStore.WithWinner | app/repositories/game_repository.ts:22-23 | the record `finishGameWithWinner` saves: status finished, the given winner, room and sequence kept |
| GameStore.WithColor | app/repositories/game_repository.ts:33-34 | the record `appendColorToSequence` saves: the sequence is the stored cells plus the new one, room, status and winner kept |
| GameStore.GameRepository.Create | app/repositories/game_repository.ts:4-9 | a fresh id; the new game is playing, has no winner and holds the given sequence; no other game changes |
| GameStore.GameRepository.FindById | app/repositories/game_repository.ts:11-13 | finds a game exactly when its id is stored, and returns that record |
| GameStore.GameRepository.FinishGameWithWinner | app/repositories/game_repository.ts:19-25 | a stored game becomes finished with the given winner, its room and sequence unchanged, no other game touched; an unknown id is reported and changes nothing |
| GameStore.GameRepository.AppendColorToSequence | app/repositories/game_repository.ts:27-36 | a stored game's sequence becomes the old cells plus the new one, its other fields unchanged, no other game touched; an unknown id is reported and changes nothing |
| TurnLog.ForGame | app/repositories/game_turn_repository.ts:6 | the turns of a game, in log order: a turn is in the result iff it is in the log and has that game id |
| TurnLog.InsertByTurnNumber | app/repositories/game_turn_repository.ts:6 | the result is the list with exactly one more occurrence of the inserted turn, and nothing else |
| TurnLog.InsertKeepsSorted | app/repositories/game_turn_repository.ts:6 | inserting into a list sorted by turn number keeps it sorted |
| TurnLog.SortByTurnNumber | app/repositories/game_turn_repository.ts:6 | `orderBy('turnNumber', 'asc')`: the result is sorted by turn number and is a permutation of the input |
| TurnLog.FindByGame | app/repositories/game_turn_repository.ts:5-7 | exactly the game's turns (same multiset as the log-order filter, same count), sorted ascending by turn number |
| TurnLog.FindLastUnfinishedTurn | app/repositories/game_turn_repository.ts:23-30 | none iff no turn of that game and player is unfinished; otherwise such a turn whose number is not below any other such turn |
| TurnLog.IndexOfId | app/repositories/game_turn_repository.ts:16 | none iff no turn has the id; otherwise the first position holding it |
| TurnLog.MarkFinished | app/repositories/game_turn_repository.ts:18 | the turn at the position becomes finished with its other fields kept, and every other turn is unchanged |
| TurnLog.MarkFinishedIdempotent | app/repositories/game_turn_repository.ts:15-21 | finishing a turn twice leaves the log as finishing it once |
| TurnLog.NumberedInLogOrder | app/services/game_turn_service.ts:24 | in a well-numbered log the k-th turn of a game (log order) has number k + 1 |
| TurnLog.SortKeepsSorted | app/repositories/game_turn_repository.ts:6 | sorting a list already ordered by turn number returns it unchanged |
| TurnLog.FindByGameInLogOrder | app/repositories/game_turn_repository.ts:5-7 | in a well-numbered log `findByGame` equals the game's turns in the order they were appended |
| TurnLog.AppendKeepsNumbering | app/services/game_turn_service.ts:24-32 | appending a turn numbered one past its game's count keeps the log well numbered |
| TurnLog.ForGameCountByIds | app/services/game_turn_service.ts:24 | how many turns a game has depends only on the game ids along the log |
| TurnLog.SameShapeKeepsNumbering | app/repositories/game_turn_repository.ts:18-19 | a log with the same game id and turn number at every position as a well-numbered log is well numbered too |
| TurnLog.FinishKeepsNumbering | app/repositories/game_turn_repository.ts:18-19 | finishing a turn keeps the log well numbered |
| TurnLog.GameTurnRepository.Create | app/repositories/game_turn_repository.ts:9-13 | exactly one record is appended, carrying the given fields and an id no existing record has; existing records are unchanged |
| TurnLog.GameTurnRepository.FinishTurn | app/repositories/game_turn_repository.ts:15-21 | the turn with the id is marked finished and returned, nothing else changes; an absent id returns none and changes nothing |
| RoomStore.RoomTable.Save | app/services/room_service.ts:41-42 | the room under the id is replaced and no other room changes |
| Integrity.NewGameHasNoTurns | database/migrations/1752504921956_create_game_turns_table.ts:9 | with every turn referring to a stored game, a game id not yet stored has no turns |
| Integrity.GamesGrowKeepsConsistent | database/migrations/1752504921956_create_game_turns_table.ts:9 | updating or adding games keeps every turn's game reference valid and the log well numbered |
| Integrity.AppendKeepsConsistent | app/services/game_turn_service.ts:24-32 | appending a turn of a stored game, numbered one past its count, keeps the invariant |
| Integrity.FinishKeepsConsistent | app/services/game_turn_service.ts:67-68 | finishing a turn keeps the invariant |
| TurnService.CompareSequences | app/services/game_turn_service.ts:76-87 | true iff the lengths agree and every index agrees on x, y and hex, which is equality of the sequences (so reflexive and symmetric) |
| TurnService.Opponent | app/services/game_turn_service.ts:94 | the winner handed over is the submitter only when both seats hold the same id, and is missing exactly when the host submits in a room with no second player |
| TurnService.OpponentIsOtherSeat | app/services/game_turn_service.ts:94 | with two different seated players, the opponent of either seat is the other one, never the submitter, and the opponent of the opponent is the submitter |
| TurnService.OpponentOfGuestIsHost | app/services/game_turn_service.ts:94 | whoever is not the host forfeits to the host |
| TurnService.LastSequence | app/services/game_turn_service.ts:12-14 | empty when the game has no turns; otherwise the `sequenceInput` of one of the game's turns that has the greatest turn number |
| TurnService.LastOfSortedIsHighest | app/services/game_turn_service.ts:13-14 | in a list sorted ascending by turn number, the last turn has the greatest number of all |
| TurnService.LastSequenceIsLatestTurn | app/services/game_turn_service.ts:12-14 | in a well-numbered log, the sequence judged against is the `sequenceInput` of the game's last appended turn (or empty when it has none), and that turn's number is the game's turn count |
| TurnService.VerdictMeaning | app/services/game_turn_service.ts:16-17 | a submission is correct iff both it and the previous sequence are empty, or it is one cell longer and begins with the previous sequence |
| TurnService.CorrectSubmissionGrowsByOne | app/services/game_turn_service.ts:16-17 | a correct non-empty submission has length previous + 1 and begins with the previous sequence |
| TurnService.FirstSubmissionAfterStart | app/services/room_service.ts:49-56 | after the seed turn of a fresh game, the next turn gets number 2, and a submission is correct iff it has at most one cell |
| TurnService.GameTurnService.ForfeitToOpponent | app/services/game_turn_service.ts:89-95 | the game, if stored and its room found, is finished with the room's other seat as winner; a missing game or room is reported and changes nothing |
| TurnService.GameTurnService.CreateTurn | app/services/game_turn_service.ts:11-35 | the call succeeds exactly when the game is stored and, for a wrong submission, its room is stored too; the verdict is "submission without last cell equals the previous turn's sequence"; an accepted call appends exactly one unfinished turn with the submitter, the submission, the verdict and number count + 1; a correct turn leaves games alone, a wrong one finishes the game for the opponent; errors change nothing; the invariant is kept and no finished game is reopened |
| TurnService.GameTurnService.FinishTurn | app/services/game_turn_service.ts:37-40 | passes through to the repository with the same effect, keeping the invariant |
| TurnService.GameTurnService.AddColorToSequence | app/services/game_turn_service.ts:42-69 | fails with no change when the player has no unfinished turn, or the game or room is missing, or the cell is not exactly in the room's palette; otherwise the game's sequence gains the cell and that latest unfinished turn, and no other turn, becomes finished |
| TurnService.GameTurnService.CommitColor | app/services/game_turn_service.ts:66-68 | the game's sequence gains the cell, its other fields stay the same, the turn at the given position and no other is marked finished, and the invariant is kept |
| TurnService.GameTurnService.GetTurnsByGame | app/services/game_turn_service.ts:71-74 | returns the game's turns in the order they were played, numbered 1, 2, 3, ... |
| Lobby.SeedTurn | app/services/room_service.ts:49-56 | the seed turn: number 1, the host's, an empty sequence, correct and not finished |
| Lobby.RoomService.StartRoom | app/services/room_service.ts:32-63 | guards in order: room exists, caller is host, both seats filled, status waiting; every refusal changes nothing; on success the room is playing, exactly one new game with an empty sequence and exactly one seed turn (#1, host, empty, correct, unfinished) are added |
| Lobby.RoomService.StartRoomTwice | app/services/room_service.ts:36-41 | after a successful start any second start fails: with "not waiting" for the host, "not host" for anyone else; a refused start by the same caller is refused again the same way |

## Left out

- The blackjack engine is not part of this model. The game controller calls `startRound`, `hit`, `stand` and other round methods on `GameService`, but `game_service.ts` defines only `createGame`, `getGame` and `toResponse`, so those methods have no implementation in the source. The round models and DTOs only declare shapes.
- Controllers, routing and the socket server: HTTP, authentication and response formatting. The `add` endpoint's "exactly one colour" guard appears as the single `newColor` parameter of `AddColorToSequence`.
- Request validators: cell well-formedness (x ≥ 1, y ≥ 1, hex `#` plus six hex digits) and the palette size bound are not enforced. Cell coordinates are integers; JavaScript numbers could also be fractional.
- Room creation, joining, listing, leaving, cancelling and the room repository's ORM queries. Rooms are an abstract table that only `startRoom` writes.
- `toResponse` projections, timestamps (`createdAt.toISO()`) and the JSON prepare/consume of `sequenceInput` (a non-parsable value reads as `[]`). These are serialisation only.
- `game_service.ts`: a query with preloads and formatting.
- uuid generation: the tables hand out fresh numeric ids instead.
- Concurrency: each service call is one atomic step. `getOpponentPlayerId` looks up the game a second time; in the model that lookup is done once, inside the same step.
- TurnLog.SortByTurnNumber: the database does not fix the order of turns with equal numbers. The model keeps log order for ties. Well-numbered logs have no ties.
- TurnLog.FindLastUnfinishedTurn: on equal turn numbers the model picks the turn appended last. The database order among ties is unspecified.
