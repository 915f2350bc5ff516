/**
  The room service's `startRoom`: the host of a full, waiting room starts
  it, which opens a game with an empty sequence and seeds its turn log.
 */
module Lobby {
  import opened Records
  import opened GameStore
  import opened TurnLog
  import opened RoomStore
  import opened Integrity

  datatype StartError =
    | RoomNotFound    // no room has the given id
    | NotHost         // the caller does not hold the host seat
    | SeatsNotFilled  // the host or the second seat is empty
    | NotWaiting      // the room has already started, finished or been canceled

  /** What `startRoom` answers: the updated room and the id of its new game. */
  datatype StartedRoom = StartedRoom(room: Room, gameId: GameId)

  /** The seed turn of a new game: number 1, the host's, empty, correct and pending. */
  function SeedTurn(id: TurnId, gameId: GameId, room: Room): (t: GameTurn)
    ensures t.turnNumber == 1 && t.playerId == room.hostPlayerId
    ensures t.sequenceInput == [] && t.isCorrect && !t.isTurnFinished
  {
    GameTurn(id, gameId, room.hostPlayerId, 1, [], true, false)
  }

  class RoomService {
    const roomRepo: RoomTable
    const gameRepo: GameRepository
    const turnRepo: GameTurnRepository

    ghost predicate Valid()
      reads this, turnRepo, gameRepo
    {
      StoresValid(turnRepo, gameRepo)
    }

    constructor (roomRepo: RoomTable, gameRepo: GameRepository, turnRepo: GameTurnRepository)
      requires StoresValid(turnRepo, gameRepo)
      ensures Valid()
      ensures this.roomRepo == roomRepo && this.gameRepo == gameRepo && this.turnRepo == turnRepo
    {
      this.roomRepo := roomRepo;
      this.gameRepo := gameRepo;
      this.turnRepo := turnRepo;
    }

    /**
      `startRoom`: the guards are checked in order (room exists, caller is
      the host, both seats filled, room waiting) before anything changes.
     */
    method StartRoom(roomId: RoomId, userId: PlayerId) returns (r: Result<StartedRoom, StartError>)
      requires Valid()
      modifies roomRepo, gameRepo, turnRepo
      ensures Valid()
      ensures GamesEvolve(old(gameRepo.games), gameRepo.games)
      ensures roomId !in old(roomRepo.rooms) ==> r == Err(RoomNotFound)
      ensures roomId in old(roomRepo.rooms) ==>
                var room := old(roomRepo.rooms)[roomId];
                var seated := room.hostPlayerId != "" && IsSet(room.secondPlayerId);
                && (room.hostPlayerId != userId ==> r == Err(NotHost))
                && (room.hostPlayerId == userId && !seated ==> r == Err(SeatsNotFilled))
                && (room.hostPlayerId == userId && seated ==> (r.Ok? <==> room.status == RoomStatus.Waiting))
                && (room.hostPlayerId == userId && seated && r.Err? ==> r == Err(NotWaiting))
      // every refusal happens before the first write
      ensures r.Err? ==> unchanged(roomRepo, gameRepo, turnRepo)
      // on success: the room plays, one new game with an empty sequence, one seed turn
      ensures r.Ok? ==>
                var room := old(roomRepo.rooms)[roomId];
                var gameId := r.value.gameId;
                && r.value.room == room.(status := RoomStatus.Playing)
                && roomRepo.rooms == old(roomRepo.rooms)[roomId := r.value.room]
                && gameId !in old(gameRepo.games)
                && gameRepo.games == old(gameRepo.games)[gameId := Game(roomId, GameStatus.Playing, None, Cells([]))]
                && |turnRepo.turns| == |old(turnRepo.turns)| + 1
                && turnRepo.turns[..|old(turnRepo.turns)|] == old(turnRepo.turns)
                && turnRepo.turns[|old(turnRepo.turns)|] == SeedTurn(turnRepo.turns[|old(turnRepo.turns)|].id, gameId, room)
    {
      if roomId !in roomRepo.rooms {
        return Err(RoomNotFound);
      }
      var room := roomRepo.rooms[roomId];
      if room.hostPlayerId != userId {
        return Err(NotHost);
      }
      if room.hostPlayerId == "" || !IsSet(room.secondPlayerId) {
        return Err(SeatsNotFilled);
      }
      if room.status != RoomStatus.Waiting {
        return Err(NotWaiting);
      }

      var started := room.(status := RoomStatus.Playing);
      roomRepo.Save(roomId, started);

      ghost var turns0 := turnRepo.turns;
      ghost var games0 := gameRepo.games;
      var gameId := gameRepo.Create(roomId, []);
      GamesGrowKeepsConsistent(games0, gameRepo.games, turns0);
      NewGameHasNoTurns(games0, turns0, gameId);

      var seed := turnRepo.Create(gameId, room.hostPlayerId, 1, [], true, false);
      AppendKeepsConsistent(gameRepo.games, turns0, seed);
      assert turnRepo.turns[..|turns0|] == turns0;
      r := Ok(StartedRoom(started, gameId));
    }

    /**
      A room that has been started cannot be started again, by anyone; a
      refused start leaves the room as it was, so the same caller is refused
      the same way again.
     */
    method StartRoomTwice(roomId: RoomId, firstUser: PlayerId, secondUser: PlayerId)
      returns (first: Result<StartedRoom, StartError>, second: Result<StartedRoom, StartError>)
      requires Valid()
      modifies roomRepo, gameRepo, turnRepo
      ensures Valid()
      ensures first.Ok? ==> second.Err?
      ensures first.Ok? ==>
                second == if secondUser == first.value.room.hostPlayerId then Err(NotWaiting) else Err(NotHost)
      ensures first.Err? && secondUser == firstUser ==> second == first
    {
      first := StartRoom(roomId, firstUser);
      second := StartRoom(roomId, secondUser);
    }
  }
}
