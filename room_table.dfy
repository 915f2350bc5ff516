/**
  The rooms the services read: a table of room records keyed by room id.
  Only the fields the room and turn services use are kept.
 */
module RoomStore {
  import opened Records

  class RoomTable {
    var rooms: map<RoomId, Room>

    constructor (rooms: map<RoomId, Room>)
      ensures this.rooms == rooms
    {
      this.rooms := rooms;
    }

    /** `room.save()`: the record under `id` is replaced and no other room changes. */
    method Save(id: RoomId, room: Room)
      modifies this
      ensures rooms == old(rooms)[id := room]
    {
      rooms := rooms[id := room];
    }
  }
}
