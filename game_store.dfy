/**
 * The process-wide room registry of lib/gameStore.ts as it runs: a map from
 * code to room objects whose fields the operations update in place. Each
 * method is proved to do to the registry's contents what the matching
 * function of RoomTable says.
 */
module GameStore {
  import opened Wrappers
  import opened Codes
  import opened Rooms
  import RoomTable

  /** A room object; the registry hands out references to the stored object itself. */
  class Room {
    var code: string
    var hostId: string
    var players: seq<Player>
    var word: Option<string>
    var impostorId: Option<string>
    var started: bool
    var createdAt: int

    /** The object literal built by `createRoom`. */
    constructor (code: string, hostId: string, hostName: string, now: int)
      ensures State() == NewRoom(code, hostId, hostName, now)
    {
      this.code := code;
      this.hostId := hostId;
      this.players := [Player(hostId, hostName)];
      this.word := None;
      this.impostorId := None;
      this.started := false;
      this.createdAt := now;
    }

    function State(): RoomState
      reads this
    {
      RoomState(code, hostId, players, word, impostorId, started, createdAt)
    }
  }

  class Registry {
    var rooms: map<string, Room>
    /** The registry's contents as values: each code with the state of its room object. */
    ghost var Contents: RoomTable.Store

    /**
     * Distinct codes hold distinct objects (every room is allocated afresh by
     * `createRoom`), and `Contents` is the state of the stored objects.
     */
    ghost predicate Valid()
      reads this, rooms.Values
    {
      && Contents.Keys == rooms.Keys
      && (forall k | k in rooms :: Contents[k] == rooms[k].State())
      && (forall k, k' | k in rooms && k' in rooms && k != k' :: rooms[k] != rooms[k'])
    }

    /** The module-level `new Map()`: the registry starts empty. */
    constructor ()
      ensures Valid() && Contents == map[]
    {
      rooms := map[];
      Contents := map[];
    }

    /** `getValidRoom`: the live room under the normalised code, evicting it if it has expired. */
    method GetValidRoom(code: string, now: int) returns (room: Room?)
      requires Valid()
      modifies this
      ensures Valid()
      ensures Contents == RoomTable.Lookup(old(Contents), NormalizeCode(Some(code)), now).store
      ensures room == null <==> RoomTable.Lookup(old(Contents), NormalizeCode(Some(code)), now).room.None?
      ensures room != null ==>
        && NormalizeCode(Some(code)) in rooms
        && room == rooms[NormalizeCode(Some(code))]
        && room in old(rooms).Values
        && Some(room.State()) == RoomTable.Lookup(old(Contents), NormalizeCode(Some(code)), now).room
    {
      var key := NormalizeCode(Some(code));
      if key !in rooms {
        return null;
      }
      room := rooms[key];
      if IsExpired(room.State(), now) {
        Delete(key, room);
        return null;
      }
    }

    /** `createRoom`; `generated` is the base-36 string drawn from `Math.random()`. */
    method CreateRoom(generated: string, hostId: string, hostName: string, now: int) returns (room: Room)
      requires Valid()
      modifies this
      ensures Valid() && fresh(room)
      ensures Contents == RoomTable.Create(old(Contents), Upper(generated), hostId, hostName, now).store
      ensures Some(room.State()) == RoomTable.Create(old(Contents), Upper(generated), hostId, hostName, now).room
      ensures Upper(generated) in rooms && rooms[Upper(generated)] == room
    {
      var code := Upper(generated);
      room := new Room(code, hostId, hostName, now);
      rooms := rooms[code := room];
      Contents := Contents[code := room.State()];
    }

    /** `getRoom`. */
    method GetRoom(code: string, now: int) returns (room: Room?)
      requires Valid()
      modifies this
      ensures Valid()
      ensures Contents == RoomTable.Lookup(old(Contents), NormalizeCode(Some(code)), now).store
      ensures room == null <==> RoomTable.Lookup(old(Contents), NormalizeCode(Some(code)), now).room.None?
      ensures room != null ==> Some(room.State()) == RoomTable.Lookup(old(Contents), NormalizeCode(Some(code)), now).room
    {
      var key := NormalizeCode(Some(code));
      NormalizeIdempotent(Some(code));
      room := GetValidRoom(key, now);
    }

    /**
     * Storing `room`'s new state under `key` after its fields changed in place:
     * no other room object was touched, so only that entry of `Contents` moves.
     */
    ghost method Restore(key: string, room: Room)
      requires key in rooms && rooms[key] == room
      requires Contents.Keys == rooms.Keys
      requires forall k | k in rooms && k != key :: Contents[k] == rooms[k].State()
      requires forall k, k' | k in rooms && k' in rooms && k != k' :: rooms[k] != rooms[k']
      modifies this
      ensures Valid() && rooms == old(rooms)
      ensures Contents == old(Contents)[key := room.State()]
    {
      Contents := Contents[key := room.State()];
    }

    /** `rooms.delete(key)`, where the room object under `key` may have changed in place. */
    method Delete(key: string, room: Room)
      requires key in rooms && rooms[key] == room
      requires Contents.Keys == rooms.Keys
      requires forall k | k in rooms && k != key :: Contents[k] == rooms[k].State()
      requires forall k, k' | k in rooms && k' in rooms && k != k' :: rooms[k] != rooms[k']
      modifies this
      ensures Valid()
      ensures rooms == old(rooms) - {key} && Contents == old(Contents) - {key}
    {
      rooms := rooms - {key};
      Contents := Contents - {key};
    }

    /** The body of `joinRoom` once the room is found: append the player unless an entry has that id. */
    method AddToRoom(key: string, room: Room, playerId: string, name: string)
      requires Valid() && key in rooms && rooms[key] == room
      modifies this, room
      ensures Valid() && rooms == old(rooms)
      ensures room.State() == AddPlayer(old(room.State()), playerId, name)
      ensures Contents == old(Contents)[key := room.State()]
    {
      if !HasPlayer(room.players, playerId) {
        room.players := room.players + [Player(playerId, name)];
      }
      Restore(key, room);
    }

    /** The body of `startGame` once the room is found; an empty room is left as it is. */
    method BeginRoundIn(key: string, room: Room, word: string, random: real)
      requires Valid() && key in rooms && rooms[key] == room
      requires 0.0 <= random < 1.0
      modifies this, room
      ensures Valid() && rooms == old(rooms)
      ensures room.State() == BeginRound(old(room.State()), word, random)
      ensures Contents == old(Contents)[key := room.State()]
    {
      if |room.players| == 0 {
        return;
      }
      var impostor := room.players[PickIndex(random, |room.players|)];
      room.word, room.impostorId, room.started := Some(word), Some(impostor.id), true;
      Restore(key, room);
    }

    /**
     * The body of `leaveRoom` once the room is found: filter the player out,
     * delete the room if it is now empty, else pass the host on if needed.
     */
    method DepartFrom(key: string, room: Room, playerId: string) returns (kept: bool)
      requires Valid() && key in rooms && rooms[key] == room
      modifies this, room
      ensures Valid()
      ensures room.State() == Depart(old(room.State()), playerId)
      ensures kept <==> room.players != []
      ensures kept ==> rooms == old(rooms) && Contents == old(Contents)[key := room.State()]
      ensures !kept ==> rooms == old(rooms) - {key} && Contents == old(Contents) - {key}
    {
      room.players := Without(room.players, playerId);
      if |room.players| == 0 {
        Delete(key, room);
        return false;
      }
      if room.hostId == playerId {
        room.hostId := room.players[0].id;
      }
      Restore(key, room);
      return true;
    }

    /** `joinRoom`: the player is appended to the stored room object unless already present. */
    method JoinRoom(code: string, playerId: string, name: string, now: int) returns (room: Room?)
      requires Valid()
      modifies this, rooms.Values
      ensures Valid()
      ensures Contents == RoomTable.Join(old(Contents), NormalizeCode(Some(code)), now, playerId, name).store
      ensures room == null <==> RoomTable.Join(old(Contents), NormalizeCode(Some(code)), now, playerId, name).room.None?
      ensures room != null ==> Some(room.State()) == RoomTable.Join(old(Contents), NormalizeCode(Some(code)), now, playerId, name).room
    {
      var key := NormalizeCode(Some(code));
      NormalizeIdempotent(Some(code));
      room := GetValidRoom(key, now);
      if room != null {
        AddToRoom(key, room, playerId, name);
      }
    }

    /** `startGame`; `random` is the value `Math.random()` returned. */
    method StartGame(code: string, word: string, random: real, now: int) returns (room: Room?)
      requires Valid()
      requires 0.0 <= random < 1.0
      modifies this, rooms.Values
      ensures Valid()
      ensures Contents == RoomTable.Start(old(Contents), NormalizeCode(Some(code)), now, word, random).store
      ensures room == null <==> RoomTable.Start(old(Contents), NormalizeCode(Some(code)), now, word, random).room.None?
      ensures room != null ==> Some(room.State()) == RoomTable.Start(old(Contents), NormalizeCode(Some(code)), now, word, random).room
    {
      var key := NormalizeCode(Some(code));
      NormalizeIdempotent(Some(code));
      room := GetValidRoom(key, now);
      if room != null {
        BeginRoundIn(key, room, word, random);
      }
    }

    /** `leaveRoom`: `null` when the room is missing, expired or left empty. */
    method LeaveRoom(code: string, playerId: string, now: int) returns (room: Room?)
      requires Valid()
      modifies this, rooms.Values
      ensures Valid()
      ensures Contents == RoomTable.Leave(old(Contents), NormalizeCode(Some(code)), now, playerId).store
      ensures room == null <==> RoomTable.Leave(old(Contents), NormalizeCode(Some(code)), now, playerId).room.None?
      ensures room != null ==> Some(room.State()) == RoomTable.Leave(old(Contents), NormalizeCode(Some(code)), now, playerId).room
    {
      var key := NormalizeCode(Some(code));
      NormalizeIdempotent(Some(code));
      room := GetValidRoom(key, now);
      if room != null {
        var kept := DepartFrom(key, room, playerId);
        if !kept {
          room := null;
        }
      }
    }
  }
}
