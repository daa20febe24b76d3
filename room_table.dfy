/**
 * The room registry of lib/gameStore.ts as a value: a map from normalised
 * code to room, and each exported operation as a function from the old map
 * to the new map and the room handed back. The functions take the code
 * already normalised; the class in GameStore normalises the caller's code
 * and is proved to follow these functions.
 */
module RoomTable {
  import opened Wrappers
  import opened Codes
  import opened Rooms

  type Store = map<string, RoomState>

  /** What an operation leaves behind: the new registry and the room it returns (or `null`). */
  datatype Outcome = Outcome(store: Store, room: Option<RoomState>)

  /**
   * The invariant of every reachable registry: each room is stored under its
   * own code and is consistent (has players, unique ids, a present host).
   */
  ghost predicate WellFormed(s: Store) {
    forall k | k in s :: s[k].code == k && Consistent(s[k])
  }

  /** `getValidRoom` on a normalised key: an expired room is evicted and reported missing. */
  function Lookup(s: Store, key: string, now: int): Outcome {
    if key !in s then Outcome(s, None)
    else if IsExpired(s[key], now) then Outcome(s - {key}, None)
    else Outcome(s, Some(s[key]))
  }

  /** `createRoom` under the (upper-cased) generated code: the host alone, replacing whatever was there. */
  function Create(s: Store, code: string, hostId: string, hostName: string, now: int): Outcome {
    var room := NewRoom(code, hostId, hostName, now);
    Outcome(s[code := room], Some(room))
  }

  /** `joinRoom` on a normalised key. */
  function Join(s: Store, key: string, now: int, playerId: string, name: string): Outcome {
    var found := Lookup(s, key, now);
    if found.room.None? then found
    else
      var room := AddPlayer(found.room.value, playerId, name);
      Outcome(found.store[key := room], Some(room))
  }

  /** `startGame` on a normalised key; `random` stands for the value `Math.random()` returned. */
  function Start(s: Store, key: string, now: int, word: string, random: real): Outcome
    requires 0.0 <= random < 1.0
  {
    var found := Lookup(s, key, now);
    if found.room.None? then found
    else
      var room := BeginRound(found.room.value, word, random);
      Outcome(found.store[key := room], Some(room))
  }

  /** `leaveRoom` on a normalised key: a room left empty is deleted and `null` returned. */
  function Leave(s: Store, key: string, now: int, playerId: string): Outcome {
    var found := Lookup(s, key, now);
    if found.room.None? then found
    else
      var room := Depart(found.room.value, playerId);
      if room.players == [] then Outcome(found.store - {key}, None)
      else Outcome(found.store[key := room], Some(room))
  }

  /**
   * What `getValidRoom` promises: afterwards the key holds no expired room,
   * a room is returned exactly when the key is still present, and it is the
   * room that was stored there; the registry only ever loses that one key,
   * and a live room under the key stays and is returned.
   */
  lemma LookupSound(s: Store, key: string, now: int)
    ensures var o := Lookup(s, key, now);
      && o.store - {key} == s - {key}
      && o.store.Keys <= s.Keys
      && (key in o.store ==> o.store[key] == s[key] && !IsExpired(s[key], now))
      && (o.room.Some? <==> key in o.store)
      && (o.room.Some? ==> o.room.value == s[key])
      && (key in s && !IsExpired(s[key], now) ==> o == Outcome(s, Some(s[key])))
  {
    if key in s && IsExpired(s[key], now) {
      assert (s - {key}) - {key} == s - {key};
    }
  }

  /**
   * How an operation on `key` must treat expiry, as lookup does: an expired
   * room under the key is evicted and `null` returned; a missing key leaves
   * the registry as it was; otherwise only the entry under the key may
   * change and a returned room is what is stored there.
   */
  ghost predicate HonoursExpiry(s: Store, o: Outcome, key: string, now: int) {
    && (key !in s ==> o == Outcome(s, None))
    && (key in s && IsExpired(s[key], now) ==> o == Outcome(s - {key}, None))
    && (key in s && !IsExpired(s[key], now) ==>
          && o.store - {key} == s - {key}
          && (o.room.Some? ==> key in o.store && o.store[key] == o.room.value)
          && (o.room.None? ==> key !in o.store))
  }

  /** Storing under `key` changes no other entry. */
  lemma UpdateOnlyAt(m: Store, key: string, room: RoomState)
    ensures m[key := room] - {key} == m - {key}
  {
  }

  /** `joinRoom` honours expiry; on a live room it stores and returns the room with the player joined. */
  lemma JoinHonoursExpiry(s: Store, key: string, now: int, playerId: string, name: string)
    ensures HonoursExpiry(s, Join(s, key, now, playerId, name), key, now)
    ensures var o := Join(s, key, now, playerId, name);
      key in s && !IsExpired(s[key], now) ==>
        o.room == Some(AddPlayer(s[key], playerId, name)) && o.store == s[key := o.room.value]
  {
    if key in s && !IsExpired(s[key], now) {
      UpdateOnlyAt(s, key, AddPlayer(s[key], playerId, name));
    }
  }

  /** `startGame` honours expiry; on a live room it stores and returns the room with the round begun. */
  lemma StartHonoursExpiry(s: Store, key: string, now: int, word: string, random: real)
    requires 0.0 <= random < 1.0
    ensures HonoursExpiry(s, Start(s, key, now, word, random), key, now)
    ensures var o := Start(s, key, now, word, random);
      key in s && !IsExpired(s[key], now) ==>
        o.room == Some(BeginRound(s[key], word, random)) && o.store == s[key := o.room.value]
  {
    if key in s && !IsExpired(s[key], now) {
      UpdateOnlyAt(s, key, BeginRound(s[key], word, random));
    }
  }

  /**
   * `leaveRoom` honours expiry; on a live room the room stays, and is
   * returned with the player gone, exactly when some other player remains.
   */
  lemma LeaveHonoursExpiry(s: Store, key: string, now: int, playerId: string)
    ensures HonoursExpiry(s, Leave(s, key, now, playerId), key, now)
    ensures var o := Leave(s, key, now, playerId);
      key in s && !IsExpired(s[key], now) ==>
        && (o.room.Some? <==> Without(s[key].players, playerId) != [])
        && (o.room.Some? ==> o.room == Some(Depart(s[key], playerId)) && o.store == s[key := o.room.value])
        && (o.room.None? ==> o.store == s - {key})
  {
    if key in s && !IsExpired(s[key], now) {
      UpdateOnlyAt(s, key, Depart(s[key], playerId));
    }
  }

  lemma UpdateKeepsWellFormed(s: Store, key: string, room: RoomState)
    requires WellFormed(s) && room.code == key && Consistent(room)
    ensures WellFormed(s[key := room])
  {
  }

  lemma RemoveKeepsWellFormed(s: Store, key: string)
    requires WellFormed(s)
    ensures WellFormed(s - {key})
  {
  }

  /** A new room is consistent and stored under its own code. */
  lemma CreateKeepsWellFormed(s: Store, code: string, hostId: string, hostName: string, now: int)
    requires WellFormed(s)
    ensures WellFormed(Create(s, code, hostId, hostName, now).store)
  {
    UpdateKeepsWellFormed(s, code, NewRoom(code, hostId, hostName, now));
  }

  /**
   * `createRoom` stores the new room under its code whether or not a live
   * room was there: the earlier room is lost, and no other entry changes.
   */
  lemma CreateOverwrites(s: Store, code: string, hostId: string, hostName: string, now: int)
    ensures var o := Create(s, code, hostId, hostName, now);
      && o.store.Keys == s.Keys + {code}
      && o.store - {code} == s - {code}
      && o.room.Some? && o.store[code] == o.room.value
      && o.room.value.players == [Player(hostId, hostName)] && o.room.value.createdAt == now
  {
    UpdateOnlyAt(s, code, NewRoom(code, hostId, hostName, now));
  }

  /** Joining keeps every room consistent; on success the player is in the returned room. */
  lemma JoinKeepsWellFormed(s: Store, key: string, now: int, playerId: string, name: string)
    requires WellFormed(s)
    ensures var o := Join(s, key, now, playerId, name);
      && WellFormed(o.store)
      && (o.room.Some? ==> HasPlayer(o.room.value.players, playerId))
  {
    RemoveKeepsWellFormed(s, key);
    if key in s && !IsExpired(s[key], now) {
      JoinKeepsConsistent(s[key], playerId, name);
      UpdateKeepsWellFormed(s, key, AddPlayer(s[key], playerId, name));
    }
  }

  /** Starting keeps every room consistent; on success the impostor is one of the room's players. */
  lemma StartKeepsWellFormed(s: Store, key: string, now: int, word: string, random: real)
    requires WellFormed(s)
    requires 0.0 <= random < 1.0
    ensures var o := Start(s, key, now, word, random);
      && WellFormed(o.store)
      && (o.room.Some? ==>
            && o.room.value.started && o.room.value.word == Some(word)
            && o.room.value.impostorId.Some?
            && HasPlayer(o.room.value.players, o.room.value.impostorId.value))
  {
    RemoveKeepsWellFormed(s, key);
    if key in s && !IsExpired(s[key], now) {
      StartChoosesPlayer(s[key], word, random);
      UpdateKeepsWellFormed(s, key, BeginRound(s[key], word, random));
    }
  }

  /**
   * Leaving keeps every room consistent: a room left empty is gone from the
   * registry, and a returned room no longer holds the player.
   */
  lemma LeaveKeepsWellFormed(s: Store, key: string, now: int, playerId: string)
    requires WellFormed(s)
    ensures var o := Leave(s, key, now, playerId);
      && WellFormed(o.store)
      && (o.room.Some? ==> !HasPlayer(o.room.value.players, playerId))
  {
    RemoveKeepsWellFormed(s, key);
    if key in s && !IsExpired(s[key], now) {
      if Without(s[key].players, playerId) != [] {
        LeaveKeepsConsistent(s[key], playerId);
        UpdateKeepsWellFormed(s, key, Depart(s[key], playerId));
      }
    }
  }

  /**
   * A second join with the same id, at the same time or later, leaves the
   * registry and the result as a single join at the later time would: the
   * room with the player in it, or nothing once the room has expired.
   */
  lemma JoinTwiceIsJoinOnce(s: Store, key: string, now1: int, now2: int,
                            playerId: string, name: string, name2: string)
    requires now1 <= now2
    ensures Join(Join(s, key, now1, playerId, name).store, key, now2, playerId, name2)
         == Join(s, key, now2, playerId, name)
  {
    if key in s && !IsExpired(s[key], now1) {
      var room := AddPlayer(s[key], playerId, name);
      if IsExpired(s[key], now2) {
        assert s[key := room] - {key} == s - {key};
      } else {
        JoinIdempotent(s[key], playerId, name, name2);
        assert s[key := room][key := room] == s[key := room];
      }
    }
  }

  /**
   * Starting again, at the same time or later, overwrites the round: the
   * first start leaves no trace in the second's outcome.
   */
  lemma StartTwiceOverwrites(s: Store, key: string, now1: int, now2: int,
                             word1: string, random1: real, word2: string, random2: real)
    requires now1 <= now2
    requires 0.0 <= random1 < 1.0 && 0.0 <= random2 < 1.0
    ensures Start(Start(s, key, now1, word1, random1).store, key, now2, word2, random2)
         == Start(s, key, now2, word2, random2)
  {
    if key in s && !IsExpired(s[key], now1) {
      var first := BeginRound(s[key], word1, random1);
      if IsExpired(s[key], now2) {
        assert s[key := first] - {key} == s - {key};
      } else {
        var second := BeginRound(s[key], word2, random2);
        StartOverwrites(s[key], word1, random1, word2, random2);
        assert s[key := first][key := second] == s[key := second];
      }
    }
  }

  /**
   * When the last player leaves, the room is deleted: `null` is returned and
   * a later lookup of that key finds nothing.
   */
  lemma LastLeaveDeletes(s: Store, key: string, now: int, later: int, playerId: string)
    requires key in s && forall p | p in s[key].players :: p.id == playerId
    ensures var o := Leave(s, key, now, playerId);
      && o.room.None?
      && key !in o.store
      && Lookup(o.store, key, later).room.None?
  {
    WithoutAll(s[key].players, playerId);
  }

  /**
   * A created room is found again, for as long as it is live, by any code
   * that normalises to its own: the generated code has no whitespace, and
   * the code typed may differ from it in case and be padded with whitespace.
   */
  lemma CreateThenGet(s: Store, generated: string, hostId: string, hostName: string, now: int,
                      later: int, typed: string, p: string, q: string)
    requires forall i | 0 <= i < |generated| :: !IsSpace(generated[i])
    requires Upper(typed) == Upper(generated) && AllSpace(p) && AllSpace(q)
    requires later - now <= RoomTtlMs
    ensures var o := Create(s, Upper(generated), hostId, hostName, now);
      Lookup(o.store, NormalizeCode(Some(p + typed + q)), later) == o
  {
    NormalizeInsensitive(typed, generated, p, q);
    NormalizeNoSpace(generated);
  }

  /**
   * A round with two players: Ana creates room C1, Beto joins, Ana leaves so
   * that Beto becomes host and only player, and the start that follows can
   * only pick Beto as the impostor.
   */
  lemma HostLeavesThenStart(now: int, random: real)
    requires 0.0 <= random < 1.0
    ensures var created := Create(map[], "C1", "ana", "Ana", now);
      var joined := Join(created.store, "C1", now, "beto", "Beto");
      var left := Leave(joined.store, "C1", now, "ana");
      var started := Start(left.store, "C1", now, "Playa", random);
      && joined.room.value.players == [Player("ana", "Ana"), Player("beto", "Beto")]
      && left.room.Some?
      && left.room.value.hostId == "beto"
      && left.room.value.players == [Player("beto", "Beto")]
      && started.room.Some?
      && started.room.value.started
      && started.room.value.word == Some("Playa")
      && started.room.value.impostorId == Some("beto")
  {
    var room := NewRoom("C1", "ana", "Ana", now);
    var both := AddPlayer(room, "beto", "Beto");
    assert both.players == [Player("ana", "Ana"), Player("beto", "Beto")];
    var rest := Depart(both, "ana");
    assert Without(both.players, "ana") == [Player("beto", "Beto")];
    assert rest.players == [Player("beto", "Beto")] && rest.hostId == "beto";
    assert PickIndex(random, 1) == 0;
  }
}
