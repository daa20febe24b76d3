/**
 * One game room as a value (the `Player` and `Room` records of
 * lib/gameStore.ts), its expiry rule, and what join, start and leave do to it.
 */
module Rooms {
  import opened Wrappers

  datatype Player = Player(id: string, name: string)

  /** A snapshot of a room; `None` stands for the source's `null` word and impostor. */
  datatype RoomState = RoomState(
    code: string,
    hostId: string,
    players: seq<Player>,
    word: Option<string>,
    impostorId: Option<string>,
    started: bool,
    createdAt: int)

  /** Two hours, in milliseconds. */
  const RoomTtlMs: int := 2 * 60 * 60 * 1000

  /** `isExpired`: strictly older than the time-to-live at time `now` (milliseconds). */
  predicate IsExpired(room: RoomState, now: int) {
    now - room.createdAt > RoomTtlMs
  }

  /** A room is live for exactly two hours after its creation, and once expired it stays expired. */
  lemma ExpiryBoundary(room: RoomState, now: int, later: int)
    ensures !IsExpired(room, room.createdAt + 7_200_000)
    ensures IsExpired(room, room.createdAt + 7_200_001)
    ensures IsExpired(room, now) && now <= later ==> IsExpired(room, later)
  {
  }

  /** Whether some player in `players` has the given id (`players.find(p => p.id === id)`). */
  predicate HasPlayer(players: seq<Player>, id: string) {
    exists p | p in players :: p.id == id
  }

  ghost predicate UniqueIds(players: seq<Player>) {
    forall i, j :: 0 <= i < j < |players| ==> players[i].id != players[j].id
  }

  /**
   * The invariant every room in the registry keeps: it has players, their ids
   * are unique, and the host is one of them.
   */
  ghost predicate Consistent(room: RoomState) {
    && room.players != []
    && UniqueIds(room.players)
    && HasPlayer(room.players, room.hostId)
  }

  /** The room `createRoom` builds: the host alone, no round under way. */
  function NewRoom(code: string, hostId: string, hostName: string, now: int): (room: RoomState)
    ensures Consistent(room)
    ensures room.players == [Player(hostId, hostName)] && room.hostId == hostId
    ensures room.word.None? && room.impostorId.None? && !room.started
  {
    RoomState(code, hostId, [Player(hostId, hostName)], None, None, false, now)
  }

  /** The join step: append the player unless one with that id is already present. */
  function AddPlayer(room: RoomState, id: string, name: string): RoomState {
    if HasPlayer(room.players, id) then room
    else room.(players := room.players + [Player(id, name)])
  }

  /**
   * Joining keeps the room consistent, leaves the player in the room, and
   * touches nothing but `players`, which either stays as it was (the id was
   * present; the stored name is not updated) or gains exactly the new player
   * at the end.
   */
  lemma JoinKeepsConsistent(room: RoomState, id: string, name: string)
    requires Consistent(room)
    ensures var r := AddPlayer(room, id, name);
      && Consistent(r)
      && HasPlayer(r.players, id)
      && r == room.(players := r.players)
      && (r.players == room.players || r.players == room.players + [Player(id, name)])
      && (HasPlayer(room.players, id) <==> r.players == room.players)
  {
    var r := AddPlayer(room, id, name);
    assert Player(id, name) in room.players + [Player(id, name)];
    if !HasPlayer(room.players, id) {
      var ps := room.players + [Player(id, name)];
      forall i, j | 0 <= i < j < |ps|
        ensures ps[i].id != ps[j].id
      {
        if j == |ps| - 1 {
          assert ps[i] in room.players;
        }
      }
      assert exists p | p in room.players :: p.id == room.hostId;
      var h :| h in room.players && h.id == room.hostId;
      assert h in ps;
    }
  }

  /** Joining twice with the same id is joining once, whatever name the second call carries. */
  lemma JoinIdempotent(room: RoomState, id: string, name: string, name2: string)
    ensures AddPlayer(AddPlayer(room, id, name), id, name2) == AddPlayer(room, id, name)
  {
    assert Player(id, name) in room.players + [Player(id, name)];
  }

  lemma ScaleBelowOne(r: real, m: real)
    requires 0.0 <= r < 1.0 && m > 0.0
    ensures 0.0 <= r * m < m
  {
    var d := 1.0 - r;
    assert d > 0.0;
    assert d * m > 0.0;
    assert r * m == m - d * m;
  }

  /** `Math.floor(random * n)` for `random` in [0, 1): an index into a list of `n` items. */
  function PickIndex(random: real, n: nat): (i: nat)
    requires 0.0 <= random < 1.0 && n > 0
    ensures i < n
  {
    var m := n as real;
    var x := random * m;
    assert 0.0 <= x < m by {
      ScaleBelowOne(random, m);
    }
    x.Floor
  }

  /**
   * The start step: with no players the room is returned as it is; otherwise
   * a new round begins with the given word and the player at the drawn index
   * as impostor.
   */
  function BeginRound(room: RoomState, word: string, random: real): RoomState
    requires 0.0 <= random < 1.0
  {
    if |room.players| == 0 then room
    else
      var impostor := room.players[PickIndex(random, |room.players|)];
      room.(word := Some(word), impostorId := Some(impostor.id), started := true)
  }

  /**
   * Starting a round on a room with players marks it started with the given
   * word and an impostor who is one of its players; the players, the host,
   * the code and the creation time stay as they were. On an empty room it is
   * a no-op.
   */
  lemma StartChoosesPlayer(room: RoomState, word: string, random: real)
    requires 0.0 <= random < 1.0
    ensures var r := BeginRound(room, word, random);
      && (room.players == [] ==> r == room)
      && (room.players != [] ==>
            && r.started && r.word == Some(word)
            && r.impostorId.Some? && HasPlayer(room.players, r.impostorId.value)
            && r == room.(word := r.word, impostorId := r.impostorId, started := true))
  {
    if room.players != [] {
      var i := PickIndex(random, |room.players|);
      assert room.players[i] in room.players;
    }
  }

  /** A second start overwrites the first round completely. */
  lemma StartOverwrites(room: RoomState, word1: string, random1: real, word2: string, random2: real)
    requires 0.0 <= random1 < 1.0 && 0.0 <= random2 < 1.0
    ensures BeginRound(BeginRound(room, word1, random1), word2, random2) == BeginRound(room, word2, random2)
  {
  }

  /** `players.filter(p => p.id !== id)`. */
  function Without(players: seq<Player>, id: string): (rest: seq<Player>)
    ensures |rest| <= |players|
  {
    if players == [] then []
    else (if players[0].id == id then [] else [players[0]]) + Without(players[1..], id)
  }

  /** The survivors of the filter are exactly the players with a different id. */
  lemma {:induction false} WithoutMembers(players: seq<Player>, id: string)
    ensures forall p :: p in Without(players, id) <==> p in players && p.id != id
  {
    if players != [] {
      WithoutMembers(players[1..], id);
      assert players == [players[0]] + players[1..];
    }
  }

  /** Filtering out the only id present leaves nothing. */
  lemma {:induction false} WithoutAll(players: seq<Player>, id: string)
    requires forall p | p in players :: p.id == id
    ensures Without(players, id) == []
  {
    if players != [] {
      assert players[0] in players;
      assert forall p | p in players[1..] :: p in players;
      WithoutAll(players[1..], id);
    }
  }

  /** Filtering distributes over concatenation: the survivors keep their relative order. */
  lemma {:induction false} WithoutConcat(a: seq<Player>, b: seq<Player>, id: string)
    ensures Without(a + b, id) == Without(a, id) + Without(b, id)
  {
    if a == [] {
      assert a + b == b;
    } else {
      assert (a + b)[0] == a[0];
      assert (a + b)[1..] == a[1..] + b;
      WithoutConcat(a[1..], b, id);
    }
  }

  /** Removing an id nobody has changes nothing. */
  lemma {:induction false} WithoutAbsent(players: seq<Player>, id: string)
    requires !HasPlayer(players, id)
    ensures Without(players, id) == players
  {
    if players != [] {
      assert players[0] in players;
      assert !HasPlayer(players[1..], id) by {
        forall p | p in players[1..] ensures p.id != id {
          assert p in players;
        }
      }
      WithoutAbsent(players[1..], id);
    }
  }

  /** With unique ids, the id of the player at position `i` occurs nowhere else. */
  lemma UniqueElsewhere(players: seq<Player>, i: nat)
    requires UniqueIds(players) && i < |players|
    ensures !HasPlayer(players[..i], players[i].id)
    ensures !HasPlayer(players[i + 1..], players[i].id)
  {
    forall p | p in players[..i] ensures p.id != players[i].id {
      var k :| 0 <= k < i && players[..i][k] == p;
      assert players[k] == p;
    }
    forall p | p in players[i + 1..] ensures p.id != players[i].id {
      var k :| 0 <= k < |players| - i - 1 && players[i + 1..][k] == p;
      assert players[i + 1 + k] == p;
    }
  }

  /**
   * With unique ids, removing the player at position `i` removes exactly that
   * entry and keeps the rest in order.
   */
  lemma WithoutUniqueAt(players: seq<Player>, i: nat)
    requires UniqueIds(players) && i < |players|
    ensures Without(players, players[i].id) == players[..i] + players[i + 1..]
  {
    UniqueElsewhere(players, i);
    assert players == players[..i] + [players[i]] + players[i + 1..];
    WithoutSplit(players[..i], players[i], players[i + 1..]);
  }

  /** Filtering out the one player whose id occurs nowhere else leaves its neighbours joined up. */
  lemma WithoutSplit(before: seq<Player>, x: Player, after: seq<Player>)
    requires !HasPlayer(before, x.id) && !HasPlayer(after, x.id)
    ensures Without(before + [x] + after, x.id) == before + after
  {
    var id := x.id;
    WithoutAbsent(before, id);
    WithoutAbsent(after, id);
    calc {
      Without(before + [x] + after, id);
      { WithoutConcat(before + [x], after, id); }
      Without(before + [x], id) + Without(after, id);
      { WithoutConcat(before, [x], id); }
      Without(before, id) + Without([x], id) + Without(after, id);
      { assert Without([x], id) == []; }
      before + [] + after;
      { assert before + [] == before; }
      before + after;
    }
  }

  /** Putting a player in front of a list that lacks its id keeps ids unique. */
  lemma PrependKeepsUnique(x: Player, tail: seq<Player>)
    requires UniqueIds(tail) && !HasPlayer(tail, x.id)
    ensures UniqueIds([x] + tail)
  {
    var ps := [x] + tail;
    forall i, j | 0 <= i < j < |ps|
      ensures ps[i].id != ps[j].id
    {
      assert ps[j] == tail[j - 1] && ps[j] in tail;
      if i > 0 {
        assert ps[i] == tail[i - 1];
      }
    }
  }

  /** Filtering keeps ids unique. */
  lemma {:induction false} WithoutKeepsUnique(players: seq<Player>, id: string)
    requires UniqueIds(players)
    ensures UniqueIds(Without(players, id))
  {
    if players != [] {
      var tail := Without(players[1..], id);
      WithoutKeepsUnique(players[1..], id);
      if players[0].id != id {
        WithoutMembers(players[1..], id);
        UniqueElsewhere(players, 0);
        assert !HasPlayer(tail, players[0].id);
        PrependKeepsUnique(players[0], tail);
      } else {
        assert Without(players, id) == tail;
      }
    }
  }

  /**
   * The first survivor of the filter is the earliest player in join order
   * whose id is not the one removed.
   */
  lemma {:induction false} WithoutFirst(players: seq<Player>, id: string, j: nat)
    requires j < |players| && players[j].id != id
    requires forall i :: 0 <= i < j ==> players[i].id == id
    ensures Without(players, id) != [] && Without(players, id)[0] == players[j]
  {
    if j > 0 {
      WithoutFirst(players[1..], id, j - 1);
    }
  }

  /**
   * The leave step on the room itself: filter the player out and, if any
   * player remains and the host was the one leaving, pass the host role to
   * the first remaining player. `word`, `impostorId` and `started` are left
   * alone.
   */
  function Depart(room: RoomState, id: string): RoomState {
    var rest := Without(room.players, id);
    if rest != [] && room.hostId == id then room.(players := rest, hostId := rest[0].id)
    else room.(players := rest)
  }

  /**
   * Leaving keeps a consistent room consistent when someone remains; the host
   * stays unless it was the one leaving, in which case the host becomes the
   * earliest-joined remaining player; the round state is untouched.
   */
  lemma LeaveKeepsConsistent(room: RoomState, id: string)
    requires Consistent(room)
    requires Without(room.players, id) != []
    ensures var r := Depart(room, id);
      && Consistent(r)
      && !HasPlayer(r.players, id)
      && r.players == Without(room.players, id)
      && r.hostId == (if room.hostId == id then r.players[0].id else room.hostId)
      && r.word == room.word && r.impostorId == room.impostorId && r.started == room.started
      && r.code == room.code && r.createdAt == room.createdAt
  {
    var rest := Without(room.players, id);
    WithoutKeepsUnique(room.players, id);
    WithoutMembers(room.players, id);
    assert rest[0] in rest;
    if room.hostId != id {
      var h :| h in room.players && h.id == room.hostId;
      assert h in rest;
    }
  }

  /**
   * Host succession follows join order: when the host leaves, the new host
   * is the earliest player in the old list whose id differs from the host's.
   */
  lemma HostSuccession(room: RoomState, j: nat)
    requires j < |room.players| && room.players[j].id != room.hostId
    requires forall i :: 0 <= i < j ==> room.players[i].id == room.hostId
    ensures Depart(room, room.hostId).hostId == room.players[j].id
  {
    WithoutFirst(room.players, room.hostId, j);
  }

  /**
   * Leaving never touches the round: when the impostor leaves a room that
   * others remain in, `impostorId` still names them although they are gone.
   */
  lemma ImpostorOutlivesDeparture(room: RoomState, id: string)
    requires Consistent(room) && room.impostorId == Some(id)
    requires Without(room.players, id) != []
    ensures var r := Depart(room, id);
      r.impostorId == Some(id) && !HasPlayer(r.players, id) && r.players != []
  {
    LeaveKeepsConsistent(room, id);
  }
}
