# ImpostorGame room registry in Dafny

A model of the in-memory room registry of ImpostorGame (`lib/gameStore.ts`),
the only part of the application with logic of its own. A room is a game
session under a short code. It holds the players (host first, then in join
order), the host's id, and the state of the current round: the secret word,
the impostor's id and whether the round has started. The registry is a
process-wide map from code to room. Every operation first normalises the code
it is given (trim, then upper-case). It then goes through one "live or evict"
lookup that deletes a room more than two hours old. Join, start and leave
change the fields of the stored room object in place.

The project has five modules:

- `Wrappers` (`wrappers.dfy`): `Option`, standing for the source's `null` / `undefined`.
- `Codes` (`codes.dfy`): `normalizeCode`. This covers ASCII trimming and
  upper-casing, and the proofs that normalisation is idempotent and that codes
  are insensitive to case and to surrounding whitespace.
- `Rooms` (`rooms.dfy`): the `Player` and `Room` records as values, the
  two-hour expiry rule, and the join, start and leave steps on one room.
  It also holds the room invariant: players present, ids unique, host among
  them.
- `RoomTable` (`room_table.dfy`): the registry as a value
  (`map<string, RoomState>`) and each exported operation as a function from
  the old map to the new map and the room returned. These functions carry the
  registry-level properties: expiry is honoured alike by every operation,
  other entries are untouched, the invariant is kept, joining is idempotent,
  starting overwrites, the last leave deletes, and a created room is found
  again.
- `GameStore` (`game_store.dfy`): the registry as the source runs it. A
  `Registry` class holds `map<string, Room>`, and `Room` is a class whose
  fields the operations assign in place. Each method's contract ties the
  registry's contents afterwards, and the state of the room object it returns,
  to the matching `RoomTable` function. So everything proved about those
  functions holds of the methods. The class invariant `Valid` says two
  things. First, `Contents` is the state of the stored objects. Second,
  distinct codes hold distinct objects, which is true of every reachable
  registry because `createRoom` always allocates a new object.

Nondeterministic inputs are parameters:
- `now: int` (milliseconds) stands for `Date.now()`;
- `random: real` with `0 <= random < 1` stands for the value of `Math.random()`
  used to pick the impostor;
- `generated: string` is the base-36 substring that `createRoom` draws from
  `Math.random()` and upper-cases.

In three places the model follows what the code does rather than what one
might expect:
- `createRoom` stores the new room with `rooms.set` (lib/gameStore.ts:63)
  without checking the code is free. A live room under the same code is
  overwritten; no new code is drawn (`RoomTable.CreateOverwrites`).
- The code is `substring(2, 6)` of a base-36 rendering of `Math.random()`
  (lib/gameStore.ts:51). That substring can have fewer than four characters,
  so the model takes the drawn string as it comes and claims no length.
- `leaveRoom` only filters `players` and may move the host
  (lib/gameStore.ts:145-156). A departing impostor therefore stays named in
  `impostorId` (`Rooms.ImpostorOutlivesDeparture`).

## Model

| member | source | states |
|---|---|---|
| Codes.Upper | lib/gameStore.ts:24 | upper-casing keeps the length, maps each character by the ASCII case map, and leaves no lower-case letter |
| Codes.TrimStart | lib/gameStore.ts:24 | the result is the suffix of the input after a prefix made only of whitespace, and does not start with whitespace |
| Codes.TrimEnd | lib/gameStore.ts:24 | the result is the prefix of the input before a suffix made only of whitespace, and does not end with whitespace |
| Codes.Trim | lib/gameStore.ts:24 | trimming never lengthens the code and leaves no whitespace at either end |
| Codes.TrimKeepsMiddle | lib/gameStore.ts:24 | the trimmed code is the stretch of the input between a whitespace-only prefix and a whitespace-only suffix |
| Codes.NormalizeCode | lib/gameStore.ts:23-25 | a missing code normalises to `""`; every normalised code has no surrounding whitespace and no lower-case letter, and is no longer than the input |
| Codes.NormalIsFixpoint | lib/gameStore.ts:23-25 | a code already without surrounding whitespace or lower-case letters normalises to itself |
| Codes.NormalizeIdempotent | lib/gameStore.ts:70-71 | normalising twice equals normalising once, so the second normalisation inside `getValidRoom`, called by `getRoom` and the other operations, looks up the same key |
| Codes.TrimStartPadding | lib/gameStore.ts:24 | leading whitespace added to a string does not change its left-trimmed form |
| Codes.TrimEndPadding | lib/gameStore.ts:24 | trailing whitespace added to a string does not change its right-trimmed form |
| Codes.TrimPaddingRight | lib/gameStore.ts:24 | trailing whitespace added to a string does not change its trimmed form |
| Codes.TrimPadding | lib/gameStore.ts:24 | whitespace added on both sides does not change the trimmed form |
| Codes.UpperTrimStart | lib/gameStore.ts:24 | upper-casing commutes with dropping leading whitespace |
| Codes.UpperTrimEnd | lib/gameStore.ts:24 | upper-casing commutes with dropping trailing whitespace |
| Codes.UpperTrim | lib/gameStore.ts:24 | upper-casing commutes with trimming |
| Codes.UpperIdempotent | lib/gameStore.ts:24 | upper-casing an upper-cased code changes nothing |
| Codes.NormalizeNoSpace | lib/gameStore.ts:23-25 | a code containing no whitespace normalises to its upper-cased self |
| Codes.NormalizeInsensitive | lib/gameStore.ts:23-25 | two codes equal up to case, one of them padded with any whitespace on either side, normalise to the same key |
| Rooms.IsExpired | lib/gameStore.ts:27-29 | a room is expired when more than the two-hour time-to-live has passed since its creation (strict comparison) |
| Rooms.HasPlayer | lib/gameStore.ts:94 | whether some player in the list carries the given id |
| Rooms.ExpiryBoundary | lib/gameStore.ts:21-29 | the comparison is strict: a room is live at exactly 7 200 000 ms after creation and expired 1 ms later; once expired it stays expired |
| Rooms.NewRoom | lib/gameStore.ts:53-61 | a new room holds only its host, names the host as host, has no word, no impostor and no round started, and satisfies the room invariant |
| Rooms.AddPlayer | lib/gameStore.ts:94-97 | the join step: the room unchanged when a player with the id is present, otherwise the player appended to `players` |
| Rooms.JoinKeepsConsistent | lib/gameStore.ts:94-97 | joining keeps the invariant and leaves the player present; only `players` changes, and it is unchanged exactly when the id was already present (the stored name is not updated), otherwise the old list with the new player appended |
| Rooms.JoinIdempotent | lib/gameStore.ts:94-97 | joining twice with the same id, under any second name, is joining once |
| Rooms.PickIndex | lib/gameStore.ts:117 | `floor(random * n)` with `random` in [0, 1) is a valid index into a list of `n` players |
| Rooms.BeginRound | lib/gameStore.ts:112-122 | the start step: a room without players unchanged, otherwise word, impostor (the player at the drawn index) and started flag set |
| Rooms.StartChoosesPlayer | lib/gameStore.ts:112-122 | a room without players comes back unchanged; otherwise the round is marked started with the given word and an impostor who is one of the room's players, and players, host, code and creation time are unchanged |
| Rooms.StartOverwrites | lib/gameStore.ts:117-122 | a second start leaves no trace of the first: the outcome equals starting once with the second word and draw |
| Rooms.Without | lib/gameStore.ts:145 | the filter of `players` by a different id; the result is never longer than the input |
| Rooms.WithoutMembers | lib/gameStore.ts:145 | the filter keeps exactly the players whose id differs from the leaving id |
| Rooms.WithoutAll | lib/gameStore.ts:145-147 | filtering out the only id present leaves an empty list |
| Rooms.WithoutConcat | lib/gameStore.ts:145 | the filter distributes over concatenation, so the survivors keep their relative order |
| Rooms.WithoutAbsent | lib/gameStore.ts:145 | filtering out an id no player has changes nothing |
| Rooms.UniqueElsewhere | lib/gameStore.ts:94-97 | with unique ids, the id at one position occurs neither before nor after it |
| Rooms.WithoutSplit | lib/gameStore.ts:145 | removing a player whose id occurs nowhere else joins its neighbours up in order |
| Rooms.WithoutUniqueAt | lib/gameStore.ts:145 | with unique ids, leaving removes exactly the leaving player's entry and keeps the others in order |
| Rooms.WithoutKeepsUnique | lib/gameStore.ts:145 | the filter keeps ids unique |
| Rooms.WithoutFirst | lib/gameStore.ts:145-155 | the first survivor of the filter is the earliest player whose id is not the leaving one |
| Rooms.Depart | lib/gameStore.ts:145-156 | the leave step: filter the player out and, when someone remains and the host left, make the first remaining player host |
| Rooms.LeaveKeepsConsistent | lib/gameStore.ts:145-156 | when someone remains, leaving keeps the invariant and removes the player; the host stays unless it left, in which case it becomes the first remaining player; word, impostor, started flag, code and creation time are untouched |
| Rooms.HostSuccession | lib/gameStore.ts:153-156 | when the host leaves, the new host is the earliest player, in join order, whose id differs from the host's |
| Rooms.ImpostorOutlivesDeparture | lib/gameStore.ts:145-160 | when the impostor leaves a room others remain in, `impostorId` still names them although they are no longer a player |
| RoomTable.Lookup | lib/gameStore.ts:31-47 | `getValidRoom` on a normalised key: nothing for a missing key, eviction and nothing for an expired room, otherwise the stored room |
| RoomTable.Create | lib/gameStore.ts:50-66 | `createRoom`: the new room stored under its code, overwriting, and returned |
| RoomTable.Join | lib/gameStore.ts:82-101 | `joinRoom`: the lookup's outcome when it finds nothing, otherwise the join step stored under the key and returned |
| RoomTable.Start | lib/gameStore.ts:104-134 | `startGame`: the lookup's outcome when it finds nothing, otherwise the start step stored under the key and returned |
| RoomTable.Leave | lib/gameStore.ts:137-161 | `leaveRoom`: the lookup's outcome when it finds nothing; otherwise the leave step, deleting the key and returning nothing when no player remains, else storing and returning the room |
| RoomTable.LookupSound | lib/gameStore.ts:31-47 | lookup changes at most the entry under its key; afterwards the key holds no expired room; a room is returned exactly when the key is still present, and it is the stored room; a live room under the key leaves the registry unchanged and is returned |
| RoomTable.JoinHonoursExpiry | lib/gameStore.ts:87-100 | `joinRoom` on a missing key changes nothing and returns null; on an expired room it evicts it and returns null; on a live room it returns the room with the player joined and stores it under the key, changing no other entry |
| RoomTable.StartHonoursExpiry | lib/gameStore.ts:105-133 | `startGame` treats missing and expired rooms exactly as the lookup does; on a live room it returns the room with the round begun (unchanged when it has no players) and stores it under the key, changing no other entry |
| RoomTable.LeaveHonoursExpiry | lib/gameStore.ts:138-160 | `leaveRoom` treats missing and expired rooms exactly as the lookup does; on a live room the room stays exactly when another player remains, and is then returned and stored with the player gone; otherwise the key is deleted and null returned; no other entry changes |
| RoomTable.CreateOverwrites | lib/gameStore.ts:50-66 | `createRoom` adds its code to the registry, stores there the new room it returns, replacing any earlier room under that code, and leaves every other entry unchanged |
| RoomTable.CreateKeepsWellFormed | lib/gameStore.ts:53-63 | creating keeps every stored room consistent and stored under its own code |
| RoomTable.JoinKeepsWellFormed | lib/gameStore.ts:82-101 | joining keeps every stored room consistent; a returned room holds the joining player |
| RoomTable.StartKeepsWellFormed | lib/gameStore.ts:104-134 | starting keeps every stored room consistent; a returned room is started with the given word and an impostor among its players |
| RoomTable.LeaveKeepsWellFormed | lib/gameStore.ts:137-161 | leaving keeps every stored room consistent, so no empty room stays in the registry; a returned room no longer holds the player |
| RoomTable.JoinTwiceIsJoinOnce | lib/gameStore.ts:87-100 | a second join with the same id, at the same time as the first or later (each call reads its own clock), ends in the same registry and result as one join at the later time: the room with the player, or nothing once it has expired |
| RoomTable.StartTwiceOverwrites | lib/gameStore.ts:105-133 | a second start, at the same time as the first or later, ends in the same registry and result as one start at the later time with the second word and draw |
| RoomTable.LastLeaveDeletes | lib/gameStore.ts:145-151 | when the last player leaves, null is returned, the code is gone, and a later lookup finds nothing |
| RoomTable.CreateThenGet | lib/gameStore.ts:50-79 | for as long as it is live, a created room is found by any code equal to its code up to case and surrounding whitespace, and the lookup changes nothing |
| RoomTable.HostLeavesThenStart | lib/gameStore.ts:50-161 | Ana creates C1 and Beto joins, giving [Ana, Beto]; after Ana leaves, Beto is host and sole player; the next start is started with word Playa and Beto as impostor |
| GameStore.Room.constructor | lib/gameStore.ts:53-61 | the object literal of `createRoom`: its state is the new room for that code, host and time |
| GameStore.Registry.constructor | lib/gameStore.ts:18 | the registry starts empty and valid |
| GameStore.Registry.GetValidRoom | lib/gameStore.ts:31-47 | the new contents and the returned object's state are what the lookup on the normalised code gives; a returned object is the one stored under that code |
| GameStore.Registry.Delete | lib/gameStore.ts:42 | deleting the entry under a code removes exactly that entry and restores the invariant |
| GameStore.Registry.CreateRoom | lib/gameStore.ts:50-66 | a fresh room object is stored under the upper-cased generated code; contents and returned state are those of the registry-level create |
| GameStore.Registry.GetRoom | lib/gameStore.ts:69-79 | normalising before `getValidRoom` gives the same result as the lookup on the normalised code |
| GameStore.Registry.AddToRoom | lib/gameStore.ts:94-97 | appending in place gives the stored object the joined state and changes only that entry of the contents |
| GameStore.Registry.BeginRoundIn | lib/gameStore.ts:112-122 | assigning word, impostor and started flag in place gives the stored object the started state and changes only that entry |
| GameStore.Registry.DepartFrom | lib/gameStore.ts:145-156 | filtering in place gives the object the departed state; the entry is deleted exactly when no player is left, otherwise only that entry changes |
| GameStore.Registry.JoinRoom | lib/gameStore.ts:82-101 | the new contents and the returned object's state are those of the registry-level join on the normalised code; null exactly when that returns none |
| GameStore.Registry.StartGame | lib/gameStore.ts:104-134 | the new contents and the returned object's state are those of the registry-level start on the normalised code; null exactly when that returns none |
| GameStore.Registry.LeaveRoom | lib/gameStore.ts:137-161 | the new contents and the returned object's state are those of the registry-level leave on the normalised code; null exactly when that returns none |

## Left out

- Codes.NormalizeCode: trims only the ASCII whitespace characters (space, tab, line feed, vertical tab, form feed, carriage return) and upper-cases only `a`..`z`. JavaScript's `trim` also removes Unicode spaces and line terminators, and `toUpperCase` maps all of Unicode, including case maps that change length. Modelling those tables adds nothing to the registry's logic.
- Rooms.PickIndex: computes `floor(random * n)` in exact real arithmetic. The rounding of the floating-point product is not modelled.
- GameStore.Registry.CreateRoom: the code is drawn by `Math.random().toString(36).substring(2, 6)`, which is floating-point formatting. The drawn string is a parameter, and the model does not claim it has four characters. The substring can be shorter.
- The HTTP route handlers and the React pages that call the registry are not part of this model. They parse requests and map `null` to a status code.
- `console.log` output is not modelled.
- Concurrency is not modelled. The registry is used by one JavaScript thread, and each operation runs to completion.
- Regenerating a code on collision is not modelled, because the code does not do it: a colliding create overwrites (`RoomTable.CreateOverwrites`).
- Every `GameStore.Registry` method states the new contents and the returned object's state at return. Later in-place changes to a returned object are changes to the stored room. The model captures this through the shared object, but it does not state it as a separate property.
- `startGame` also tests `!room.players`. The `players` field is always a list, so the model keeps only the length test.
