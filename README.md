# Game lobby coordination, modelled in Dafny

This project models the core of a multiplayer lobby back end. A host creates a game.
The game gets a six-character join code over `A-Z` and `0-9`. Players join with that
code. Each player of a game holds a different continent from a fixed pool of four
(`Europe`, `Asie`, `Afrique`, `Amerique`). Events go to the live connections
registered under the game. Two classes make up the core:

- `GameService` (`game_service.dfy`, module `Games`) is a class over the game and
  player tables and the per-game lock table. It covers `create_game`,
  `join_game_by_code`, `delete_game`, `continue_game` and `_get_game_lock`.
- Its pure parts are separate modules:
  - `continents.dfy` (module `Continents`): `_assign_continent`.
  - `join_codes.dfy` (module `JoinCodes`): the `strip().upper()` normalisation of a
    typed code, the code format, and `_generate_unique_code`.
  - `game_tables.dfy` (module `GameTables`): `list_players`, the join-code lookup, the
    invariants the store keeps, and the outcome of the join loop.
- `ConnectionManager` (`websocket_manager.dfy`, module `Connections`) is a class.
  - `active_connections` becomes two fields: the map `active` and `gameIds`, the order
    in which the map's keys were first inserted. This order is Python's dict iteration
    order, which `disconnect` and `get_player_name` follow.
  - A send to a connection is an append to the field `outbox`.
- `models.dfy` holds the table rows, the error kinds with their exact messages, and
  the broadcast payloads.
- `sets.dfy` holds two facts about finite sets.

The database is one in-memory value:
- `games` is the game table, keyed by id;
- `players` is the player table, in insertion order;
- `nextGameId` and `nextPlayerId` are the next autoincrement ids.

Every service method keeps `StoreOk` on this value. `StoreOk` says:
- join codes are well formed and pairwise distinct;
- every player refers to an id already handed out;
- no two players of one game share a continent or a name;
- every stored game has exactly one host player, named as the game's `host_name`;
- every continent held comes from the pool.

Several choices the source leaves to chance or to the database become oracle
parameters:
- the `random.choice` of a continent is `pick`;
- the `secrets.choice` draws of a join code are `draws`;
- a commit rejected with `IntegrityError` is `rejected`.

Each contract then says which outcome the oracle selects.

The specification function `Joiner` and the predicate `Joined` describe a join from
its lock onwards:
- an unknown game fails with `InvalidJoinCode`;
- a name already taken in the game fails with `NameTaken`;
- otherwise the join succeeds exactly when a continent is still free and one of the
  `len(CONTINENTS)` commit attempts goes through. The player then gets the continent
  chosen at the first attempt that commits, is stored under the next player id, and
  is announced to the game's connections;
- every other failure is `NoContinents`, and leaves the store and the outbox as they
  were.

Two points follow the code as written:
- `continue_game` (`app/services/game_service.py:146-173`) takes no lock, and neither
  does the model.
- The initial `stage` is the constructor parameter `initialStage`. The `Game` model that
  `game_service.py` uses is not part of this model, and the one in `models.py` (line 16,
  `default=1`) lacks the join code, host name and continent fields the service uses.

## Model

| member | source | states |
|---|---|---|
| `Models.Error.Text` | app/services/game_service.py:69-152 | the message of each `ValueError` the service raises: "Invalid join code" (lines 69, 79, 138), "Name already taken in this game" (87), "No continents available for this game" (120, and 207 in `_assign_continent`), "Only the host can delete the game" (140), "Invalid game ID" (152) |
| `Models.TextsDiffer` | app/services/game_service.py:69-152 | different error kinds carry different messages |
| `Continents.Taken` | app/services/game_service.py:190-204 | the taken set is exactly the non-empty continents held by the game's players |
| `Continents.Available` | app/services/game_service.py:205 | the available list holds exactly the pool's continents that are not taken, and is no longer than the pool |
| `Continents.AssignContinent` | app/services/game_service.py:189-208 | the assignment succeeds exactly when some pool continent is not taken, and then returns a pool continent that is not taken; otherwise it fails with "No continents available for this game" |
| `Continents.NothingTakenPicksFromPool` | app/services/game_service.py:205-208 | with nothing taken, the random choice ranges over the whole pool in its declared order |
| `Continents.AnyFreeContinentCanBePicked` | app/services/game_service.py:205-208 | every free continent is a possible outcome of the random choice |
| `Continents.PoolHasFour` | app/services/game_service.py:24 | the pool is the four distinct continents |
| `Continents.TakenCount` | app/services/game_service.py:190-204 | in a roster with pairwise distinct pool continents, the taken set has one continent per player, all from the pool |
| `Continents.RosterAtMostFour` | app/services/game_service.py:89-120 | a roster with pairwise distinct pool continents has at most four players |
| `Continents.FullRosterTakesPool` | app/services/game_service.py:190-205 | four such players take every continent of the pool |
| `Continents.FullRosterHasNoContinent` | app/services/game_service.py:205-207 | once four such players hold the pool, every pick fails with "No continents available for this game" |
| `JoinCodes.TrimStart` | app/services/game_service.py:63 | the result is a suffix of the input, everything dropped is whitespace, and the result does not start with whitespace |
| `JoinCodes.TrimEnd` | app/services/game_service.py:63 | the result is a prefix of the input, everything dropped is whitespace, and the result does not end with whitespace |
| `JoinCodes.Strip` | app/services/game_service.py:63 | `strip()` returns a slice of the input with only whitespace around it, and the slice neither starts nor ends with whitespace |
| `JoinCodes.StripPadded` | app/services/game_service.py:63 | stripping whitespace padding from a string with no whitespace at either end gives that string back |
| `JoinCodes.StripClean` | app/services/game_service.py:63 | a string with no whitespace at either end is its own strip |
| `JoinCodes.Upper` | app/services/game_service.py:63 | `upper()` keeps the length |
| `JoinCodes.UpperKeepsEnds` | app/services/game_service.py:63 | upper-casing does not put whitespace at either end |
| `JoinCodes.UpperIdempotent` | app/services/game_service.py:63 | upper-casing twice is upper-casing once |
| `JoinCodes.UpperKeepsCode` | app/services/game_service.py:182 | a well-formed code is already upper case |
| `JoinCodes.Normalize` | app/services/game_service.py:63 | `join_code.strip().upper()` is no longer than the input and has whitespace at neither end (also used by `delete_game` at line 132) |
| `JoinCodes.DropLeadingSpace` | app/services/game_service.py:63 | a whitespace character in front of an lstripped tail is dropped as well |
| `JoinCodes.NormalizeCode` | app/services/game_service.py:181-187 | a generated code is its own normal form, so the code as issued finds its game |
| `JoinCodes.TypedCodeNormalizes` | app/services/game_service.py:63 | a code typed in any letter case with whitespace around it normalises to the upper-case code |
| `JoinCodes.NormalizeIdempotent` | app/services/game_service.py:63 | normalising an already normalised code changes nothing |
| `JoinCodes.CodeCharNotSpace` | app/services/game_service.py:182 | a character that upper-cases to a code character is not whitespace |
| `JoinCodes.DigitChar` | app/services/game_service.py:182 | each index below 36 names a character of `ascii_uppercase + digits` |
| `JoinCodes.DigitCharInjective` | app/services/game_service.py:182 | distinct indices name distinct characters |
| `JoinCodes.DrawCode` | app/services/game_service.py:184 | six draws from the alphabet spell a well-formed join code |
| `JoinCodes.FirstFreshDraw` | app/services/game_service.py:183-187 | it finds the first draw whose code is not in use, and every earlier draw is in use; it is none only when every draw is in use |
| `JoinCodes.FreshDrawFrom` | app/services/game_service.py:183-187 | when the candidates from some draw onwards collide and a later one is fresh, that later one is the first fresh draw, or there is none when it lies past the draws |
| `JoinCodes.GenerateUniqueCode` | app/services/game_service.py:181-187 | the code returned is six characters over `A-Z0-9` and differs from every existing join code; when some draw is fresh, it is the first fresh draw |
| `GameTables.ListPlayers` | app/services/game_service.py:175-179 | a game's list is no longer than the player table |
| `GameTables.ListPlayersMembers` | app/services/game_service.py:175-179 | the players listed for a game are exactly the table's players of that game |
| `GameTables.ListPlayersAppend` | app/services/game_service.py:175-179 | inserting a player extends only its own game's list, at the end |
| `GameTables.ListPlayersNone` | app/services/game_service.py:175-179 | a game with no player rows lists no players |
| `GameTables.TakenIn` | app/services/game_service.py:191-204 | the continents taken in game `g`, the taken set of the players `list_players(g)` gives; `TakenInRows` states its meaning |
| `GameTables.TakenInRows` | app/services/game_service.py:191-204 | the taken set is exactly the non-empty continents of the player rows whose game id is `g`, as the query selects them |
| `GameTables.NameInUse` | app/services/game_service.py:81-86 | the `existing_name` query: some player row of game `g` has the name; `NameInUseListed` relates it to the roster |
| `GameTables.NameInUseListed` | app/services/game_service.py:81-86 | a name is in use in a game exactly when one of the players `list_players` gives for that game has it |
| `GameTables.GameWithCode` | app/services/game_service.py:65-67 | the lookup finds a game exactly when some stored game has the code, and the game it finds has that code |
| `GameTables.CodeOwnerUnique` | app/services/game_service.py:65-67 | at most one stored game carries a given join code, so `.first()` is the only match |
| `GameTables.RosterOfTable` | app/services/game_service.py:81-120 | in a store that keeps the table invariant, a game's players hold distinct pool continents and distinct names, and at most one of them is host |
| `GameTables.ExactlyOneHost` | app/services/game_service.py:41-60 | every stored game has exactly one host player, named as the game's `host_name` |
| `GameTables.RosterBound` | app/services/game_service.py:89-120 | no game ever holds more than four players, and with four of them no pick yields a continent |
| `GameTables.NoPlayersYet` | app/services/game_service.py:44-48 | the game just inserted under the next id has no players yet |
| `GameTables.NewcomerFits` | app/services/game_service.py:48-56 | the host of the new game clashes with no existing player of that game |
| `GameTables.JoinerFits` | app/services/game_service.py:81-98 | a non-host whose name is free in the game and who holds a free continent clashes with no player of that game |
| `GameTables.TableAppend` | app/services/game_service.py:98-100 | adding a player that clashes with no one keeps the table invariant |
| `GameTables.HostsAppend` | app/services/game_service.py:98-100 | adding a player keeps every stored game's host |
| `GameTables.PlayersBelowAppend` | app/services/game_service.py:98-100 | a player added under the next player id keeps every player below the id counters |
| `GameTables.JoinKeepsStore` | app/services/game_service.py:81-100 | committing a joiner who passed the name check and holds a free pool continent keeps every store invariant |
| `GameTables.RestageKeepsStore` | app/services/game_service.py:154-156 | changing a game's stage keeps every store invariant |
| `GameTables.DeleteKeepsStore` | app/services/game_service.py:142-143 | removing a game keeps every store invariant |
| `GameTables.FreshCodeDistinct` | app/services/game_service.py:43-45 | a game under a code not in use keeps the join codes pairwise distinct |
| `GameTables.HostsInsert` | app/services/game_service.py:44-57 | a new game together with its host player keeps every game hosted |
| `GameTables.GamesInsert` | app/services/game_service.py:44-46 | the new game's id is not in use yet, and inserting it keeps every game row well formed |
| `GameTables.CreateKeepsStore` | app/services/game_service.py:41-60 | the new game's id was not in use, its players are the host alone, and every store invariant holds after the commit |
| `GameTables.CreateStep` | app/services/game_service.py:44-57 | storing the game under the next id and its host with the assigned continent is exactly the creation the service promises |
| `GameTables.NewGameListed` | app/services/game_service.py:41-60 | the created game is new, listing its players gives the host alone, and the host holds the pool continent the random pick selects |
| `GameTables.FirstCommitted` | app/services/game_service.py:89-104 | it finds the first of the four attempts whose commit is not rejected; every earlier attempt is rejected, and it is none only when all are |
| `GameTables.JoinAttempt` | app/services/game_service.py:89-120 | a successful join loop yields a non-host player under the next id holding a pool continent that nobody in the game holds; every failure is "No continents available for this game" |
| `GameTables.Joiner` | app/services/game_service.py:76-120 | a join succeeds only for a stored game whose roster does not have the name, and then yields a non-host player with a free pool continent |
| `GameTables.JoinAttemptFirst` | app/services/game_service.py:89-120 | the join loop succeeds exactly when a continent is free and some commit goes through, and the continent is the one the first committed attempt picked |
| `GameTables.JoinerMeaning` | app/services/game_service.py:76-120 | unknown game gives `InvalidJoinCode` and a taken name gives `NameTaken`, in that order; otherwise success exactly when a continent is free and some commit goes through, with the first committed attempt's continent; any other failure is `NoContinents` |
| `Games.GameService.constructor` | app/services/game_service.py:19-27 | a new service starts with empty tables and no locks |
| `Games.GameService.GetGameLock` | app/services/game_service.py:29-39 | the lock table gains the requested id and nothing else; existing locks never change; a new id gets a lock that no other id holds |
| `Games.GameService.CreateGame` | app/services/game_service.py:41-60 | one game is added under a fresh, well-formed code (the first fresh draw when there is one), together with its host as its only player, holding the continent the pick selects; nothing else changes and the store invariants hold |
| `Games.GameService.StoreNewGame` | app/services/game_service.py:44-57 | the game row and its host are stored together under the given fresh code, and the store invariants hold |
| `Games.GameService.JoinLocked` | app/services/game_service.py:75-125 | the locked phase of a join has exactly the outcome `Joiner` decides: on an error the store and the outbox are unchanged; on success one player is added, the `player_joined` event goes to each of the game's connections, and the game is returned with its players |
| `Games.GameService.StoreJoiner` | app/services/game_service.py:92-100 | the commit appends the joiner under the next player id and keeps the store invariants |
| `Games.GameService.JoinGameByCode` | app/services/game_service.py:62-129 | the code is normalised; an unknown code fails with `InvalidJoinCode` and changes nothing (no lock is created); otherwise the lock table gains exactly the game's id and keeps every existing lock, and the locked phase has the `Joined` outcome; the game table never changes |
| `Games.GameService.DeleteGame` | app/services/game_service.py:131-144 | an unknown code fails with `InvalidJoinCode`, a caller other than the host fails with `NotHost`, and in both cases nothing changes; otherwise exactly that game is removed and returned |
| `Games.GameService.ContinueGame` | app/services/game_service.py:146-173 | an unknown id fails with `InvalidGameId` and changes nothing; otherwise the game's stage goes up by exactly one, nothing else in the store changes, and the new stage with the game's players goes to each of its connections |
| `Connections.DisplayName` | app/services/websocket_manager.py:15 | the name is never empty, and a given non-empty name is kept |
| `Connections.RemoveFirst` | app/services/websocket_manager.py:20-23 | a list without the handle is unchanged; otherwise the list loses exactly one entry |
| `Connections.RemoveFirstAt` | app/services/websocket_manager.py:20-23 | removal drops only the first entry with the handle and keeps the entries before and after it in order |
| `Connections.FirstMatch` | app/services/websocket_manager.py:20-21 | for a registered handle, it finds the position of its first entry |
| `Connections.DropOneSplit` | app/services/websocket_manager.py:22 | dropping an element of the tail after the head is dropping the corresponding element of the whole list |
| `Connections.AppendThenRemove` | app/services/websocket_manager.py:16-23 | removing a handle just appended to a list that did not hold it restores the list |
| `Connections.Disconnected` | app/services/websocket_manager.py:18-23 | `disconnect` keeps every game key, including those whose list becomes empty |
| `Connections.DisconnectUnregistered` | app/services/websocket_manager.py:18-23 | disconnecting a handle that is registered nowhere changes nothing |
| `Connections.DisconnectTwice` | app/services/websocket_manager.py:18-23 | when no list holds a handle twice, one `disconnect` removes it from every list, and a second one changes nothing |
| `Connections.ConnectThenDisconnect` | app/services/websocket_manager.py:10-23 | connecting a fresh handle and then disconnecting it leaves every list as before, the game's list possibly newly created and empty |
| `Connections.DuplicateSurvivesDisconnect` | app/services/websocket_manager.py:18-23 | a handle registered twice in one list is still registered after one `disconnect` |
| `Connections.DisconnectStep` | app/services/websocket_manager.py:19-23 | handling one more game's list extends the disconnect done so far by that game |
| `Connections.DisconnectAll` | app/services/websocket_manager.py:18-23 | once every game's list is handled, the map is the whole `disconnect` effect |
| `Connections.Sends` | app/services/websocket_manager.py:51-54 | one broadcast sends the payload once to each handle of the list, in list order, and to no other handle |
| `Connections.TicksAppend` | app/services/websocket_manager.py:29-44 | one more remaining value adds exactly one broadcast of it at the end |
| `Connections.TicksStep` | app/services/websocket_manager.py:29-36 | each iteration of the countdown loop adds exactly the broadcast of its `remaining` |
| `Connections.CountdownEnd` | app/services/websocket_manager.py:38-44 | the final broadcast of `0` after the loop completes the countdown |
| `Connections.TickSent` | app/services/websocket_manager.py:29-36 | an iteration's broadcast extends the sends so far to the next shorter range |
| `Connections.FinalTickSent` | app/services/websocket_manager.py:38-44 | the final `0` broadcast after the loop completes the countdown's sends |
| `Connections.TicksTargets` | app/services/websocket_manager.py:28-44 | every chronometer send goes to a handle registered under the game and carries one of the countdown values |
| `Connections.RangeValues` | app/services/websocket_manager.py:29 | `range(hi, lo, -1)` is `hi, hi - 1, ..., lo + 1`, and is empty when `hi <= lo` |
| `Connections.CountdownValues` | app/services/websocket_manager.py:28-44 | the chronometer sends `duration, duration - 1, ..., 1` then `0`, or only `0` when `duration <= 0` |
| `Connections.NameOf` | app/services/websocket_manager.py:56-61 | the scan of `get_player_name` over the games in key order; `NameOfRegistered` and `NameOfUnregistered` state what it returns |
| `Connections.NameInFirst` | app/services/websocket_manager.py:58-60 | within one list, a name is found exactly when the handle is registered, and it is the name of the handle's first entry |
| `Connections.NameOfUnregistered` | app/services/websocket_manager.py:56-61 | a handle registered nowhere gets "Unknown Player" |
| `Connections.NameOfRegistered` | app/services/websocket_manager.py:56-61 | a registered handle gets the name of its first entry, in the first game (in key order) that holds it |
| `Connections.ConnectionManager.constructor` | app/services/websocket_manager.py:7-8 | a new manager has no connections and has sent nothing |
| `Connections.ConnectionManager.Connect` | app/services/websocket_manager.py:10-16 | the pair `(ws, name or "Unknown Player")` is appended to the game's list, which is created empty first when missing; every other list is unchanged; a new game id goes last in key order |
| `Connections.ConnectionManager.Disconnect` | app/services/websocket_manager.py:18-23 | every game's list loses the first entry holding the handle and nothing else; no key is removed |
| `Connections.ConnectionManager.Broadcast` | app/services/websocket_manager.py:49-54 | the outbox gains one send of the payload per entry of the game's list, in list order, and nothing for a game with no list |
| `Connections.ConnectionManager.ChronometerTask` | app/services/websocket_manager.py:28-44 | the outbox gains one broadcast per countdown value, `duration` down to `1` then `0`, all to the same game |
| `Connections.ConnectionManager.GetPlayerName` | app/services/websocket_manager.py:56-61 | the name is the one `NameOf` gives: the first matching entry scanning games in key order, else "Unknown Player" |
| `Connections.ConnectionManager.GetPlayersInGame` | app/services/websocket_manager.py:63-66 | the names of the game's entries in registration order, of the same length, and `[]` for a game with no list |

## Left out

- Concurrency. `asyncio.Lock`, `_LOCKS_GUARD` and `async with` are not modelled, and every operation is one sequential step. The lock table is kept as a map that only grows, and a lock is an opaque number.
- `JoinLocked` makes the `player_joined` broadcast at the end of the locked step. The source makes it after releasing the lock (line 125). In a sequential model the two orders are the same.
- `initalize_chronometer` (`asyncio.create_task`), `asyncio.sleep`, `websocket.accept`, and `send_personal_message` are left out. They only do I/O or scheduling.
- `ChronometerTask` reads the game's list once. The source rereads it at every tick while other tasks may connect or disconnect in between; the model does not capture those interleavings.
- JSON serialisation (`json.dumps`, `PlayerRead.model_validate(...).model_dump()`) is left out. The payload is an abstract `Message` value.
- The debug `print` in `broadcast` is left out.
- The SQL store (sessions, `flush`, `refresh`, `expunge`) becomes in-memory tables.
- `list_players` returns rows in insertion order. SQL gives no order without `ORDER BY`.
- `Games.GameService.DeleteGame`: removes the game row only. Any cascade to its players depends on ORM configuration that is not part of this model.
- The model never reuses a game id: `nextGameId` only grows. The SQLite store (`app/services/db_service.py:13`) gives a new row `max(id) + 1`, so deleting the newest game frees its id for the next `create_game`. The deleted game's player rows would then belong to the new game, unless the ORM deletes them or clears their game id. The new game would count their continents, refuse their names, and have two hosts. `NoPlayersYet` and `ExactlyOneHost` hold only under this assumption.
- `JoinCodes.Upper`: maps only the ASCII letters `a-z`. Python's `upper()` also maps non-ASCII letters, and some of them to several characters. A typed code that differs from a stored code only outside ASCII is therefore not captured.
- `JoinCodes.GenerateUniqueCode`: requires fewer than 36^6 codes in use. The source loops forever once every code is taken. Random draws are the oracle `draws`, followed by a fixed enumeration of all codes, so the loop provably ends. This proves only that the result is fresh and, when some draw is fresh, that it is the first fresh draw. Termination of the random loop is not claimed.
- `Games.GameService.CreateGame`: carries the same requirement of fewer than 36^6 codes in use, because it calls the code generator.
- `random.choice` and `secrets.choice` are oracle parameters (`pick`, `draws`). The model says which outcome each oracle value selects, not how likely it is.
- An `IntegrityError` on commit is the oracle `rejected`. A rejected attempt is rolled back and leaves the store as it was.
- Lines 122-127 of `join_game_by_code` are not modelled separately. They can never fire, since every failure of the loop has already raised at line 120 or inside `_assign_continent`.
- The `_assign_continent` branches on the row shape (`str`, tuple, or object, lines 196-201) are left out. A player row's continent is a plain string.
- Continents outside the pool are left out. The model assumes that only this core writes player rows that belong to a game, and it writes pool continents only. `PlayerService.create_player` (`app/services/player_service.py:15-21`) also inserts player rows, without a game; those are not part of this model.
- One `GameService` object stands for the whole process: the shared database file and the module-global lock table `_GAME_LOCKS`. Its constructor stands for a fresh process with an empty database. The routes build a new `GameService()` per request, but each one opens the same SQLite file and shares the same locks.
- `Connections.ConnectionManager.Broadcast`: the model assumes every send succeeds. In the source, a `send_text` that raises (`app/services/websocket_manager.py:54`) stops the loop, so the remaining connections get nothing, and the error propagates. `join_game_by_code` then raises at line 125 after the player was committed, and `continue_game` raises at line 171 after the stage was committed. The source does not isolate a failing recipient.
- The other services, the routes, `app/main.py` and `models.py` are not part of this model.
