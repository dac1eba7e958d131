/** The game service: the operations that create, join, continue and delete games over
    the game and player tables, and the per-game lock table. The SQL store is two
    in-memory tables; each operation is one sequential step. */
module Games {
  import opened Models
  import opened Continents
  import opened JoinCodes
  import opened GameTables
  import Connections

  /** `GameService` over its database session `db`. `gameLocks` stands for the
      module-global `_GAME_LOCKS`, a lock being an opaque number. */
  class GameService {
    const initialStage: int
    var db: Database
    var gameLocks: map<nat, nat>
    var nextLock: nat

    ghost predicate Valid()
      reads this
    {
      StoreOk(db.games, db.players, db.nextGameId, db.nextPlayerId) && LocksOk(gameLocks, nextLock)
    }

    /** An empty store; `initialStage` is the stage a new game starts at. */
    constructor (initialStage: int)
      ensures Valid()
      ensures this.initialStage == initialStage
      ensures db.games == map[] && db.players == [] && gameLocks == map[]
    {
      this.initialStage := initialStage;
      db := Database(map[], [], 1, 1);
      gameLocks := map[];
      nextLock := 0;
    }

    /** `_get_game_lock`: the lock of `gameId`, created on first request; the table
        only grows and existing entries never change. */
    method GetGameLock(gameId: nat) returns (lock: nat)
      requires Valid()
      modifies this`gameLocks, this`nextLock
      ensures Valid()
      ensures gameLocks.Keys == old(gameLocks).Keys + {gameId}
      ensures forall g :: g in old(gameLocks) ==> gameLocks[g] == old(gameLocks)[g]
      ensures lock == gameLocks[gameId]
      ensures gameId !in old(gameLocks) ==> forall g :: g in old(gameLocks) ==> old(gameLocks)[g] != lock
    {
      if gameId in gameLocks {
        lock := gameLocks[gameId];
      } else {
        lock := nextLock;
        nextLock := nextLock + 1;
        gameLocks := gameLocks[gameId := lock];
      }
    }

    /** `create_game`: a fresh join code, then the game and its host stored together. */
    method CreateGame(name: string, hostName: string, draws: seq<seq<nat>>, pick: nat) returns (snapshot: GameSnapshot)
      requires Valid()
      requires forall k :: 0 <= k < |draws| ==> |draws[k]| == CodeLength
      requires |CodesInUse(db.games)| < Pow36(CodeLength)
      modifies this`db
      ensures Valid()
      ensures NewGameStored(old(db), db, snapshot, name, hostName, initialStage, pick)
      ensures var first := FirstFreshDraw(CodesInUse(old(db.games)), draws, 0);
        first.Some? ==> snapshot.game.joinCode == DrawCode(draws[first.value])
    {
      var code := GenerateUniqueCode(CodesInUse(db.games), draws);
      snapshot := StoreNewGame(code, name, hostName, pick);
    }

    /** The transaction of `create_game` once the code is chosen: the game row at the
        next id and stage `initialStage`, then its host holding a continent from the
        pool, both committed. */
    method StoreNewGame(code: string, name: string, hostName: string, pick: nat) returns (snapshot: GameSnapshot)
      requires Valid()
      requires IsJoinCode(code) && code !in CodesInUse(db.games)
      modifies this`db
      ensures Valid()
      ensures NewGameStored(old(db), db, snapshot, name, hostName, initialStage, pick)
      ensures snapshot.game.joinCode == code
    {
      var game := Game(db.nextGameId, name, hostName, code, initialStage);
      NoPlayersYet(db.players, game.id, db.nextPlayerId);
      var continent := AssignContinent(TakenIn(db.players, game.id), pick);
      var host := Player(db.nextPlayerId, game.id, hostName, true, continent.value);
      ghost var before := db;
      db := Database(db.games[game.id := game], db.players + [host], db.nextGameId + 1, db.nextPlayerId + 1);
      snapshot := GameSnapshot(game, [host]);
      CreateKeepsStore(before.games, before.players, before.nextGameId, before.nextPlayerId, game, host);
      CreateStep(before, game, host, pick);
    }

    /** The locked part of `join_game_by_code`: re-fetch the game, refuse a taken name,
        then up to `len(CONTINENTS)` attempts, each assigning a continent (oracle
        `pick`) and committing (rejected when the oracle `rejected` says so); the
        `player_joined` broadcast follows the commit. */
    method JoinLocked(gameId: nat, playerName: string, manager: Connections.ConnectionManager,
                      pick: nat -> nat, rejected: nat -> bool)
      returns (result: Result<GameSnapshot>)
      requires Valid()
      modifies this`db, manager`outbox
      ensures Valid()
      ensures Joined(old(db), db, old(manager.outbox), manager.EntriesOf(gameId), manager.outbox,
                     gameId, playerName, pick, rejected, result)
    {
      if gameId !in db.games {
        result := Err(InvalidJoinCode);
      } else if NameInUse(db.players, gameId, playerName) {
        result := Err(NameTaken);
      } else {
        // a failed continent choice and the loop's `else` branch both end in `NoContinents`
        result := Err(NoContinents);
        ghost var joiner := Joiner(db.games, db.players, db.nextPlayerId, gameId, playerName, pick, rejected);
        JoinerMeaning(db.games, db.players, db.nextPlayerId, gameId, playerName, pick, rejected);
        var joined: Option<Player> := None;
        var attemptsRemaining := |Pool|;
        while attemptsRemaining > 0
          invariant 0 <= attemptsRemaining <= |Pool|
          invariant FirstCommitted(rejected, 0) == FirstCommitted(rejected, |Pool| - attemptsRemaining)
          invariant db == old(db) && manager.outbox == old(manager.outbox)
        {
          var attempt := |Pool| - attemptsRemaining;
          var continent := AssignContinent(TakenIn(db.players, gameId), pick(attempt));
          if continent.Err? {
            assert joiner == Err(NoContinents);
            break;
          }
          var player := Player(db.nextPlayerId, gameId, playerName, false, continent.value);
          if rejected(attempt) {
            attemptsRemaining := attemptsRemaining - 1;
            continue;
          }
          assert joiner == Ok(player);
          StoreJoiner(player);
          joined := Some(player);
          break;
        }
        assert joined.None? ==> joiner == Err(NoContinents);
        if joined.Some? {
          manager.Broadcast(PlayerJoined(joined.value), gameId);
          result := Ok(GameSnapshot(db.games[gameId], ListPlayers(db.players, gameId)));
        }
      }
    }

    /** The commit of a join: the new non-host player is added under the next
        player id. */
    method StoreJoiner(p: Player)
      requires Valid()
      requires p.gameId in db.games && p.id == db.nextPlayerId && !p.isHost
      requires !NameInUse(db.players, p.gameId, p.name)
      requires p.continent in Pool && p.continent !in TakenIn(db.players, p.gameId)
      modifies this`db
      ensures Valid()
      ensures db == old(db).(players := old(db).players + [p], nextPlayerId := old(db).nextPlayerId + 1)
    {
      JoinKeepsStore(db.games, db.players, db.nextGameId, db.nextPlayerId, p);
      db := db.(players := db.players + [p], nextPlayerId := db.nextPlayerId + 1);
    }

    /** `join_game_by_code`: normalise the code, look the game up (no lock is taken
        for an unknown code), take the game's lock, then run the locked phase. */
    method JoinGameByCode(joinCode: string, playerName: string, manager: Connections.ConnectionManager,
                          pick: nat -> nat, rejected: nat -> bool)
      returns (result: Result<GameSnapshot>)
      requires Valid()
      modifies this`db, this`gameLocks, this`nextLock, manager`outbox
      ensures Valid()
      ensures db.games == old(db.games)
      ensures forall g :: g in old(gameLocks) ==> g in gameLocks && gameLocks[g] == old(gameLocks)[g]
      ensures var found := GameWithCode(db.games, Normalize(joinCode));
        found.Some? ==> gameLocks.Keys == old(gameLocks).Keys + {found.value}
      ensures var found := GameWithCode(db.games, Normalize(joinCode));
        && (found.None? ==> (result == Err(InvalidJoinCode) && db == old(db)
              && gameLocks == old(gameLocks) && manager.outbox == old(manager.outbox)))
        && (found.Some? ==> (found.value in gameLocks
              && Joined(old(db), db, old(manager.outbox), manager.EntriesOf(found.value), manager.outbox,
                        found.value, playerName, pick, rejected, result)))
    {
      var code := Normalize(joinCode);
      var found := GameWithCode(db.games, code);
      if found.None? {
        return Err(InvalidJoinCode);
      }
      var lock := GetGameLock(found.value);
      result := JoinLocked(found.value, playerName, manager, pick, rejected);
    }

    /** `delete_game`: only the player named as the game's host may delete it. The
        players' rows are left in place (no cascade is modelled). */
    method DeleteGame(joinCode: string, hostName: string) returns (result: Result<Game>)
      requires Valid()
      modifies this`db
      ensures Valid()
      ensures db.players == old(db.players) && db.nextGameId == old(db.nextGameId) && db.nextPlayerId == old(db.nextPlayerId)
      ensures var found := GameWithCode(old(db.games), Normalize(joinCode));
        && (found.None? ==> result == Err(InvalidJoinCode) && db.games == old(db.games))
        && (found.Some? && old(db.games)[found.value].hostName != hostName ==>
              result == Err(NotHost) && db.games == old(db.games))
        && (found.Some? && old(db.games)[found.value].hostName == hostName ==>
              result == Ok(old(db.games)[found.value]) && db.games == old(db.games) - {found.value})
    {
      var found := GameWithCode(db.games, Normalize(joinCode));
      if found.None? {
        return Err(InvalidJoinCode);
      }
      var game := db.games[found.value];
      if game.hostName != hostName {
        return Err(NotHost);
      }
      DeleteKeepsStore(db.games, db.players, db.nextGameId, db.nextPlayerId, found.value);
      var db' := db.(games := db.games - {found.value});
      assert StoreOk(db'.games, db'.players, db'.nextGameId, db'.nextPlayerId);
      db := db';
      result := Ok(game);
    }

    /** `continue_game`: the stage goes up by exactly one and nothing else in the store
        changes; the new stage and the game's players are then broadcast. */
    method ContinueGame(gameId: nat, manager: Connections.ConnectionManager) returns (result: Result<GameSnapshot>)
      requires Valid()
      modifies this`db, manager`outbox
      ensures Valid()
      ensures db.players == old(db.players) && db.nextGameId == old(db.nextGameId) && db.nextPlayerId == old(db.nextPlayerId)
      ensures gameId !in old(db.games) ==>
        result == Err(InvalidGameId) && db.games == old(db.games) && manager.outbox == old(manager.outbox)
      ensures gameId in old(db.games) ==>
        var game := old(db.games)[gameId].(stage := old(db.games)[gameId].stage + 1);
        var roster := ListPlayers(db.players, gameId);
        && db.games == old(db.games)[gameId := game]
        && result == Ok(GameSnapshot(game, roster))
        && manager.outbox == old(manager.outbox) + Connections.Sends(manager.EntriesOf(gameId), GameContinued(game.stage, roster))
    {
      if gameId !in db.games {
        return Err(InvalidGameId);
      }
      var game := db.games[gameId];
      game := game.(stage := game.stage + 1);
      RestageKeepsStore(db.games, db.players, db.nextGameId, db.nextPlayerId, gameId, game.stage);
      var db' := db.(games := db.games[gameId := game]);
      assert StoreOk(db'.games, db'.players, db'.nextGameId, db'.nextPlayerId);
      db := db';
      var roster := ListPlayers(db.players, gameId);
      manager.Broadcast(GameContinued(game.stage, roster), gameId);
      result := Ok(GameSnapshot(game, roster));
    }
  }
}
