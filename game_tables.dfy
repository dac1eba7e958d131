/** The two tables behind the game service, the game table and the player table, the
    queries the service runs on them, and the invariants its operations keep. */
module GameTables {
  import opened Models
  import opened Continents
  import opened JoinCodes
  import Connections

  /** The database session the service works through: the game table keyed by id,
      the player table in insertion order, and the next autoincrement ids. */
  datatype Database = Database(games: map<nat, Game>, players: seq<Player>, nextGameId: nat, nextPlayerId: nat)

  /** `list_players`: the players of game `g`, in table order. */
  function ListPlayers(table: seq<Player>, g: nat): (r: seq<Player>)
    ensures |r| <= |table|
  {
    if table == [] then []
    else
      var last := table[|table| - 1];
      ListPlayers(table[..|table| - 1], g) + (if last.gameId == g then [last] else [])
  }

  /** The players listed for game `g` are exactly the table's players of game `g`. */
  lemma {:induction false} ListPlayersMembers(table: seq<Player>, g: nat)
    ensures forall p :: p in ListPlayers(table, g) <==> p in table && p.gameId == g
  {
    if table != [] {
      var init, last := table[..|table| - 1], table[|table| - 1];
      assert table == init + [last];
      ListPlayersMembers(init, g);
    }
  }

  /** Inserting a player extends its own game's list at the end and no other list. */
  lemma ListPlayersAppend(table: seq<Player>, p: Player, g: nat)
    ensures ListPlayers(table + [p], g) == ListPlayers(table, g) + (if p.gameId == g then [p] else [])
  {
    assert (table + [p])[..|table|] == table;
  }

  /** A game none of whose players is in the table lists no players. */
  lemma {:induction false} ListPlayersNone(table: seq<Player>, g: nat)
    requires forall i :: 0 <= i < |table| ==> table[i].gameId != g
    ensures ListPlayers(table, g) == []
  {
    if table != [] {
      var init := table[..|table| - 1];
      assert forall i :: 0 <= i < |init| ==> init[i] == table[i];
      ListPlayersNone(init, g);
    }
  }

  /** The continents the players of game `g` hold. */
  function TakenIn(table: seq<Player>, g: nat): set<string> {
    Taken(ListPlayers(table, g))
  }

  /** The `existing_name` query of `join_game_by_code`. */
  predicate NameInUse(table: seq<Player>, g: nat, name: string) {
    exists i :: 0 <= i < |table| && table[i].gameId == g && table[i].name == name
  }

  /** A name is in use in game `g` exactly when a player `list_players(g)` lists has it. */
  lemma NameInUseListed(table: seq<Player>, g: nat, name: string)
    ensures NameInUse(table, g, name) <==> exists p :: p in ListPlayers(table, g) && p.name == name
  {
    ListPlayersMembers(table, g);
    if NameInUse(table, g, name) {
      var i :| 0 <= i < |table| && table[i].gameId == g && table[i].name == name;
      assert table[i] in ListPlayers(table, g);
    }
  }

  /** The taken set of game `g` is exactly the non-empty continents of the table's rows
      of that game, which is what the query of `_assign_continent` selects. */
  lemma TakenInRows(table: seq<Player>, g: nat)
    ensures forall c :: c in TakenIn(table, g) <==>
      c != "" && exists i :: 0 <= i < |table| && table[i].gameId == g && table[i].continent == c
  {
    ListPlayersMembers(table, g);
    forall c | c != "" && exists i :: 0 <= i < |table| && table[i].gameId == g && table[i].continent == c
      ensures c in TakenIn(table, g)
    {
      var i :| 0 <= i < |table| && table[i].gameId == g && table[i].continent == c;
      assert table[i] in ListPlayers(table, g);
    }
  }

  /** The join codes of the stored games. */
  function CodesInUse(games: map<nat, Game>): set<string> {
    set g | g in games :: games[g].joinCode
  }

  /** Stored games `g` and `h`, when distinct, have distinct join codes. */
  ghost predicate CodesDiffer(games: map<nat, Game>, g: nat, h: nat) {
    g in games && h in games && g != h ==> games[g].joinCode != games[h].joinCode
  }

  /* The invariants below quantify over a named predicate of one row (or one pair of
     rows) and use it as the trigger, so that a proof instantiates them only where it
     names that row. */

  ghost predicate CodesDistinct(games: map<nat, Game>) {
    forall g, h {:trigger CodesDiffer(games, g, h)} :: CodesDiffer(games, g, h)
  }

  /** Game `g`, when stored, sits under its own id, below the next id to hand out, and
      has a well-formed join code. */
  ghost predicate GameRowOk(games: map<nat, Game>, nextGameId: nat, g: nat) {
    g in games ==> games[g].id == g && g < nextGameId && IsJoinCode(games[g].joinCode)
  }

  ghost predicate GamesOk(games: map<nat, Game>, nextGameId: nat) {
    forall g {:trigger GameRowOk(games, nextGameId, g)} :: GameRowOk(games, nextGameId, g)
  }

  /** Player `i` refers to a game id already handed out and has an id below the next one. */
  ghost predicate PlayerBelow(players: seq<Player>, nextGameId: nat, nextPlayerId: nat, i: int) {
    0 <= i < |players| ==> players[i].gameId < nextGameId && players[i].id < nextPlayerId
  }

  ghost predicate PlayersBelow(players: seq<Player>, nextGameId: nat, nextPlayerId: nat) {
    forall i {:trigger PlayerBelow(players, nextGameId, nextPlayerId, i)} :: PlayerBelow(players, nextGameId, nextPlayerId, i)
  }

  /** Player `i` holds a continent of the pool. */
  ghost predicate HoldsPoolContinent(players: seq<Player>, i: int) {
    0 <= i < |players| ==> players[i].continent in Pool
  }

  /** Players `i < j` of the same game share neither continent nor name, and are not
      both hosts. */
  ghost predicate Compatible(players: seq<Player>, i: int, j: int) {
    0 <= i < j < |players| && players[i].gameId == players[j].gameId ==>
      && players[i].continent != players[j].continent
      && players[i].name != players[j].name
      && !(players[i].isHost && players[j].isHost)
  }

  /** The player table as the join path leaves it: continents from the pool, and two
      players of the same game never share a continent or a name, nor are both hosts. */
  ghost predicate TableOk(players: seq<Player>) {
    && (forall i {:trigger HoldsPoolContinent(players, i)} :: HoldsPoolContinent(players, i))
    && (forall i, j {:trigger Compatible(players, i, j)} :: Compatible(players, i, j))
  }

  /** `p` shares neither continent nor name with a player of its game, and is not a
      second host there. */
  ghost predicate FitsIn(players: seq<Player>, p: Player) {
    forall i :: 0 <= i < |players| && players[i].gameId == p.gameId ==>
      && players[i].continent != p.continent
      && players[i].name != p.name
      && !(players[i].isHost && p.isHost)
  }

  /** Game `g` has a host player named `hostName`. */
  predicate HostIn(players: seq<Player>, g: nat, hostName: string) {
    exists i :: 0 <= i < |players| && players[i].gameId == g && players[i].isHost && players[i].name == hostName
  }

  /** Game `g`, when stored, has a host player named `host_name`. */
  ghost predicate Hosted(games: map<nat, Game>, players: seq<Player>, g: nat) {
    g in games ==> HostIn(players, g, games[g].hostName)
  }

  ghost predicate HostsOk(games: map<nat, Game>, players: seq<Player>) {
    forall g {:trigger Hosted(games, players, g)} :: Hosted(games, players, g)
  }

  /** What every operation keeps of the two tables: `GamesOk`, pairwise distinct join
      codes, `PlayersBelow`, `TableOk` and `HostsOk`. */
  ghost predicate StoreOk(games: map<nat, Game>, players: seq<Player>, nextGameId: nat, nextPlayerId: nat) {
    && GamesOk(games, nextGameId)
    && CodesDistinct(games)
    && PlayersBelow(players, nextGameId, nextPlayerId)
    && TableOk(players)
    && HostsOk(games, players)
  }

  /** The `select(Game).where(Game.join_code == join_code).first()` lookup. */
  function GameWithCode(games: map<nat, Game>, code: string): (r: Option<nat>)
    requires CodesDistinct(games)
    ensures r.Some? <==> code in CodesInUse(games)
    ensures r.Some? ==> r.value in games && games[r.value].joinCode == code
  {
    if exists g :: g in games && games[g].joinCode == code then
      CodeOwnerUnique(games, code);
      var g :| g in games && games[g].joinCode == code;
      Some(g)
    else
      None
  }

  /** Dropping the last player keeps a table `TableOk`. */
  lemma TableInit(players: seq<Player>)
    requires TableOk(players) && players != []
    ensures TableOk(players[..|players| - 1])
  {
    var init := players[..|players| - 1];
    forall i
      ensures HoldsPoolContinent(init, i)
    {
      assert HoldsPoolContinent(players, i);
    }
    forall i, j
      ensures Compatible(init, i, j)
    {
      assert Compatible(players, i, j);
    }
  }

  /** At most one stored game has a given code. */
  lemma CodeOwnerUnique(games: map<nat, Game>, code: string)
    requires CodesDistinct(games)
    ensures forall g, h :: g in games && h in games && games[g].joinCode == code && games[h].joinCode == code ==> g == h
  {
    forall g, h | g in games && h in games && games[g].joinCode == code && games[h].joinCode == code
      ensures g == h
    {
      assert CodesDiffer(games, g, h);
    }
  }

  /** Each game's roster of a `TableOk` table is `RosterOk`. */
  lemma {:induction false} RosterOfTable(players: seq<Player>, g: nat)
    requires TableOk(players)
    ensures RosterOk(ListPlayers(players, g))
  {
    if players != [] {
      var n := |players| - 1;
      var init := players[..n];
      var last := players[n];
      assert players == init + [last];
      TableInit(players);
      RosterOfTable(init, g);
      ListPlayersAppend(init, last, g);
      if last.gameId == g {
        assert HoldsPoolContinent(players, n);
        var roster := ListPlayers(init, g);
        ListPlayersMembers(init, g);
        forall i | 0 <= i < |roster|
          ensures roster[i].continent != last.continent && roster[i].name != last.name
          ensures !(roster[i].isHost && last.isHost)
        {
          assert roster[i] in roster;
          var k :| 0 <= k < |init| && init[k] == roster[i];
          assert Compatible(players, k, n);
        }
      }
    }
  }

  /** `roster[i]` is the roster's one host and is named `hostName`. */
  predicate SoleHost(roster: seq<Player>, i: int, hostName: string) {
    && 0 <= i < |roster| && roster[i].isHost && roster[i].name == hostName
    && forall j :: 0 <= j < |roster| && roster[j].isHost ==> j == i
  }

  /** A stored game's roster has exactly one host, the player named `host_name`. */
  lemma ExactlyOneHost(games: map<nat, Game>, players: seq<Player>, nextGameId: nat, nextPlayerId: nat, g: nat)
    requires StoreOk(games, players, nextGameId, nextPlayerId) && g in games
    ensures exists i :: SoleHost(ListPlayers(players, g), i, games[g].hostName)
  {
    var roster := ListPlayers(players, g);
    RosterOfTable(players, g);
    ListPlayersMembers(players, g);
    assert Hosted(games, players, g);
    var k :| 0 <= k < |players| && players[k].gameId == g && players[k].isHost && players[k].name == games[g].hostName;
    assert players[k] in roster;
    var i :| 0 <= i < |roster| && roster[i] == players[k];
    assert SoleHost(roster, i, games[g].hostName);
  }

  /** No game ever holds more than four players, and once it holds four no pick
      gives the next joiner a continent. */
  lemma RosterBound(games: map<nat, Game>, players: seq<Player>, nextGameId: nat, nextPlayerId: nat, g: nat, pick: nat)
    requires StoreOk(games, players, nextGameId, nextPlayerId)
    ensures |ListPlayers(players, g)| <= |Pool|
    ensures |ListPlayers(players, g)| == |Pool| ==> AssignContinent(TakenIn(players, g), pick) == Err(NoContinents)
  {
    var roster := ListPlayers(players, g);
    RosterOfTable(players, g);
    RosterAtMostFour(roster);
    if |roster| == |Pool| {
      FullRosterHasNoContinent(roster, pick);
    }
  }

  /** A pool continent and a player that fits keep the table `TableOk`. */
  lemma TableAppend(players: seq<Player>, p: Player)
    requires TableOk(players) && FitsIn(players, p) && p.continent in Pool
    ensures TableOk(players + [p])
  {
    var after := players + [p];
    forall i
      ensures HoldsPoolContinent(after, i)
    {
      if 0 <= i < |players| {
        assert HoldsPoolContinent(players, i);
        assert after[i] == players[i];
      }
    }
    forall i, j
      ensures Compatible(after, i, j)
    {
      if 0 <= i < j < |after| {
        assert after[i] == players[i];
        if j < |players| {
          assert Compatible(players, i, j);
          assert after[j] == players[j];
        }
      }
    }
  }

  /** Appending a player keeps the hosts already in the table. */
  lemma HostsAppend(games: map<nat, Game>, players: seq<Player>, p: Player)
    requires HostsOk(games, players)
    ensures HostsOk(games, players + [p])
  {
    forall g
      ensures Hosted(games, players + [p], g)
    {
      if g in games {
        assert Hosted(games, players, g);
        var k :| 0 <= k < |players| && players[k].gameId == g && players[k].isHost && players[k].name == games[g].hostName;
        assert (players + [p])[k] == players[k];
      }
    }
  }

  lemma PlayersBelowAppend(players: seq<Player>, nextGameId: nat, nextPlayerId: nat, p: Player, nextGameId': nat)
    requires PlayersBelow(players, nextGameId, nextPlayerId)
    requires nextGameId <= nextGameId' && p.gameId < nextGameId' && p.id == nextPlayerId
    ensures PlayersBelow(players + [p], nextGameId', nextPlayerId + 1)
  {
    var after, nextPlayerId' := players + [p], nextPlayerId + 1;
    forall i
      ensures PlayerBelow(after, nextGameId', nextPlayerId', i)
    {
      if 0 <= i < |players| {
        assert PlayerBelow(players, nextGameId, nextPlayerId, i);
        assert after[i] == players[i];
      }
    }
  }

  /** A non-host whose name is unused and whose continent is free in its game fits in. */
  lemma JoinerFits(players: seq<Player>, p: Player)
    requires !p.isHost && !NameInUse(players, p.gameId, p.name)
    requires p.continent in Pool && p.continent !in TakenIn(players, p.gameId)
    ensures FitsIn(players, p)
  {
    ListPlayersMembers(players, p.gameId);
    forall i | 0 <= i < |players| && players[i].gameId == p.gameId
      ensures players[i].continent != p.continent && players[i].name != p.name
    {
      assert players[i] in ListPlayers(players, p.gameId);
    }
  }

  /** Inserting a non-host player with an unused name and a free pool continent into a
      stored game keeps the store's invariants. */
  lemma JoinKeepsStore(games: map<nat, Game>, players: seq<Player>, nextGameId: nat, nextPlayerId: nat, p: Player)
    requires StoreOk(games, players, nextGameId, nextPlayerId)
    requires p.gameId in games && p.id == nextPlayerId && !p.isHost
    requires !NameInUse(players, p.gameId, p.name)
    requires p.continent in Pool && p.continent !in TakenIn(players, p.gameId)
    ensures StoreOk(games, players + [p], nextGameId, nextPlayerId + 1)
  {
    assert GameRowOk(games, nextGameId, p.gameId);
    JoinerFits(players, p);
    TableAppend(players, p);
    HostsAppend(games, players, p);
    PlayersBelowAppend(players, nextGameId, nextPlayerId, p, nextGameId);
  }

  /** Changing a stored game's stage keeps the store's invariants. */
  lemma RestageKeepsStore(games: map<nat, Game>, players: seq<Player>, nextGameId: nat, nextPlayerId: nat, g: nat, stage: int)
    requires StoreOk(games, players, nextGameId, nextPlayerId) && g in games
    ensures StoreOk(games[g := games[g].(stage := stage)], players, nextGameId, nextPlayerId)
  {
    var games' := games[g := games[g].(stage := stage)];
    forall h
      ensures GameRowOk(games', nextGameId, h) && Hosted(games', players, h)
    {
      assert GameRowOk(games, nextGameId, h) && Hosted(games, players, h);
    }
    forall h, k
      ensures CodesDiffer(games', h, k)
    {
      assert CodesDiffer(games, h, k);
    }
  }

  /** Removing a stored game keeps the store's invariants; its players stay behind. */
  lemma DeleteKeepsStore(games: map<nat, Game>, players: seq<Player>, nextGameId: nat, nextPlayerId: nat, g: nat)
    requires StoreOk(games, players, nextGameId, nextPlayerId)
    ensures StoreOk(games - {g}, players, nextGameId, nextPlayerId)
  {
    var games' := games - {g};
    forall h
      ensures GameRowOk(games', nextGameId, h) && Hosted(games', players, h)
    {
      assert GameRowOk(games, nextGameId, h) && Hosted(games, players, h);
    }
    forall h, k
      ensures CodesDiffer(games', h, k)
    {
      assert CodesDiffer(games, h, k);
    }
  }

  /** A fresh code keeps the stored codes pairwise distinct. */
  lemma FreshCodeDistinct(games: map<nat, Game>, game: Game)
    requires CodesDistinct(games) && game.joinCode !in CodesInUse(games)
    ensures CodesDistinct(games[game.id := game])
  {
    var games' := games[game.id := game];
    forall g, h
      ensures CodesDiffer(games', g, h)
    {
      if g in games' && h in games' && g != h {
        if g == game.id {
          assert games[h].joinCode in CodesInUse(games);
        } else if h == game.id {
          assert games[g].joinCode in CodesInUse(games);
        } else {
          assert CodesDiffer(games, g, h);
        }
      }
    }
  }

  /** A new game id has no players yet. */
  lemma NoPlayersYet(players: seq<Player>, nextGameId: nat, nextPlayerId: nat)
    requires PlayersBelow(players, nextGameId, nextPlayerId)
    ensures ListPlayers(players, nextGameId) == []
  {
    forall i | 0 <= i < |players|
      ensures players[i].gameId != nextGameId
    {
      assert PlayerBelow(players, nextGameId, nextPlayerId, i);
    }
    ListPlayersNone(players, nextGameId);
  }

  /** A player of a game id not handed out yet fits in whatever it holds. */
  lemma NewcomerFits(players: seq<Player>, nextGameId: nat, nextPlayerId: nat, p: Player)
    requires PlayersBelow(players, nextGameId, nextPlayerId) && p.gameId == nextGameId
    ensures FitsIn(players, p)
  {
    forall i | 0 <= i < |players|
      ensures players[i].gameId != p.gameId
    {
      assert PlayerBelow(players, nextGameId, nextPlayerId, i);
    }
  }

  /** Storing a new game whose host is the player appended keeps every game hosted. */
  lemma HostsInsert(games: map<nat, Game>, players: seq<Player>, game: Game, host: Player)
    requires HostsOk(games, players)
    requires host.gameId == game.id && host.isHost && host.name == game.hostName
    ensures HostsOk(games[game.id := game], players + [host])
  {
    var games', after := games[game.id := game], players + [host];
    HostsAppend(games, players, host);
    forall g
      ensures Hosted(games', after, g)
    {
      if g == game.id {
        assert after[|players|] == host;
      } else {
        assert Hosted(games, after, g);
      }
    }
  }

  /** A game stored under the next id is new, and storing it keeps `GamesOk`. */
  lemma GamesInsert(games: map<nat, Game>, nextGameId: nat, game: Game)
    requires GamesOk(games, nextGameId) && game.id == nextGameId && IsJoinCode(game.joinCode)
    ensures game.id !in games
    ensures GamesOk(games[game.id := game], nextGameId + 1)
  {
    assert GameRowOk(games, nextGameId, game.id);
    var games', nextGameId' := games[game.id := game], nextGameId + 1;
    forall g
      ensures GameRowOk(games', nextGameId', g)
    {
      assert GameRowOk(games, nextGameId, g);
    }
  }

  /** Inserting a new game under the next id, with a fresh well-formed code, together
      with its host keeps the store's invariants; the game is new and the host is
      then its only player. */
  lemma CreateKeepsStore(games: map<nat, Game>, players: seq<Player>, nextGameId: nat, nextPlayerId: nat, game: Game, host: Player)
    requires StoreOk(games, players, nextGameId, nextPlayerId)
    requires game.id == nextGameId && IsJoinCode(game.joinCode) && game.joinCode !in CodesInUse(games)
    requires host == Player(nextPlayerId, nextGameId, game.hostName, true, host.continent)
    requires host.continent in Pool
    ensures game.id !in games
    ensures ListPlayers(players + [host], game.id) == [host]
    ensures StoreOk(games[game.id := game], players + [host], nextGameId + 1, nextPlayerId + 1)
  {
    NoPlayersYet(players, nextGameId, nextPlayerId);
    ListPlayersAppend(players, host, game.id);
    GamesInsert(games, nextGameId, game);
    FreshCodeDistinct(games, game);
    PlayersBelowAppend(players, nextGameId, nextPlayerId, host, nextGameId + 1);
    NewcomerFits(players, nextGameId, nextPlayerId, host);
    TableAppend(players, host);
    HostsInsert(games, players, game, host);
  }

  /** `after` is `before` with a new game at the next id, under a fresh well-formed
      code, and its host: the one player of the game, holding the continent the
      random choice `pick` gives when no continent is taken. */
  ghost predicate NewGameStored(before: Database, after: Database, snapshot: GameSnapshot,
                                name: string, hostName: string, stage: int, pick: nat)
  {
    && IsJoinCode(snapshot.game.joinCode) && snapshot.game.joinCode !in CodesInUse(before.games)
    && var continent := AssignContinent(TakenIn(before.players, before.nextGameId), pick);
    && continent.Ok?
    && snapshot == GameSnapshot(Game(before.nextGameId, name, hostName, snapshot.game.joinCode, stage),
                                [Player(before.nextPlayerId, before.nextGameId, hostName, true, continent.value)])
    && after == Database(before.games[before.nextGameId := snapshot.game], before.players + snapshot.players,
                         before.nextGameId + 1, before.nextPlayerId + 1)
  }

  /** Storing a game under the next id with a fresh well-formed code, and its host
      with the continent `_assign_continent` gives, is `NewGameStored`. */
  lemma CreateStep(before: Database, game: Game, host: Player, pick: nat)
    requires PlayersBelow(before.players, before.nextGameId, before.nextPlayerId)
    requires game.id == before.nextGameId && IsJoinCode(game.joinCode) && game.joinCode !in CodesInUse(before.games)
    requires host == Player(before.nextPlayerId, game.id, game.hostName, true, host.continent)
    requires AssignContinent(TakenIn(before.players, game.id), pick) == Ok(host.continent)
    ensures var after := Database(before.games[game.id := game], before.players + [host],
                                  before.nextGameId + 1, before.nextPlayerId + 1);
      NewGameStored(before, after, GameSnapshot(game, [host]), game.name, game.hostName, game.stage, pick)
  {
    NoPlayersYet(before.players, game.id, before.nextPlayerId);
  }

  /** The game `create_game` returns is new, and listing its players gives the host
      alone. */
  lemma NewGameListed(before: Database, after: Database, snapshot: GameSnapshot,
                      name: string, hostName: string, stage: int, pick: nat)
    requires StoreOk(before.games, before.players, before.nextGameId, before.nextPlayerId)
    requires NewGameStored(before, after, snapshot, name, hostName, stage, pick)
    ensures snapshot.game.id !in before.games
    ensures ListPlayers(after.players, snapshot.game.id) == snapshot.players
    ensures snapshot.players[0].continent == Pool[pick % |Pool|]
  {
    var game, host := snapshot.game, snapshot.players[0];
    NoPlayersYet(before.players, before.nextGameId, before.nextPlayerId);
    NothingTakenPicksFromPool(pick);
    CreateKeepsStore(before.games, before.players, before.nextGameId, before.nextPlayerId, game, host);
  }

  /** The first attempt, of the `len(CONTINENTS)` the join loop makes, whose commit
      is not rejected. */
  function FirstCommitted(rejected: nat -> bool, a: nat): (r: Option<nat>)
    requires a <= |Pool|
    ensures r.Some? ==> (a <= r.value < |Pool| && !rejected(r.value)
      && forall b :: a <= b < r.value ==> rejected(b))
    ensures r.None? ==> forall b :: a <= b < |Pool| ==> rejected(b)
    decreases |Pool| - a
  {
    if a == |Pool| then None
    else if !rejected(a) then Some(a)
    else FirstCommitted(rejected, a + 1)
  }

  /** The join loop from attempt `a` on: each attempt assigns a continent (oracle
      `pick`), gives up when none is free, and otherwise commits the new non-host
      player unless the oracle `rejected` says the commit fails, in which case the
      next attempt follows; after `len(CONTINENTS)` rejected attempts the join fails. */
  function JoinAttempt(players: seq<Player>, nextPlayerId: nat, gameId: nat, name: string,
                       pick: nat -> nat, rejected: nat -> bool, a: nat): (r: Result<Player>)
    requires a <= |Pool|
    ensures r.Ok? ==> (r.value == Player(nextPlayerId, gameId, name, false, r.value.continent)
      && r.value.continent in Pool && r.value.continent !in TakenIn(players, gameId))
    ensures r.Err? ==> r.error == NoContinents
    decreases |Pool| - a
  {
    if a == |Pool| then Err(NoContinents)
    else
      var continent := AssignContinent(TakenIn(players, gameId), pick(a));
      if continent.Err? then Err(NoContinents)
      else if rejected(a) then JoinAttempt(players, nextPlayerId, gameId, name, pick, rejected, a + 1)
      else Ok(Player(nextPlayerId, gameId, name, false, continent.value))
  }

  /** The player the locked phase of `join_game_by_code` stores, or the error it
      returns, in the order the service checks them: unknown game, name taken in the
      game, then the join loop. */
  function Joiner(games: map<nat, Game>, players: seq<Player>, nextPlayerId: nat, gameId: nat, name: string,
                  pick: nat -> nat, rejected: nat -> bool): (r: Result<Player>)
    ensures r.Ok? ==> (gameId in games && !NameInUse(players, gameId, name)
      && r.value == Player(nextPlayerId, gameId, name, false, r.value.continent)
      && r.value.continent in Pool && r.value.continent !in TakenIn(players, gameId))
  {
    if gameId !in games then Err(InvalidJoinCode)
    else if NameInUse(players, gameId, name) then Err(NameTaken)
    else JoinAttempt(players, nextPlayerId, gameId, name, pick, rejected, 0)
  }

  /** The join loop succeeds exactly when a continent is free and some attempt's
      commit goes through, and then the first such attempt decides the continent. */
  lemma {:induction false} JoinAttemptFirst(players: seq<Player>, nextPlayerId: nat, gameId: nat, name: string,
                                            pick: nat -> nat, rejected: nat -> bool, a: nat)
    requires a <= |Pool|
    ensures var r := JoinAttempt(players, nextPlayerId, gameId, name, pick, rejected, a);
      var taken := TakenIn(players, gameId);
      var first := FirstCommitted(rejected, a);
      && (r.Ok? <==> (exists c :: c in Pool && c !in taken) && first.Some?)
      && (r.Ok? ==> Ok(r.value.continent) == AssignContinent(taken, pick(first.value)))
    decreases |Pool| - a
  {
    if a < |Pool| {
      var continent := AssignContinent(TakenIn(players, gameId), pick(a));
      if continent.Ok? && rejected(a) {
        JoinAttemptFirst(players, nextPlayerId, gameId, name, pick, rejected, a + 1);
      }
    }
  }

  /** What `join_game_by_code` promises once the game is found: an unknown game or a
      taken name is refused first; otherwise the join succeeds exactly when a
      continent is free and some commit goes through, the new player holding the
      continent chosen at the first committed attempt; every other failure is
      `NoContinents`. */
  lemma JoinerMeaning(games: map<nat, Game>, players: seq<Player>, nextPlayerId: nat, gameId: nat, name: string,
                      pick: nat -> nat, rejected: nat -> bool)
    ensures var r := Joiner(games, players, nextPlayerId, gameId, name, pick, rejected);
      var taken := TakenIn(players, gameId);
      var first := FirstCommitted(rejected, 0);
      && (gameId !in games ==> r == Err(InvalidJoinCode))
      && (gameId in games && NameInUse(players, gameId, name) ==> r == Err(NameTaken))
      && (r.Ok? <==> (gameId in games && !NameInUse(players, gameId, name)
            && (exists c :: c in Pool && c !in taken) && first.Some?))
      && (gameId in games && !NameInUse(players, gameId, name) && r.Err? ==> r == Err(NoContinents))
      && (r.Ok? ==> AssignContinent(taken, pick(first.value)) == Ok(r.value.continent))
  {
    JoinAttemptFirst(players, nextPlayerId, gameId, name, pick, rejected, 0);
  }

  /** The effect of the locked phase of a join on the store and the outbox: on an
      error nothing changes; otherwise the `Joiner` player is stored under the next
      player id, announced to the game's connections, and the game is returned with
      its players. */
  ghost predicate Joined(before: Database, after: Database, sentBefore: seq<Connections.Delivery>,
                         entries: seq<Connections.Entry>, sentAfter: seq<Connections.Delivery>,
                         gameId: nat, name: string, pick: nat -> nat, rejected: nat -> bool,
                         result: Result<GameSnapshot>)
  {
    var joiner := Joiner(before.games, before.players, before.nextPlayerId, gameId, name, pick, rejected);
    && (joiner.Err? ==> result == Err(joiner.error) && after == before && sentAfter == sentBefore)
    && (joiner.Ok? ==>
          && after == before.(players := before.players + [joiner.value], nextPlayerId := before.nextPlayerId + 1)
          && sentAfter == sentBefore + Connections.Sends(entries, PlayerJoined(joiner.value))
          && result == Ok(GameSnapshot(after.games[gameId], ListPlayers(after.players, gameId))))
  }

  /** Each game id has its own lock, and no two ids share one. */
  ghost predicate LocksOk(locks: map<nat, nat>, nextLock: nat) {
    && (forall g :: g in locks ==> locks[g] < nextLock)
    && (forall g, h :: g in locks && h in locks && g != h ==> locks[g] != locks[h])
  }
}
