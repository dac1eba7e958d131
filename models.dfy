/** Records shared by the game service and the connection manager: the rows of the
    game and player tables, the service's error kinds, and the payloads that are
    broadcast to live connections (their JSON serialisation is left abstract). */
module Models {

  datatype Option<T> = None | Some(value: T)

  /** The `ValueError`s the game service raises, one constructor per message. */
  datatype Error = InvalidJoinCode | NameTaken | NoContinents | NotHost | InvalidGameId
  {
    /** The exact message text the service raises for this error. */
    function Text(): string {
      match this
      case InvalidJoinCode => "Invalid join code"
      case NameTaken => "Name already taken in this game"
      case NoContinents => "No continents available for this game"
      case NotHost => "Only the host can delete the game"
      case InvalidGameId => "Invalid game ID"
    }
  }

  /** Each error kind has its own message, so a caller can tell them apart by text. */
  lemma TextsDiffer(a: Error, b: Error)
    requires a != b
    ensures a.Text() != b.Text()
  {
  }

  datatype Result<T> = Ok(value: T) | Err(error: Error)

  /** A row of the game table. */
  datatype Game = Game(id: nat, name: string, hostName: string, joinCode: string, stage: int)

  /** A row of the player table; `gameId` refers to the owning game. */
  datatype Player = Player(id: nat, gameId: nat, name: string, isHost: bool, continent: string)

  /** A game together with its players, as returned after `refresh(game, ["players"])`. */
  datatype GameSnapshot = GameSnapshot(game: Game, players: seq<Player>)

  /** What is handed to `broadcast`: the `player_joined` and `game_continued` events of
      the game service and the `chronometer` ticks of the connection manager. */
  datatype Message =
    | PlayerJoined(player: Player)
    | GameContinued(stage: int, players: seq<Player>)
    | Chronometer(remaining: int)
}
