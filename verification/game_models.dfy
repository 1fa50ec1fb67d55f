/**
 * The entity records of the game server (PlayerModel, LobbyModel,
 * GameModel) and the errors the handlers raise.  Generated identifiers and
 * timestamps are parameters: the model never produces them itself.
 */
module GameModels {
  import opened Wrappers

  type Id = string
  type PlayerId = Id
  type LobbyId = Id
  type GameId = Id

  /** A registered player. */
  datatype Player = Player(id: PlayerId, name: string)

  /** A lobby is either accepting joins or full. */
  datatype LobbyStatus = Open | Closed

  /** A capacity-limited waiting room; `players` is in join order. */
  datatype Lobby = Lobby(
    id: LobbyId,
    status: LobbyStatus,
    maxPlayers: int,
    players: seq<Player>,
    createdAt: int)

  /** `Active` is the source's game status "open". */
  datatype GameStatus = Active | Finished

  /**
   * One hangman game.  `players` is the turn queue (head = whose turn it is),
   * `wordStatus` the reveal mask and `guessed` the characters guessed correctly.
   * The winner is the id of the player who completed the word.
   */
  datatype Game = Game(
    id: GameId,
    word: string,
    maxAttempts: int,
    status: GameStatus,
    winner: Option<PlayerId>,
    players: seq<Player>,
    wordStatus: string,
    guessed: seq<char>)

  /**
   * The rejections the handlers raise: 404 NotFound, 403 LobbyClosed,
   * 400 InvalidInput / NotYourTurn, and the two requests that end in an
   * internal error: NoPlayersLeft (indexing an empty turn queue) and
   * GameOver (a guess on a finished game).
   */
  datatype Error = NotFound | LobbyClosed | InvalidInput | NoPlayersLeft | NotYourTurn | GameOver

  /** Default lobby capacity. */
  const DefaultMaxPlayers: int := 2

  /** Default number of lives per player in a game. */
  const DefaultMaxAttempts: int := 6

  /** A lobby admits players only while open, never beyond its capacity, and is closed exactly when full. */
  predicate LobbyInv(l: Lobby)
  {
    && l.maxPlayers >= 1
    && (l.status == Open ==> |l.players| < l.maxPlayers)
    && (l.status == Closed ==> |l.players| == l.maxPlayers)
  }

  /** A new lobby with the record's defaults: open, capacity 2, nobody in it. */
  function NewLobby(id: LobbyId, createdAt: int): (l: Lobby)
    ensures l.id == id && l.createdAt == createdAt
    ensures l.status == Open && l.maxPlayers == 2 && l.players == []
    ensures LobbyInv(l)
  {
    Lobby(id, Open, DefaultMaxPlayers, [], createdAt)
  }

  /**
   * A new game record for `word` with the record's defaults: open, six
   * attempts, no winner, no players, an empty mask, nothing guessed.
   */
  function NewGame(id: GameId, word: string): (g: Game)
    ensures g.id == id && g.word == word
    ensures g.status == Active && g.maxAttempts == 6 && g.winner == None
    ensures g.players == [] && g.wordStatus == [] && g.guessed == []
  {
    Game(id, word, DefaultMaxAttempts, Active, None, [], "", [])
  }
}
