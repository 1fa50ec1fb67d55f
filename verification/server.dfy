/**
 * The request handlers over the in-memory store: joining a lobby, the game
 * a full lobby starts when a player sends its id on the lobby channel,
 * submitting a guess, and reading a game's status.
 */
module Server {
  import opened Wrappers
  import opened GameModels
  import opened GameHelpers
  import opened DbHelpers
  import opened Lobbies
  import opened Engine

  /**
   * The server's state: the player, lobby and game lists (looked up by first
   * match on id) and the per-game lives of the players who have guessed.
   */
  datatype Store = Store(
    players: seq<Player>,
    lobbies: seq<Lobby>,
    games: seq<Game>,
    sessions: map<GameId, Lives>)

  /** The lives recorded for a game; a game nobody has guessed in has none. */
  function SessionOf(st: Store, id: GameId): Lives
  {
    if id in st.sessions then st.sessions[id] else map[]
  }

  /**
   * Join request: the player is looked up first, then the lobby (each may be
   * NotFound); the first lobby with that id takes the join and is replaced
   * in the list.  Returns the new store and the updated lobby.
   */
  function JoinLobby(st: Store, lobbyId: LobbyId, playerId: PlayerId): (r: Result<(Store, Lobby), Error>)
    ensures GetPlayerById(st.players, playerId).Failure? ==> r == Failure(NotFound)
    ensures GetPlayerById(st.players, playerId).Success? && GetLobbyById(st.lobbies, lobbyId).Failure? ==> r == Failure(NotFound)
    ensures GetPlayerById(st.players, playerId).Success? && GetLobbyById(st.lobbies, lobbyId).Success? ==>
      var j := Join(GetLobbyById(st.lobbies, lobbyId).value, GetPlayerById(st.players, playerId).value);
      && (j.Failure? ==> r == Failure(j.error))
      && (j.Success? ==> r.Success? && r.value.1 == j.value)
    ensures r.Success? ==> r.value.0.players == st.players && r.value.0.games == st.games && r.value.0.sessions == st.sessions
    ensures r.Success? ==>
      exists i :: IsFirstMatch(st.lobbies, lobbyId, LobbyKey, i) && r.value.0.lobbies == st.lobbies[i := r.value.1]
  {
    match GetPlayerById(st.players, playerId)
    case Failure(e) => Failure(e)
    case Success(p) =>
      match IndexOf(st.lobbies, lobbyId, LobbyKey)
      case Failure(e) => Failure(e)
      case Success(i) =>
        match Join(st.lobbies[i], p)
        case Failure(e) => Failure(e)
        case Success(l) => Success((st.(lobbies := st.lobbies[i := l]), l))
  }

  /**
   * One message on the lobby channel carrying a player id: the lobby and the
   * player are looked up (NotFound otherwise). Any registered player will
   * do; membership of the lobby is not checked. When the lobby is full, a
   * game for `word` under the fresh id `gameId` is appended to the game
   * list, so every such message while the lobby is full appends another
   * game.
   */
  function OnIdentify(st: Store, lobbyId: LobbyId, memberId: PlayerId, gameId: GameId, word: string): (r: Result<(Store, Option<GameId>), Error>)
    ensures GetLobbyById(st.lobbies, lobbyId).Failure? ==> r == Failure(NotFound)
    ensures GetLobbyById(st.lobbies, lobbyId).Success? && GetPlayerById(st.players, memberId).Failure? ==> r == Failure(NotFound)
    ensures GetLobbyById(st.lobbies, lobbyId).Success? && GetPlayerById(st.players, memberId).Success? ==> r.Success?
    ensures r.Success? ==> var l := GetLobbyById(st.lobbies, lobbyId).value;
      && (r.value.1.Some? <==> l.maxPlayers == |l.players|)
      && (r.value.1.Some? ==> r.value.0 == st.(games := st.games + [GameOnFill(l, gameId, word).value]) && r.value.1 == Some(gameId))
      && (r.value.1.None? ==> r.value.0 == st)
  {
    match GetLobbyById(st.lobbies, lobbyId)
    case Failure(e) => Failure(e)
    case Success(l) =>
      match GetPlayerById(st.players, memberId)
      case Failure(e) => Failure(e)
      case Success(_) =>
        match GameOnFill(l, gameId, word)
        case None => Success((st, None))
        case Some(g) => Success((st.(games := st.games + [g]), Some(gameId)))
  }

  /**
   * Guess request: the game is looked up first, then the player (each may
   * be NotFound), then the engine decides.  An accepted guess replaces the
   * first game with that id and records its lives; a rejection changes
   * nothing.
   */
  function MakeGuess(st: Store, gameId: GameId, userId: PlayerId, ch: string): (r: Result<(Store, Outcome), Error>)
    ensures GetGameById(st.games, gameId).Failure? ==> r == Failure(NotFound)
    ensures GetGameById(st.games, gameId).Success? && GetPlayerById(st.players, userId).Failure? ==> r == Failure(NotFound)
    ensures GetGameById(st.games, gameId).Success? && GetPlayerById(st.players, userId).Success? ==>
      var step := Guess(GetGameById(st.games, gameId).value, SessionOf(st, gameId), GetPlayerById(st.players, userId).value, ch);
      && (step.Failure? ==> r == Failure(step.error))
      && (step.Success? ==>
            && r.Success? && r.value.1 == step.value.outcome
            && r.value.0.sessions == st.sessions[gameId := step.value.lives]
            && exists i :: IsFirstMatch(st.games, gameId, GameKey, i) && r.value.0.games == st.games[i := step.value.game])
    ensures r.Success? ==> r.value.0.players == st.players && r.value.0.lobbies == st.lobbies
  {
    match IndexOf(st.games, gameId, GameKey)
    case Failure(e) => Failure(e)
    case Success(i) =>
      match GetPlayerById(st.players, userId)
      case Failure(e) => Failure(e)
      case Success(p) =>
        match Guess(st.games[i], SessionOf(st, gameId), p, ch)
        case Failure(e) => Failure(e)
        case Success(s) =>
          Success((st.(games := st.games[i := s.game], sessions := st.sessions[gameId := s.lives]), s.outcome))
  }

  /**
   * Status request: whose turn it is (the head of the queue) and the mask.
   * An unknown game is NotFound; a game whose queue is empty has no head.
   */
  function GetStatus(st: Store, gameId: GameId): (r: Result<(PlayerId, string), Error>)
    ensures GetGameById(st.games, gameId).Failure? ==> r == Failure(NotFound)
    ensures GetGameById(st.games, gameId).Success? ==> var g := GetGameById(st.games, gameId).value;
      && (|g.players| == 0 ==> r == Failure(NoPlayersLeft))
      && (|g.players| > 0 ==> r == Success((g.players[0].id, g.wordStatus)))
  {
    match GetGameById(st.games, gameId)
    case Failure(e) => Failure(e)
    case Success(g) =>
      if |g.players| == 0 then Failure(NoPlayersLeft) else Success((g.players[0].id, g.wordStatus))
  }

  /** No two games share an id. */
  predicate DistinctGameIds(games: seq<Game>)
  {
    forall i, j :: 0 <= i < |games| && 0 <= j < |games| && games[i].id == games[j].id ==> i == j
  }

  /** Every game is consistent with the lives recorded for it. */
  predicate GamesConsistent(st: Store)
  {
    forall i :: 0 <= i < |st.games| ==> GameInv(st.games[i], SessionOf(st, st.games[i].id))
  }

  /** Lives are recorded only for games that exist. */
  predicate SessionsOfGames(st: Store)
  {
    forall id :: id in st.sessions ==> exists i :: 0 <= i < |st.games| && st.games[i].id == id
  }

  /**
   * The store-wide invariant: game ids are distinct, every game is
   * consistent with its recorded lives, lives are recorded only for existing
   * games, and every lobby is well formed.
   */
  predicate StoreInv(st: Store)
  {
    && DistinctGameIds(st.games)
    && GamesConsistent(st)
    && SessionsOfGames(st)
    && (forall i :: 0 <= i < |st.lobbies| ==> LobbyInv(st.lobbies[i]))
  }

  /** A join keeps the store invariant. */
  lemma JoinLobbyPreservesInv(st: Store, lobbyId: LobbyId, playerId: PlayerId)
    requires StoreInv(st)
    ensures JoinLobby(st, lobbyId, playerId).Success? ==> StoreInv(JoinLobby(st, lobbyId, playerId).value.0)
  {
    var r := JoinLobby(st, lobbyId, playerId);
    if r.Success? {
      var p := GetPlayerById(st.players, playerId).value;
      var i := IndexOf(st.lobbies, lobbyId, LobbyKey).value;
      JoinPreservesInv(st.lobbies[i], p);
      assert r.value.0.lobbies == st.lobbies[i := r.value.1];
      assert r.value.0.games == st.games && r.value.0.sessions == st.sessions;
    }
  }

  /** A game started under an id no game or session uses keeps the store invariant. */
  lemma OnIdentifyPreservesInv(st: Store, lobbyId: LobbyId, memberId: PlayerId, gameId: GameId, word: string)
    requires StoreInv(st)
    requires forall i :: 0 <= i < |st.games| ==> st.games[i].id != gameId
    requires gameId !in st.sessions
    ensures OnIdentify(st, lobbyId, memberId, gameId, word).Success? ==> StoreInv(OnIdentify(st, lobbyId, memberId, gameId, word).value.0)
  {
    var r := OnIdentify(st, lobbyId, memberId, gameId, word);
    if r.Success? && r.value.1.Some? {
      var l := GetLobbyById(st.lobbies, lobbyId).value;
      var g := GameOnFill(l, gameId, word).value;
      FillGameInv(l, gameId, word);
      assert r.value.0 == st.(games := st.games + [g]);
      AppendGamePreservesInv(st, g);
    }
  }

  /** Appending a consistent game with no lives under an unused id keeps the store invariant. */
  lemma AppendGamePreservesInv(st: Store, g: Game)
    requires StoreInv(st)
    requires forall i :: 0 <= i < |st.games| ==> st.games[i].id != g.id
    requires g.id !in st.sessions && GameInv(g, map[])
    ensures StoreInv(st.(games := st.games + [g]))
  {
    var st' := st.(games := st.games + [g]);
    assert forall i :: 0 <= i < |st.games| ==> st'.games[i] == st.games[i];
    assert DistinctGameIds(st'.games) by {
      forall i, j | 0 <= i < |st'.games| && 0 <= j < |st'.games| && st'.games[i].id == st'.games[j].id
        ensures i == j
      {
        if i < |st.games| && j < |st.games| {
          assert st.games[i].id == st.games[j].id;
        }
      }
    }
    assert GamesConsistent(st') by {
      forall i | 0 <= i < |st'.games|
        ensures GameInv(st'.games[i], SessionOf(st', st'.games[i].id))
      {
        if i < |st.games| {
          assert GameInv(st.games[i], SessionOf(st, st.games[i].id));
        } else {
          assert st'.games[i] == g && SessionOf(st', g.id) == map[];
        }
      }
    }
    assert SessionsOfGames(st') by {
      forall id | id in st'.sessions
        ensures exists i :: 0 <= i < |st'.games| && st'.games[i].id == id
      {
        var i :| 0 <= i < |st.games| && st.games[i].id == id;
        assert st'.games[i].id == id;
      }
    }
  }

  /** Replacing the first game with a given id by a consistent game with the same id, and recording its lives, keeps the store invariant. */
  lemma ReplaceGamePreservesInv(st: Store, i: nat, g: Game, lives: Lives)
    requires StoreInv(st)
    requires i < |st.games| && g.id == st.games[i].id && GameInv(g, lives)
    ensures StoreInv(st.(games := st.games[i := g], sessions := st.sessions[g.id := lives]))
  {
    ReplaceKeepsDistinct(st.games, i, g);
    ReplaceKeepsConsistent(st, i, g, lives);
    ReplaceKeepsSessions(st, i, g, lives);
  }

  /** Updating a game in place under its own id keeps the ids distinct. */
  lemma ReplaceKeepsDistinct(games: seq<Game>, i: nat, g: Game)
    requires DistinctGameIds(games) && i < |games| && g.id == games[i].id
    ensures DistinctGameIds(games[i := g])
  {
    var games' := games[i := g];
    forall j, k | 0 <= j < |games'| && 0 <= k < |games'| && games'[j].id == games'[k].id
      ensures j == k
    {
      assert games'[j].id == games[j].id && games'[k].id == games[k].id;
    }
  }

  /** Updating a game in place and recording its lives leaves every other game with its own lives. */
  lemma ReplaceKeepsConsistent(st: Store, i: nat, g: Game, lives: Lives)
    requires DistinctGameIds(st.games) && GamesConsistent(st)
    requires i < |st.games| && g.id == st.games[i].id && GameInv(g, lives)
    ensures GamesConsistent(st.(games := st.games[i := g], sessions := st.sessions[g.id := lives]))
  {
    var st' := st.(games := st.games[i := g], sessions := st.sessions[g.id := lives]);
    forall j | 0 <= j < |st'.games|
      ensures GameInv(st'.games[j], SessionOf(st', st'.games[j].id))
    {
      if j != i {
        assert st'.games[j] == st.games[j] && st.games[j].id != g.id;
        assert SessionOf(st', st.games[j].id) == SessionOf(st, st.games[j].id);
        assert GameInv(st.games[j], SessionOf(st, st.games[j].id));
      } else {
        assert SessionOf(st', g.id) == lives;
      }
    }
  }

  /** Recording lives for an existing game keeps lives recorded only for existing games. */
  lemma ReplaceKeepsSessions(st: Store, i: nat, g: Game, lives: Lives)
    requires SessionsOfGames(st)
    requires i < |st.games| && g.id == st.games[i].id
    ensures SessionsOfGames(st.(games := st.games[i := g], sessions := st.sessions[g.id := lives]))
  {
    var st' := st.(games := st.games[i := g], sessions := st.sessions[g.id := lives]);
    forall id | id in st'.sessions
      ensures exists j :: 0 <= j < |st'.games| && st'.games[j].id == id
    {
      if id == g.id {
        assert st'.games[i].id == id;
      } else {
        var j :| 0 <= j < |st.games| && st.games[j].id == id;
        assert st'.games[j].id == id;
      }
    }
  }

  /** An accepted guess keeps the store invariant. */
  lemma MakeGuessPreservesInv(st: Store, gameId: GameId, userId: PlayerId, ch: string)
    requires StoreInv(st)
    ensures MakeGuess(st, gameId, userId, ch).Success? ==> StoreInv(MakeGuess(st, gameId, userId, ch).value.0)
  {
    var r := MakeGuess(st, gameId, userId, ch);
    if r.Success? {
      var i := IndexOf(st.games, gameId, GameKey).value;
      var p := GetPlayerById(st.players, userId).value;
      var step := Guess(st.games[i], SessionOf(st, gameId), p, ch);
      assert step.Success?;
      GuessPreservesInv(st.games[i], SessionOf(st, gameId), p, ch);
      ReplaceGamePreservesInv(st, i, step.value.game, step.value.lives);
    }
  }

  /**
   * Any registered player sending its id on a full lobby's channel starts a game under the
   * fresh id; the game can be found under that id straight away, and its
   * status shows the first player to join and a fully hidden mask.
   */
  lemma StartedGameResolves(st: Store, i: nat, j: nat, gameId: GameId, word: string)
    requires i < |st.lobbies| && IsFirstMatch(st.lobbies, st.lobbies[i].id, LobbyKey, i)
    requires j < |st.players|
    requires st.lobbies[i].maxPlayers == |st.lobbies[i].players|
    requires forall k :: 0 <= k < |st.games| ==> st.games[k].id != gameId
    ensures var l := st.lobbies[i];
      var r := OnIdentify(st, l.id, st.players[j].id, gameId, word);
      && r.Success? && r.value.1 == Some(gameId)
      && GetGameById(r.value.0.games, gameId) == Success(GameOnFill(l, gameId, word).value)
      && (|l.players| > 0 ==> GetStatus(r.value.0, gameId) == Success((l.players[0].id, WordStatus(word, []))))
  {
    var l := st.lobbies[i];
    IndexOfFirstMatch(st.lobbies, l.id, LobbyKey, i);
    assert GetPlayerById(st.players, st.players[j].id).Success?;
    var g := GameOnFill(l, gameId, word).value;
    LookupAfterAppend(st.games, g);
  }

  /** Helper: a status read of the game at the first-match position reports the head of its queue and its mask. */
  lemma StatusOfFirstMatch(st: Store, i: nat)
    requires i < |st.games| && IsFirstMatch(st.games, st.games[i].id, GameKey, i)
    ensures var g := st.games[i];
      GetStatus(st, g.id) == if |g.players| == 0 then Failure(NoPlayersLeft) else Success((g.players[0].id, g.wordStatus))
  {
  }

  /**
   * After an accepted guess the next status read names the player who was
   * second in the queue, unless that player is the guesser (who may just
   * have been removed).
   */
  lemma StatusAfterGuess(st: Store, gameId: GameId, userId: PlayerId, ch: string)
    requires MakeGuess(st, gameId, userId, ch).Success?
    requires |GetGameById(st.games, gameId).value.players| >= 2
    requires GetGameById(st.games, gameId).value.players[1] != GetPlayerById(st.players, userId).value
    ensures var st' := MakeGuess(st, gameId, userId, ch).value.0;
      GetStatus(st', gameId).Success?
      && GetStatus(st', gameId).value.0 == GetGameById(st.games, gameId).value.players[1].id
  {
    var i := IndexOf(st.games, gameId, GameKey).value;
    var g := st.games[i];
    var p := GetPlayerById(st.players, userId).value;
    var step := Guess(g, SessionOf(st, gameId), p, ch);
    assert step.Success?;
    GuessPassesTurn(g, SessionOf(st, gameId), p, ch);
    var st' := MakeGuess(st, gameId, userId, ch).value.0;
    assert st'.games == st.games[i := step.value.game];
    assert forall j :: 0 <= j < i ==> st'.games[j] == st.games[j];
    StatusOfFirstMatch(st', i);
  }

  /** The lobby of the two-player scenario after `seated` have joined it. */
  function ScenarioLobby(seated: seq<Player>, status: LobbyStatus): Lobby
  {
    NewLobby("lobby", 0).(players := seated, status := status)
  }

  /** Scenario: two players join a two-seat lobby; the first join leaves it open, the second closes it, and a third join is refused. */
  lemma TwoPlayerJoinScenario(a: Player, b: Player)
    requires a.id != b.id
    ensures JoinLobby(Store([a, b], [NewLobby("lobby", 0)], [], map[]), "lobby", a.id)
      == Success((Store([a, b], [ScenarioLobby([a], Open)], [], map[]), ScenarioLobby([a], Open)))
    ensures JoinLobby(Store([a, b], [ScenarioLobby([a], Open)], [], map[]), "lobby", b.id)
      == Success((Store([a, b], [ScenarioLobby([a, b], Closed)], [], map[]), ScenarioLobby([a, b], Closed)))
    ensures JoinLobby(Store([a, b], [ScenarioLobby([a, b], Closed)], [], map[]), "lobby", a.id)
      == Failure(LobbyClosed)
  {
    var l0 := NewLobby("lobby", 0);
    var st := Store([a, b], [l0], [], map[]);
    assert IsFirstMatch(st.players, a.id, PlayerKey, 0);
    assert IsFirstMatch(st.players, b.id, PlayerKey, 1);
    assert GetPlayerById(st.players, a.id) == Success(a);
    assert GetPlayerById(st.players, b.id) == Success(b);
    IndexOfFirstMatch(st.lobbies, "lobby", LobbyKey, 0);
    var l1 := ScenarioLobby([a], Open);
    assert l0.players + [a] == [a];
    assert Join(l0, a) == Success(l1);
    var st1 := st.(lobbies := [l1]);
    assert st.lobbies[0 := l1] == [l1];
    assert JoinLobby(st, "lobby", a.id) == Success((st1, l1));
    IndexOfFirstMatch(st1.lobbies, "lobby", LobbyKey, 0);
    var l2 := ScenarioLobby([a, b], Closed);
    assert l1.players + [b] == [a, b];
    assert Join(l1, b) == Success(l2);
    var st2 := st.(lobbies := [l2]);
    assert st1.lobbies[0 := l2] == [l2];
    assert JoinLobby(st1, "lobby", b.id) == Success((st2, l2));
    IndexOfFirstMatch(st2.lobbies, "lobby", LobbyKey, 0);
  }

  /** Scenario, continued: once the lobby is full, the next identification starts the game, whose first turn is the first to join and whose mask shows no letter yet. */
  lemma TwoPlayerStartScenario(a: Player, b: Player, st2: Store, word: string)
    requires a.id != b.id
    requires st2 == Store([a, b], [ScenarioLobby([a, b], Closed)], [], map[])
    ensures var r := OnIdentify(st2, "lobby", b.id, "game", word);
      && r.Success? && r.value.1 == Some("game")
      && GetStatus(r.value.0, "game") == Success((a.id, WordStatus(word, [])))
  {
    var l2 := ScenarioLobby([a, b], Closed);
    IndexOfFirstMatch(st2.lobbies, "lobby", LobbyKey, 0);
    IndexOfFirstMatch(st2.players, b.id, PlayerKey, 1);
    assert GetLobbyById(st2.lobbies, "lobby") == Success(l2);
    assert GetPlayerById(st2.players, b.id) == Success(b);
    var g := GameOnFill(l2, "game", word);
    assert g.Some?;
    var st3 := st2.(games := [g.value]);
    assert st2.games + [g.value] == [g.value];
    assert OnIdentify(st2, "lobby", b.id, "game", word) == Success((st3, Some("game")));
    IndexOfFirstMatch(st3.games, "game", GameKey, 0);
    assert GetGameById(st3.games, "game") == Success(g.value);
    assert g.value.players == [a, b];
  }
}
