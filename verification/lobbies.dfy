/**
 * The lobby join state machine and the construction of the game that
 * starts when a lobby is full.
 */
module Lobbies {
  import opened Wrappers
  import opened GameModels
  import opened GameHelpers

  /**
   * One join attempt: a closed lobby refuses it; an open lobby appends the
   * player (no deduplication) and closes when the count reaches capacity.
   */
  function Join(l: Lobby, p: Player): (r: Result<Lobby, Error>)
    ensures l.status == Closed <==> r == Failure(LobbyClosed)
    ensures l.status == Open ==> r.Success?
    ensures r.Success? ==> r.value.players == l.players + [p]
    ensures r.Success? ==> (r.value.status == Closed <==> |l.players| + 1 == l.maxPlayers)
    ensures r.Success? ==> r.value.id == l.id && r.value.maxPlayers == l.maxPlayers && r.value.createdAt == l.createdAt
  {
    if l.status == Closed then Failure(LobbyClosed)
    else
      var players := l.players + [p];
      Success(l.(players := players, status := if |players| == l.maxPlayers then Closed else l.status))
  }

  /** A join keeps the lobby within capacity and closed exactly when full. */
  lemma JoinPreservesInv(l: Lobby, p: Player)
    requires LobbyInv(l)
    ensures Join(l, p).Success? ==> LobbyInv(Join(l, p).value)
  {
  }

  /** The lobby after a series of join attempts; refused attempts leave it as it was. */
  function JoinAll(l: Lobby, ps: seq<Player>): Lobby
    decreases |ps|
  {
    if |ps| == 0 then l
    else
      match Join(l, ps[0])
      case Success(l') => JoinAll(l', ps[1..])
      case Failure(_) => JoinAll(l, ps[1..])
  }

  function Min(a: int, b: int): int { if a <= b then a else b }

  /**
   * From a well-formed lobby, a series of join attempts admits exactly the
   * first attempts that fit, in order, and keeps the lobby well formed; a
   * closed lobby admits nobody.
   */
  lemma {:induction false} JoinAllAdmitsFirst(l: Lobby, ps: seq<Player>)
    requires LobbyInv(l)
    ensures LobbyInv(JoinAll(l, ps))
    ensures JoinAll(l, ps).players == l.players + ps[..Min(|ps|, l.maxPlayers - |l.players|)]
    ensures |JoinAll(l, ps).players| <= l.maxPlayers
    ensures JoinAll(l, ps).maxPlayers == l.maxPlayers
    decreases |ps|
  {
    if |ps| > 0 {
      match Join(l, ps[0])
      case Success(l') =>
        JoinAllAdmitsFirst(l', ps[1..]);
        var n := Min(|ps[1..]|, l'.maxPlayers - |l'.players|);
        assert ps[..n + 1] == [ps[0]] + ps[1..][..n];
      case Failure(_) =>
        JoinAllAdmitsFirst(l, ps[1..]);
    }
  }

  /** A closed lobby stays closed and unchanged whatever joins are attempted. */
  lemma {:induction false} ClosedIsTerminal(l: Lobby, ps: seq<Player>)
    requires l.status == Closed
    ensures JoinAll(l, ps) == l
    decreases |ps|
  {
    if |ps| > 0 {
      ClosedIsTerminal(l, ps[1..]);
    }
  }

  /**
   * The game built when a full lobby hears from a member: the word is given,
   * six attempts, the lobby's players in join order as the turn queue and a
   * fully hidden mask.  A lobby that is not full starts no game.
   */
  function GameOnFill(l: Lobby, id: GameId, word: string): (r: Option<Game>)
    ensures r.Some? <==> l.maxPlayers == |l.players|
    ensures r.Some? ==> r.value.id == id && r.value.word == word && r.value.maxAttempts == 6
    ensures r.Some? ==> r.value.players == l.players && r.value.status == Active && r.value.winner == None
    ensures r.Some? ==> r.value.wordStatus == WordStatus(word, []) && r.value.guessed == []
  {
    if l.maxPlayers == |l.players| then
      Some(NewGame(id, word).(maxAttempts := 6, players := l.players, wordStatus := Dashes(|word|)))
    else None
  }

  /** The join that fills a lobby is the one after which a game can start; an open well-formed lobby starts none. */
  lemma FillFollowsClose(l: Lobby, p: Player, id: GameId, word: string)
    requires LobbyInv(l)
    ensures l.status == Open ==> GameOnFill(l, id, word).None?
    ensures Join(l, p).Success? ==> (GameOnFill(Join(l, p).value, id, word).Some? <==> Join(l, p).value.status == Closed)
  {
  }
}
