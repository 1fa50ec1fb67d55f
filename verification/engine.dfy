/**
 * The guess engine: one guess against one game, as a pure step from the
 * game and its per-player lives to the next game, lives and outcome.
 */
module Engine {
  import opened Wrappers
  import opened GameModels
  import opened GameHelpers
  import opened Lobbies

  /** Remaining lives of the players who have guessed in one game, by player id. */
  type Lives = map<PlayerId, int>

  /** Index of the last hangman picture; a wrong guess shows picture `LastStage - lives`. */
  const LastStage: int := 5

  /**
   * What an accepted guess reports.  `OutOfLives` is the request the source
   * rejects after it has already rotated the queue and removed the player,
   * so it is an outcome that comes with a new state.
   */
  datatype Outcome =
    | Won(word: string)
    | Correct(wordStatus: string, lives: int)
    | Incorrect(wordStatus: string, lives: int, stage: int)
    | OutOfLives

  /** The state after an accepted guess and what the guess reported. */
  datatype Step = Step(game: Game, lives: Lives, outcome: Outcome)

  /** The turn queue after its head has taken a turn: the head moves to the tail. */
  function Rotate<T>(s: seq<T>): (r: seq<T>)
    requires |s| >= 1
    ensures |r| == |s| && r[|s| - 1] == s[0]
    ensures forall i :: 0 <= i < |s| - 1 ==> r[i] == s[i + 1]
    ensures multiset(r) == multiset(s)
  {
    var r := s[1..] + [s[0]];
    assert s == [s[0]] + s[1..];
    r
  }

  /** The position of the first occurrence of `x` in `s`. */
  function FirstIndex<T(==)>(s: seq<T>, x: T): (k: nat)
    requires x in s
    ensures k < |s| && s[k] == x && x !in s[..k]
  {
    if s[0] == x then 0
    else
      assert s == [s[0]] + s[1..];
      var k := FirstIndex(s[1..], x);
      assert s[..k + 1] == [s[0]] + s[1..][..k];
      k + 1
  }

  /**
   * `s` without the first element equal to `x` (a list removal by value);
   * unchanged when `x` does not occur.  Elements before that occurrence keep
   * their places and those after it move up by one.
   */
  function RemoveFirst<T(==)>(s: seq<T>, x: T): (r: seq<T>)
    ensures x !in s ==> r == s
    ensures x in s ==> var k := FirstIndex(s, x);
      && |r| == |s| - 1
      && (forall i :: 0 <= i < k ==> r[i] == s[i])
      && (forall i :: k <= i < |r| ==> r[i] == s[i + 1])
      && multiset(r) == multiset(s) - multiset{x}
  {
    if x in s then
      var k := FirstIndex(s, x);
      assert s == s[..k] + [x] + s[k + 1..];
      s[..k] + s[k + 1..]
    else s
  }

  /**
   * One guess of `ch` by `p`.  Rejections come in a fixed order and leave
   * everything as it was: a guess that is not one character, an empty turn
   * queue, a guesser who is not at the head of the queue, a finished game.
   * An accepted guess rotates the queue, gives a first-time guesser
   * `maxAttempts` lives, and then: at 0 lives removes the guesser; on a
   * letter of the word not guessed before reveals it (and finishes the game
   * when the word is complete); otherwise costs one life and removes the
   * guesser when none are left.
   */
  function Guess(g: Game, lives: Lives, p: Player, ch: string): (r: Result<Step, Error>)
    ensures |ch| != 1 ==> r == Failure(InvalidInput)
    ensures |ch| == 1 && |g.players| == 0 ==> r == Failure(NoPlayersLeft)
    ensures |ch| == 1 && |g.players| > 0 && g.players[0].id != p.id ==> r == Failure(NotYourTurn)
    ensures |ch| == 1 && |g.players| > 0 && g.players[0].id == p.id && g.status == Finished ==> r == Failure(GameOver)
    ensures r.Success? <==> |ch| == 1 && |g.players| > 0 && g.players[0].id == p.id && g.status == Active
    ensures r.Success? ==> var n := r.value.game;
      n.id == g.id && n.word == g.word && n.maxAttempts == g.maxAttempts
  {
    if |ch| != 1 then Failure(InvalidInput)
    else if |g.players| == 0 then Failure(NoPlayersLeft)
    else if p.id != g.players[0].id then Failure(NotYourTurn)
    else if g.status != Active then Failure(GameOver)
    else
      var c := ch[0];
      var queue := Rotate(g.players);
      var lives1 := WithLives(g, lives, p);
      if lives1[p.id] == 0 then
        Success(Step(g.(players := RemoveFirst(queue, p)), lives1, OutOfLives))
      else if c in g.word && c !in g.guessed then
        var mask := ReplaceAt(g.wordStatus, FindAll(g.word, ch), c);
        var g1 := g.(players := queue, guessed := g.guessed + [c], wordStatus := mask);
        if mask == g.word then
          Success(Step(g1.(status := Finished, winner := Some(p.id)), lives1, Won(mask)))
        else
          Success(Step(g1, lives1, Correct(mask, lives1[p.id])))
      else
        var left := lives1[p.id] - 1;
        var queue' := if left == 0 then RemoveFirst(queue, p) else queue;
        Success(Step(g.(players := queue'), lives1[p.id := left], Incorrect(g.wordStatus, left, LastStage - left)))
  }

  /** The guessed characters are distinct. */
  predicate NoDuplicates(s: seq<char>)
  {
    forall k, m :: 0 <= k < m < |s| ==> s[k] != s[m]
  }

  /**
   * The consistency of a game with its lives: the mask is the display of the
   * word for the guessed characters, every guessed character is a distinct
   * letter of the word, lives lie in `[0, maxAttempts]`, a finished game has
   * a complete mask and a winner, and an open game has no winner.
   */
  predicate GameInv(g: Game, lives: Lives)
  {
    && g.wordStatus == WordStatus(g.word, g.guessed)
    && (forall k :: 0 <= k < |g.guessed| ==> g.guessed[k] in g.word)
    && NoDuplicates(g.guessed)
    && g.maxAttempts >= 0
    && (forall id :: id in lives ==> 0 <= lives[id] <= g.maxAttempts)
    && (g.status == Finished ==> g.wordStatus == g.word && g.winner.Some?)
    && (g.status == Active ==> g.winner == None)
  }

  /** The game a full lobby starts is consistent with an empty lives map. */
  lemma FillGameInv(l: Lobby, id: GameId, word: string)
    requires GameOnFill(l, id, word).Some?
    ensures GameInv(GameOnFill(l, id, word).value, map[])
  {
  }

  /** The correct-guess branch reveals exactly the display for the extended guess list. */
  lemma RevealStep(g: Game, ch: string)
    requires |ch| == 1 && g.wordStatus == WordStatus(g.word, g.guessed)
    ensures ReplaceAt(g.wordStatus, FindAll(g.word, ch), ch[0]) == WordStatus(g.word, g.guessed + [ch[0]])
  {
    assert ch == [ch[0]];
    RevealIsWordStatus(g.word, g.guessed, ch[0]);
  }

  /** Lives after the lazy initialisation of the guesser's entry. */
  function WithLives(g: Game, lives: Lives, p: Player): (l: Lives)
    ensures p.id in l && l.Keys == lives.Keys + {p.id}
    ensures p.id in lives ==> l == lives
    ensures p.id !in lives ==> l == lives[p.id := g.maxAttempts]
  {
    if p.id in lives then lives else lives[p.id := g.maxAttempts]
  }

  /** The lazy initialisation keeps lives within `[0, maxAttempts]`. */
  lemma WithLivesBounded(g: Game, lives: Lives, p: Player)
    requires GameInv(g, lives)
    ensures GameInv(g, WithLives(g, lives, p))
  {
  }

  /** Recording a fresh letter of the word and its display keeps the game consistent. */
  lemma RevealKeepsInv(g: Game, lives: Lives, c: char, g1: Game)
    requires GameInv(g, lives) && g.status == Active
    requires c in g.word && c !in g.guessed
    requires g1.word == g.word && g1.maxAttempts == g.maxAttempts
    requires g1.guessed == g.guessed + [c] && g1.wordStatus == WordStatus(g.word, g.guessed + [c])
    requires g1.status == Finished ==> g1.wordStatus == g.word && g1.winner.Some?
    requires g1.status == Active ==> g1.winner == None
    ensures GameInv(g1, lives)
  {
    var gs := g1.guessed;
    assert forall k :: 0 <= k < |gs| ==> gs[k] in g.word by {
      forall k | 0 <= k < |gs| ensures gs[k] in g.word {
        if k < |g.guessed| { assert gs[k] == g.guessed[k]; }
      }
    }
    assert NoDuplicates(gs) by {
      forall k, m | 0 <= k < m < |gs| ensures gs[k] != gs[m] {
        if m < |g.guessed| { assert gs[k] == g.guessed[k] && gs[m] == g.guessed[m]; }
        else { assert gs[k] == g.guessed[k]; }
      }
    }
  }

  /** An accepted guess keeps the game consistent with its lives. */
  lemma GuessPreservesInv(g: Game, lives: Lives, p: Player, ch: string)
    requires GameInv(g, lives)
    ensures Guess(g, lives, p, ch).Success? ==>
      GameInv(Guess(g, lives, p, ch).value.game, Guess(g, lives, p, ch).value.lives)
  {
    var r := Guess(g, lives, p, ch);
    if r.Success? {
      var c := ch[0];
      var lives1 := WithLives(g, lives, p);
      WithLivesBounded(g, lives, p);
      var queue := Rotate(g.players);
      if lives1[p.id] == 0 {
        assert r.value == Step(g.(players := RemoveFirst(queue, p)), lives1, OutOfLives);
      } else if c in g.word && c !in g.guessed {
        RevealStep(g, ch);
        RevealKeepsInv(g, lives1, c, r.value.game);
      } else {
        var left := lives1[p.id] - 1;
        assert r.value.lives == lives1[p.id := left];
        assert r.value.game == g.(players := r.value.game.players);
      }
    }
  }

  /**
   * An accepted guess moves the head of the queue to the tail first; the new
   * queue is that rotation, or the rotation without the guesser when the
   * guesser is removed.  Either way it holds only players of the old queue.
   */
  lemma GuessRotatesQueue(g: Game, lives: Lives, p: Player, ch: string)
    ensures Guess(g, lives, p, ch).Success? ==>
      var q := Guess(g, lives, p, ch).value.game.players;
      (q == Rotate(g.players) || q == RemoveFirst(Rotate(g.players), p)) && multiset(q) <= multiset(g.players)
  {
    var r := Guess(g, lives, p, ch);
    if r.Success? {
      var queue := Rotate(g.players);
      var q := r.value.game.players;
      var lives1 := WithLives(g, lives, p);
      if lives1[p.id] == 0 {
        assert q == RemoveFirst(queue, p);
      } else if ch[0] in g.word && ch[0] !in g.guessed {
        assert q == queue;
      } else {
        assert q == queue || q == RemoveFirst(queue, p);
      }
      assert multiset(RemoveFirst(queue, p)) <= multiset(queue);
    }
  }

  /**
   * After an accepted guess the second player of the old queue is at the
   * head, unless that player is the guesser, who may have been removed.
   */
  lemma GuessPassesTurn(g: Game, lives: Lives, p: Player, ch: string)
    requires Guess(g, lives, p, ch).Success?
    requires |g.players| >= 2 && g.players[1] != p
    ensures var q := Guess(g, lives, p, ch).value.game.players;
      |q| > 0 && q[0] == g.players[1]
  {
    GuessRotatesQueue(g, lives, p, ch);
    var q := Rotate(g.players);
    assert q[0] == g.players[1];
  }

  /**
   * Lives are created at `maxAttempts` on a player's first guess, only the
   * guesser's lives change, and they never increase.
   */
  lemma GuessLives(g: Game, lives: Lives, p: Player, ch: string)
    ensures Guess(g, lives, p, ch).Success? ==>
      var l := Guess(g, lives, p, ch).value.lives;
      && l.Keys == lives.Keys + {p.id}
      && (forall id :: id in lives && id != p.id ==> l[id] == lives[id])
      && (p.id in lives ==> l[p.id] <= lives[p.id])
      && (p.id !in lives ==> g.maxAttempts - 1 <= l[p.id] <= g.maxAttempts)
  {
  }

  /** The exact state and outcome of a guess of a fresh letter of the word. */
  lemma CorrectGuessStep(g: Game, lives: Lives, p: Player, c: char)
    requires g.wordStatus == WordStatus(g.word, g.guessed)
    requires |g.players| > 0 && g.players[0].id == p.id && g.status == Active
    requires WithLives(g, lives, p)[p.id] != 0
    requires c in g.word && c !in g.guessed
    ensures var mask := WordStatus(g.word, g.guessed + [c]);
      var g1 := g.(players := Rotate(g.players), guessed := g.guessed + [c], wordStatus := mask);
      var l := WithLives(g, lives, p);
      Guess(g, lives, p, [c]) == Success(
        if mask == g.word then Step(g1.(status := Finished, winner := Some(p.id)), l, Won(mask))
        else Step(g1, l, Correct(mask, l[p.id])))
  {
    RevealStep(g, [c]);
  }

  /**
   * A letter of the word that was not guessed before is recorded, all its
   * occurrences are revealed, and no life is lost.
   */
  lemma CorrectGuess(g: Game, lives: Lives, p: Player, c: char)
    requires GameInv(g, lives)
    requires |g.players| > 0 && g.players[0].id == p.id && g.status == Active
    requires p.id in lives ==> lives[p.id] > 0
    requires g.maxAttempts > 0
    requires c in g.word && c !in g.guessed
    ensures var r := Guess(g, lives, p, [c]);
      && r.Success?
      && r.value.game.guessed == g.guessed + [c]
      && r.value.game.wordStatus == WordStatus(g.word, g.guessed + [c])
      && (forall i :: 0 <= i < |g.word| && g.word[i] == c ==> r.value.game.wordStatus[i] == c)
      && r.value.lives[p.id] == (if p.id in lives then lives[p.id] else g.maxAttempts)
      && (r.value.game.status == Finished <==> r.value.game.wordStatus == g.word)
  {
    RevealStep(g, [c]);
  }

  /**
   * A letter not in the word, or one guessed before, costs exactly one life
   * and leaves the mask as it was; the guesser leaves the queue exactly when
   * no life is left.
   */
  lemma WrongGuess(g: Game, lives: Lives, p: Player, c: char)
    requires |g.players| > 0 && g.players[0].id == p.id && g.status == Active
    requires p.id in lives ==> lives[p.id] != 0
    requires g.maxAttempts != 0
    requires c !in g.word || c in g.guessed
    ensures var r := Guess(g, lives, p, [c]);
      var before := if p.id in lives then lives[p.id] else g.maxAttempts;
      && r.Success?
      && r.value.lives[p.id] == before - 1
      && r.value.game.wordStatus == g.wordStatus && r.value.game.guessed == g.guessed
      && r.value.game.status == Active
      && r.value.outcome == Incorrect(g.wordStatus, before - 1, LastStage - (before - 1))
      && r.value.game.players == (if before == 1 then RemoveFirst(Rotate(g.players), p) else Rotate(g.players))
  {
  }

  /** A guesser already at 0 lives is refused with OutOfLives and removed from the queue. */
  lemma NoLivesLeft(g: Game, lives: Lives, p: Player, ch: string)
    requires |ch| == 1 && |g.players| > 0 && g.players[0].id == p.id && g.status == Active
    requires p.id in lives && lives[p.id] == 0
    ensures var r := Guess(g, lives, p, ch);
      && r.Success? && r.value.outcome == OutOfLives
      && r.value.lives == lives
      && r.value.game == g.(players := RemoveFirst(Rotate(g.players), p))
  {
  }

  /** A finished game refuses every guess, so it is never left. */
  lemma FinishedIsTerminal(g: Game, lives: Lives, p: Player, ch: string)
    requires g.status == Finished
    ensures Guess(g, lives, p, ch).Failure?
  {
  }

  /** A guess finishes the game exactly when it completes the mask, and makes the guesser the winner. */
  lemma GuessFinishes(g: Game, lives: Lives, p: Player, ch: string)
    requires Guess(g, lives, p, ch).Success?
    ensures var s := Guess(g, lives, p, ch).value;
      (s.game.status == Finished <==> s.outcome.Won?)
      && (s.outcome.Won? ==> s.game.wordStatus == g.word && s.game.winner == Some(p.id) && s.outcome.word == g.word)
  {
  }

  /** Once a position of the mask is revealed it stays revealed with the same letter. */
  predicate RevealsMore(before: string, after: string)
  {
    |after| == |before| && forall i :: 0 <= i < |before| && before[i] != Blank ==> after[i] == before[i]
  }

  /** An accepted guess never hides a revealed letter and never shrinks the guessed list. */
  lemma GuessRevealsMore(g: Game, lives: Lives, p: Player, ch: string)
    requires GameInv(g, lives)
    ensures Guess(g, lives, p, ch).Success? ==>
      var n := Guess(g, lives, p, ch).value.game;
      RevealsMore(g.wordStatus, n.wordStatus) && g.guessed <= n.guessed
  {
    var r := Guess(g, lives, p, ch);
    if r.Success? {
      var c := ch[0];
      var n := r.value.game;
      if WithLives(g, lives, p)[p.id] != 0 && c in g.word && c !in g.guessed {
        RevealStep(g, ch);
        assert n.wordStatus == WordStatus(g.word, g.guessed + [c]) && n.guessed == g.guessed + [c];
        GuessedMoreRevealsMore(g.word, g.guessed, c);
      } else {
        assert n.wordStatus == g.wordStatus && n.guessed == g.guessed;
      }
    }
  }

  /** Guessing one more character never hides a letter of the display. */
  lemma GuessedMoreRevealsMore(word: string, guessed: seq<char>, c: char)
    ensures RevealsMore(WordStatus(word, guessed), WordStatus(word, guessed + [c]))
  {
    var before := WordStatus(word, guessed);
    var after := WordStatus(word, guessed + [c]);
    forall i | 0 <= i < |before| && before[i] != Blank
      ensures after[i] == before[i]
    {
      assert word[i] in guessed;
    }
  }

  /** With six attempts a wrong guess shows one of the six hangman pictures, 0 through 5. */
  lemma HangmanStageInRange(g: Game, lives: Lives, p: Player, ch: string)
    requires GameInv(g, lives) && g.maxAttempts == 6
    ensures Guess(g, lives, p, ch).Success? && Guess(g, lives, p, ch).value.outcome.Incorrect? ==>
      0 <= Guess(g, lives, p, ch).value.outcome.stage <= LastStage
  {
  }

  /** One guess request: who guesses what. */
  datatype Move = Move(player: Player, ch: string)

  /** The state after a series of guesses and what each request returned. */
  datatype Run = Run(game: Game, lives: Lives, results: seq<Result<Outcome, Error>>)

  /** Plays the guesses in order; a rejected guess leaves the state as it was. */
  function Play(g: Game, lives: Lives, moves: seq<Move>): Run
    decreases |moves|
  {
    if |moves| == 0 then Run(g, lives, [])
    else
      match Guess(g, lives, moves[0].player, moves[0].ch)
      case Success(s) =>
        var rest := Play(s.game, s.lives, moves[1..]);
        Run(rest.game, rest.lives, [Success(s.outcome)] + rest.results)
      case Failure(e) =>
        var rest := Play(g, lives, moves[1..]);
        Run(rest.game, rest.lives, [Failure(e)] + rest.results)
  }

  /**
   * Over any series of guesses the game stays consistent, the mask only
   * reveals more, lives of a player never increase, and the word and
   * attempt budget never change.
   */
  lemma {:induction false} PlayPreservesInv(g: Game, lives: Lives, moves: seq<Move>)
    requires GameInv(g, lives)
    ensures var run := Play(g, lives, moves);
      && GameInv(run.game, run.lives)
      && RevealsMore(g.wordStatus, run.game.wordStatus)
      && run.game.word == g.word && run.game.maxAttempts == g.maxAttempts
      && (forall id :: id in lives ==> id in run.lives && run.lives[id] <= lives[id])
    decreases |moves|
  {
    if |moves| > 0 {
      var m := moves[0];
      GuessPreservesInv(g, lives, m.player, m.ch);
      GuessRevealsMore(g, lives, m.player, m.ch);
      GuessLives(g, lives, m.player, m.ch);
      match Guess(g, lives, m.player, m.ch)
      case Success(s) =>
        PlayPreservesInv(s.game, s.lives, moves[1..]);
      case Failure(_) =>
        PlayPreservesInv(g, lives, moves[1..]);
    }
  }

  /** A finished game is left untouched by any later guesses, each of which is refused. */
  lemma {:induction false} PlayAfterFinish(g: Game, lives: Lives, moves: seq<Move>)
    requires g.status == Finished
    ensures var run := Play(g, lives, moves);
      run.game == g && run.lives == lives && |run.results| == |moves|
      && forall k :: 0 <= k < |moves| ==> run.results[k].Failure?
    decreases |moves|
  {
    if |moves| > 0 {
      PlayAfterFinish(g, lives, moves[1..]);
    }
  }

  /** The game of the "apple" scenario after the letters `guessed`, with mask `mask`. */
  function AppleGame(a: Player, guessed: seq<char>, mask: string, status: GameStatus): Game
  {
    Game("game", "apple", 6, status, if status == Finished then Some(a.id) else None, [a], mask, guessed)
  }

  lemma AppleStart(a: Player)
    ensures GameOnFill(Lobby("lobby", Closed, 1, [a], 0), "game", "apple") == Some(AppleGame(a, [], "-----", Active))
  {
    assert Dashes(5) == "-----";
  }

  lemma AppleGuessA(a: Player)
    ensures Guess(AppleGame(a, [], "-----", Active), map[], a, "a")
      == Success(Step(AppleGame(a, ['a'], "a----", Active), map[a.id := 6], Correct("a----", 6)))
  {
    var g := AppleGame(a, [], "-----", Active);
    var l: Lives := map[];
    assert Rotate([a]) == [a];
    assert g.wordStatus == WordStatus(g.word, g.guessed);
    assert g.guessed + ['a'] == ['a'];
    assert WordStatus("apple", ['a']) == "a----";
    assert WithLives(g, l, a) == map[a.id := 6];
    CorrectGuessStep(g, l, a, 'a');
    var g1 := g.(players := Rotate(g.players), guessed := g.guessed + ['a'], wordStatus := WordStatus(g.word, g.guessed + ['a']));
    assert g1 == AppleGame(a, ['a'], "a----", Active);
  }

  lemma AppleGuessP(a: Player)
    ensures Guess(AppleGame(a, ['a'], "a----", Active), map[a.id := 6], a, "p")
      == Success(Step(AppleGame(a, ['a', 'p'], "app--", Active), map[a.id := 6], Correct("app--", 6)))
  {
    var g := AppleGame(a, ['a'], "a----", Active);
    var l: Lives := map[a.id := 6];
    assert Rotate([a]) == [a];
    assert g.wordStatus == WordStatus(g.word, g.guessed);
    assert g.guessed + ['p'] == ['a', 'p'];
    assert WordStatus("apple", ['a', 'p']) == "app--";
    assert WithLives(g, l, a) == map[a.id := 6];
    CorrectGuessStep(g, l, a, 'p');
    var g1 := g.(players := Rotate(g.players), guessed := g.guessed + ['p'], wordStatus := WordStatus(g.word, g.guessed + ['p']));
    assert g1 == AppleGame(a, ['a', 'p'], "app--", Active);
  }

  lemma AppleGuessZ(a: Player)
    ensures Guess(AppleGame(a, ['a', 'p'], "app--", Active), map[a.id := 6], a, "z")
      == Success(Step(AppleGame(a, ['a', 'p'], "app--", Active), map[a.id := 5], Incorrect("app--", 5, 0)))
  {
    var g := AppleGame(a, ['a', 'p'], "app--", Active);
    var l := map[a.id := 6];
    assert Rotate([a]) == [a];
    assert 'z' !in "apple";
    var r := Guess(g, l, a, "z");
    assert WithLives(g, l, a) == l;
    assert r.value.lives == l[a.id := 5] == map[a.id := 5];
    assert r.value.game == g;
  }

  lemma AppleGuessL(a: Player)
    ensures Guess(AppleGame(a, ['a', 'p'], "app--", Active), map[a.id := 5], a, "l")
      == Success(Step(AppleGame(a, ['a', 'p', 'l'], "appl-", Active), map[a.id := 5], Correct("appl-", 5)))
  {
    var g := AppleGame(a, ['a', 'p'], "app--", Active);
    var l: Lives := map[a.id := 5];
    assert Rotate([a]) == [a];
    assert g.wordStatus == WordStatus(g.word, g.guessed);
    assert g.guessed + ['l'] == ['a', 'p', 'l'];
    assert WordStatus("apple", ['a', 'p', 'l']) == "appl-";
    assert WithLives(g, l, a) == map[a.id := 5];
    CorrectGuessStep(g, l, a, 'l');
    var g1 := g.(players := Rotate(g.players), guessed := g.guessed + ['l'], wordStatus := WordStatus(g.word, g.guessed + ['l']));
    assert g1 == AppleGame(a, ['a', 'p', 'l'], "appl-", Active);
  }

  lemma AppleGuessE(a: Player)
    ensures Guess(AppleGame(a, ['a', 'p', 'l'], "appl-", Active), map[a.id := 5], a, "e")
      == Success(Step(AppleGame(a, ['a', 'p', 'l', 'e'], "apple", Finished), map[a.id := 5], Won("apple")))
  {
    var g := AppleGame(a, ['a', 'p', 'l'], "appl-", Active);
    var l: Lives := map[a.id := 5];
    assert Rotate([a]) == [a];
    assert g.wordStatus == WordStatus(g.word, g.guessed);
    assert g.guessed + ['e'] == ['a', 'p', 'l', 'e'];
    assert WordStatus("apple", ['a', 'p', 'l', 'e']) == "apple";
    assert WithLives(g, l, a) == map[a.id := 5];
    CorrectGuessStep(g, l, a, 'e');
    var g1 := g.(players := Rotate(g.players), guessed := g.guessed + ['e'], wordStatus := WordStatus(g.word, g.guessed + ['e']));
    assert g1.(status := Finished, winner := Some(a.id)) == AppleGame(a, ['a', 'p', 'l', 'e'], "apple", Finished);
  }

  /** An accepted guess followed by a known run. */
  lemma PlayFrom(g: Game, lives: Lives, m: Move, rest: seq<Move>, s: Step, r: Run)
    requires Guess(g, lives, m.player, m.ch) == Success(s) && Play(s.game, s.lives, rest) == r
    ensures Play(g, lives, [m] + rest) == Run(r.game, r.lives, [Success(s.outcome)] + r.results)
  {
    assert ([m] + rest)[1..] == rest;
  }

  /** The run of the "apple" scenario from its last guess on: e wins. */
  lemma AppleRunE(a: Player)
    ensures Play(AppleGame(a, ['a', 'p', 'l'], "appl-", Active), map[a.id := 5], [Move(a, "e")])
      == Run(AppleGame(a, ['a', 'p', 'l', 'e'], "apple", Finished), map[a.id := 5], [Success(Won("apple"))])
  {
    var g5 := AppleGame(a, ['a', 'p', 'l', 'e'], "apple", Finished);
    assert [Move(a, "e")] == [Move(a, "e")] + [];
    AppleGuessE(a);
    PlayFrom(AppleGame(a, ['a', 'p', 'l'], "appl-", Active), map[a.id := 5], Move(a, "e"), [],
             Step(g5, map[a.id := 5], Won("apple")), Run(g5, map[a.id := 5], []));
  }

  /** The run from the guess of l on. */
  lemma AppleRunL(a: Player)
    ensures Play(AppleGame(a, ['a', 'p'], "app--", Active), map[a.id := 5], [Move(a, "l"), Move(a, "e")])
      == Run(AppleGame(a, ['a', 'p', 'l', 'e'], "apple", Finished), map[a.id := 5],
             [Success(Correct("appl-", 5)), Success(Won("apple"))])
  {
    var rest := [Move(a, "e")];
    var later: seq<Result<Outcome, Error>> := [Success(Won("apple"))];
    assert [Move(a, "l"), Move(a, "e")] == [Move(a, "l")] + rest;
    assert [Success(Correct("appl-", 5))] + later == [Success(Correct("appl-", 5)), Success(Won("apple"))];
    AppleGuessL(a);
    AppleRunE(a);
    PlayFrom(AppleGame(a, ['a', 'p'], "app--", Active), map[a.id := 5], Move(a, "l"), rest,
             Step(AppleGame(a, ['a', 'p', 'l'], "appl-", Active), map[a.id := 5], Correct("appl-", 5)),
             Run(AppleGame(a, ['a', 'p', 'l', 'e'], "apple", Finished), map[a.id := 5], later));
  }

  /** The run from the guess of z on. */
  lemma AppleRunZ(a: Player)
    ensures Play(AppleGame(a, ['a', 'p'], "app--", Active), map[a.id := 6], [Move(a, "z"), Move(a, "l"), Move(a, "e")])
      == Run(AppleGame(a, ['a', 'p', 'l', 'e'], "apple", Finished), map[a.id := 5],
             [Success(Incorrect("app--", 5, 0)), Success(Correct("appl-", 5)), Success(Won("apple"))])
  {
    var rest := [Move(a, "l"), Move(a, "e")];
    var later: seq<Result<Outcome, Error>> := [Success(Correct("appl-", 5)), Success(Won("apple"))];
    assert [Move(a, "z"), Move(a, "l"), Move(a, "e")] == [Move(a, "z")] + rest;
    assert [Success(Incorrect("app--", 5, 0))] + later
      == [Success(Incorrect("app--", 5, 0)), Success(Correct("appl-", 5)), Success(Won("apple"))];
    AppleGuessZ(a);
    AppleRunL(a);
    PlayFrom(AppleGame(a, ['a', 'p'], "app--", Active), map[a.id := 6], Move(a, "z"), rest,
             Step(AppleGame(a, ['a', 'p'], "app--", Active), map[a.id := 5], Incorrect("app--", 5, 0)),
             Run(AppleGame(a, ['a', 'p', 'l', 'e'], "apple", Finished), map[a.id := 5], later));
  }

  /** The run from the guess of p on. */
  lemma AppleRunP(a: Player)
    ensures Play(AppleGame(a, ['a'], "a----", Active), map[a.id := 6], [Move(a, "p"), Move(a, "z"), Move(a, "l"), Move(a, "e")])
      == Run(AppleGame(a, ['a', 'p', 'l', 'e'], "apple", Finished), map[a.id := 5],
             [Success(Correct("app--", 6)), Success(Incorrect("app--", 5, 0)), Success(Correct("appl-", 5)), Success(Won("apple"))])
  {
    var rest := [Move(a, "z"), Move(a, "l"), Move(a, "e")];
    var later: seq<Result<Outcome, Error>> := [Success(Incorrect("app--", 5, 0)), Success(Correct("appl-", 5)), Success(Won("apple"))];
    assert [Move(a, "p"), Move(a, "z"), Move(a, "l"), Move(a, "e")] == [Move(a, "p")] + rest;
    assert [Success(Correct("app--", 6))] + later
      == [Success(Correct("app--", 6)), Success(Incorrect("app--", 5, 0)), Success(Correct("appl-", 5)), Success(Won("apple"))];
    AppleGuessP(a);
    AppleRunZ(a);
    PlayFrom(AppleGame(a, ['a'], "a----", Active), map[a.id := 6], Move(a, "p"), rest,
             Step(AppleGame(a, ['a', 'p'], "app--", Active), map[a.id := 6], Correct("app--", 6)),
             Run(AppleGame(a, ['a', 'p', 'l', 'e'], "apple", Finished), map[a.id := 5], later));
  }

  /** The run from the first guess on: the whole series a, p, z, l, e. */
  lemma AppleRunA(a: Player)
    ensures Play(AppleGame(a, [], "-----", Active), map[], [Move(a, "a"), Move(a, "p"), Move(a, "z"), Move(a, "l"), Move(a, "e")])
      == Run(AppleGame(a, ['a', 'p', 'l', 'e'], "apple", Finished), map[a.id := 5],
             [Success(Correct("a----", 6)), Success(Correct("app--", 6)), Success(Incorrect("app--", 5, 0)),
              Success(Correct("appl-", 5)), Success(Won("apple"))])
  {
    var rest := [Move(a, "p"), Move(a, "z"), Move(a, "l"), Move(a, "e")];
    var later: seq<Result<Outcome, Error>> :=
      [Success(Correct("app--", 6)), Success(Incorrect("app--", 5, 0)), Success(Correct("appl-", 5)), Success(Won("apple"))];
    assert [Move(a, "a"), Move(a, "p"), Move(a, "z"), Move(a, "l"), Move(a, "e")] == [Move(a, "a")] + rest;
    assert [Success(Correct("a----", 6))] + later
      == [Success(Correct("a----", 6)), Success(Correct("app--", 6)), Success(Incorrect("app--", 5, 0)),
          Success(Correct("appl-", 5)), Success(Won("apple"))];
    AppleGuessA(a);
    AppleRunP(a);
    PlayFrom(AppleGame(a, [], "-----", Active), map[], Move(a, "a"), rest,
             Step(AppleGame(a, ['a'], "a----", Active), map[a.id := 6], Correct("a----", 6)),
             Run(AppleGame(a, ['a', 'p', 'l', 'e'], "apple", Finished), map[a.id := 5], later));
  }

  /**
   * One player in a full one-seat lobby guessing a, p, z, l, e in turn
   * against "apple" with six attempts: the lobby starts the game with mask
   * "-----"; then, as one run, "a----" and "app--" at six lives, "z" costs a
   * life (hangman picture 0), "l" shows "appl-", and "e" completes the word
   * and wins.
   */
  lemma AppleScenario(a: Player)
    ensures var g := GameOnFill(Lobby("lobby", Closed, 1, [a], 0), "game", "apple");
      && g == Some(AppleGame(a, [], "-----", Active))
      && Play(g.value, map[], [Move(a, "a"), Move(a, "p"), Move(a, "z"), Move(a, "l"), Move(a, "e")])
         == Run(AppleGame(a, ['a', 'p', 'l', 'e'], "apple", Finished), map[a.id := 5],
                [Success(Correct("a----", 6)), Success(Correct("app--", 6)), Success(Incorrect("app--", 5, 0)),
                 Success(Correct("appl-", 5)), Success(Won("apple"))])
  {
    AppleStart(a);
    AppleRunA(a);
  }
}
