# Hangman lobby and game server — a Dafny model

The server keeps players, lobbies and games in in-memory lists. It also keeps
a per-game table of each player's remaining lives.

- Players join a lobby until it is full. The lobby then closes.
- Any registered player sends its id on the channel of a full lobby. That
  starts a hangman game; membership of the lobby is not checked
  (main.py:266). Every such message while the lobby is full builds and
  appends another game, because the handler forgets the game it built after
  each message (main.py:269). The turn queue is the lobby's players in join order.
  Every letter of the word starts hidden as `-`.
- Guesses are submitted one character at a time by the player at the head of
  the queue. Each accepted guess moves that player to the back of the queue.
- A new letter of the word is revealed at every position where it occurs.
  Revealing the last hidden letter finishes the game, and the guesser wins.
- A wrong or repeated letter costs a life. A player with no lives left
  leaves the queue.

This project models those rules as pure functions over immutable values and
proves what they promise.

- `Wrappers`: `Option` and `Result`.
- `GameModels`: the player, lobby and game records, their defaults and the
  error kinds.
- `GameHelpers`: the mask helpers: the display of a word for a set of guessed
  letters, overwriting positions of a string, and `str.find`-style search for
  all non-overlapping occurrences.
- `DbHelpers`: first-match lookup by id, failing with `NotFound`.
- `Lobbies`: the join state machine and the game a full lobby starts.
- `Engine`: one guess as a step from (game, lives) to (game, lives, outcome),
  plus the game invariant and a replay of a series of guesses.
- `Server`: the request handlers over the whole store: join, identify on the
  lobby channel, guess and status. Also the store invariant.

Some things are parameters rather than computed:

- the randomly chosen word;
- the generated UUIDs of new games;
- the creation time of a lobby.

A rejected request changes nothing. The one exception is a guess by a player
already at zero lives. The source answers it with an error, but only after
it has rotated the queue, set up the player's lives and removed the player.
So the model reports it as a successful step with the outcome `OutOfLives`.

The guess handler looks up the game and then the player before it
checks that the guess is one character, so an unknown game or player is
`NotFound` even when the guess is malformed. The hangman picture after a
wrong guess is `5 - lives` whatever the game's attempt count, as the code
computes it.

## Model

| member | source | states |
|---|---|---|
| GameModels.NewLobby | models/game_models.py:14-19 | a new lobby is open, holds at most two players, is empty, and satisfies the lobby invariant |
| GameModels.NewGame | models/game_models.py:21-29 | a new game record is open with six attempts, no winner, no players, an empty mask and nothing guessed |
| GameHelpers.Dashes | main.py:281 | the initial mask has the word's length and is all `-` |
| GameHelpers.WordStatus | utils/game_helpers.py:19-25 | the display has the word's length; position i shows the word's letter if that letter was guessed, and `-` otherwise |
| GameHelpers.WordStatusExample | utils/game_helpers.py:16-17 | "apple" with a and p guessed displays as "app--" |
| GameHelpers.WordStatusNothingGuessed | main.py:281 | the dashed mask a new game gets is the display of its word with nothing guessed |
| GameHelpers.ReplaceAt | utils/game_helpers.py:44-52 | the length is kept; a position listed in the indices holds the new character, and every other position is unchanged; out-of-range indices are ignored |
| GameHelpers.ReplaceAtExample | utils/game_helpers.py:41-42 | replacing positions 1 and 3 of "apple" by x gives "axpxe" |
| GameHelpers.Find | utils/game_helpers.py:74 | the result is -1 or the lowest match position at or after start; no match occurs before it |
| GameHelpers.FindAllFrom | utils/game_helpers.py:70-80 | every reported position is a match at or after start; consecutive matches do not overlap; every match from start on lies inside a reported occurrence |
| GameHelpers.PrependMatches | utils/game_helpers.py:77 | putting one more match in front keeps every position a match at or after start |
| GameHelpers.PrependApart | utils/game_helpers.py:78 | a search that resumes after the occurrence keeps the occurrences non-overlapping |
| GameHelpers.PrependCovers | utils/game_helpers.py:74-78 | the matches skipped by resuming after an occurrence lie inside that occurrence |
| GameHelpers.FindAll | utils/game_helpers.py:55-80 | the positions are matches, do not overlap, and cover every match of the substring |
| GameHelpers.FindAllIncreasing | utils/game_helpers.py:73-78 | the positions are strictly increasing |
| GameHelpers.FindAllSingleChar | utils/game_helpers.py:70-80 | for a one-character substring, a position is reported exactly when the string holds that character there |
| GameHelpers.FindAllExample | utils/game_helpers.py:67-68 | the occurrences of "an" in "banana" are [1, 3] |
| GameHelpers.RevealIsWordStatus | main.py:379-382 | overwriting the occurrences of c in the mask gives the display of the word with c added to the guessed letters |
| DbHelpers.IndexFrom | utils/db_helpers.py:21-23 | the position found is the first match at or after from; failing means no record from there on has the id |
| DbHelpers.IndexOf | utils/db_helpers.py:21-26 | success returns the first matching position; failure is NotFound and happens exactly when no record has the id |
| DbHelpers.IndexOfFirstMatch | utils/db_helpers.py:21-23 | the search returns exactly the first matching position |
| DbHelpers.GetPlayerById | utils/db_helpers.py:6-26 | the first player with the id is returned; NotFound exactly when no player has it |
| DbHelpers.GetLobbyById | utils/db_helpers.py:29-49 | the first lobby with the id is returned; NotFound exactly when no lobby has it |
| DbHelpers.GetGameById | utils/db_helpers.py:52-72 | the first game with the id is returned; NotFound exactly when no game has it |
| DbHelpers.LookupAfterAppend | main.py:283 | a game appended under a fresh id is then found by lookup |
| Lobbies.Join | main.py:218-226 | a closed lobby refuses the join and an open one accepts it; on acceptance the player is appended, the lobby closes exactly when the count reaches capacity, and id, capacity and creation time are kept |
| Lobbies.JoinPreservesInv | main.py:218-224 | a join keeps the lobby within capacity and closed exactly when full |
| Lobbies.JoinAllAdmitsFirst | main.py:218-224 | a series of join attempts admits exactly the first attempts that fit, in order, and the lobby stays well formed |
| Lobbies.ClosedIsTerminal | main.py:218-219 | a closed lobby is left unchanged by any series of join attempts |
| Lobbies.GameOnFill | main.py:273-283 | a game is built exactly when the lobby is full: given word, six attempts, the lobby's players as the queue, open, no winner, a fully hidden mask |
| Lobbies.FillFollowsClose | main.py:223-224 | an open lobby starts no game, and the join that closes a lobby is the one after which a game starts |
| Engine.Rotate | main.py:351 | the head moves to the tail, every other player moves up one, and the multiset of players is kept |
| Engine.FirstIndex | main.py:402 | the position holds the value and no earlier position does |
| Engine.RemoveFirst | main.py:402 | the first equal element is dropped: earlier elements keep their place, later ones move up, and the multiset loses one copy; an absent value changes nothing |
| Engine.Guess | main.py:333-409 | rejections come in the source's order: not one character, empty queue, not your turn, game over; a guess is accepted exactly when none applies; id, word and attempts never change |
| Engine.WithLives | main.py:353-366 | the guesser always ends up with an entry; a first-time guesser gets the game's attempt count as lives and no other entry changes; an existing entry leaves the table as it was |
| Engine.FillGameInv | main.py:273-283 | a freshly started game satisfies the game invariant |
| Engine.RevealStep | main.py:379-382 | the mask after a correct guess is the display for the extended guessed list |
| Engine.WithLivesBounded | main.py:353-366 | setting up lives keeps every player's lives within [0, attempts] |
| Engine.RevealKeepsInv | main.py:377-391 | recording a fresh letter of the word, and its display, keeps the game invariant |
| Engine.GuessPreservesInv | main.py:351-409 | an accepted guess keeps the game invariant: mask equals display, guessed letters distinct and in the word, lives bounded, finished only with a complete mask and a winner |
| Engine.GuessRotatesQueue | main.py:351 | the new queue is the rotation, or the rotation without the guesser, and holds only players of the old queue |
| Engine.GuessPassesTurn | main.py:339-351 | after an accepted guess the second player of the old queue is at the head, unless that player is the guesser |
| Engine.GuessLives | main.py:353-399 | only the guesser's lives change; a first-time guesser starts at the attempt count and ends the guess at it or one below; lives never increase |
| Engine.CorrectGuessStep | main.py:377-396 | the exact next state and outcome of guessing a fresh letter of the word |
| Engine.CorrectGuess | main.py:377-396 | a fresh letter of the word is recorded, every position holding it is revealed, no life is lost, and the game finishes exactly when the mask equals the word |
| Engine.WrongGuess | main.py:398-409 | a letter not in the word, or a repeated one, costs exactly one life and keeps mask and guessed list; the guesser leaves the queue exactly when no life is left |
| Engine.NoLivesLeft | main.py:368-375 | a guesser already at zero lives gets OutOfLives, lives are unchanged, and the guesser is removed from the rotated queue |
| Engine.FinishedIsTerminal | main.py:344-349 | a finished game refuses every guess |
| Engine.GuessFinishes | main.py:384-391 | a guess finishes the game exactly when it wins; the win completes the mask and names the guesser as winner |
| Engine.GuessRevealsMore | main.py:377-382 | an accepted guess never hides a revealed letter and never shrinks the guessed list |
| Engine.GuessedMoreRevealsMore | utils/game_helpers.py:19-25 | guessing one more character never hides a letter of the display |
| Engine.HangmanStageInRange | main.py:407 | with six attempts, a wrong guess shows a hangman picture between 0 and 5 |
| Engine.PlayPreservesInv | main.py:330-409 | over any series of guesses the invariant holds, the mask only reveals more, word and attempts stay the same, and no one's lives increase |
| Engine.PlayAfterFinish | main.py:344-349 | after a game finishes, every later guess is refused and the state never changes |
| Engine.AppleStart | main.py:273-283 | a full one-seat lobby starts "apple" with mask "-----" |
| Engine.AppleGuessA | main.py:377-396 | guessing a shows "a----" with six lives |
| Engine.AppleGuessP | main.py:377-396 | guessing p then shows "app--" with six lives |
| Engine.AppleGuessZ | main.py:398-409 | guessing z costs a life and shows hangman picture 0 |
| Engine.AppleGuessL | main.py:377-396 | guessing l shows "appl-" with five lives |
| Engine.AppleGuessE | main.py:384-391 | guessing e completes "apple" and wins |
| Engine.PlayFrom | main.py:330-409 | an accepted guess followed by a known run yields that run with the guess's outcome in front |
| Engine.AppleRunE | main.py:384-391 | replaying e from "appl-" wins |
| Engine.AppleRunL | main.py:377-391 | replaying l, e from "app--" at five lives reveals "appl-" and then wins |
| Engine.AppleRunZ | main.py:377-409 | replaying z, l, e from "app--" at six lives costs one life, then reveals and wins |
| Engine.AppleRunP | main.py:353-409 | replaying p, z, l, e from "a----" gives the four outcomes in order and ends won at five lives |
| Engine.AppleRunA | main.py:353-409 | replaying a, p, z, l, e from a fresh game with no lives table gives the five outcomes in order and ends won, with the player at five lives |
| Engine.AppleScenario | main.py:273-409 | a full one-seat lobby starts "apple" with mask "-----", and one replay of a, p, z, l, e from it gives "a----", "app--", a lost life at picture 0, "appl-", and the win |
| Server.JoinLobby | main.py:211-226 | the player is looked up first, then the lobby; each may be NotFound; the join result comes from the first lobby with the id, which is replaced in place while nothing else changes |
| Server.OnIdentify | main.py:264-283 | the lobby and then any registered player are looked up, with no membership check; NotFound when either is missing and success when both are found; a game is appended exactly when the lobby is full, on every such message, and otherwise the store is unchanged |
| Server.MakeGuess | main.py:330-409 | the game is looked up first, then the player; engine rejections pass through; an accepted guess replaces the first game with the id, records its lives, and keeps players and lobbies |
| Server.GetStatus | main.py:137-141 | an unknown game is NotFound; an empty queue has no head; otherwise the result is the head's id and the mask |
| Server.JoinLobbyPreservesInv | main.py:211-226 | a join keeps the store invariant |
| Server.OnIdentifyPreservesInv | main.py:273-283 | starting a game under an unused id keeps the store invariant |
| Server.AppendGamePreservesInv | main.py:283 | appending a consistent game with no lives under an unused id keeps the store invariant |
| Server.ReplaceGamePreservesInv | main.py:351-409 | replacing a game by a consistent one with the same id, and recording its lives, keeps the store invariant |
| Server.ReplaceKeepsDistinct | main.py:351 | updating a game in place under its own id keeps game ids distinct |
| Server.ReplaceKeepsConsistent | main.py:351-409 | updating a game in place and recording its lives keeps every other game consistent with its own lives |
| Server.ReplaceKeepsSessions | main.py:353-366 | recording lives for an existing game keeps lives recorded only for existing games |
| Server.MakeGuessPreservesInv | main.py:330-409 | an accepted guess keeps the store invariant |
| Server.StartedGameResolves | main.py:273-283 | when any registered player sends its id on a full lobby's channel, a game is started under the fresh id; lookup then finds it, and its status shows the first player to join and the mask with nothing guessed |
| Server.StatusAfterGuess | main.py:351 | after an accepted guess, the status names the player who was second in the queue, unless that player is the guesser |
| Server.TwoPlayerJoinScenario | main.py:211-226 | in a two-seat lobby the first join leaves it open, the second closes it, and a third is refused |
| Server.TwoPlayerStartScenario | main.py:273-283 | the next identification starts the game; the first player to join has the first turn and the mask shows no letter |

## Left out

- The websocket channel is not modelled: connection bookkeeping, accept and receive, JSON fan-out, disconnect handling (main.py:229-303). Only the state change of one received member id is modelled, as `Server.OnIdentify`.
- Several handlers are not modelled: the lobby and player creation endpoints and the listing and debug endpoints. Each only appends to a list or reads one. Games are created only on the lobby channel (main.py:277-283), which `Server.OnIdentify` models.
- Word choice (utils/io_helpers.py) reads a file and picks at random, so the word is a parameter.
- New ids (UUID) and lobby creation times are parameters.
- The hangman drawing (utils/hangman_drawer.py) is left out. The model reports the picture index `5 - lives` that selects it.
- Response texts, HTTP status codes and debug printing are left out. Each rejection is one `Error` value.
- In the zero-lives branch, the source removes the game from the list and appends it again (main.py:369-372). That moves the game to the end of the list. The model keeps the game in place. Lookup by a unique id finds the same game either way.
- On a finished game, the source awaits a synchronous lookup (main.py:345). That fails at run time, so the "already finished" message with the winner is never built. The model reports `GameOver` without a winner.
- An empty turn queue makes the source fail with an index error (main.py:139, 339). The model reports `NoPlayersLeft`.
- In the source, a record's status is any string. The model uses two-valued enums. A game is open exactly when its status is `'open'`, and a lobby refuses joins exactly when its status is `'closed'`.
- The lookup-failed check at main.py:214 can never fire, because the lookups raise instead. It has no counterpart in the model.
- `list.remove` raises if the player is absent (main.py:370, 402). Just before, the head's id was checked, so the player is present whenever the player records are consistent. `Engine.RemoveFirst` returns the queue unchanged in that case.
- The replacement character of `replace_char_at_indices` is a single `char`. The source only ever passes the one-character guess.
- `GameHelpers.FindAllFrom`: requires a non-empty substring. For an empty one, the source's loop never ends.
- The source's game record has no word by default. The model's `GameModels.NewGame` takes the word, because every game the server builds has one.
- Concurrent requests and the asynchronous event loop are not modelled. Each request is one atomic step on the store.
