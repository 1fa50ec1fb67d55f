/**
 * Lookup of players, lobbies and games by id in their stores: a linear
 * search that returns the first record carrying the id, or fails with
 * NotFound.  Lookups are pure and never change the store.
 */
module DbHelpers {
  import opened Wrappers
  import opened GameModels

  /** Position `i` holds the first record of `db` whose id is `key`. */
  predicate IsFirstMatch<T>(db: seq<T>, key: Id, idOf: T -> Id, i: int)
  {
    && 0 <= i < |db|
    && idOf(db[i]) == key
    && forall j :: 0 <= j < i ==> idOf(db[j]) != key
  }

  /** The first position at or after `from` whose record has id `key`. */
  function IndexFrom<T>(db: seq<T>, key: Id, idOf: T -> Id, from: nat): (r: Result<nat, Error>)
    requires from <= |db|
    ensures r.Success? ==> from <= r.value < |db| && idOf(db[r.value]) == key
    ensures r.Success? ==> forall j :: from <= j < r.value ==> idOf(db[j]) != key
    ensures r.Failure? ==> r.error == NotFound && forall j :: from <= j < |db| ==> idOf(db[j]) != key
    decreases |db| - from
  {
    if from == |db| then Failure(NotFound)
    else if idOf(db[from]) == key then Success(from)
    else IndexFrom(db, key, idOf, from + 1)
  }

  /** The position of the first record with id `key`, or NotFound when no record has it. */
  function IndexOf<T>(db: seq<T>, key: Id, idOf: T -> Id): (r: Result<nat, Error>)
    ensures r.Success? ==> IsFirstMatch(db, key, idOf, r.value)
    ensures r.Failure? ==> r.error == NotFound
    ensures r.Failure? <==> forall j :: 0 <= j < |db| ==> idOf(db[j]) != key
  {
    IndexFrom(db, key, idOf, 0)
  }

  /** The search finds exactly the first match: whichever position is the first match is the one returned. */
  lemma IndexOfFirstMatch<T>(db: seq<T>, key: Id, idOf: T -> Id, i: int)
    requires IsFirstMatch(db, key, idOf, i)
    ensures IndexOf(db, key, idOf) == Success(i)
  {
    assert idOf(db[i]) == key;
  }

  function PlayerKey(p: Player): Id { p.id }
  function LobbyKey(l: Lobby): Id { l.id }
  function GameKey(g: Game): Id { g.id }

  /** The first registered player with the given id. */
  function GetPlayerById(db: seq<Player>, id: PlayerId): (r: Result<Player, Error>)
    ensures r.Success? ==> r.value.id == id && r.value in db
    ensures r.Success? ==> exists i :: IsFirstMatch(db, id, PlayerKey, i) && db[i] == r.value
    ensures r.Failure? ==> r.error == NotFound
    ensures r.Failure? <==> forall q :: q in db ==> q.id != id
  {
    match IndexOf(db, id, PlayerKey)
    case Success(i) => Success(db[i])
    case Failure(e) => Failure(e)
  }

  /** The first lobby with the given id. */
  function GetLobbyById(db: seq<Lobby>, id: LobbyId): (r: Result<Lobby, Error>)
    ensures r.Success? ==> r.value.id == id && r.value in db
    ensures r.Success? ==> exists i :: IsFirstMatch(db, id, LobbyKey, i) && db[i] == r.value
    ensures r.Failure? ==> r.error == NotFound
    ensures r.Failure? <==> forall l :: l in db ==> l.id != id
  {
    match IndexOf(db, id, LobbyKey)
    case Success(i) => Success(db[i])
    case Failure(e) => Failure(e)
  }

  /** The first game with the given id. */
  function GetGameById(db: seq<Game>, id: GameId): (r: Result<Game, Error>)
    ensures r.Success? ==> r.value.id == id && r.value in db
    ensures r.Success? ==> exists i :: IsFirstMatch(db, id, GameKey, i) && db[i] == r.value
    ensures r.Failure? ==> r.error == NotFound
    ensures r.Failure? <==> forall g :: g in db ==> g.id != id
  {
    match IndexOf(db, id, GameKey)
    case Success(i) => Success(db[i])
    case Failure(e) => Failure(e)
  }

  /** After a game with a fresh id is appended, looking that id up finds exactly the new game. */
  lemma {:induction false} LookupAfterAppend(db: seq<Game>, g: Game)
    requires forall h :: h in db ==> h.id != g.id
    ensures GetGameById(db + [g], g.id) == Success(g)
  {
    var db' := db + [g];
    assert forall j :: 0 <= j < |db| ==> db'[j] == db[j];
    assert IsFirstMatch(db', g.id, GameKey, |db|);
  }
}
