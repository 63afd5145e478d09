/**
 * The persisted collections of players and games. Each collection is one list
 * kept under its own storage key; a key that was never written reads as the
 * empty list. Serialisation and the asynchronous key-value store are not
 * modelled: the stored value is the list itself.
 */
module Storage {
  import opened Wrappers
  import opened Records

  datatype Player = Player(id: string, name: string)

  /** A round as the game screen records it; no operation here touches its fields. */
  datatype Round = Round(id: int, team1Points: string, team2Points: string, scoringTeam: Option<int>)

  /** The only game type the store knows. */
  datatype GameType = Manillen

  datatype Game = Game(
    id: string,
    kind: GameType,
    players: seq<Player>,
    scores: seq<int>,
    createdAt: string,
    updatedAt: string,
    rounds: seq<Round>,
    isEnded: bool)

  function PlayerId(p: Player): string { p.id }
  function GameId(g: Game): string { g.id }

  /**
   * The two storage keys. `None` means the key holds nothing yet. A save or
   * delete whose write fails (`writeOk == false`) reports failure and leaves
   * the stored lists as they were.
   */
  class Store {
    var playersItem: Option<seq<Player>>
    var gamesItem: Option<seq<Game>>

    /** A store in which nothing has been written yet. */
    constructor ()
      ensures GetPlayers() == [] && GetGames() == []
    {
      playersItem := None;
      gamesItem := None;
    }

    /** `getPlayers`: the stored list, or the empty list when nothing is stored. */
    function GetPlayers(): (ps: seq<Player>)
      reads this
      ensures playersItem.None? ==> ps == []
      ensures playersItem.Some? ==> ps == playersItem.value
    {
      playersItem.GetOr([])
    }

    /** `getGames`: the stored list, or the empty list when nothing is stored. */
    function GetGames(): (gs: seq<Game>)
      reads this
      ensures gamesItem.None? ==> gs == []
      ensures gamesItem.Some? ==> gs == gamesItem.value
    {
      gamesItem.GetOr([])
    }

    /** `getGame`: the first stored game with that id, or `None` (`null`). */
    function GetGame(id: string): (r: Option<Game>)
      reads this
      ensures r.None? <==> forall i :: 0 <= i < |GetGames()| ==> GetGames()[i].id != id
      ensures r.Some? ==> r.value.id == id && r.value in GetGames()
    {
      Find(GetGames(), id, GameId)
    }

    /** `savePlayer`: insert-or-replace the player by id. */
    method SavePlayer(p: Player, writeOk: bool) returns (ok: bool)
      modifies this
      ensures ok == writeOk
      ensures playersItem == if ok then Some(Upsert(old(GetPlayers()), p, PlayerId)) else old(playersItem)
      ensures gamesItem == old(gamesItem)
      ensures ok ==> Find(GetPlayers(), p.id, PlayerId) == Some(p)
      ensures DistinctKeys(old(GetPlayers()), PlayerId) ==> DistinctKeys(GetPlayers(), PlayerId)
    {
      var players := GetPlayers();
      ok := writeOk;
      if ok {
        playersItem := Some(Upsert(players, p, PlayerId));
        UpsertThenFind(players, p, PlayerId);
        if DistinctKeys(players, PlayerId) {
          UpsertKeepsDistinct(players, p, PlayerId);
        }
      }
    }

    /** `saveGame`: insert-or-replace the game by id. */
    method SaveGame(g: Game, writeOk: bool) returns (ok: bool)
      modifies this
      ensures ok == writeOk
      ensures gamesItem == if ok then Some(Upsert(old(GetGames()), g, GameId)) else old(gamesItem)
      ensures playersItem == old(playersItem)
      ensures ok ==> GetGame(g.id) == Some(g)
      ensures forall id :: id != g.id ==> GetGame(id) == old(GetGame(id))
      ensures DistinctKeys(old(GetGames()), GameId) ==> DistinctKeys(GetGames(), GameId)
    {
      var games := GetGames();
      ok := writeOk;
      if ok {
        gamesItem := Some(Upsert(games, g, GameId));
        UpsertThenFind(games, g, GameId);
        forall id | id != g.id
          ensures Find(Upsert(games, g, GameId), id, GameId) == Find(games, id, GameId)
        {
          UpsertFindOther(games, g, id, GameId);
        }
        if DistinctKeys(games, GameId) {
          UpsertKeepsDistinct(games, g, GameId);
        }
      }
    }

    /** `deleteGame`: drop every game with that id, keeping the others in order. */
    method DeleteGame(id: string, writeOk: bool) returns (ok: bool)
      modifies this
      ensures ok == writeOk
      ensures gamesItem == if ok then Some(RemoveById(old(GetGames()), id, GameId)) else old(gamesItem)
      ensures playersItem == old(playersItem)
      ensures GetGame(id) == (if ok then None else old(GetGame(id)))
      ensures forall other :: other != id ==> GetGame(other) == old(GetGame(other))
      ensures IsSubsequence(GetGames(), old(GetGames()))
      ensures ok ==> RemoveById(GetGames(), id, GameId) == GetGames()
    {
      var games := GetGames();
      ok := writeOk;
      if ok {
        gamesItem := Some(RemoveById(games, id, GameId));
        RemoveIsSubsequence(games, id, GameId);
        RemoveIdempotent(games, id, GameId);
        forall other | other != id
          ensures Find(RemoveById(games, id, GameId), other, GameId) == Find(games, other, GameId)
        {
          RemoveFindOther(games, id, other, GameId);
        }
      } else {
        SubsequenceRefl(games);
      }
    }
  }
}
