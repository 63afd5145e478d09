/**
 * The state behind the new-game setup screen: the chosen player count, the
 * known players, the player chosen for each slot, the name typed for a new
 * player and the error message shown. A slot of the selection is `None` when
 * nothing was chosen for it; choosing a slot past the end of the selection
 * grows it and leaves the slots in between empty.
 */
module NewGame {
  import opened Wrappers
  import opened Records
  import opened Storage
  import opened Text

  type Selection = seq<Option<Player>>

  const AlreadySelected := "This player is already selected"
  const EmptyName := "Player name cannot be empty"
  const CreatePlayerFailed := "Failed to create player"
  const IncompleteSelection := "Please select all players"
  const CreateGameFailed := "Failed to create game"

  /** Filled slots hold players with pairwise distinct ids. */
  predicate DistinctFilled(s: Selection)
  {
    forall i, j :: 0 <= i < |s| && 0 <= j < |s| && i != j && s[i].Some? && s[j].Some? ==>
      s[i].value.id != s[j].value.id
  }

  /** The ids held by the filled slots other than `index`. */
  function OtherIds(s: Selection, index: nat): set<string>
  {
    set i | 0 <= i < |s| && i != index && s[i].Some? :: s[i].value.id
  }

  /** A filled slot other than `index` holds a player with id `id`. */
  predicate TakenElsewhere(s: Selection, index: nat, id: string)
    ensures TakenElsewhere(s, index, id) <==> id in OtherIds(s, index)
  {
    exists i :: 0 <= i < |s| && i != index && s[i].Some? && s[i].value.id == id
  }

  /** Assigning one slot of a JS array: past the end the array grows and the gap stays empty. */
  function AssignSlot(s: Selection, index: nat, p: Player): (t: Selection)
    ensures |t| == if index < |s| then |s| else index + 1
    ensures t[index] == Some(p)
    ensures forall i :: 0 <= i < |t| && i != index ==> t[i] == if i < |s| then s[i] else None
  {
    if index < |s| then s[index := Some(p)] else s + seq(index - |s|, _ => None) + [Some(p)]
  }

  /**
   * Choosing `p` for slot `index`: refused (`None`) when `p` already fills
   * another slot; otherwise only slot `index` changes, to `p`.
   */
  function Select(s: Selection, index: nat, p: Player): (r: Option<Selection>)
    ensures r.None? <==> TakenElsewhere(s, index, p.id)
    ensures r.Some? ==>
      && |r.value| == (if index < |s| then |s| else index + 1)
      && r.value[index] == Some(p)
      && forall i :: 0 <= i < |r.value| && i != index ==>
           r.value[i] == if i < |s| then s[i] else None
  {
    if TakenElsewhere(s, index, p.id) then None else Some(AssignSlot(s, index, p))
  }

  /** Choosing a player keeps the filled slots' ids pairwise distinct. */
  lemma SelectKeepsDistinct(s: Selection, index: nat, p: Player)
    requires DistinctFilled(s)
    requires Select(s, index, p).Some?
    ensures DistinctFilled(Select(s, index, p).value)
  {
    var t := Select(s, index, p).value;
    forall i, j | 0 <= i < |t| && 0 <= j < |t| && i != j && t[i].Some? && t[j].Some?
      ensures t[i].value.id != t[j].value.id
    {
      if i == index {
        assert j < |s| && t[j] == s[j];
      } else if j == index {
        assert i < |s| && t[i] == s[i];
      } else {
        assert t[i] == s[i] && t[j] == s[j];
      }
    }
  }

  /**
   * With distinct ids to start from, a choice is refused exactly when
   * accepting it would put the same player in two slots.
   */
  lemma RefusedExactlyOnDuplicate(s: Selection, index: nat, p: Player)
    requires DistinctFilled(s)
    ensures TakenElsewhere(s, index, p.id) <==> !DistinctFilled(AssignSlot(s, index, p))
  {
    var t := AssignSlot(s, index, p);
    if TakenElsewhere(s, index, p.id) {
      var i :| 0 <= i < |s| && i != index && s[i].Some? && s[i].value.id == p.id;
      assert t[i] == s[i] && t[index] == Some(p);
    } else {
      forall i, j | 0 <= i < |t| && 0 <= j < |t| && i != j && t[i].Some? && t[j].Some?
        ensures t[i].value.id != t[j].value.id
      {
        if i == index {
          assert j < |s| && t[j] == s[j];
        } else if j == index {
          assert i < |s| && t[i] == s[i];
        } else {
          assert t[i] == s[i] && t[j] == s[j];
        }
      }
    }
  }

  /** The end index of `slice(0, count)` on a list of length `len`; a negative count counts from the end. */
  function SliceEnd(len: nat, count: int): (e: nat)
    ensures e <= len
    ensures count >= 0 ==> e == if count < len then count else len
    ensures count < 0 ==> e == if len + count < 0 then 0 else len + count
  {
    if count < 0 then (if len + count < 0 then 0 else len + count)
    else if count < len then count
    else len
  }

  /** Array `slice` from 0 to `count`: the selection cut down to its first `count` slots. */
  function Truncate(s: Selection, count: int): (t: Selection)
    ensures |t| <= |s| && t == s[..|t|]
    ensures count >= 0 ==> |t| == if count < |s| then count else |s|
  {
    s[..SliceEnd(|s|, count)]
  }

  /** Cutting the selection down keeps the filled slots' ids pairwise distinct. */
  lemma TruncateKeepsDistinct(s: Selection, count: int)
    requires DistinctFilled(s)
    ensures DistinctFilled(Truncate(s, count))
  {
    var t := Truncate(s, count);
    forall i, j | 0 <= i < |t| && 0 <= j < |t| && i != j && t[i].Some? && t[j].Some?
      ensures t[i].value.id != t[j].value.id
    {
      assert t[i] == s[i] && t[j] == s[j];
    }
  }

  /** Every one of the `count` slots is filled: the selection has that length and no empty slot. */
  predicate Complete(s: Selection, count: int)
    ensures Complete(s, count) <==> |s| == count && None !in s
  {
    |s| == count && forall i :: 0 <= i < |s| ==> s[i].Some?
  }

  /** The players of a selection whose every slot is filled. */
  function Chosen(s: Selection): (ps: seq<Player>)
    requires forall i :: 0 <= i < |s| ==> s[i].Some?
    ensures |ps| == |s| && forall i :: 0 <= i < |s| ==> s[i] == Some(ps[i])
  {
    seq(|s|, i requires 0 <= i < |s| => s[i].value)
  }

  /**
   * The game `handleCreateGame` builds: refused unless all `count` slots are
   * filled; otherwise a manillen game of the chosen players in slot order,
   * one zero score per player, no rounds, not ended.
   */
  function MakeGame(s: Selection, count: int, id: string, createdAt: string, updatedAt: string): (r: Option<Game>)
    ensures r.Some? <==> Complete(s, count)
    ensures r.Some? ==>
      && r.value.id == id && r.value.kind == Manillen
      && |r.value.players| == count
      && (forall i :: 0 <= i < count ==> s[i] == Some(r.value.players[i]))
      && |r.value.scores| == count
      && (forall i :: 0 <= i < count ==> r.value.scores[i] == 0)
      && r.value.rounds == [] && !r.value.isEnded
      && r.value.createdAt == createdAt && r.value.updatedAt == updatedAt
  {
    if Complete(s, count) then
      Some(Game(id, Manillen, Chosen(s), seq(|s|, _ => 0), createdAt, updatedAt, [], false))
    else None
  }

  /** A game built from a selection with distinct ids has players with distinct ids. */
  lemma MakeGameDistinctPlayers(s: Selection, count: int, id: string, createdAt: string, updatedAt: string)
    requires DistinctFilled(s)
    requires MakeGame(s, count, id, createdAt, updatedAt).Some?
    ensures DistinctKeys(MakeGame(s, count, id, createdAt, updatedAt).value.players, PlayerId)
  {
    var ps := MakeGame(s, count, id, createdAt, updatedAt).value.players;
    forall i, j | 0 <= i < j < |ps| ensures PlayerId(ps[i]) != PlayerId(ps[j]) {
      assert s[i] == Some(ps[i]) && s[j] == Some(ps[j]);
    }
  }

  /** The new-game screen. */
  class Screen {
    var playerCount: int
    var players: seq<Player>
    var selected: Selection
    var newPlayerName: string
    var error: string

    /** The filled slots never hold the same player twice. */
    ghost predicate Valid()
      reads this
    {
      DistinctFilled(selected)
    }

    /** Two players, nothing selected, no known players, empty name and error. */
    constructor ()
      ensures Valid()
      ensures playerCount == 2 && players == [] && selected == []
      ensures newPlayerName == "" && error == ""
    {
      playerCount := 2;
      players := [];
      selected := [];
      newPlayerName := "";
      error := "";
    }

    /** `loadPlayers`: the known players are the stored ones. */
    method LoadPlayers(store: Store)
      modifies this`players
      ensures players == store.GetPlayers()
    {
      players := store.GetPlayers();
    }

    /** `handlePlayerCountChange`: set the count and cut the selection down to it. */
    method ChangePlayerCount(count: int)
      requires Valid()
      modifies this`playerCount, this`selected
      ensures Valid()
      ensures playerCount == count
      ensures selected == Truncate(old(selected), count)
    {
      playerCount := count;
      TruncateKeepsDistinct(selected, count);
      selected := Truncate(selected, count);
    }

    /** The name field's text changes. */
    method SetNewPlayerName(name: string)
      modifies this`newPlayerName
      ensures newPlayerName == name
    {
      newPlayerName := name;
    }

    /** `handleSelectPlayer`: choose `p` for slot `index` unless another slot holds it. */
    method SelectPlayer(index: nat, p: Player)
      requires Valid()
      modifies this`selected, this`error
      ensures Valid()
      ensures TakenElsewhere(old(selected), index, p.id) ==>
        selected == old(selected) && error == AlreadySelected
      ensures !TakenElsewhere(old(selected), index, p.id) ==>
        selected == AssignSlot(old(selected), index, p) && error == ""
    {
      var next := Select(selected, index, p);
      if next.None? {
        error := AlreadySelected;
        return;
      }
      SelectKeepsDistinct(selected, index, p);
      selected := next.value;
      error := "";
    }

    /**
     * `handleCreatePlayer`: a blank name is refused; otherwise the player with
     * the trimmed name and the given id is saved, and on success appended to
     * the known players with the name field and the error cleared.
     */
    method CreatePlayer(id: string, store: Store, writeOk: bool)
      requires Valid()
      modifies this`players, this`newPlayerName, this`error, store
      ensures Valid() && selected == old(selected)
      ensures AllSpace(old(newPlayerName)) ==>
        && error == EmptyName && players == old(players) && newPlayerName == old(newPlayerName)
        && store.playersItem == old(store.playersItem) && store.gamesItem == old(store.gamesItem)
      ensures !AllSpace(old(newPlayerName)) && writeOk ==>
        && players == old(players) + [Player(id, Trim(old(newPlayerName)))]
        && newPlayerName == "" && error == ""
        && store.GetPlayers() == Upsert(old(store.GetPlayers()), Player(id, Trim(old(newPlayerName))), PlayerId)
        && store.gamesItem == old(store.gamesItem)
      ensures !AllSpace(old(newPlayerName)) && !writeOk ==>
        && error == CreatePlayerFailed && players == old(players) && newPlayerName == old(newPlayerName)
        && store.playersItem == old(store.playersItem) && store.gamesItem == old(store.gamesItem)
    {
      var name := Trim(newPlayerName);
      TrimBlank(newPlayerName);
      if name == [] {
        error := EmptyName;
        return;
      }
      var player := Player(id, name);
      var ok := store.SavePlayer(player, writeOk);
      if !ok {
        error := CreatePlayerFailed;
        return;
      }
      players := players + [player];
      newPlayerName := "";
      error := "";
    }

    /**
     * `handleCreateGame`: refused unless every one of the `playerCount` slots
     * is filled; otherwise the new game is saved and returned (the screen then
     * navigates to it).
     */
    method CreateGame(id: string, createdAt: string, updatedAt: string, store: Store, writeOk: bool)
      returns (started: Option<Game>)
      requires Valid()
      modifies this`error, store
      ensures started.Some? <==> Complete(selected, playerCount) && writeOk
      ensures started.Some? ==>
        && started == MakeGame(selected, playerCount, id, createdAt, updatedAt)
        && store.GetGame(id) == started
        && store.gamesItem == Some(Upsert(old(store.GetGames()), started.value, GameId))
        && store.playersItem == old(store.playersItem)
        && (forall other :: other != id ==> store.GetGame(other) == old(store.GetGame(other)))
        && DistinctKeys(started.value.players, PlayerId)
        && error == old(error)
      ensures !Complete(selected, playerCount) ==>
        && error == IncompleteSelection
        && store.playersItem == old(store.playersItem) && store.gamesItem == old(store.gamesItem)
      ensures Complete(selected, playerCount) && !writeOk ==>
        && error == CreateGameFailed
        && store.playersItem == old(store.playersItem) && store.gamesItem == old(store.gamesItem)
    {
      var game := MakeGame(selected, playerCount, id, createdAt, updatedAt);
      if game.None? {
        error := IncompleteSelection;
        return None;
      }
      MakeGameDistinctPlayers(selected, playerCount, id, createdAt, updatedAt);
      var ok := store.SaveGame(game.value, writeOk);
      if !ok {
        error := CreateGameFailed;
        return None;
      }
      started := game;
    }
  }
}
