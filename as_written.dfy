/**
 * The setup screen's selection as the JavaScript array actually behaves, kept
 * apart from the intended model in `NewGame` for the two places where the two
 * differ: a slot can be a hole (never assigned), an explicit `undefined` (a
 * hole copied by `[...selectedPlayers]`), or a player.
 */
module AsWritten {
  import opened Wrappers
  import opened Storage
  import NewGame

  datatype Slot = Hole | Undefined | Filled(player: Player)

  /** A handler either returns or throws a TypeError (`p.id` on `undefined`). */
  datatype Outcome<T> = Returned(value: T) | TypeError

  /** Copying an array by spreading visits every index, so a hole becomes `undefined`. */
  function Spread(s: seq<Slot>): (t: seq<Slot>)
    ensures |t| == |s|
    ensures forall i :: 0 <= i < |t| ==> !t[i].Hole?
    ensures forall i :: 0 <= i < |s| ==> t[i] == (if s[i].Hole? then Undefined else s[i])
  {
    seq(|s|, i requires 0 <= i < |s| => if s[i].Hole? then Undefined else s[i])
  }

  /** Assigning one index: past the end the array grows and the gap is left as holes. */
  function Assign(s: seq<Slot>, index: nat, p: Player): (t: seq<Slot>)
    ensures |t| == if index < |s| then |s| else index + 1
    ensures t[index] == Filled(p)
    ensures forall i :: 0 <= i < |s| && i != index ==> t[i] == s[i]
    ensures forall i :: |s| <= i < index ==> t[i] == Hole
  {
    if index < |s| then s[index := Filled(p)]
    else s + seq(index - |s|, _ => Hole) + [Filled(p)]
  }

  /**
   * The duplicate test of the select handler from position `from` on: does a
   * slot other than `index` hold a player with this id? Array `some` skips
   * holes, and reading the id of an `undefined` slot other than `index` throws.
   */
  function SomeFrom(s: seq<Slot>, index: nat, id: string, from: nat): (r: Outcome<bool>)
    ensures r == Returned(true) ==>
      exists i :: from <= i < |s| && i != index && s[i].Filled? && s[i].player.id == id
    ensures r == Returned(false) ==>
      forall i :: from <= i < |s| && i != index && s[i].Filled? ==> s[i].player.id != id
    ensures r == TypeError <==>
      exists i :: from <= i < |s| && i != index && s[i].Undefined?
        && forall j :: from <= j < i && j != index && s[j].Filled? ==> s[j].player.id != id
    decreases |s| - from
  {
    if from >= |s| then Returned(false)
    else match s[from]
      case Hole => SomeFrom(s, index, id, from + 1)
      case Undefined =>
        if from != index then TypeError else SomeFrom(s, index, id, from + 1)
      case Filled(q) =>
        if from != index && q.id == id then Returned(true) else SomeFrom(s, index, id, from + 1)
  }

  /** `handleSelectPlayer` as written: the new selection, `None` when refused, or a TypeError. */
  function SelectAsWritten(s: seq<Slot>, index: nat, p: Player): (r: Outcome<Option<seq<Slot>>>)
    ensures r.Returned? && r.value.Some? ==>
      && |r.value.value| == (if index < |s| then |s| else index + 1)
      && r.value.value[index] == Filled(p)
      && (forall i :: 0 <= i < |s| && i != index && !s[i].Hole? ==> r.value.value[i] == s[i])
      && (forall i :: 0 <= i < |s| && i != index && s[i].Hole? ==> r.value.value[i] == Undefined)
      && (forall i :: |s| <= i < index ==> r.value.value[i] == Hole)
  {
    match SomeFrom(s, index, p.id, 0)
    case TypeError => TypeError
    case Returned(taken) =>
      if taken then Returned(None) else Returned(Some(Assign(Spread(s), index, p)))
  }

  /** What the intended model sees: holes and `undefined` are both empty slots. */
  function View(s: seq<Slot>): (v: NewGame.Selection)
    ensures |v| == |s|
    ensures forall i :: 0 <= i < |s| ==> (v[i].Some? <==> s[i].Filled?)
    ensures forall i :: 0 <= i < |s| && s[i].Filled? ==> v[i] == Some(s[i].player)
  {
    seq(|s|, i requires 0 <= i < |s| => if s[i].Filled? then Some(s[i].player) else None)
  }

  /** Without `undefined` slots, `some` returns, and says whether another slot holds the id. */
  lemma {:induction false} SomeFromWithoutUndefined(s: seq<Slot>, index: nat, id: string, from: nat)
    requires forall i :: 0 <= i < |s| ==> !s[i].Undefined?
    ensures SomeFrom(s, index, id, from) ==
      Returned(exists i :: from <= i < |s| && i != index && s[i].Filled? && s[i].player.id == id)
    decreases |s| - from
  {
    if from < |s| {
      SomeFromWithoutUndefined(s, index, id, from + 1);
    }
  }

  /**
   * As long as no slot is `undefined`, the handler as written never throws and
   * agrees with the intended `NewGame.Select`.
   */
  lemma AgreesWithoutUndefined(s: seq<Slot>, index: nat, p: Player)
    requires forall i :: 0 <= i < |s| ==> !s[i].Undefined?
    ensures SelectAsWritten(s, index, p).Returned?
    ensures SelectAsWritten(s, index, p).value.None? <==> NewGame.Select(View(s), index, p).None?
    ensures SelectAsWritten(s, index, p).value.Some? ==>
      View(SelectAsWritten(s, index, p).value.value) == NewGame.Select(View(s), index, p).value
  {
    SomeFromWithoutUndefined(s, index, p.id, 0);
    var taken := exists i :: 0 <= i < |s| && i != index && s[i].Filled? && s[i].player.id == p.id;
    assert taken <==> NewGame.TakenElsewhere(View(s), index, p.id) by {
      if NewGame.TakenElsewhere(View(s), index, p.id) {
        var i :| 0 <= i < |s| && i != index && View(s)[i].Some? && View(s)[i].value.id == p.id;
        assert s[i].Filled? && s[i].player.id == p.id;
      }
    }
    if !taken {
      var t := Assign(Spread(s), index, p);
      var u := NewGame.Select(View(s), index, p).value;
      assert |View(t)| == |u|;
      forall i | 0 <= i < |u| ensures View(t)[i] == u[i] {
        if i != index && i < |s| {
          assert t[i] == Spread(s)[i];
        }
      }
    }
  }

  /**
   * The TypeError, for three players: choose slot 2, then slot 1 (the copy
   * turns the hole at slot 0 into `undefined`), then slot 2 again: `some`
   * reaches the `undefined` slot 0 and reads `.id` of it. The intended model
   * accepts that last choice.
   */
  lemma ReselectThrows()
    ensures var a, b, c := Player("a", "Ann"), Player("b", "Bob"), Player("c", "Cas");
      && SelectAsWritten([], 2, a) == Returned(Some([Hole, Hole, Filled(a)]))
      && SelectAsWritten([Hole, Hole, Filled(a)], 1, b) == Returned(Some([Undefined, Filled(b), Filled(a)]))
      && SelectAsWritten([Undefined, Filled(b), Filled(a)], 2, c) == TypeError
      && NewGame.Select(View([Undefined, Filled(b), Filled(a)]), 2, c).Some?
  {
    var a, b, c := Player("a", "Ann"), Player("b", "Bob"), Player("c", "Cas");
    assert Spread([]) == [];
    assert Assign([], 2, a) == [Hole, Hole, Filled(a)];
    assert a.id != b.id by { assert a.id[0] != b.id[0]; }
    assert SomeFrom([Hole, Hole, Filled(a)], 1, b.id, 2) == Returned(false);
    assert SomeFrom([Hole, Hole, Filled(a)], 1, b.id, 0) == Returned(false);
    assert Spread([Hole, Hole, Filled(a)]) == [Undefined, Undefined, Filled(a)];
    assert Assign([Undefined, Undefined, Filled(a)], 1, b) == [Undefined, Filled(b), Filled(a)];
    assert !NewGame.TakenElsewhere(View([Undefined, Filled(b), Filled(a)]), 2, c.id);
  }

  /**
   * The menu entries' `disabled` test runs the same `some` for every slot and
   * every known player whenever the screen renders. After the first choice
   * (`[hole, hole, a]`) it returns for every slot; after the second
   * (`[undefined, b, a]`) it throws for slots 1 and 2 whatever player it tests,
   * so the screen already fails at that render.
   */
  lemma RenderThrowsAfterSecondChoice(x: Player, k: nat)
    ensures var a, b := Player("a", "Ann"), Player("b", "Bob");
      && SomeFrom([Hole, Hole, Filled(a)], k, x.id, 0).Returned?
      && SomeFrom([Undefined, Filled(b), Filled(a)], 1, x.id, 0) == TypeError
      && SomeFrom([Undefined, Filled(b), Filled(a)], 2, x.id, 0) == TypeError
  {
  }

  /** The guard of `handleCreateGame` as written: only the array length is compared with the count. */
  function CreateGuardAsWritten(s: seq<Slot>, count: int): (pass: bool)
    ensures NewGame.Complete(View(s), count) ==> pass
  {
    |s| == count
  }

  /**
   * The guard lets an incomplete selection through: with two players, choosing
   * only slot 1 gives `[hole, p]`, whose length is 2. The intended check
   * `NewGame.Complete` refuses it.
   */
  lemma IncompleteSelectionPasses(p: Player)
    ensures Assign([], 1, p) == [Hole, Filled(p)]
    ensures CreateGuardAsWritten(Assign([], 1, p), 2)
    ensures !NewGame.Complete(View(Assign([], 1, p)), 2)
    ensures NewGame.MakeGame(View(Assign([], 1, p)), 2, "g", "t0", "t0").None?
  {
    assert View(Assign([], 1, p))[0] == None;
  }
}
