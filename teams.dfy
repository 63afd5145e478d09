/**
 * The team badge of each player slot on the new-game screen, as a function of
 * the chosen player count and the slot index.
 */
module Teams {
  /** `getTeamNumber`: 1 or 2 for a team, 0 for a solo slot. */
  function TeamNumber(count: int, index: int): (t: nat)
    ensures t <= 2
    ensures t == 0 <==> count != 2 && count != 4
  {
    if count == 2 then (if index == 0 then 1 else 2)
    else if count == 3 then 0
    else if count == 4 then (if index % 2 == 0 then 1 else 2)
    else 0
  }

  /** `getTeamLabel`: "Solo" for team 0, otherwise "Team " and the team number. */
  function TeamLabel(count: int, index: int): (l: string)
    ensures l == "Solo" <==> TeamNumber(count, index) == 0
    ensures l != "Solo" ==> l == "Team " + [('0' as int + TeamNumber(count, index)) as char]
  {
    var t := TeamNumber(count, index);
    if t == 0 then "Solo" else "Team " + [('0' as int + t) as char]
  }

  /** The slots of a `count`-player game that carry team number `t`. */
  function Members(count: nat, t: nat): set<nat>
  {
    set i: nat | i < count && TeamNumber(count, i) == t
  }

  /** Two players: slot 0 is team 1 and slot 1 is team 2. */
  lemma TwoPlayerTeams()
    ensures Members(2, 1) == {0} && Members(2, 2) == {1}
  {
    assert 0 in Members(2, 1) && 1 in Members(2, 2);
  }

  /** Four players: even slots against odd slots, {0, 2} versus {1, 3}. */
  lemma FourPlayerTeams()
    ensures Members(4, 1) == {0, 2} && Members(4, 2) == {1, 3}
  {
    assert 0 in Members(4, 1) && 2 in Members(4, 1);
    assert 1 in Members(4, 2) && 3 in Members(4, 2);
  }

  /** Four players: two slots are teammates exactly when they have the same parity. */
  lemma FourPlayerTeammates(i: int, j: int)
    ensures TeamNumber(4, i) == TeamNumber(4, j) <==> i % 2 == j % 2
  {
  }

  /** Three players, or any count other than 2 and 4: every slot is labelled "Solo". */
  lemma SoloCounts(count: int, index: int)
    requires count != 2 && count != 4
    ensures TeamLabel(count, index) == "Solo"
  {
  }

  /** For 2 and 4 players every slot shows "Team 1" or "Team 2". */
  lemma TeamCounts(count: int, index: int)
    requires count == 2 || count == 4
    ensures TeamLabel(count, index) == "Team 1" || TeamLabel(count, index) == "Team 2"
  {
  }
}
