/**
 * Agents of the simulation and the rules that concern one agent: its kind,
 * its happiness on the current grid, and the relocation a move performs.
 * Agents are identified by their index in the world's agent table; the grid
 * stores those indices.
 */
module Agents {
  import opened Grid

  datatype Kind = Red | Blue

  /** One agent: its kind, its same-kind preference, and its cell once placed. */
  datatype Agent = Agent(kind: Kind, samePref: real, location: Option<Cell>)

  /** The kind given to agent `i` of `numAgents`: the first half (rounded down) are red. */
  function InitialKind(i: nat, numAgents: nat): (r: Kind) {
    if i < numAgents / 2 then Red else Blue
  }

  /** The agents as created, none of them placed yet. */
  function InitialAgents(numAgents: nat, samePref: real): (r: seq<Agent>)
    ensures |r| == numAgents
    ensures forall i :: 0 <= i < numAgents ==>
      r[i].kind == InitialKind(i, numAgents) && r[i].samePref == samePref && r[i].location == None
  {
    seq(numAgents, i requires 0 <= i < numAgents => Agent(InitialKind(i, numAgents), samePref, None))
  }

  function Kinds(agents: seq<Agent>): (r: seq<Kind>)
    ensures |r| == |agents| && forall i :: 0 <= i < |agents| ==> r[i] == agents[i].kind
  {
    seq(|agents|, i requires 0 <= i < |agents| => agents[i].kind)
  }

  function Repeat(k: Kind, n: nat): (r: seq<Kind>)
    ensures |r| == n && forall i :: 0 <= i < n ==> r[i] == k
  {
    seq(n, _ => k)
  }

  lemma {:induction false} RepeatCount(k: Kind, n: nat)
    ensures multiset(Repeat(k, n))[k] == n
    ensures forall other :: other != k ==> multiset(Repeat(k, n))[other] == 0
  {
    if n > 0 {
      RepeatCount(k, n - 1);
      assert Repeat(k, n) == Repeat(k, n - 1) + [k];
    }
  }

  /**
   * The kind split: of `numAgents` new agents, `numAgents / 2` are red and
   * the rest, one more than the red ones when the count is odd, are blue.
   */
  lemma KindSplit(numAgents: nat, samePref: real)
    ensures multiset(Kinds(InitialAgents(numAgents, samePref)))[Red] == numAgents / 2
    ensures multiset(Kinds(InitialAgents(numAgents, samePref)))[Blue] == numAgents - numAgents / 2
  {
    var half := numAgents / 2;
    assert Kinds(InitialAgents(numAgents, samePref)) == Repeat(Red, half) + Repeat(Blue, numAgents - half);
    RepeatCount(Red, half);
    RepeatCount(Blue, numAgents - half);
  }

  /** Two agent tables describe the same population: same agents, same kinds and preferences. */
  ghost predicate SamePopulation(xs: seq<Agent>, ys: seq<Agent>) {
    Traits(xs) == Traits(ys)
  }

  /** The kind and preference of each agent, which no operation changes. */
  function Traits(agents: seq<Agent>): (r: seq<(Kind, real)>)
    ensures |r| == |agents| && forall i :: 0 <= i < |agents| ==> r[i] == (agents[i].kind, agents[i].samePref)
  {
    seq(|agents|, i requires 0 <= i < |agents| => (agents[i].kind, agents[i].samePref))
  }

  /**
   * The grid and the agents' locations agree in both directions: the grid
   * covers exactly the rectangle, every occupant is an agent whose location
   * is that cell, and every placed agent is the occupant of its location.
   */
  ghost predicate Consistent(grid: Occupancy, agents: seq<Agent>, size0: int, size1: int) {
    && Shaped(grid, size0, size1)
    && (forall c :: c in grid && grid[c].Some? ==>
          grid[c].value < |agents| && agents[grid[c].value].location == Some(c))
    && (forall a :: 0 <= a < |agents| && agents[a].location.Some? ==>
          agents[a].location.value in grid && grid[agents[a].location.value] == Some(a))
  }

  /** Two distinct placed agents never share a cell. */
  lemma PlacedAgentsApart(grid: Occupancy, agents: seq<Agent>, size0: int, size1: int, a: nat, b: nat)
    requires Consistent(grid, agents, size0, size1)
    requires a < |agents| && b < |agents| && a != b
    requires agents[a].location.Some? && agents[b].location.Some?
    ensures agents[a].location != agents[b].location
  {
  }

  /** No vacancy is the location of a placed agent. */
  lemma VacanciesUnoccupied(grid: Occupancy, agents: seq<Agent>, size0: nat, size1: nat, a: nat)
    requires Consistent(grid, agents, size0, size1)
    requires a < |agents| && agents[a].location.Some?
    ensures agents[a].location.value !in FindVacant(grid, size0, size1)
  {
  }

  /** The number of same-kind agents among `neighbors`. */
  function SameKindCount(agents: seq<Agent>, neighbors: seq<nat>, kind: Kind): (r: nat)
    requires forall i :: 0 <= i < |neighbors| ==> neighbors[i] < |agents|
    ensures r <= |neighbors|
    ensures r == |neighbors| <==> forall i :: 0 <= i < |neighbors| ==> agents[neighbors[i]].kind == kind
    ensures r == 0 <==> forall i :: 0 <= i < |neighbors| ==> agents[neighbors[i]].kind != kind
    decreases |neighbors|
  {
    if neighbors == [] then 0
    else
      var init, last := neighbors[..|neighbors| - 1], neighbors[|neighbors| - 1];
      assert forall i :: 0 <= i < |init| ==> init[i] == neighbors[i];
      SameKindCount(agents, init, kind) + if agents[last].kind == kind then 1 else 0
  }

  /** The positions of `neighbors` whose agent is of kind `kind`. */
  ghost function SameKindPositions(agents: seq<Agent>, neighbors: seq<nat>, kind: Kind): set<nat>
    requires forall i :: 0 <= i < |neighbors| ==> neighbors[i] < |agents|
  {
    set i: nat | i < |neighbors| && agents[neighbors[i]].kind == kind
  }

  /** The count is the number of positions in the list whose agent shares the kind. */
  lemma {:induction false} SameKindCountSize(agents: seq<Agent>, neighbors: seq<nat>, kind: Kind)
    requires forall i :: 0 <= i < |neighbors| ==> neighbors[i] < |agents|
    ensures SameKindCount(agents, neighbors, kind) == |SameKindPositions(agents, neighbors, kind)|
    decreases |neighbors|
  {
    if neighbors == [] {
      assert SameKindPositions(agents, neighbors, kind) == {};
    } else {
      var n := |neighbors| - 1;
      SameKindCountSize(agents, neighbors[..n], kind);
      PositionsOfLast(agents, neighbors, kind);
      SizeStep(SameKindPositions(agents, neighbors[..n], kind), n, agents[neighbors[n]].kind == kind);
    }
  }

  /** How the same-kind positions grow when one more neighbour is listed. */
  lemma PositionsOfLast(agents: seq<Agent>, neighbors: seq<nat>, kind: Kind)
    requires |neighbors| > 0 && forall i :: 0 <= i < |neighbors| ==> neighbors[i] < |agents|
    ensures var n := |neighbors| - 1; var init := neighbors[..n];
      && SameKindCount(agents, neighbors, kind) ==
         SameKindCount(agents, init, kind) + (if agents[neighbors[n]].kind == kind then 1 else 0)
      && n !in SameKindPositions(agents, init, kind)
      && SameKindPositions(agents, neighbors, kind) ==
         SameKindPositions(agents, init, kind) + (if agents[neighbors[n]].kind == kind then {n} else {})
  {
    var n := |neighbors| - 1;
    var init := neighbors[..n];
    assert forall i :: 0 <= i < n ==> init[i] == neighbors[i];
  }

  /** Adding `n`, when `b` holds, to a set without it adds one to its size. */
  lemma SizeStep(s: set<nat>, n: nat, b: bool)
    requires n !in s
    ensures |s + if b then {n} else {}| == |s| + if b then 1 else 0
  {
  }

  /** Counting one more neighbour adds one exactly when it shares the kind. */
  lemma SameKindCountAppend(agents: seq<Agent>, neighbors: seq<nat>, x: nat, kind: Kind)
    requires forall i :: 0 <= i < |neighbors| ==> neighbors[i] < |agents|
    requires x < |agents|
    ensures SameKindCount(agents, neighbors + [x], kind) ==
            SameKindCount(agents, neighbors, kind) + if agents[x].kind == kind then 1 else 0
  {
    assert (neighbors + [x])[..|neighbors|] == neighbors;
  }

  /** The indices of `cells` holding an agent of kind `kind`. */
  ghost function SameKindCells(grid: Occupancy, agents: seq<Agent>, cells: seq<Cell>, kind: Kind): set<nat>
    requires forall k :: 0 <= k < |cells| ==> cells[k] in grid
    requires forall c :: c in grid && grid[c].Some? ==> grid[c].value < |agents|
  {
    set k: nat | k < |cells| && grid[cells[k]].Some? && agents[grid[cells[k]].value].kind == kind
  }

  /** Every occupant of `cells` is an agent of the table. */
  lemma OccupantsInTable(grid: Occupancy, agents: seq<Agent>, cells: seq<Cell>)
    requires forall k :: 0 <= k < |cells| ==> cells[k] in grid
    requires forall c :: c in grid && grid[c].Some? ==> grid[c].value < |agents|
    ensures forall i :: 0 <= i < |Occupants(grid, cells)| ==> Occupants(grid, cells)[i] < |agents|
  {
    var r := Occupants(grid, cells);
    forall i | 0 <= i < |r| ensures r[i] < |agents| {
      assert r[i] in r;
      assert OccupiesOneOf(grid, cells, r[i]);
    }
  }

  /**
   * The same-kind count of the occupants of `cells` is the number of cells
   * that hold an agent of that kind.
   */
  lemma {:induction false} SameKindOccupants(grid: Occupancy, agents: seq<Agent>, cells: seq<Cell>, kind: Kind)
    requires forall k :: 0 <= k < |cells| ==> cells[k] in grid
    requires forall c :: c in grid && grid[c].Some? ==> grid[c].value < |agents|
    ensures (OccupantsInTable(grid, agents, cells);
      SameKindCount(agents, Occupants(grid, cells), kind) == |SameKindCells(grid, agents, cells, kind)|)
    decreases |cells|
  {
    OccupantsInTable(grid, agents, cells);
    if cells == [] {
      assert SameKindCells(grid, agents, cells, kind) == {};
    } else {
      var n := |cells| - 1;
      var init := cells[..n];
      SameKindOccupants(grid, agents, init, kind);
      OccupantsInTable(grid, agents, init);
      OccupantsOfLast(grid, cells);
      var last := grid[cells[n]];
      if last.Some? {
        SameKindCountAppend(agents, Occupants(grid, init), last.value, kind);
      }
      CellsOfLast(grid, agents, cells, kind);
      SizeStep(SameKindCells(grid, agents, init, kind), n, last.Some? && agents[last.value].kind == kind);
    }
  }

  /** How the same-kind cell indices grow when one more cell is listed. */
  lemma CellsOfLast(grid: Occupancy, agents: seq<Agent>, cells: seq<Cell>, kind: Kind)
    requires |cells| > 0 && forall k :: 0 <= k < |cells| ==> cells[k] in grid
    requires forall c :: c in grid && grid[c].Some? ==> grid[c].value < |agents|
    ensures var n := |cells| - 1; var init := cells[..n]; var last := grid[cells[n]];
      && n !in SameKindCells(grid, agents, init, kind)
      && SameKindCells(grid, agents, cells, kind) ==
         SameKindCells(grid, agents, init, kind) +
           (if last.Some? && agents[last.value].kind == kind then {n} else {})
  {
    var n := |cells| - 1;
    var init := cells[..n];
    assert forall k :: 0 <= k < n ==> init[k] == cells[k];
  }

  /** `get_neighbors` at the location of agent `a`; every entry is an agent of the table. */
  function NeighborsOf(grid: Occupancy, agents: seq<Agent>, size0: int, size1: int, a: nat): (r: seq<nat>)
    requires Consistent(grid, agents, size0, size1)
    requires a < |agents| && agents[a].location.Some?
    ensures forall i :: 0 <= i < |r| ==> r[i] < |agents|
  {
    var loc := agents[a].location.value;
    var r := Neighbors(grid, size0, size1, loc);
    assert forall i :: 0 <= i < |r| ==> r[i] in r;
    r
  }

  /**
   * The decision of `am_i_happy` once the neighbours are counted: no
   * neighbour means unhappy, whatever the preference; otherwise happy
   * exactly when the same-kind fraction reaches the preference, equality
   * included.
   */
  function MeetsPreference(same: nat, total: nat, pref: real): (r: bool)
    ensures r <==> total > 0 && Reaches(same, total, pref)
  {
    if total == 0 then false
    else
      FractionAtLeast(same, total, pref);
      Fraction(same, total) >= pref
  }

  /** `same` is at least the fraction `pref` of `total`, without division. */
  predicate Reaches(same: nat, total: nat, pref: real) {
    same as real >= pref * (total as real)
  }

  /** `same / total` in exact arithmetic. */
  function Fraction(same: nat, total: nat): (r: real)
    requires total > 0
  {
    (same as real) / (total as real)
  }

  lemma FractionAtLeast(same: nat, total: nat, pref: real)
    requires total > 0
    ensures Fraction(same, total) >= pref <==> Reaches(same, total, pref)
  {
    var f, t := Fraction(same, total), total as real;
    assert same as real == f * t;
    if f >= pref {
      assert f * t >= pref * t;
    } else {
      assert f * t < pref * t;
    }
  }

  /**
   * `am_i_happy` for agent `a` on the current grid: unhappy with an empty
   * neighbour list, otherwise happy exactly when at least `samePref` of the
   * list shares its kind.
   */
  function IsHappy(grid: Occupancy, agents: seq<Agent>, size0: int, size1: int, a: nat): (r: bool)
    requires Consistent(grid, agents, size0, size1)
    requires a < |agents| && agents[a].location.Some?
  {
    var nb := NeighborsOf(grid, agents, size0, size1, a);
    MeetsPreference(SameKindCount(agents, nb, agents[a].kind), |nb|, agents[a].samePref)
  }

  /**
   * What `am_i_happy` decides: an agent is happy exactly when its neighbour
   * list is non-empty and the same-kind count reaches `samePref` times its
   * length.
   */
  lemma HappyIff(grid: Occupancy, agents: seq<Agent>, size0: int, size1: int, a: nat)
    requires Consistent(grid, agents, size0, size1)
    requires a < |agents| && agents[a].location.Some?
    ensures var nb := NeighborsOf(grid, agents, size0, size1, a);
      IsHappy(grid, agents, size0, size1, a) <==>
        |nb| > 0 && Reaches(SameKindCount(agents, nb, agents[a].kind), |nb|, agents[a].samePref)
    ensures var nb := NeighborsOf(grid, agents, size0, size1, a);
      IsHappy(grid, agents, size0, size1, a) <==>
        |nb| > 0 && Reaches(|SameKindPositions(agents, nb, agents[a].kind)|, |nb|, agents[a].samePref)
  {
    var nb := NeighborsOf(grid, agents, size0, size1, a);
    assert IsHappy(grid, agents, size0, size1, a) == MeetsPreference(SameKindCount(agents, nb, agents[a].kind), |nb|, agents[a].samePref);
    SameKindCountSize(agents, nb, agents[a].kind);
  }

  /**
   * `am_i_happy` read off the eight wrapped neighbour cells: an agent is
   * happy exactly when some neighbour cell is occupied and the cells holding
   * an agent of its kind are at least `samePref` of the occupied ones. An
   * agent reached through several offsets counts once per offset.
   */
  lemma HappyByOffsets(grid: Occupancy, agents: seq<Agent>, size0: int, size1: int, a: nat)
    requires Consistent(grid, agents, size0, size1)
    requires a < |agents| && agents[a].location.Some?
    ensures var cells := NeighborCells(agents[a].location.value, size0, size1);
      IsHappy(grid, agents, size0, size1, a) <==>
        && |OccupiedIndices(grid, cells)| > 0
        && Reaches(|SameKindCells(grid, agents, cells, agents[a].kind)|, |OccupiedIndices(grid, cells)|, agents[a].samePref)
  {
    var loc := agents[a].location.value;
    var cells := NeighborCells(loc, size0, size1);
    HappyIff(grid, agents, size0, size1, a);
    NeighborsCount(grid, size0, size1, loc, a);
    SameKindOccupants(grid, agents, cells, agents[a].kind);
  }

  /** An agent without neighbours is unhappy, whatever its preference. */
  lemma LonelyUnhappy(grid: Occupancy, agents: seq<Agent>, size0: int, size1: int, a: nat)
    requires Consistent(grid, agents, size0, size1)
    requires a < |agents| && agents[a].location.Some?
    requires NeighborsOf(grid, agents, size0, size1, a) == []
    ensures !IsHappy(grid, agents, size0, size1, a)
  {
    HappyIff(grid, agents, size0, size1, a);
  }

  /** A same-kind fraction exactly equal to the preference counts as happy. */
  lemma ExactThresholdMeets(same: nat, total: nat)
    requires total > 0
    ensures MeetsPreference(same, total, Fraction(same, total))
  {
  }

  /** A non-positive preference is met by any non-empty neighbour list. */
  lemma NonPositivePreferenceMet(same: nat, total: nat, pref: real)
    requires pref <= 0.0
    ensures MeetsPreference(same, total, pref) <==> total > 0
  {
    assert pref * (total as real) <= 0.0;
  }

  /** Preference 1 is met exactly when every neighbour has the same kind. */
  lemma FullPreferenceMet(same: nat, total: nat)
    requires same <= total
    ensures MeetsPreference(same, total, 1.0) <==> total > 0 && same == total
  {
  }

  /** With a non-positive preference, an agent is happy exactly when it has a neighbour. */
  lemma ZeroPreferenceHappy(grid: Occupancy, agents: seq<Agent>, size0: int, size1: int, a: nat)
    requires Consistent(grid, agents, size0, size1)
    requires a < |agents| && agents[a].location.Some? && agents[a].samePref <= 0.0
    ensures IsHappy(grid, agents, size0, size1, a) <==> |NeighborsOf(grid, agents, size0, size1, a)| > 0
  {
    var nb := NeighborsOf(grid, agents, size0, size1, a);
    NonPositivePreferenceMet(SameKindCount(agents, nb, agents[a].kind), |nb|, agents[a].samePref);
  }

  /**
   * With preference 1, an agent is happy exactly when it has neighbours and
   * all of them share its kind.
   */
  lemma FullPreferenceHappy(grid: Occupancy, agents: seq<Agent>, size0: int, size1: int, a: nat)
    requires Consistent(grid, agents, size0, size1)
    requires a < |agents| && agents[a].location.Some? && agents[a].samePref == 1.0
    ensures var nb := NeighborsOf(grid, agents, size0, size1, a);
      IsHappy(grid, agents, size0, size1, a) <==>
        |nb| > 0 && forall i :: 0 <= i < |nb| ==> agents[nb[i]].kind == agents[a].kind
  {
    var nb := NeighborsOf(grid, agents, size0, size1, a);
    FullPreferenceMet(SameKindCount(agents, nb, agents[a].kind), |nb|);
  }

  /**
   * The relocation of agent `a` to cell `to`: its old cell becomes empty,
   * its location becomes `to`, and `to` holds it.
   */
  function Relocate(grid: Occupancy, agents: seq<Agent>, a: nat, to: Cell): (r: (Occupancy, seq<Agent>))
    requires a < |agents| && agents[a].location.Some?
  {
    (grid[agents[a].location.value := None][to := Some(a)],
     agents[a := agents[a].(location := Some(to))])
  }

  /**
   * Relocating a placed agent to a vacant cell empties its old cell, fills
   * the new one, changes no other cell and no other agent, keeps the number
   * of occupied cells and keeps the grid and the locations consistent.
   */
  lemma RelocateCorrect(grid: Occupancy, agents: seq<Agent>, size0: int, size1: int, a: nat, to: Cell)
    requires Consistent(grid, agents, size0, size1)
    requires a < |agents| && agents[a].location.Some?
    requires to in grid && grid[to] == None
    ensures var from, after := agents[a].location.value, Relocate(grid, agents, a, to);
      && Consistent(after.0, after.1, size0, size1)
      && after.0[from] == None && after.0[to] == Some(a)
      && after.1[a].location == Some(to)
      && (forall c :: c in grid && c != from && c != to ==> after.0[c] == grid[c])
      && (forall i :: 0 <= i < |agents| && i != a ==> after.1[i] == agents[i])
      && SamePopulation(after.1, agents)
      && |OccupiedCells(after.0)| == |OccupiedCells(grid)|
  {
    var from := agents[a].location.value;
    assert from != to;
    RelocationKeepsOccupiedCount(grid, from, to, a);
  }
}
