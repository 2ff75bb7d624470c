/**
 * Consequences of the wrapped neighbour lookup on small and full grids: when
 * an agent counts itself, when every neighbour cell is occupied, and the
 * one-agent world on a single cell.
 */
module Scenarios {
  import opened Grid
  import opened Agents

  /** On an axis of length at least 2, a step of -1 or +1 never wraps back to the start. */
  lemma StepMoves(y: int, d: int, n: int)
    requires n >= 2 && 0 <= y < n && (d == -1 || d == 1)
    ensures (y + d) % n != y
  {
    if d == 1 && y + 1 < n {
      RemainderUnique(y + 1, n, 0, y + 1);
    } else if d == 1 {
      RemainderUnique(y + 1, n, 1, 0);
    } else if y > 0 {
      RemainderUnique(y - 1, n, 0, y - 1);
    } else {
      RemainderUnique(y - 1, n, -1, n - 1);
    }
  }

  /** With both dimensions at least 2, no wrapped neighbour coordinate is the cell itself. */
  lemma NeighborCellsAvoidSelf(loc: Cell, size0: int, size1: int)
    requires size0 >= 2 && size1 >= 2 && InRange(loc, size0, size1)
    ensures forall k :: 0 <= k < 8 ==> NeighborCells(loc, size0, size1)[k] != loc
  {
    var cells := NeighborCells(loc, size0, size1);
    forall k | 0 <= k < 8
      ensures cells[k] != loc
    {
      var o := Offsets[k];
      assert cells[k] == ((loc.0 + o.0) % size0, (loc.1 + o.1) % size1);
      if o.0 != 0 {
        StepMoves(loc.0, o.0, size0);
      } else {
        StepMoves(loc.1, o.1, size1);
      }
    }
  }

  /**
   * With both dimensions at least 2, an agent is never its own neighbour;
   * on a grid with a dimension of 1 this fails (see `SingleCellSelfNeighbors`).
   */
  lemma NotOwnNeighbor(grid: Occupancy, agents: seq<Agent>, size0: int, size1: int, a: nat)
    requires Consistent(grid, agents, size0, size1)
    requires a < |agents| && agents[a].location.Some?
    requires size0 >= 2 && size1 >= 2
    ensures a !in NeighborsOf(grid, agents, size0, size1, a)
  {
    var loc := agents[a].location.value;
    var cells := NeighborCells(loc, size0, size1);
    NeighborCellsAvoidSelf(loc, size0, size1);
    assert forall k :: 0 <= k < 8 ==> grid[cells[k]] != Some(a);
  }

  /** When every cell is occupied, every placed agent has exactly eight neighbours. */
  lemma FullGridEightNeighbors(grid: Occupancy, agents: seq<Agent>, size0: int, size1: int, a: nat)
    requires Consistent(grid, agents, size0, size1)
    requires a < |agents| && agents[a].location.Some?
    requires forall c :: c in grid ==> grid[c].Some?
    ensures |NeighborsOf(grid, agents, size0, size1, a)| == 8
  {
    var loc := agents[a].location.value;
    var cells := NeighborCells(loc, size0, size1);
    OccupantsAllOccupied(grid, cells);
  }

  /**
   * On a full grid, an agent whose preference is at most 0 is happy: it has
   * eight neighbours and any same-kind fraction reaches the preference.
   */
  lemma FullGridZeroPreferenceHappy(grid: Occupancy, agents: seq<Agent>, size0: int, size1: int, a: nat)
    requires Consistent(grid, agents, size0, size1)
    requires a < |agents| && agents[a].location.Some? && agents[a].samePref <= 0.0
    requires forall c :: c in grid ==> grid[c].Some?
    ensures IsHappy(grid, agents, size0, size1, a)
  {
    FullGridEightNeighbors(grid, agents, size0, size1, a);
    ZeroPreferenceHappy(grid, agents, size0, size1, a);
  }

  /** The grid of one cell holding agent 0. */
  function LoneGrid(): (g: Occupancy)
    ensures Shaped(g, 1, 1) && g[(0, 0)] == Some(0)
  {
    map[(0, 0) := Some(0)]
  }

  /** The agent table of one agent standing on cell (0, 0). */
  function LoneAgents(kind: Kind, samePref: real): (r: seq<Agent>)
    ensures |r| == 1 && r[0] == Agent(kind, samePref, Some((0, 0)))
    ensures Consistent(LoneGrid(), r, 1, 1)
  {
    [Agent(kind, samePref, Some((0, 0)))]
  }

  /**
   * A single agent on a 1 x 1 grid: every one of the eight wrapped neighbour
   * coordinates is its own cell, so it is listed as its own neighbour eight
   * times, all of its own kind; it is happy exactly when its preference is at
   * most 1, and there is no vacancy for it to move to.
   */
  lemma SingleCellSelfNeighbors(kind: Kind, samePref: real)
    ensures NeighborsOf(LoneGrid(), LoneAgents(kind, samePref), 1, 1, 0) == [0, 0, 0, 0, 0, 0, 0, 0]
    ensures IsHappy(LoneGrid(), LoneAgents(kind, samePref), 1, 1, 0) <==> samePref <= 1.0
    ensures FindVacant(LoneGrid(), 1, 1) == []
  {
    var agents := LoneAgents(kind, samePref);
    LoneNeighbors(agents);
    var nb := NeighborsOf(LoneGrid(), agents, 1, 1, 0);
    assert SameKindCount(agents, nb, kind) == 8;
    HappyIff(LoneGrid(), agents, 1, 1, 0);
    LoneNoVacancy();
  }

  /** On the 1 x 1 grid the agent on (0, 0) is each of its own eight neighbours. */
  lemma LoneNeighbors(agents: seq<Agent>)
    requires Consistent(LoneGrid(), agents, 1, 1) && |agents| == 1 && agents[0].location == Some((0, 0))
    ensures NeighborsOf(LoneGrid(), agents, 1, 1, 0) == [0, 0, 0, 0, 0, 0, 0, 0]
  {
    var cells := NeighborCells((0, 0), 1, 1);
    assert forall k :: 0 <= k < 8 ==> cells[k] == (0, 0);
    OccupantsAllOccupied(LoneGrid(), cells);
  }

  /** The full 1 x 1 grid has no vacancy. */
  lemma LoneNoVacancy()
    ensures FindVacant(LoneGrid(), 1, 1) == []
  {
    var vacant := FindVacant(LoneGrid(), 1, 1);
    assert forall c :: c !in vacant;
  }
}
