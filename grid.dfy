/**
 * The world's grid: a map from every coordinate (i, j) of a size0 x size1
 * torus to its occupant, an agent identified by its index in the world's
 * agent table, or to None for an empty cell. This module holds the pure
 * queries over it: the key enumeration, the wrapped neighbour lookup and the
 * vacancy list.
 */
module Grid {

  datatype Option<T> = None | Some(value: T)

  /** A coordinate (i, j); i ranges over size0, j over size1. */
  type Cell = (int, int)

  /** The occupant of each cell. */
  type Occupancy = map<Cell, Option<nat>>

  predicate InRange(c: Cell, size0: int, size1: int) {
    0 <= c.0 < size0 && 0 <= c.1 < size1
  }

  /** Every coordinate of the rectangle has an entry, and no other does. */
  ghost predicate Shaped(grid: Occupancy, size0: int, size1: int) {
    forall c :: c in grid <==> InRange(c, size0, size1)
  }

  /** Row-major order: i first, then j. */
  predicate Before(p: Cell, q: Cell) {
    p.0 < q.0 || (p.0 == q.0 && p.1 < q.1)
  }

  ghost predicate RowMajor(s: seq<Cell>) {
    forall p, q :: 0 <= p < q < |s| ==> Before(s[p], s[q])
  }

  ghost predicate Distinct<T>(s: seq<T>) {
    forall p, q :: 0 <= p < q < |s| ==> s[p] != s[q]
  }

  /** The cells (i, 0), ..., (i, n - 1). */
  function Row(i: int, n: nat): (r: seq<Cell>)
    ensures |r| == n
    ensures forall c :: c in r <==> c.0 == i && 0 <= c.1 < n
    ensures RowMajor(r)
  {
    if n == 0 then [] else Row(i, n - 1) + [(i, n - 1)]
  }

  /**
   * The keys of the grid in the order the dictionary comprehension inserts
   * them (i outer, j inner); a Python dict keeps that order when values are
   * later overwritten, so this is also the order of `list(grid.keys())` and
   * of `grid.items()`.
   */
  function Cells(size0: nat, size1: nat): (r: seq<Cell>)
    ensures |r| == size0 * size1
    ensures forall c :: c in r <==> InRange(c, size0, size1)
    ensures RowMajor(r)
  {
    if size0 == 0 then []
    else
      var prefix, row := Cells(size0 - 1, size1), Row(size0 - 1, size1);
      assert forall p :: 0 <= p < |prefix| ==> prefix[p] in prefix && prefix[p].0 < size0 - 1;
      assert forall q :: 0 <= q < |row| ==> row[q] in row && row[q].0 == size0 - 1;
      assert (size0 - 1) * size1 + size1 == size0 * size1;
      prefix + row
  }

  /** The grid as first built: every cell of the rectangle, all empty. */
  function EmptyGrid(size0: nat, size1: nat): (g: Occupancy)
    ensures Shaped(g, size0, size1)
    ensures forall c :: c in g ==> g[c] == None
  {
    map c | c in Cells(size0, size1) :: None
  }

  /** A sequence with the same elements as the key list is a list of distinct in-range cells. */
  lemma {:induction false} PermutedCells(t: seq<Cell>, size0: nat, size1: nat)
    requires multiset(t) == multiset(Cells(size0, size1))
    ensures |t| == size0 * size1
    ensures forall k :: 0 <= k < |t| ==> InRange(t[k], size0, size1)
    ensures Distinct(t)
  {
    var cells := Cells(size0, size1);
    assert |t| == |multiset(t)| == |multiset(cells)| == |cells|;
    forall k | 0 <= k < |t|
      ensures InRange(t[k], size0, size1)
    {
      assert t[k] in multiset(t);
      assert t[k] in multiset(cells);
    }
    DistinctAtMostOnce(cells);
    forall p, q | 0 <= p < q < |t|
      ensures t[p] != t[q]
    {
      if t[p] == t[q] {
        RepeatedTwice(t, p, q);
        assert false;
      }
    }
  }

  lemma {:induction false} DistinctAtMostOnce(s: seq<Cell>)
    requires RowMajor(s)
    ensures forall x :: multiset(s)[x] <= 1
  {
    if s != [] {
      var init, last := s[..|s| - 1], s[|s| - 1];
      assert s == init + [last];
      DistinctAtMostOnce(init);
      forall k | 0 <= k < |init|
        ensures init[k] != last
      {
        assert Before(s[k], s[|s| - 1]);
      }
      assert last !in init;
      assert multiset(init)[last] == 0;
    }
  }

  lemma RepeatedTwice<T>(t: seq<T>, p: nat, q: nat)
    requires p < q < |t| && t[p] == t[q]
    ensures multiset(t)[t[p]] >= 2
  {
    assert t == t[..q] + [t[q]] + t[q + 1..];
    assert t[p] == t[..q][p];
    assert t[p] in multiset(t[..q]);
  }

  /**
   * The eight offsets (i, j) in {-1, 0, 1}^2 other than (0, 0), in the order
   * of the nested comprehension over i then j.
   */
  const Offsets: seq<(int, int)> :=
    [(-1, -1), (-1, 0), (-1, 1), (0, -1), (0, 1), (1, -1), (1, 0), (1, 1)]

  /**
   * The wrapped position of `c`. Python's `%` floors and Dafny's is
   * Euclidean; for the positive grid dimensions used here they agree.
   */
  function Wrap(c: Cell, size0: int, size1: int): (r: Cell)
    requires size0 > 0 && size1 > 0
    ensures InRange(r, size0, size1)
  {
    (c.0 % size0, c.1 % size1)
  }

  /** The eight wrapped neighbour coordinates of `loc`, in offset order, duplicates kept. */
  function NeighborCells(loc: Cell, size0: int, size1: int): (r: seq<Cell>)
    requires size0 > 0 && size1 > 0
    ensures |r| == |Offsets| == 8
    ensures forall k :: 0 <= k < |r| ==> InRange(r[k], size0, size1)
  {
    seq(|Offsets|, k requires 0 <= k < |Offsets| =>
      Wrap((loc.0 + Offsets[k].0, loc.1 + Offsets[k].1), size0, size1))
  }

  /**
   * Each neighbour coordinate is the in-range cell that differs from
   * loc + offset by whole turns of the torus on each axis (which determines
   * it uniquely).
   */
  lemma NeighborCellsWrapped(loc: Cell, size0: int, size1: int, k: nat)
    requires size0 > 0 && size1 > 0 && k < 8
    ensures var c := NeighborCells(loc, size0, size1)[k];
      && (c.0 - (loc.0 + Offsets[k].0)) % size0 == 0
      && (c.1 - (loc.1 + Offsets[k].1)) % size1 == 0
  {
    WholeTurns(loc.0 + Offsets[k].0, size0);
    WholeTurns(loc.1 + Offsets[k].1, size1);
  }

  lemma WholeTurns(x: int, n: int)
    requires n > 0
    ensures (x % n - x) % n == 0
  {
    var q := x / n;
    assert x % n - x == (-q) * n;
    RemainderUnique(x % n - x, n, -q, 0);
  }

  lemma RemainderUnique(x: int, n: int, q: int, r: int)
    requires n > 0 && 0 <= r < n && x == q * n + r
    ensures x % n == r
  {
    var q', r' := x / n, x % n;
    assert x == q' * n + r';
    assert (q' - q) * n == r - r';
    if q' > q {
      AtLeastOneTurn(q' - q, n);
    } else if q' < q {
      AtLeastOneTurn(q - q', n);
    }
  }

  lemma {:induction false} AtLeastOneTurn(d: int, n: int)
    requires d >= 1 && n > 0
    ensures d * n >= n
    decreases d
  {
    if d > 1 {
      AtLeastOneTurn(d - 1, n);
      assert d * n == (d - 1) * n + n;
    }
  }

  /** Agent `x` occupies one of `cells`. */
  ghost predicate OccupiesOneOf(grid: Occupancy, cells: seq<Cell>, x: nat)
    requires forall k :: 0 <= k < |cells| ==> cells[k] in grid
  {
    exists k :: 0 <= k < |cells| && grid[cells[k]] == Some(x)
  }

  /** The occupants of `cells`, in order, with the empty cells left out. */
  function Occupants(grid: Occupancy, cells: seq<Cell>): (r: seq<nat>)
    requires forall k :: 0 <= k < |cells| ==> cells[k] in grid
    ensures |r| <= |cells|
    ensures forall x :: x in r ==> OccupiesOneOf(grid, cells, x)
    ensures forall k :: 0 <= k < |cells| && grid[cells[k]].Some? ==> grid[cells[k]].value in r
    decreases |cells|
  {
    if cells == [] then []
    else
      var init := cells[..|cells| - 1];
      var prior := Occupants(grid, init);
      assert forall k :: 0 <= k < |init| ==> init[k] == cells[k];
      match grid[cells[|cells| - 1]]
      case None => prior
      case Some(a) => prior + [a]
  }

  /**
   * The occupants of the eight wrapped neighbour cells of `loc`: at most
   * eight agents, each the occupant of one of those cells, and every occupied
   * neighbour cell contributes its occupant.
   */
  function Neighbors(grid: Occupancy, size0: int, size1: int, loc: Cell): (r: seq<nat>)
    requires size0 > 0 && size1 > 0 && Shaped(grid, size0, size1)
    ensures |r| <= 8
    ensures forall x :: x in r ==>
      exists k :: 0 <= k < 8 && grid[NeighborCells(loc, size0, size1)[k]] == Some(x)
    ensures forall k :: 0 <= k < 8 && grid[NeighborCells(loc, size0, size1)[k]].Some? ==>
      grid[NeighborCells(loc, size0, size1)[k]].value in r
  {
    var cells := NeighborCells(loc, size0, size1);
    var r := Occupants(grid, cells);
    assert forall x :: x in r ==> exists k :: 0 <= k < 8 && cells[k] in grid && grid[cells[k]] == Some(x);
    r
  }

  /** The indices of `cells` holding an agent. */
  ghost function OccupiedIndices(grid: Occupancy, cells: seq<Cell>): set<nat>
    requires forall k :: 0 <= k < |cells| ==> cells[k] in grid
  {
    set k: nat | k < |cells| && grid[cells[k]].Some?
  }

  /** The indices of `cells` holding agent `a`. */
  ghost function HolderIndices(grid: Occupancy, cells: seq<Cell>, a: nat): set<nat>
    requires forall k :: 0 <= k < |cells| ==> cells[k] in grid
  {
    set k: nat | k < |cells| && grid[cells[k]] == Some(a)
  }

  /**
   * Counting with multiplicity: the list has one entry per occupied cell, and
   * agent `a` appears as many times as there are cells holding it.
   */
  lemma OccupantsCount(grid: Occupancy, cells: seq<Cell>, a: nat)
    requires forall k :: 0 <= k < |cells| ==> cells[k] in grid
    ensures |Occupants(grid, cells)| == |OccupiedIndices(grid, cells)|
    ensures multiset(Occupants(grid, cells))[a] == |HolderIndices(grid, cells, a)|
  {
    OccupantsLength(grid, cells);
    OccupantsMultiplicity(grid, cells, a);
  }

  lemma {:induction false} OccupantsLength(grid: Occupancy, cells: seq<Cell>)
    requires forall k :: 0 <= k < |cells| ==> cells[k] in grid
    ensures |Occupants(grid, cells)| == |OccupiedIndices(grid, cells)|
    decreases |cells|
  {
    if cells == [] {
      assert OccupiedIndices(grid, cells) == {};
    } else {
      var n := |cells| - 1;
      OccupantsLength(grid, cells[..n]);
      IndicesOfLast(grid, cells, 0);
      OccupantsOfLast(grid, cells);
      LengthStep(Occupants(grid, cells[..n]), grid[cells[n]], OccupiedIndices(grid, cells[..n]), n);
    }
  }

  /** One more entry `last` lengthens the list exactly when it is an occupant. */
  lemma LengthStep(prior: seq<nat>, last: Option<nat>, occupied: set<nat>, n: nat)
    requires n !in occupied && |prior| == |occupied|
    ensures |prior + Entry(last)| == |occupied + if last.Some? then {n} else {}|
  {
  }

  lemma {:induction false} OccupantsMultiplicity(grid: Occupancy, cells: seq<Cell>, a: nat)
    requires forall k :: 0 <= k < |cells| ==> cells[k] in grid
    ensures multiset(Occupants(grid, cells))[a] == |HolderIndices(grid, cells, a)|
    decreases |cells|
  {
    if cells == [] {
      assert HolderIndices(grid, cells, a) == {};
    } else {
      var n := |cells| - 1;
      OccupantsMultiplicity(grid, cells[..n], a);
      IndicesOfLast(grid, cells, a);
      OccupantsOfLast(grid, cells);
      CountStep(Occupants(grid, cells[..n]), grid[cells[n]], a, HolderIndices(grid, cells[..n], a), n);
    }
  }

  /** One more entry `last` adds one occurrence of `a` exactly when it is `a`. */
  lemma CountStep(prior: seq<nat>, last: Option<nat>, a: nat, holders: set<nat>, n: nat)
    requires n !in holders && multiset(prior)[a] == |holders|
    ensures multiset(prior + Entry(last))[a] == |holders + if last == Some(a) then {n} else {}|
  {
    assert multiset(prior + Entry(last)) == multiset(prior) + multiset(Entry(last));
  }

  /** The occupant of one cell as a list of zero or one agents. */
  function Entry(o: Option<nat>): (r: seq<nat>)
    ensures |r| == if o.Some? then 1 else 0
  {
    if o.Some? then [o.value] else []
  }

  /** Listing one more cell appends its occupant, if any. */
  lemma OccupantsOfLast(grid: Occupancy, cells: seq<Cell>)
    requires |cells| > 0 && forall k :: 0 <= k < |cells| ==> cells[k] in grid
    ensures var n := |cells| - 1; var last := grid[cells[n]];
      Occupants(grid, cells) == Occupants(grid, cells[..n]) + Entry(last)
  {
  }

  /** How the index sets grow when one more cell is listed. */
  lemma IndicesOfLast(grid: Occupancy, cells: seq<Cell>, a: nat)
    requires |cells| > 0 && forall k :: 0 <= k < |cells| ==> cells[k] in grid
    ensures var n := |cells| - 1; var init := cells[..n];
      && n !in OccupiedIndices(grid, init) && n !in HolderIndices(grid, init, a)
      && OccupiedIndices(grid, cells) ==
         OccupiedIndices(grid, init) + (if grid[cells[n]].Some? then {n} else {})
      && HolderIndices(grid, cells, a) ==
         HolderIndices(grid, init, a) + (if grid[cells[n]] == Some(a) then {n} else {})
  {
    var n := |cells| - 1;
    var init := cells[..n];
    assert forall k :: 0 <= k < n ==> init[k] == cells[k];
  }

  /** When every listed cell is occupied, the list is the occupants cell by cell. */
  lemma {:induction false} OccupantsAllOccupied(grid: Occupancy, cells: seq<Cell>)
    requires forall k :: 0 <= k < |cells| ==> cells[k] in grid && grid[cells[k]].Some?
    ensures |Occupants(grid, cells)| == |cells|
    ensures forall k :: 0 <= k < |cells| ==> Occupants(grid, cells)[k] == grid[cells[k]].value
    decreases |cells|
  {
    if cells != [] {
      var init := cells[..|cells| - 1];
      assert forall k :: 0 <= k < |init| ==> init[k] == cells[k];
      OccupantsAllOccupied(grid, init);
      var r, prior := Occupants(grid, cells), Occupants(grid, init);
      assert r == prior + [grid[cells[|cells| - 1]].value];
      forall k | 0 <= k < |cells|
        ensures r[k] == grid[cells[k]].value
      {
        if k < |init| {
          assert r[k] == prior[k];
        }
      }
    }
  }

  /**
   * `get_neighbors` with multiplicity: one entry per occupied offset, and an
   * agent reached through several offsets is listed once per offset.
   */
  lemma NeighborsCount(grid: Occupancy, size0: int, size1: int, loc: Cell, a: nat)
    requires size0 > 0 && size1 > 0 && Shaped(grid, size0, size1)
    ensures |Neighbors(grid, size0, size1, loc)| == |OccupiedIndices(grid, NeighborCells(loc, size0, size1))|
    ensures multiset(Neighbors(grid, size0, size1, loc))[a] ==
            |HolderIndices(grid, NeighborCells(loc, size0, size1), a)|
  {
    OccupantsCount(grid, NeighborCells(loc, size0, size1), a);
  }

  /** The empty cells among `cells`, in order. */
  function VacantAmong(grid: Occupancy, cells: seq<Cell>): (r: seq<Cell>)
    requires forall c :: c in cells ==> c in grid
    ensures forall c :: c in r <==> c in cells && grid[c] == None
    ensures RowMajor(cells) ==> RowMajor(r)
    decreases |cells|
  {
    if cells == [] then []
    else
      var init, last := cells[..|cells| - 1], cells[|cells| - 1];
      assert cells == init + [last];
      var prior := VacantAmong(grid, init);
      if grid[last] == None then
        assert RowMajor(cells) ==> forall p :: 0 <= p < |prior| ==> Before(prior[p], last) by {
          if RowMajor(cells) {
            forall p | 0 <= p < |prior| ensures Before(prior[p], last) {
              assert prior[p] in prior;
              var k :| 0 <= k < |init| && init[k] == prior[p];
              assert cells[k] == init[k];
            }
          }
        }
        prior + [last]
      else
        prior
  }

  /**
   * `find_vacant`: exactly the keys of the grid that map to None, each once,
   * in the key order of the grid.
   */
  function FindVacant(grid: Occupancy, size0: nat, size1: nat): (r: seq<Cell>)
    requires Shaped(grid, size0, size1)
    ensures forall c :: c in r <==> c in grid && grid[c] == None
    ensures RowMajor(r)
  {
    VacantAmong(grid, Cells(size0, size1))
  }

  /** The occupied cells of the grid. */
  ghost function OccupiedCells(grid: Occupancy): set<Cell> {
    set c | c in grid && grid[c].Some?
  }

  /**
   * Emptying an occupied cell and filling a vacant one keeps the number of
   * occupied cells.
   */
  lemma RelocationKeepsOccupiedCount(grid: Occupancy, from: Cell, to: Cell, a: nat)
    requires from in grid && grid[from].Some?
    requires to in grid && grid[to] == None
    ensures |OccupiedCells(grid[from := None][to := Some(a)])| == |OccupiedCells(grid)|
  {
    var before := OccupiedCells(grid);
    var after := OccupiedCells(grid[from := None][to := Some(a)]);
    assert after == before - {from} + {to};
    assert from in before && to !in before - {from};
    assert |before - {from}| == |before| - 1;
  }
}
