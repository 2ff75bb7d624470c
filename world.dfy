/**
 * The world: it owns the grid, the agents and the random source, places the
 * agents at creation, moves unhappy agents and drives the bounded round loop.
 *
 * The agent objects of lab9b.py are entries `agents[id]` of a table that
 * never changes length; their list, which lab9b.py shuffles in place every
 * round, is `order`, a permutation of the identities.
 */
module Simulation {
  import opened Grid
  import opened Agents
  import Random

  /** The identities 0, ..., n - 1 in creation order. */
  function Ids(n: nat): (r: seq<nat>)
    ensures |r| == n && forall i :: 0 <= i < n ==> r[i] == i
  {
    seq(n, i => i)
  }

  /** A sequence with the same elements as one bounded by `n` is bounded by `n`. */
  lemma PermutationBounded(s: seq<nat>, t: seq<nat>, n: nat)
    requires multiset(s) == multiset(t)
    requires forall k :: 0 <= k < |s| ==> s[k] < n
    ensures forall k :: 0 <= k < |t| ==> t[k] < n
  {
    forall k | 0 <= k < |t|
      ensures t[k] < n
    {
      assert t[k] in multiset(t);
      assert t[k] in s;
    }
  }

  class World {
    const size0: nat
    const size1: nat
    var grid: Occupancy
    var agents: seq<Agent>
    var order: seq<nat>
    var rng: Random.Source

    /**
     * The data invariant: grid and locations agree both ways, and the agent
     * list holds every identity exactly once.
     */
    ghost predicate Valid()
      reads this
    {
      && Consistent(grid, agents, size0, size1)
      && |order| == |agents|
      && multiset(order) == multiset(Ids(|agents|))
      && (forall k :: 0 <= k < |order| ==> order[k] < |agents|)
    }

    ghost predicate AllPlaced()
      reads this
    {
      Located(agents)
    }

    /**
     * `World(size, num_agents, same_pref)`: an empty grid over the whole
     * rectangle, `numAgents` agents split by kind, then `init_world`. When
     * there are more agents than cells, the agents beyond the cell count stay
     * unplaced.
     */
    constructor (size0: nat, size1: nat, numAgents: nat, samePref: real, rng: Random.Source)
      ensures Valid()
      ensures this.size0 == size0 && this.size1 == size1
      ensures |agents| == numAgents && order == Ids(numAgents)
      ensures forall i :: 0 <= i < numAgents ==>
        agents[i].kind == InitialKind(i, numAgents) && agents[i].samePref == samePref
      ensures forall i :: 0 <= i < numAgents ==> (agents[i].location.Some? <==> i < size0 * size1)
      ensures |OccupiedCells(grid)| == if numAgents < size0 * size1 then numAgents else size0 * size1
    {
      this.size0, this.size1 := size0, size1;
      grid := EmptyGrid(size0, size1);
      agents := InitialAgents(numAgents, samePref);
      order := Ids(numAgents);
      this.rng := rng;
      new;
      InitWorld();
    }

    /**
     * `init_world`: shuffle the list of grid keys and place the agents, in
     * list order, on its first cells, setting both the grid entry and the
     * agent's location. Placement stops at whichever runs out first.
     */
    method InitWorld()
      requires Shaped(grid, size0, size1) && forall c :: c in grid ==> grid[c] == None
      requires forall a :: 0 <= a < |agents| ==> agents[a].location == None
      requires order == Ids(|agents|)
      modifies this
      ensures Valid()
      ensures order == old(order) && SamePopulation(agents, old(agents))
      ensures forall i :: 0 <= i < |agents| ==> (agents[i].location.Some? <==> i < size0 * size1)
      ensures |OccupiedCells(grid)| == if |agents| < size0 * size1 then |agents| else size0 * size1
    {
      var locations := Cells(size0, size1);
      locations, rng := Random.Shuffle(locations, rng);
      PermutedCells(locations, size0, size1);
      var m := PlaceAgents(locations);
      PlacementConsistent(locations, m);
      PlacementOccupies(locations, m);
    }

    /**
     * The placement loop of `init_world`: agent `order[k]`, which is agent
     * `k`, goes to `locations[k]`, for as many agents as there are locations.
     */
    method PlaceAgents(locations: seq<Cell>) returns (m: nat)
      requires Shaped(grid, size0, size1) && forall c :: c in grid ==> grid[c] == None
      requires forall a :: 0 <= a < |agents| ==> agents[a].location == None
      requires order == Ids(|agents|)
      requires Distinct(locations) && forall j :: 0 <= j < |locations| ==> locations[j] in grid
      modifies this
      ensures m == if |agents| < |locations| then |agents| else |locations|
      ensures Shaped(grid, size0, size1)
      ensures order == old(order) && SamePopulation(agents, old(agents))
      ensures PlacedPrefix(grid, agents, locations, m)
    {
      m := if |order| < |locations| then |order| else |locations|;
      var k := 0;
      while k < m
        invariant 0 <= k <= m
        invariant Shaped(grid, size0, size1)
        invariant order == old(order) && SamePopulation(agents, old(agents))
        invariant PlacedPrefix(grid, agents, locations, k)
      {
        var agent := order[k];
        assert agent == k;
        PlaceNext(grid, agents, locations, k);
        grid := grid[locations[k] := Some(agent)];
        agents := agents[agent := agents[agent].(location := Some(locations[k]))];
        k := k + 1;
      }
    }

    /** After placing agents 0..m-1 on locations[0..m-1], grid and locations agree. */
    lemma PlacementConsistent(locations: seq<Cell>, m: nat)
      requires m <= |locations| && m <= |agents| && |order| == |agents| && order == Ids(|agents|)
      requires Shaped(grid, size0, size1)
      requires PlacedPrefix(grid, agents, locations, m)
      ensures Valid()
    {
    }

    /** After placing agents 0..m-1 on distinct cells, exactly m cells are occupied. */
    lemma PlacementOccupies(locations: seq<Cell>, m: nat)
      requires m <= |locations| && Distinct(locations)
      requires Shaped(grid, size0, size1)
      requires PlacedPrefix(grid, agents, locations, m)
      ensures |OccupiedCells(grid)| == m
    {
      assert OccupiedCells(grid) == set j | 0 <= j < m :: locations[j];
      DistinctImageSize(locations, m);
    }

    /**
     * `Agent.move` for agent `a`: asks whether the agent is happy, and if it
     * is not and there is a vacancy, draws one from the random source,
     * empties the agent's cell, moves the agent there and fills the new cell.
     * The new state is exactly `MoveStep` of the old one.
     */
    method Move(a: nat)
      requires Valid() && a < |agents| && agents[a].location.Some?
      modifies this
      ensures (grid, agents, rng) == MoveStep(old(grid), old(agents), size0, size1, a, old(rng))
      ensures Valid() && order == old(order)
    {
      MoveStepKeeps(grid, agents, size0, size1, a, rng);
      grid, agents, rng := Step(grid, agents, size0, size1, a, rng);
    }

    /** `all(agent.am_i_happy() for agent in self.agents)`: every agent is happy. */
    function AllHappy(): (r: bool)
      reads this
      requires Valid() && AllPlaced()
      ensures r <==> forall a :: 0 <= a < |agents| ==> IsHappy(grid, agents, size0, size1, a)
    {
      HappyInAnyOrder();
      forall k :: 0 <= k < |order| ==> IsHappy(grid, agents, size0, size1, order[k])
    }

    /** Whether every agent is happy does not depend on the order of the agent list. */
    lemma HappyInAnyOrder()
      requires Valid() && AllPlaced()
      ensures (forall k :: 0 <= k < |order| ==> IsHappy(grid, agents, size0, size1, order[k])) <==>
        forall a :: 0 <= a < |agents| ==> IsHappy(grid, agents, size0, size1, a)
    {
      EveryIdListed(order, |agents|);
      if forall k :: 0 <= k < |order| ==> IsHappy(grid, agents, size0, size1, order[k]) {
        forall a | 0 <= a < |agents|
          ensures IsHappy(grid, agents, size0, size1, a)
        {
          assert a in order;
          var k :| 0 <= k < |order| && order[k] == a;
        }
      }
    }

    /**
     * One round of `run`: shuffle the agent list, let every agent move, then
     * ask whether every agent is happy. The agents move in the newly shuffled
     * `order`, so the new state is one `RoundStep` after the old one. The ghost `ends` records the state at the end of
     * each round so far; the round appends its own.
     */
    method Round(ghost ends: seq<(Occupancy, seq<Agent>)>) returns (happy: bool, ghost ends': seq<(Occupancy, seq<Agent>)>)
      requires Valid() && AllPlaced()
      modifies this
      ensures RoundStep((old(grid), old(agents)), (grid, agents), size0, size1)
      ensures Valid() && AllPlaced()
      ensures SamePopulation(agents, old(agents)) && multiset(order) == multiset(old(order))
      ensures |OccupiedCells(grid)| == |OccupiedCells(old(grid))|
      ensures exists src: Random.Source ::
                && grid == MoveSeq(old(grid), old(agents), size0, size1, order, src).0
                && agents == MoveSeq(old(grid), old(agents), size0, size1, order, src).1
      ensures happy == AllHappy()
      ensures ends' == ends + [(grid, agents)]
      ensures Unsettled(ends, true, size0, size1) ==> Unsettled(ends', false, size0, size1)
      ensures Unsettled(ends, true, size0, size1) && !happy ==> Unsettled(ends', true, size0, size1)
    {
      ghost var start := (grid, agents);
      var before := order;
      order, rng := Random.Shuffle(order, rng);
      ghost var shuffled := rng;
      PermutationBounded(before, order, |agents|);
      MoveAll();
      assert grid == MoveSeq(start.0, start.1, size0, size1, order, shuffled).0;
      assert agents == MoveSeq(start.0, start.1, size0, size1, order, shuffled).1;
      happy := AllHappy();
      AllHappySettled();
      Recorded(ends, (grid, agents), happy, size0, size1);
      ends' := ends + [(grid, agents)];
    }

    /**
     * The inner loop of a round: each agent of the list, in list order, moves
     * on the grid the previous moves left; the new state is `MoveSeq` of the
     * old one over the list. The loop itself is `MoveEach`, on plain values.
     */
    method MoveAll()
      requires Valid() && AllPlaced()
      modifies this
      ensures Valid() && AllPlaced()
      ensures SamePopulation(agents, old(agents)) && order == old(order)
      ensures |OccupiedCells(grid)| == |OccupiedCells(old(grid))|
      ensures (grid, agents, rng) == MoveSeq(old(grid), old(agents), size0, size1, order, old(rng))
    {
      grid, agents, rng := MoveEach(grid, agents, size0, size1, order, rng);
    }

    /** Under the invariant with every agent placed, all happy means settled. */
    lemma AllHappySettled()
      requires Valid() && AllPlaced()
      ensures AllHappy() <==> Settled((grid, agents), size0, size1)
    {
    }

    /**
     * `run(max_iter)`: at most `maxIter` rounds; the loop ends early right
     * after a round at whose end every agent is happy. `converged` stands for
     * the message lab9b.py prints in that case. The population, the agent
     * list as a multiset and the number of occupied cells never change.
     * The ghost `roundEnds` records the state after each round, each one a
     * `RoundStep` after the one before it (the first after the initial
     * state), and the last is the final state: every round before the last
     * left some agent unhappy or unplaced, and so did the last unless the
     * run converged; so the loop leaves at the first round that settles the
     * world, or after `maxIter` rounds.
     */
    method Run(maxIter: nat) returns (rounds: nat, converged: bool, ghost roundEnds: seq<(Occupancy, seq<Agent>)>)
      requires Valid()
      requires maxIter > 0 ==> AllPlaced()
      modifies this
      ensures Valid()
      ensures rounds <= maxIter
      ensures !converged ==> rounds == maxIter
      ensures maxIter > 0 ==> AllPlaced()
      ensures converged <==> rounds > 0 && AllHappy()
      ensures |roundEnds| == rounds && Last((old(grid), old(agents)), roundEnds) == (grid, agents)
      ensures Chain((old(grid), old(agents)), roundEnds, size0, size1)
      ensures Unsettled(roundEnds, false, size0, size1)
      ensures !converged ==> Unsettled(roundEnds, true, size0, size1)
      ensures SamePopulation(agents, old(agents)) && multiset(order) == multiset(old(order))
      ensures |OccupiedCells(grid)| == |OccupiedCells(old(grid))|
    {
      rounds, converged, roundEnds := 0, false, [];
      ghost var agents0, grid0 := agents, grid;
      ghost var start := (grid, agents);
      while rounds < maxIter && !converged
        invariant Valid()
        invariant rounds <= maxIter
        invariant maxIter > 0 ==> AllPlaced()
        invariant converged <==> rounds > 0 && AllHappy()
        invariant |roundEnds| == rounds && Last(start, roundEnds) == (grid, agents)
        invariant Chain(start, roundEnds, size0, size1)
        invariant Unsettled(roundEnds, false, size0, size1)
        invariant !converged ==> Unsettled(roundEnds, true, size0, size1)
        invariant SamePopulation(agents, agents0)
        invariant |OccupiedCells(grid)| == |OccupiedCells(grid0)|
        decreases maxIter - rounds
      {
        ghost var before := roundEnds;
        converged, roundEnds := Round(roundEnds);
        Chained(start, before, (grid, agents), size0, size1);
        rounds := rounds + 1;
      }
    }
  }

  /**
   * The effect of `Agent.move` for a placed agent `a` on the grid, the agent
   * table and the random source: a happy agent, or one that finds no
   * vacancy, changes nothing; otherwise one draw picks a vacancy and the
   * agent is relocated there.
   */
  function MoveStep(grid: Occupancy, agents: seq<Agent>, size0: nat, size1: nat, a: nat, src: Random.Source): (r: (Occupancy, seq<Agent>, Random.Source))
    requires Consistent(grid, agents, size0, size1) && a < |agents| && agents[a].location.Some?
  {
    if IsHappy(grid, agents, size0, size1, a) then (grid, agents, src)
    else
      var vacancies := FindVacant(grid, size0, size1);
      if vacancies == [] then (grid, agents, src)
      else
        var (newLoc, next) := Random.Choice(src, vacancies);
        var (after, moved) := Relocate(grid, agents, a, newLoc);
        (after, moved, next)
  }

  /**
   * The loop `for agent in self.agents: agent.move()` on the values it
   * touches: the agents of `ids` move one after another, each by `Step`, so
   * the result is `MoveSeq` over `ids`. Like `Step`, it runs on plain values
   * to keep the proof off the heap.
   */
  method MoveEach(grid: Occupancy, agents: seq<Agent>, size0: nat, size1: nat, ids: seq<nat>, src: Random.Source)
    returns (grid': Occupancy, agents': seq<Agent>, src': Random.Source)
    requires Consistent(grid, agents, size0, size1) && Located(agents)
    requires forall k :: 0 <= k < |ids| ==> ids[k] < |agents|
    ensures (grid', agents', src') == MoveSeq(grid, agents, size0, size1, ids, src)
  {
    grid', agents', src' := grid, agents, src;
    var k := 0;
    while k < |ids|
      invariant 0 <= k <= |ids|
      invariant (grid', agents', src') == MoveSeq(grid, agents, size0, size1, ids[..k], src)
    {
      MoveSeqNext(grid, agents, size0, size1, ids, k, src);
      grid', agents', src' := Step(grid', agents', size0, size1, ids[k], src');
      k := k + 1;
    }
    assert ids[..k] == ids;
  }

  /**
   * The body of `Agent.move` on the values it touches: unless the agent is
   * happy or there is no vacancy, draw a vacancy, empty the agent's cell,
   * set its location and fill the new cell. `World.Move` runs these
   * statements here, on plain values rather than on its fields, to keep the
   * proof off the heap.
   */
  method Step(grid: Occupancy, agents: seq<Agent>, size0: nat, size1: nat, a: nat, src: Random.Source)
    returns (grid': Occupancy, agents': seq<Agent>, src': Random.Source)
    requires Consistent(grid, agents, size0, size1) && a < |agents| && agents[a].location.Some?
    ensures (grid', agents', src') == MoveStep(grid, agents, size0, size1, a, src)
  {
    grid', agents', src' := grid, agents, src;
    if !IsHappy(grid, agents, size0, size1, a) {
      var vacancies := FindVacant(grid, size0, size1);
      if |vacancies| > 0 {
        var pick := Random.Choice(src, vacancies);
        var newLoc := pick.0;
        src' := pick.1;
        grid' := grid'[agents'[a].location.value := None];
        agents' := agents'[a := agents'[a].(location := Some(newLoc))];
        grid' := grid'[newLoc := Some(a)];
      }
    }
  }

  /** A happy agent, or one with no vacancy to go to, leaves grid, agents and random source as they were. */
  lemma MoveStepStays(grid: Occupancy, agents: seq<Agent>, size0: nat, size1: nat, a: nat, src: Random.Source)
    requires Consistent(grid, agents, size0, size1) && a < |agents| && agents[a].location.Some?
    requires IsHappy(grid, agents, size0, size1, a) || FindVacant(grid, size0, size1) == []
    ensures MoveStep(grid, agents, size0, size1, a, src) == (grid, agents, src)
  {
  }

  /**
   * An unhappy agent with a vacancy moves: its old cell becomes empty, it
   * stands on a cell that was vacant, that cell holds it, and no other cell
   * and no other agent changes; exactly one draw is used.
   */
  lemma MoveStepRelocates(grid: Occupancy, agents: seq<Agent>, size0: nat, size1: nat, a: nat, src: Random.Source)
    requires Consistent(grid, agents, size0, size1) && a < |agents| && agents[a].location.Some?
    requires !IsHappy(grid, agents, size0, size1, a) && FindVacant(grid, size0, size1) != []
    ensures var (after, moved, next) := MoveStep(grid, agents, size0, size1, a, src);
      var from := agents[a].location.value;
      && moved[a].location.Some? && moved[a].location.value in FindVacant(grid, size0, size1)
      && after[from] == None && after[moved[a].location.value] == Some(a)
      && (forall c :: c in grid && c != from && c != moved[a].location.value ==> after[c] == grid[c])
      && (forall i :: 0 <= i < |agents| && i != a ==> moved[i] == agents[i])
      && next.used == src.used + 1
  {
    var vacancies := FindVacant(grid, size0, size1);
    var (newLoc, next) := Random.Choice(src, vacancies);
    RelocateCorrect(grid, agents, size0, size1, a, newLoc);
  }

  /**
   * Whatever happens, a move keeps grid and locations consistent, keeps every
   * agent's kind and preference, keeps which agents are placed, and keeps
   * the number of occupied cells.
   */
  lemma MoveStepKeeps(grid: Occupancy, agents: seq<Agent>, size0: nat, size1: nat, a: nat, src: Random.Source)
    requires Consistent(grid, agents, size0, size1) && a < |agents| && agents[a].location.Some?
    ensures var (after, moved, _) := MoveStep(grid, agents, size0, size1, a, src);
      && Consistent(after, moved, size0, size1)
      && |moved| == |agents| && SamePopulation(moved, agents)
      && (forall i :: 0 <= i < |agents| ==> (moved[i].location.Some? <==> agents[i].location.Some?))
      && |OccupiedCells(after)| == |OccupiedCells(grid)|
  {
    var vacancies := FindVacant(grid, size0, size1);
    if !IsHappy(grid, agents, size0, size1, a) && vacancies != [] {
      var (newLoc, next) := Random.Choice(src, vacancies);
      RelocateCorrect(grid, agents, size0, size1, a, newLoc);
    }
  }

  /** Every agent of the table is placed. */
  ghost predicate Located(agents: seq<Agent>) {
    forall a :: 0 <= a < |agents| ==> agents[a].location.Some?
  }

  /**
   * The inner loop of a round on the values it changes: the agents `ids`
   * move one after the other, each on the grid the previous moves left.
   * Every move keeps consistency, the population, which agents are placed
   * and the number of occupied cells, so the whole sequence does too.
   */
  function MoveSeq(grid: Occupancy, agents: seq<Agent>, size0: nat, size1: nat, ids: seq<nat>, src: Random.Source)
    : (r: (Occupancy, seq<Agent>, Random.Source))
    requires Consistent(grid, agents, size0, size1) && Located(agents)
    requires forall k :: 0 <= k < |ids| ==> ids[k] < |agents|
    ensures Consistent(r.0, r.1, size0, size1) && |r.1| == |agents| && Located(r.1)
    ensures SamePopulation(r.1, agents) && |OccupiedCells(r.0)| == |OccupiedCells(grid)|
    decreases |ids|
  {
    if ids == [] then (grid, agents, src)
    else
      var n := |ids| - 1;
      var prior := MoveSeq(grid, agents, size0, size1, ids[..n], src);
      MoveStepKeeps(prior.0, prior.1, size0, size1, ids[n], prior.2);
      MoveStep(prior.0, prior.1, size0, size1, ids[n], prior.2)
  }

  /** Moving the first k + 1 agents of `ids` is moving the first k, then agent `ids[k]`. */
  lemma MoveSeqNext(grid: Occupancy, agents: seq<Agent>, size0: nat, size1: nat, ids: seq<nat>, k: nat, src: Random.Source)
    requires Consistent(grid, agents, size0, size1) && Located(agents)
    requires forall j :: 0 <= j < |ids| ==> ids[j] < |agents|
    requires k < |ids|
    ensures var prior := MoveSeq(grid, agents, size0, size1, ids[..k], src);
      MoveSeq(grid, agents, size0, size1, ids[..k + 1], src) == MoveStep(prior.0, prior.1, size0, size1, ids[k], prior.2)
  {
    assert ids[..k + 1][..k] == ids[..k];
  }

  /**
   * One round of `run` relates the state before it to the state after it:
   * for some order of all the agents (the shuffle) and some random source,
   * the agents move in that order.
   */
  ghost predicate RoundStep(s: (Occupancy, seq<Agent>), t: (Occupancy, seq<Agent>), size0: nat, size1: nat) {
    && Consistent(s.0, s.1, size0, size1) && Located(s.1)
    && exists ids: seq<nat>, src: Random.Source ::
      && multiset(ids) == multiset(Ids(|s.1|))
      && (forall k :: 0 <= k < |ids| ==> ids[k] < |s.1|)
      && t.0 == MoveSeq(s.0, s.1, size0, size1, ids, src).0
      && t.1 == MoveSeq(s.0, s.1, size0, size1, ids, src).1
  }

  /** The state after the recorded rounds: the last recorded one, or `start` when none was. */
  ghost function Last(start: (Occupancy, seq<Agent>), ends: seq<(Occupancy, seq<Agent>)>): (r: (Occupancy, seq<Agent>)) {
    if ends == [] then start else ends[|ends| - 1]
  }

  /** Each recorded state is one round after the one before it, the first one after `start`. */
  ghost predicate Chain(start: (Occupancy, seq<Agent>), ends: seq<(Occupancy, seq<Agent>)>, size0: nat, size1: nat)
    decreases |ends|
  {
    ends == [] ||
    (Chain(start, ends[..|ends| - 1], size0, size1) &&
     RoundStep(Last(start, ends[..|ends| - 1]), ends[|ends| - 1], size0, size1))
  }

  /** Recording the state one round after the last recorded one extends the chain. */
  lemma Chained(start: (Occupancy, seq<Agent>), ends: seq<(Occupancy, seq<Agent>)>, t: (Occupancy, seq<Agent>), size0: nat, size1: nat)
    requires Chain(start, ends, size0, size1) && RoundStep(Last(start, ends), t, size0, size1)
    ensures Chain(start, ends + [t], size0, size1) && Last(start, ends + [t]) == t
  {
    assert (ends + [t])[..|ends|] == ends;
  }

  /** In a settled world no agent moves, whatever the order and the draws. */
  lemma {:induction false} MoveSeqSettled(grid: Occupancy, agents: seq<Agent>, size0: nat, size1: nat, ids: seq<nat>, src: Random.Source)
    requires Settled((grid, agents), size0, size1)
    requires forall k :: 0 <= k < |ids| ==> ids[k] < |agents|
    ensures MoveSeq(grid, agents, size0, size1, ids, src) == (grid, agents, src)
    decreases |ids|
  {
    if ids != [] {
      var n := |ids| - 1;
      MoveSeqSettled(grid, agents, size0, size1, ids[..n], src);
      MoveStepStays(grid, agents, size0, size1, ids[n], src);
    }
  }

  /**
   * A round from a settled world leaves it as it is, so once every agent is
   * happy further rounds would change nothing; `run` stops there.
   */
  lemma SettledFixed(s: (Occupancy, seq<Agent>), t: (Occupancy, seq<Agent>), size0: nat, size1: nat)
    requires Settled(s, size0, size1) && RoundStep(s, t, size0, size1)
    ensures t == s
  {
    var ids: seq<nat>, src: Random.Source :| && multiset(ids) == multiset(Ids(|s.1|))
      && (forall k :: 0 <= k < |ids| ==> ids[k] < |s.1|)
      && t.0 == MoveSeq(s.0, s.1, size0, size1, ids, src).0
      && t.1 == MoveSeq(s.0, s.1, size0, size1, ids, src).1;
    MoveSeqSettled(s.0, s.1, size0, size1, ids, src);
  }

  /**
   * Agents 0..k-1 stand on `locations[0..k-1]`, in both directions, and the
   * agents from `k` on are not placed yet.
   */
  ghost predicate PlacedPrefix(grid: Occupancy, agents: seq<Agent>, locations: seq<Cell>, k: nat)
  {
    && k <= |locations| && k <= |agents|
    && (forall j :: 0 <= j < k ==> locations[j] in grid && grid[locations[j]] == Some(j))
    && (forall j :: 0 <= j < k ==> agents[j].location == Some(locations[j]))
    && (forall j :: k <= j < |agents| ==> agents[j].location == None)
    && (forall c :: c in grid && grid[c].Some? ==> grid[c].value < k && locations[grid[c].value] == c)
  }

  /** Placing agent `k` on the next, still unused, location extends the placed prefix. */
  lemma PlaceNext(grid: Occupancy, agents: seq<Agent>, locations: seq<Cell>, k: nat)
    requires PlacedPrefix(grid, agents, locations, k)
    requires k < |locations| && k < |agents| && Distinct(locations) && locations[k] in grid
    ensures PlacedPrefix(grid[locations[k] := Some(k)],
      agents[k := agents[k].(location := Some(locations[k]))], locations, k + 1)
  {
    assert forall j :: 0 <= j < k ==> locations[j] != locations[k];
  }

  /**
   * A state in which every agent is placed and happy: the condition under
   * which the round loop exits early.
   */
  ghost predicate Settled(state: (Occupancy, seq<Agent>), size0: int, size1: int) {
    var (grid, agents) := state;
    && Consistent(grid, agents, size0, size1)
    && Located(agents)
    && forall a :: 0 <= a < |agents| ==> IsHappy(grid, agents, size0, size1, a)
  }

  /**
   * None of the recorded states before the last is settled, and neither is
   * the last one when `withLast` holds.
   */
  ghost predicate Unsettled(ends: seq<(Occupancy, seq<Agent>)>, withLast: bool, size0: int, size1: int)
    decreases |ends|
  {
    ends == [] ||
    ((withLast ==> !Settled(ends[|ends| - 1], size0, size1)) && Unsettled(ends[..|ends| - 1], true, size0, size1))
  }

  /** `Unsettled`, read as a statement about every recorded state. */
  lemma {:induction false} UnsettledMeans(ends: seq<(Occupancy, seq<Agent>)>, withLast: bool, size0: int, size1: int)
    ensures Unsettled(ends, withLast, size0, size1) <==>
      forall i :: 0 <= i < |ends| && (withLast || i < |ends| - 1) ==> !Settled(ends[i], size0, size1)
    decreases |ends|
  {
    if ends != [] {
      var init := ends[..|ends| - 1];
      UnsettledMeans(init, true, size0, size1);
      assert forall i :: 0 <= i < |init| ==> init[i] == ends[i];
    }
  }

  /** Recording one more state: it joins the unsettled ones unless it is settled. */
  lemma Recorded(ends: seq<(Occupancy, seq<Agent>)>, state: (Occupancy, seq<Agent>), happy: bool, size0: int, size1: int)
    requires happy <==> Settled(state, size0, size1)
    ensures Unsettled(ends, true, size0, size1) ==> Unsettled(ends + [state], false, size0, size1)
    ensures Unsettled(ends, true, size0, size1) && !happy ==> Unsettled(ends + [state], true, size0, size1)
  {
    assert (ends + [state])[..|ends|] == ends;
  }

  /** A permutation of the identities lists each of them. */
  lemma EveryIdListed(order: seq<nat>, n: nat)
    requires multiset(order) == multiset(Ids(n))
    ensures forall a :: 0 <= a < n ==> a in order
  {
    forall a | 0 <= a < n
      ensures a in order
    {
      assert Ids(n)[a] == a;
      assert a in multiset(Ids(n));
    }
  }

  /** Distinct cells listed at positions 0..m-1 form a set of m cells. */
  lemma {:induction false} DistinctImageSize(cells: seq<Cell>, m: nat)
    requires m <= |cells| && Distinct(cells)
    ensures |set j | 0 <= j < m :: cells[j]| == m
  {
    if m > 0 {
      DistinctImageSize(cells, m - 1);
      var prior := set j | 0 <= j < m - 1 :: cells[j];
      assert (set j | 0 <= j < m :: cells[j]) == prior + {cells[m - 1]};
      assert cells[m - 1] !in prior;
    }
  }
}
