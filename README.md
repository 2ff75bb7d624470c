# Schelling segregation on a torus — a Dafny model

`lab9b.py` simulates Schelling's segregation model. A `World` holds a
rectangular grid, a dictionary from every coordinate `(i, j)` to an agent or
`None`. It creates `num_agents` agents: the first `num_agents // 2` are red
and the rest are blue, and all share one preference `same_pref`.
`init_world` places the agents on a random selection of distinct cells.

`run(max_iter)` runs at most `max_iter` rounds. Each round shuffles the agent
list and calls `move` on every agent in list order.
- An agent is happy when it has at least one occupied neighbour and the
  fraction of those neighbours that share its kind is at least `same_pref`.
- An unhappy agent moves to a vacancy chosen at random, when there is one.
- The neighbourhood is the eight surrounding cells, each coordinate wrapped
  around its axis (a torus). Duplicates are kept.

The run stops early, right after the first round at whose end every agent is
happy.

The model has five modules:

- `Grid` (`grid.dfy`) covers the grid and its pure queries:
  - the key order of the dictionary;
  - the eight wrapped neighbour coordinates;
  - the neighbour list, with multiplicity;
  - `find_vacant`.
- `Agents` (`agents.dfy`) covers the agent record and the initial population,
  the grid/location consistency invariant, `am_i_happy`, and the relocation
  that a move performs.
- `Random` (`random.dfy`) is the random source. It passes in an arbitrary
  stream of draws. `choice` and the Fisher–Yates `shuffle` are built on that
  stream the way CPython builds them on `_randbelow`.
- `Simulation` (`world.dfy`) holds the `World` class, whose fields the
  methods update in place:
  - the constructor and `init_world`, with the placement loop;
  - `move`, together with `MoveStep`, the function that specifies it;
  - the moves of one round, specified by `MoveSeq`, which folds `MoveStep`
    over the shuffled list;
  - the statements of `move` and the loop over the list both run on plain
    values, in `Step` and `MoveEach`. `World.Move` and `World.MoveAll`
    assign their results back to the fields;
  - `all(... am_i_happy ...)`;
  - one round, specified by the relation `RoundStep` between the states
    before and after it;
  - the bounded round loop `run`, whose record of round states is a chain
    of `RoundStep`s from the initial state.
- `Scenarios` (`scenarios.dfy`) covers the consequences of wrap-around on
  small and full grids.

Agents are identified by their index in the world's agent table. The grid
maps a coordinate to `Some(index)` or `None`, and the field `order` is the
Python list `self.agents` that `run` shuffles. The invariant `World.Valid`
requires three things:
- the grid covers exactly the rectangle;
- every occupant's `location` is the cell that holds it, and every placed
  agent is the occupant of its `location`;
- `order` lists every agent exactly once.

Edge cases, as lab9b.py behaves in them:

- **More agents than cells.** `init_world` zips the agent list with the
  shuffled cell list. When there are more agents than cells, the extra
  agents are silently left unplaced; nothing is raised. The constructor's
  contract says so. Calling `am_i_happy` on an unplaced agent would fail in
  Python (it unpacks `None`), so `Move` requires a placed agent, and `Run`
  with at least one round requires every agent to be placed.
- **A dimension of size 1.** The wrapped offsets land back on the agent's own
  cell, so the agent counts itself as a neighbour. On a 1 × 1 grid a lone
  agent sees itself eight times and is happy whenever `same_pref <= 1`; it is
  not "unhappy with no neighbours" (`Scenarios.SingleCellSelfNeighbors`).
  With both dimensions at least 2, an agent is never its own neighbour
  (`Scenarios.NotOwnNeighbor`).
- **A dimension of size 2.** Offsets −1 and +1 reach the same cell, so that
  occupant is listed twice (`Grid.NeighborsCount` counts with multiplicity).

## Model

| member | source | states |
|---|---|---|
| Grid.Cells | lab9b.py:45-50 | the grid keys in the dictionary's order: exactly the size0·size1 in-range cells, in row-major order (i outer, j inner) |
| Grid.EmptyGrid | lab9b.py:45 | the initial grid has an entry for every in-range cell and no other, all `None` |
| Grid.PermutedCells | lab9b.py:50-51 | any permutation of the key list has size0·size1 entries, all in range and pairwise distinct |
| Grid.Wrap | lab9b.py:62 | wrapping a coordinate by the positive grid sizes gives an in-range cell |
| Grid.NeighborCells | lab9b.py:61-62 | exactly eight neighbour coordinates, one per offset in the comprehension's order, each in range |
| Grid.NeighborCellsWrapped | lab9b.py:61-62 | the k-th neighbour coordinate differs from loc + offset k by whole turns of the torus on each axis |
| Grid.Occupants | lab9b.py:63 | the occupants of a cell list: no longer than the list, each one the occupant of a listed cell, and every occupied listed cell contributes its occupant |
| Grid.Neighbors | lab9b.py:59-63 | `get_neighbors`: at most 8 agents, each occupying one of the eight wrapped neighbour cells, and every occupied neighbour cell contributes its occupant (no `None` entries) |
| Grid.OccupantsCount | lab9b.py:63 | counting with multiplicity: one entry per occupied listed cell, and agent a appears once per listed cell holding it |
| Grid.OccupantsAllOccupied | lab9b.py:63 | when every listed cell is occupied, the list is the occupants cell by cell |
| Grid.NeighborsCount | lab9b.py:61-63 | the neighbour list has one entry per occupied offset, and an agent reached through several offsets is listed once per offset |
| Grid.VacantAmong | lab9b.py:57 | the empty cells among a key list: a cell is in the result iff it is listed and maps to `None`; key order is kept |
| Grid.FindVacant | lab9b.py:56-57 | `find_vacant`: a cell is in the result iff it is a grid key mapped to `None`, and the result is in key order (so no cell repeats) |
| Grid.RelocationKeepsOccupiedCount | lab9b.py:29-31 | emptying an occupied cell and filling a vacant one keeps the number of occupied cells |
| Agents.InitialAgents | lab9b.py:46 | `num_agents` new agents: agent i is red iff i < num_agents // 2, all with the given preference, none placed |
| Agents.KindSplit | lab9b.py:46 | the new population has exactly num_agents // 2 red agents and num_agents − num_agents // 2 blue ones |
| Agents.PlacedAgentsApart | lab9b.py:52-54 | under the consistency invariant, two distinct placed agents never share a cell |
| Agents.VacanciesUnoccupied | lab9b.py:57 | under the consistency invariant, no vacancy `find_vacant` returns is the location of a placed agent |
| Agents.SameKindCount | lab9b.py:35 | the same-kind count is at most the list length; it equals the length iff every neighbour shares the kind, and is 0 iff none does |
| Agents.SameKindCountSize | lab9b.py:35 | the same-kind count is exactly the number of positions in the neighbour list whose agent shares the kind |
| Agents.SameKindOccupants | lab9b.py:35 | over the occupants of some cells, the same-kind count is exactly the number of those cells holding an agent of that kind |
| Agents.Consistent | lab9b.py:29-31 | the invariant that grid and locations agree both ways; `Agents.RelocateCorrect`, `Simulation.MoveStepKeeps` and `Simulation.MoveSeq` state that it is kept, `Agents.PlacedAgentsApart` and `Agents.VacanciesUnoccupied` what it implies |
| Agents.NeighborsOf | lab9b.py:34 | the neighbour list at a placed agent's location holds only agents of the table |
| Agents.MeetsPreference | lab9b.py:36-38 | the decision: false with no neighbours; otherwise true iff same ≥ pref · total, equality included |
| Agents.FractionAtLeast | lab9b.py:38 | `same / total >= pref` holds iff same ≥ pref · total, for total > 0 |
| Agents.IsHappy | lab9b.py:33-38 | `am_i_happy`; its meaning is stated by `Agents.HappyIff` and `Agents.HappyByOffsets` for every preference, and by `Agents.LonelyUnhappy`, `Agents.ZeroPreferenceHappy` and `Agents.FullPreferenceHappy` for the edge cases |
| Agents.HappyIff | lab9b.py:33-38 | `am_i_happy` is true iff the neighbour list is non-empty and its same-kind count reaches same_pref times its length; the count is also stated as the number of same-kind positions in the list |
| Agents.HappyByOffsets | lab9b.py:33-38 | `am_i_happy` on the grid itself: true iff some of the eight wrapped neighbour cells is occupied and the cells holding an agent of the agent's kind number at least same_pref times the occupied ones |
| Agents.LonelyUnhappy | lab9b.py:36-37 | an agent with an empty neighbour list is unhappy, whatever its preference |
| Agents.ExactThresholdMeets | lab9b.py:38 | a same-kind fraction exactly equal to the preference counts as happy |
| Agents.NonPositivePreferenceMet | lab9b.py:36-38 | with a preference ≤ 0 the decision is true iff there is at least one neighbour |
| Agents.FullPreferenceMet | lab9b.py:36-38 | with preference 1 the decision is true iff there are neighbours and all share the kind |
| Agents.ZeroPreferenceHappy | lab9b.py:33-38 | with a preference ≤ 0, an agent is happy iff it has a neighbour |
| Agents.FullPreferenceHappy | lab9b.py:33-38 | with preference 1, an agent is happy iff it has neighbours and every one shares its kind |
| Agents.Relocate | lab9b.py:29-31 | the three assignments of a move; their effect is stated by `Agents.RelocateCorrect` |
| Agents.RelocateCorrect | lab9b.py:29-31 | relocating a placed agent to a vacant cell: old cell `None`, new cell holds it, its location is the new cell, no other cell or agent changes, kinds and preferences kept, occupied count kept, consistency kept |
| Random.Below | lab9b.py:28 | `_randbelow(n)`, the draw behind `choice` and `shuffle`: a value below n, one draw used |
| Random.Choice | lab9b.py:28 | `random.choice`: an element of the non-empty sequence, one draw used |
| Random.Shuffle | lab9b.py:51 | `random.shuffle`: the result is a permutation of the input (same length, same multiset) |
| Simulation.PermutationBounded | lab9b.py:67 | a shuffled agent list still holds only agents of the table |
| Simulation.World.Valid | lab9b.py:43-54 | the world invariant (consistency, and the list holding every agent once); established by the constructor and kept by `Move`, `MoveAll`, `Round` and `Run` |
| Simulation.World.constructor | lab9b.py:43-47 | the new world is valid; it has num_agents agents split by kind as `InitialAgents`, the list in creation order, agent i placed iff i < size0·size1, and min(num_agents, size0·size1) occupied cells |
| Simulation.World.InitWorld | lab9b.py:49-54 | after shuffling the keys and zipping: the world is valid, kinds and preferences are unchanged, agent i is placed iff i < size0·size1, and min(|agents|, size0·size1) cells are occupied |
| Simulation.World.PlaceAgents | lab9b.py:52-54 | the placement loop: agent k stands on the k-th shuffled cell and that cell holds it, for k below the smaller of the two lengths; the later agents stay unplaced |
| Simulation.PlaceNext | lab9b.py:53-54 | placing the next agent on the next, still unused, cell extends the placed prefix in both directions |
| Simulation.World.PlacementConsistent | lab9b.py:52-54 | a completed placement satisfies the world invariant |
| Simulation.World.PlacementOccupies | lab9b.py:52-54 | placing m agents on distinct cells occupies exactly m cells |
| Simulation.World.Move | lab9b.py:24-31 | `move`: the new grid, agents and random source are `MoveStep` of the old ones (computed by `Step`); the world invariant holds and the agent list is unchanged |
| Simulation.Step | lab9b.py:24-31 | the statements of `move` on grid, agent table and random source compute exactly `MoveStep` |
| Simulation.MoveStep | lab9b.py:24-31 | the effect of `move`; its meaning is stated by `Simulation.MoveStepStays`, `Simulation.MoveStepRelocates` and `Simulation.MoveStepKeeps` |
| Simulation.MoveStepStays | lab9b.py:25-27 | a happy agent, or one with no vacancy, changes nothing |
| Simulation.MoveStepRelocates | lab9b.py:28-31 | an unhappy agent with a vacancy: its old cell becomes `None`, it stands on a cell that was vacant, that cell holds it, every other cell and agent is unchanged, one draw is used |
| Simulation.MoveStepKeeps | lab9b.py:24-31 | every move keeps consistency, kinds and preferences, which agents are placed, and the number of occupied cells |
| Simulation.MoveSeq | lab9b.py:68-69 | the agents of a list move one after another, each on the grid the previous moves left; the result keeps consistency, the table length, all agents placed, the population and the occupied count |
| Simulation.MoveSeqNext | lab9b.py:68-69 | moving the first k + 1 listed agents is moving the first k, then the next one |
| Simulation.MoveSeqSettled | lab9b.py:68-70 | in a world where every agent is placed and happy, no agent moves, whatever the order and the draws |
| Simulation.SettledFixed | lab9b.py:67-72 | a round from a settled world leaves it unchanged, so the break after the first all-happy round loses nothing |
| Simulation.Chained | lab9b.py:66-70 | recording the state one round after the last recorded one extends the chain of rounds |
| Simulation.World.AllHappy | lab9b.py:70 | `all(agent.am_i_happy() for agent in self.agents)` over the shuffled list is true iff every agent is happy |
| Simulation.World.HappyInAnyOrder | lab9b.py:67-70 | whether every listed agent is happy does not depend on the order of the list |
| Simulation.World.AllHappySettled | lab9b.py:70 | for a valid world with all agents placed, all happy is exactly the settled condition |
| Simulation.MoveEach | lab9b.py:68-69 | the loop over the agent list, on grid, agent table and random source, moving each listed agent in turn by `Step`, computes exactly `MoveSeq` over the list |
| Simulation.World.MoveAll | lab9b.py:68-69 | moving every agent in list order: the new grid, agents and random source are `MoveSeq` of the old ones over the list (computed by `MoveEach`), so each agent decides on the grid the earlier moves left; the invariant, all agents placed, the population, the list and the occupied count are kept |
| Simulation.World.Round | lab9b.py:67-70 | one round: the agent list is shuffled and the agents move in that new `order`, so the new grid and agents are `MoveSeq` of the old ones over the round's final `order` for some draws, and one `RoundStep` after the old state; it keeps the invariant, all agents placed, the population, the list as a multiset and the occupied count, reports all-happy, and appends the final state to the round record |
| Simulation.World.Run | lab9b.py:65-72 | `run`: at most max_iter rounds; it stops early only when converged, and converged iff some round ran and every agent is happy; the round record is a `Chain` of `RoundStep`s from the initial state whose last entry is the final state; every recorded round before the last ended unsettled, and so did the last unless converged; the invariant, population, list multiset and occupied count are kept |
| Simulation.UnsettledMeans | lab9b.py:70-72 | the round record is unsettled iff every recorded state (the last one only when asked) has some agent unplaced or unhappy |
| Simulation.Recorded | lab9b.py:70-72 | appending a round's end state keeps the earlier rounds unsettled, and the new one is unsettled unless all were happy |
| Simulation.EveryIdListed | lab9b.py:70 | a permutation of the identities lists every agent |
| Scenarios.NeighborCellsAvoidSelf | lab9b.py:61-62 | with both dimensions ≥ 2, no wrapped neighbour coordinate is the cell itself |
| Scenarios.NotOwnNeighbor | lab9b.py:59-63 | with both dimensions ≥ 2, an agent is never in its own neighbour list |
| Scenarios.FullGridEightNeighbors | lab9b.py:61-63 | when every cell is occupied, every placed agent has exactly eight neighbours, duplicates included |
| Scenarios.FullGridZeroPreferenceHappy | lab9b.py:33-38 | on a full grid, an agent with preference ≤ 0 is happy |
| Scenarios.LoneAgents | lab9b.py:52-54 | one agent standing on (0, 0) of the 1 × 1 grid is a consistent world |
| Scenarios.SingleCellSelfNeighbors | lab9b.py:59-63 | a lone agent on a 1 × 1 grid is its own neighbour eight times, is happy iff its preference is ≤ 1, and has no vacancy |

## Left out

- The `print` at lab9b.py:71 is console output. `Run` returns it as the `converged` flag, together with the number of rounds run.
- The module-level parameters and script calls at lab9b.py:7-13 and 74-79 are left out; they are configuration wiring. The constructor and `Run` take the same values as arguments.
- The Mersenne Twister behind `random` is not modelled. `Random.Source` is an arbitrary stream of draws, so every property holds for any outcome of the random calls. `Random.Below` maps a draw into range with `%` instead of CPython's rejection sampling; over an arbitrary stream both can yield every value in range.
- Random.Shuffle: the contract states only that the result is a permutation; which permutation depends on the draws and is not stated.
- Simulation.World.InitWorld: states which agents are placed and that grid and locations agree, but not which cell each agent gets, since that depends on the shuffle.
- Shuffling and moving update the field values `order`, `grid` and `agents` by reassignment. Python's in-place list shuffle and aliasing of agent objects are not modelled.
- Floating point is not modelled. `same_kind_neighbors / len(neighbors) >= same_pref` is exact real arithmetic, and rounding is ignored.
- The reference from each agent to its world, `self.world` (lab9b.py:19), is left out; agents are indices into the world's table.
- The kind strings `'red'` and `'blue'` become the datatype `Kind`.
- Python's `%` floors, while Dafny's is Euclidean. They agree for the positive grid sizes that wrapping ever uses: a grid with a zero dimension has no cells, so it has no placed agent whose neighbours could be looked up.
- The crash of `am_i_happy` on an unplaced agent (possible after over-capacity initialisation) is not modelled as behaviour. `Move` and `Run` require placed agents instead.
