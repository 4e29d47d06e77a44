# Wildfire cellular automaton (ModeloIncendios) in Dafny

This project models the fire-spread engine of `ModeloIncendios/fire.py`: a
forest of trees on a non-wrapping grid, each tree FINE, BURNING or BURNED_OUT.
At every step the schedule activates each tree once, in a shuffled order. A
BURNING tree then does three things in turn:

- it tries to ignite each of its up to four axis-aligned neighbours, with a
  probability gated by the wind;
- if big jumps are enabled, it throws one ember to
  `(x + west // 8, y + south // 8)`;
- it burns out.

After the activations the step counter advances. The data collector then
records the fraction of trees that are burnt out, and the run stops when the
counter reaches 50.

Layout:

- `cells.dfy` (`Cells`): conditions, cells, positions, the grid as a value, and
  `Evolves`. `Evolves` is the one-way relation between two grids of a run: an
  empty cell stays empty, and a tree only moves FINE → BURNING → BURNED_OUT.
- `rules.dfy` (`Rules`): what one activation does, as pure functions proved
  against that relation:
  - the directional gate;
  - ignition by one draw;
  - the neighbour list;
  - the spread loop;
  - Python's floor division and the jump target;
  - the big jump;
  - the whole activation, `TreeStep`.
- `schedule.dfy` (`Schedule`): one tick of the schedule (`Activate`) and
  properties of whole ticks. These include the multi-hop cascade inside one
  tick and how it depends on the order.
- `metrics.dfy` (`Metrics`): `count_type` as `Count`, and the burnt-out
  fraction together with its division by zero.
- `forest.dfy` (`ForestModel`): the `Forest` class, whose fields change in
  place. It has the constructor, one tree's activation, the schedule's step,
  the count, the collection and the model step. Each method is proved equal to
  the corresponding function above. The constructor establishes the class
  invariant `Valid`, and one tree's activation and the model step keep it. The
  schedule's step and the collection run only as the two halves of the model
  step and do not keep it on their own.

Nondeterminism becomes input:

- The schedule's shuffle is a given `order` of the trees.
- Bernoulli placement is a given occupancy predicate `occupied(x, y)`.
- The random integers are an infinite stream `draw: nat -> int`, read from a
  cursor. Each method and function returns the cursor of the next unread draw.
  A draw is read only when the target tree is FINE, because Python's `and`
  short-circuits.

Points where the code behaves differently from what a quick reading suggests,
and which the model reproduces:

- The draw is `randint(0, 100)`, which includes both 0 and 100. So a
  probability of exactly 100 can fail, on the draw 100
  (`Rules.IgnitionBounds`, `Schedule.HundredIsNotCertain`).
- With no trees, the "Percent burned" lambda divides by zero. The error is
  raised after the step counter has advanced, and the code has no fallback
  value. The model returns `ZeroDivisionError`, leaves the series and the
  running flag as they were, and keeps the advanced counter.
- Fire is not limited to one hop per step. When the order activates a freshly
  ignited tree later in the same step, that tree spreads and burns out too.
  `CascadeWestToEast` and `OneHopEastToWest` show both outcomes on a row of
  three trees, and `BurnsOutAtItsTurn` states finality for such trees.
- The code validates no parameters. The constructor accepts any probability,
  any wind speeds and any non-negative grid extents.
- The grid is built as `MultiGrid(height, width)`, so the x extent comes from
  `height` and the y extent from `width`. The constructor's contract states
  exactly that.

## Model

| member | source | states |
|---|---|---|
| Cells.Code | ModeloIncendios/fire.py:16-18 | FINE, BURNING and BURNED_OUT are stored as 0, 1 and 2 |
| Cells.EvolutionIsOneWay | ModeloIncendios/fire.py:77-98 | along a run, a FINE tree was FINE before, BURNED_OUT is final, and emptiness never changes |
| Rules.SpreadProbability | ModeloIncendios/fire.py:45-75 | with zero wind every neighbour gets exactly the base; with base ≥ 0 the result lies between 0 and base plus the larger absolute wind speed |
| Rules.GateFollowsWind | ModeloIncendios/fire.py:45-75 | for every axis neighbour, the probability is base + the wind component toward it when that component is ≥ 0, and 0 against the wind (west/east by the west speed, north/south by the south speed) |
| Rules.WestWindScenario | ModeloIncendios/fire.py:45-75 | a west wind of 10 gives base + 10 to the east, 0 to the west, and the bare base to north and south |
| Rules.TryIgnite | ModeloIncendios/fire.py:77-81 | a draw is consumed iff the target is FINE; the target changes iff it is FINE and the draw is below the probability, and then it becomes BURNING; no other cell changes |
| Rules.IgnitionBounds | ModeloIncendios/fire.py:77-81 | with draws in 0..100, a probability ≤ 0 never ignites, > 100 always ignites, and exactly 100 fails on the draw 100 |
| Rules.Neighbours | ModeloIncendios/fire.py:40-42 | the list holds exactly the in-bounds trees at Manhattan distance 1, never the tree itself, and at most four (that none is listed twice is `Rules.NeighboursDistinct`) |
| Rules.SpreadAll | ModeloIncendios/fire.py:40-81 | the spread evolves the grid, consumes at most one draw per neighbour, changes only listed neighbours, and only FINE → BURNING |
| Rules.NeighboursDistinct | ModeloIncendios/fire.py:40-42 | no neighbour is listed twice |
| Rules.SpreadReads | ModeloIncendios/fire.py:40-81 | over distinct neighbours the spread reads exactly one draw per FINE neighbour, so the i-th neighbour's turn starts at the cursor plus the number of FINE neighbours before it |
| Rules.SpreadDecidesAt | ModeloIncendios/fire.py:77-81 | the i-th of distinct neighbours, when FINE, ends BURNING iff the draw at the cursor where its turn starts is below the gated probability toward it |
| Rules.SpreadCertain | ModeloIncendios/fire.py:77-81 | a FINE neighbour whose probability exceeds 100 always ends BURNING |
| Rules.SpreadImpossible | ModeloIncendios/fire.py:45-81 | when every probability is ≤ 0 the spread leaves the grid unchanged |
| Rules.FloorDiv8 | ModeloIncendios/fire.py:83-84 | `v // 8` is the q with 8q ≤ v < 8q + 8, i.e. rounding toward negative infinity |
| Rules.FloorBelowTruncation | ModeloIncendios/fire.py:83-84 | floor division is one below truncating division exactly on negative non-multiples of 8; `-1 // 8 == -1` where truncation gives 0 |
| Rules.JumpOffsetSmallSpeeds | ModeloIncendios/fire.py:83-84 | the jump offset is 0 iff the speed is in 0..7, and -1 for speeds -8..-1 |
| Rules.JumpTarget | ModeloIncendios/fire.py:83-84 | the ember lands on the tree itself iff both speeds are in 0..7 |
| Rules.BigJump | ModeloIncendios/fire.py:82-95 | exactly one draw is read when jumps are enabled and the target is an in-bounds FINE tree, and none otherwise (a BURNING or BURNED_OUT target reads none, as `and` short-circuits); disabled, out-of-bounds or empty targets change nothing; with a FINE target the target becomes BURNING iff that draw is below the bare base probability; no other cell changes |
| Rules.JumpOntoSelfIsNoOp | ModeloIncendios/fire.py:82-95 | an ember landing on its own BURNING tree changes nothing and reads no draw |
| Rules.TreeStep | ModeloIncendios/fire.py:37-98 | an activation evolves the grid; a BURNING tree ends BURNED_OUT; a FINE or BURNED_OUT tree changes nothing and reads no draw; at most five draws are read |
| Rules.TreeStepIgnitesOnlyNearby | ModeloIncendios/fire.py:37-98 | any other cell that changes was FINE, becomes BURNING, and is an axis neighbour or the jump target of a BURNING activated tree |
| Rules.TreeStepSpreads | ModeloIncendios/fire.py:37-81 | in a burning tree's activation, its i-th FINE neighbour ends BURNING when the draw at the cursor where its turn starts is below the gated probability, and, when the ember cannot land on it, only then |
| Rules.JumpOntoSpreadNeighbour | ModeloIncendios/fire.py:77-95 | when the ember lands on the i-th of distinct neighbours and it was FINE, the jump lights it iff it won its own draw or the draw at the spread's end cursor is below the base probability, and reads that draw only when its own draw failed |
| Rules.TreeStepJumpsOntoNeighbour | ModeloIncendios/fire.py:77-95 | in a burning tree's activation, a FINE neighbour the ember lands on ends BURNING iff it wins its own draw, or else the draw right after the spread's draws (the cursor `Rules.SpreadReads` counts as k plus the FINE neighbours) is below the base probability |
| Rules.TreeStepReads | ModeloIncendios/fire.py:37-95 | a burning tree's activation reads exactly one draw per FINE neighbour, plus one when jumps are enabled and the target is in bounds and still FINE after the spread |
| Rules.JumpAfterSpread | ModeloIncendios/fire.py:77-95 | after the spread over distinct neighbours that exclude the FINE jump target, the jump reads the draw at the cursor plus the number of FINE neighbours, and lights the target iff that draw is below the base probability |
| Rules.TreeStepJumps | ModeloIncendios/fire.py:82-95 | when the ember of a burning tree lands on a FINE tree that is not a neighbour, it reads the draw after the spread's draws, and the target ends BURNING iff that draw is below the base probability |
| Rules.CalmCertainSpread | ModeloIncendios/fire.py:45-81 | with no wind and base > 100 every FINE neighbour of a burning tree catches fire |
| Rules.NoChanceNoSpread | ModeloIncendios/fire.py:37-98 | when base + \|each wind speed\| is ≤ 0, an activation changes no cell other than the activated tree |
| Schedule.Activate | ModeloIncendios/fire.py:142 | a tick evolves the grid and reads at most five draws per activated tree |
| Schedule.BurningEndsBurnedOut | ModeloIncendios/fire.py:37-98 | every tree BURNING at the start of a tick and in the order is BURNED_OUT at its end |
| Schedule.ActivatePrefixEvolves | ModeloIncendios/fire.py:142 | the rest of a tick only moves each cell forward from where a prefix of the order left it |
| Schedule.BurnsOutAtItsTurn | ModeloIncendios/fire.py:37-98 | a tree that is BURNING when the order reaches it, including one lit earlier in the same tick, is BURNED_OUT at the end of the tick |
| Schedule.NoChanceNoSpreadInTick | ModeloIncendios/fire.py:45-81 | when no direction can reach a positive probability, FINE trees stay FINE for a whole tick |
| Schedule.ActivateWest | ModeloIncendios/fire.py:37-98 | on a calm row, the burning west tree lights the middle tree with one draw and burns out |
| Schedule.ActivateMiddle | ModeloIncendios/fire.py:37-98 | the burning middle tree skips its burnt-out neighbour, lights the east tree with one draw and burns out |
| Schedule.ActivateEast | ModeloIncendios/fire.py:37-98 | the burning east tree, with only a burnt-out neighbour, burns out and reads no draw |
| Schedule.CascadeWestToEast | ModeloIncendios/fire.py:142 | visited west to east, a row whose west tree burns is entirely BURNED_OUT after one tick, using two draws |
| Schedule.OneHopEastToWest | ModeloIncendios/fire.py:142 | visited east to west, the same row advances one hop only: BURNED_OUT, BURNING, FINE |
| Schedule.HundredIsNotCertain | ModeloIncendios/fire.py:77-81 | a probability of 100 with the draw 100 leaves the neighbour FINE |
| Metrics.Count | ModeloIncendios/fire.py:147-152 | the count never exceeds the number of trees |
| Metrics.CountZero | ModeloIncendios/fire.py:147-152 | the count is 0 iff no tree has the condition |
| Metrics.CountAll | ModeloIncendios/fire.py:147-152 | the count equals the number of trees iff every tree has the condition |
| Metrics.CountsSumToTotal | ModeloIncendios/fire.py:147-152 | the FINE, BURNING and BURNED_OUT counts sum to the number of trees |
| Metrics.CountFollowsEvolution | ModeloIncendios/fire.py:147-152 | if every condition moves forward, the BURNED_OUT count does not drop and the FINE count does not grow |
| Metrics.CountsFollowGrid | ModeloIncendios/fire.py:147-152 | the same holds for the trees of two grids where one evolves from the other |
| Metrics.PercentBurned | ModeloIncendios/fire.py:136-137 | division by zero iff there are no trees; otherwise value × total = burnt-out count, and the value lies in [0, 1] |
| Metrics.PercentBurnedMonotone | ModeloIncendios/fire.py:136-137 | more burnt-out trees out of the same total give a fraction no smaller |
| ForestModel.EvolutionKeepsPopulation | ModeloIncendios/fire.py:118-133 | trees are neither placed nor removed after construction, and the burnt-out count of the trees does not drop |
| ForestModel.SeriesGrows | ModeloIncendios/fire.py:141-145 | appending a fraction no smaller than the current one, and stopping at step 50, keeps the series well formed |
| ForestModel.EvolutionKeepsModel | ModeloIncendios/fire.py:37-98 | a change of the grid that only moves cells forward keeps the forest invariant, as the burnt-out fraction only rises |
| ForestModel.StepKeepsModel | ModeloIncendios/fire.py:141-145 | a step keeps the forest invariant: the same trees, one series value per step, never decreasing, and running iff fewer than 50 steps |
| ForestModel.SpreadToNeighbours | ModeloIncendios/fire.py:40-81 | the loop over the neighbours computes exactly `Rules.SpreadAll` |
| ForestModel.TryBigJump | ModeloIncendios/fire.py:82-95 | the jump attempt computes exactly `Rules.BigJump` |
| ForestModel.Forest.constructor | ModeloIncendios/fire.py:104-139 | x extent = `height` and y extent = `width`; occupied coordinates hold a tree, BURNING at x = 0 and FINE elsewhere, and the others are empty; the schedule lists each tree once; steps 0, running, empty series |
| ForestModel.Forest.TreeStep | ModeloIncendios/fire.py:37-98 | the in-place activation leaves the grid and cursor of `Rules.TreeStep`, nothing else changes, and the invariant `Valid` is kept when it held before |
| ForestModel.Forest.CountType | ModeloIncendios/fire.py:147-152 | the loop returns `Metrics.Count` of the trees' conditions |
| ForestModel.Forest.ScheduleStep | ModeloIncendios/fire.py:142 | activating the trees in `order` leaves the grid and cursor of `Schedule.Activate`, and the counter goes up by one |
| ForestModel.Forest.Collect | ModeloIncendios/fire.py:134-143 | the collected value is the burnt-out fraction, appended to the series, or a division by zero that appends nothing |
| ForestModel.Forest.Step | ModeloIncendios/fire.py:141-145 | the invariant is kept; the grid is the tick of `order`; the counter goes up by one; the fraction is collected; running becomes false when the counter reaches 50 after a successful collection |

## Left out

- The visualisation and server (`agent_portrayal`, the canvas, the chart, the
  sliders and `server.launch()`, fire.py lines 156-210) are user interface and
  network code.
- The shuffle inside `RandomActivation` is library code. The model takes the
  order as input: same length as the trees, same members.
- `MultiGrid.iter_neighbors` is library code and its iteration order is not
  modelled. The model visits neighbours in coordinate order: west, south,
  north, east. The order only decides which draw goes to which neighbour.
- The Bernoulli trial `random() < density` becomes the occupancy predicate
  `occupied`. The floating-point density and the random generator are not
  modelled.
- The generator behind `randint` is not modelled; draws are a stream. Lemmas
  that need draws in 0..100 require that of the stream.
- The floating-point division in the fraction is modelled as exact division
  of reals. Rounding is not modelled.
- Agent identifiers (`next_id`) and tree objects are not modelled. The grid
  stores the condition at each coordinate. The per-tree copies of the
  parameters are stored once on the forest, because every tree receives the
  same values.
- A cell holds at most one tree, since construction places at most one. So
  the jump target's `get_neighbors(...)[0]` is that tree.
- The data collector's storage is modelled only as the "Percent burned"
  series. The exception raised with zero trees is modelled as a returned
  `ZeroDivisionError` value.
- Negative grid extents: the constructor takes them as natural numbers. The
  code's `range` over a negative extent would build an empty grid; the model
  does not admit that input.
- ForestModel.Forest.Step: its contract does not repeat burn-out finality for
  the tick. Finality follows from its `Schedule.Activate` postcondition
  together with `Schedule.BurningEndsBurnedOut` and `Schedule.BurnsOutAtItsTurn`.
