/** The forest model: the grid of trees, the schedule's trees, the step counter,
    the running flag and the recorded series of burnt-out fractions, updated in
    place by construction and by every step. */
module ForestModel {
  import opened Cells
  import opened Rules
  import opened Schedule
  import opened Metrics

  /** What construction puts at `q`: a tree when the coordinate is occupied, which
      starts BURNING in column x = 0 and FINE elsewhere, and nothing otherwise. */
  function Planted(occupied: (int, int) -> bool, q: Pos): Cell {
    if occupied(q.x, q.y) then Tree(if q.x == 0 then Burning else Fine) else Empty
  }

  /** `agents` lists exactly the trees of `g`, each once. */
  ghost predicate IsPopulation(g: Grid, agents: seq<Pos>) {
    && g.Valid()
    && (forall a :: a in agents ==> g.InBounds(a) && g.At(a).Tree?)
    && (forall q :: g.InBounds(q) && g.At(q).Tree? ==> q in agents)
    && Distinct(agents)
  }

  /** Trees are neither placed nor removed after construction: the same positions
      are the trees of every grid the run evolves to, and the burnt-out count of
      those trees does not decrease. */
  lemma EvolutionKeepsPopulation(g: Grid, h: Grid, agents: seq<Pos>)
    requires IsPopulation(g, agents) && Evolves(g, h)
    ensures IsPopulation(h, agents)
    ensures Count(ConditionsOf(g, agents), BurnedOut) <= Count(ConditionsOf(h, agents), BurnedOut)
  {
    CountsFollowGrid(g, h, agents);
    forall q | h.InBounds(q) && h.At(q).Tree?
      ensures q in agents
    {
      EvolutionIsOneWay(g, h, q);
    }
  }

  /** The recorded series after `steps` collections, with `current` the fraction
      the grid shows now: one value per step, never decreasing, none above the
      current fraction, and the run stopped exactly from the horizon on. */
  ghost predicate IsSeries(series: seq<real>, steps: nat, running: bool, current: real) {
    && |series| == steps
    && (running <==> steps < Horizon)
    && (forall i, j :: 0 <= i < j < |series| ==> series[i] <= series[j])
    && (forall i :: 0 <= i < |series| ==> 0.0 <= series[i] <= current)
  }

  /** Recording a fraction no smaller than the last one, and stopping when the
      counter reaches the horizon, keeps the series well formed. */
  lemma SeriesGrows(series: seq<real>, steps: nat, running: bool, current: real, next: real)
    requires IsSeries(series, steps, running, current)
    requires 0.0 <= current <= next
    ensures IsSeries(series + [next], steps + 1, running && steps + 1 != Horizon, next)
  {
  }

  /** The loop over the neighbours of the burning tree at `src`: each FINE one
      takes the next draw and catches fire when it is below the probability toward
      it. */
  method SpreadToNeighbours(g: Grid, p: Params, src: Pos, ns: seq<Pos>, draw: nat -> int, cursor: nat)
    returns (h: Grid, next: nat)
    requires g.Valid()
    requires forall n :: n in ns ==> g.InBounds(n) && n != src
    ensures Stepped(h, next) == SpreadAll(g, p, src, ns, draw, cursor)
  {
    h, next := g, cursor;
    var i := 0;
    while i < |ns|
      invariant 0 <= i <= |ns|
      invariant forall n :: n in ns[..i] ==> n in ns
      invariant Stepped(h, next) == SpreadAll(g, p, src, ns[..i], draw, cursor)
      invariant h.Valid() && h.width == g.width && h.height == g.height
    {
      assert ns[..i + 1][..i] == ns[..i];
      var neighbor := ns[i];
      assert neighbor in ns;
      var totalProbability := SpreadProbability(p, src, neighbor);
      if h.At(neighbor) == Tree(Fine) {
        if draw(next) < totalProbability {
          h := h.Set(neighbor, Tree(Burning));
        }
        next := next + 1;
      }
      i := i + 1;
    }
    assert ns[..i] == ns;
  }

  /** The big-jump attempt of the burning tree at `src`: when enabled, an ember
      lands on the jump target, and a FINE tree there takes the next draw and
      catches fire when it is below the base probability. */
  method TryBigJump(g: Grid, p: Params, src: Pos, draw: nat -> int, cursor: nat)
    returns (h: Grid, next: nat)
    requires g.Valid()
    ensures Stepped(h, next) == BigJump(g, p, src, draw, cursor)
  {
    h, next := g, cursor;
    if p.bigJumps {
      var target := JumpTarget(p, src);
      if g.InBounds(target) && !g.IsEmpty(target) {
        if g.At(target) == Tree(Fine) {
          if draw(cursor) < p.probabilityOfSpread {
            h := g.Set(target, Tree(Burning));
          }
          next := cursor + 1;
        }
      }
    }
  }

  /** The whole invariant of a forest with grid `g`, trees `agents`, counter
      `steps`, flag `running` and recorded `series`. Without trees every collection
      fails, so nothing is recorded and the run is never stopped. */
  ghost predicate IsModel(g: Grid, agents: seq<Pos>, steps: nat, running: bool, series: seq<real>) {
    && IsPopulation(g, agents)
    && (agents == [] ==> series == [] && running)
    && (agents != [] ==>
          IsSeries(series, steps, running, PercentBurned(Count(ConditionsOf(g, agents), BurnedOut), |agents|).value))
  }

  /** A change of the grid alone keeps the invariant: the trees stay the same and
      the burnt-out fraction, which every recorded value is bounded by, only rises. */
  lemma EvolutionKeepsModel(g: Grid, h: Grid, agents: seq<Pos>, steps: nat, running: bool, series: seq<real>)
    requires IsModel(g, agents, steps, running, series) && Evolves(g, h)
    ensures IsModel(h, agents, steps, running, series)
  {
    EvolutionKeepsPopulation(g, h, agents);
    if agents != [] {
      PercentBurnedMonotone(Count(ConditionsOf(g, agents), BurnedOut), Count(ConditionsOf(h, agents), BurnedOut), |agents|);
    }
  }

  /** A step keeps the invariant: the grid evolves, the counter advances, the
      collected fraction (if any) is appended, and the run stops at the horizon. */
  lemma StepKeepsModel(g: Grid, h: Grid, agents: seq<Pos>, steps: nat, running: bool, series: seq<real>,
                       c: Collected, running': bool, series': seq<real>)
    requires IsModel(g, agents, steps, running, series) && Evolves(g, h)
    requires IsPopulation(h, agents) ==> c == PercentBurned(Count(ConditionsOf(h, agents), BurnedOut), |agents|)
    requires running' == (running && !(c.Fraction? && steps + 1 == Horizon))
    requires series' == if c.Fraction? then series + [c.value] else series
    ensures IsModel(h, agents, steps + 1, running', series')
  {
    EvolutionKeepsPopulation(g, h, agents);
    if agents != [] {
      var before := Count(ConditionsOf(g, agents), BurnedOut);
      var after := Count(ConditionsOf(h, agents), BurnedOut);
      PercentBurnedMonotone(before, after, |agents|);
      SeriesGrows(series, steps, running, PercentBurned(before, |agents|).value, PercentBurned(after, |agents|).value);
    }
  }

  class Forest {
    /** The parameters every tree was created with. */
    const params: Params
    var grid: Grid
    /** The positions of the schedule's trees, in the order they were added. */
    var agents: seq<Pos>
    var steps: nat
    var running: bool
    /** The "Percent burned" series, one value per completed collection. */
    var percentBurned: seq<real>

    ghost predicate Valid()
      reads this
    {
      IsModel(grid, agents, steps, running, percentBurned)
    }

    /** Builds the grid with `height` as the extent of x and `width` as the extent
        of y, plants a tree on every occupied coordinate, visiting x-major, and adds
        each tree to the schedule. */
    constructor (height: nat, width: nat, occupied: (int, int) -> bool,
                 probabilityOfSpread: int, southWindSpeed: int, westWindSpeed: int, bigJumps: bool)
      ensures Valid()
      ensures params == Params(probabilityOfSpread, southWindSpeed, westWindSpeed, bigJumps)
      ensures grid.width == height && grid.height == width
      ensures forall q :: grid.InBounds(q) ==> grid.At(q) == Planted(occupied, q)
      ensures steps == 0 && running && percentBurned == []
    {
      var g := EmptyGrid(height, width);
      var ag: seq<Pos> := [];
      var x := 0;
      while x < height
        invariant 0 <= x <= height
        invariant g.Valid() && g.width == height && g.height == width
        invariant forall q :: g.InBounds(q) ==> g.At(q) == if q.x < x then Planted(occupied, q) else Empty
        invariant forall a :: a in ag <==> g.InBounds(a) && g.At(a).Tree?
        invariant Distinct(ag)
      {
        var y := 0;
        while y < width
          invariant 0 <= y <= width
          invariant g.Valid() && g.width == height && g.height == width
          invariant forall q :: g.InBounds(q) ==>
            g.At(q) == if q.x < x || (q.x == x && q.y < y) then Planted(occupied, q) else Empty
          invariant forall a :: a in ag <==> g.InBounds(a) && g.At(a).Tree?
          invariant Distinct(ag)
        {
          if occupied(x, y) {
            var condition := Fine;
            if x == 0 {
              condition := Burning;
            }
            var p := Pos(x, y);
            assert p !in ag;
            g := g.Set(p, Tree(condition));
            ag := ag + [p];
          }
          y := y + 1;
        }
        x := x + 1;
      }
      params := Params(probabilityOfSpread, southWindSpeed, westWindSpeed, bigJumps);
      grid := g;
      agents := ag;
      steps := 0;
      running := true;
      percentBurned := [];
    }

    /** One activation of the tree at `src`, reading draws from `cursor` on: a
        burning tree tries each neighbour, then makes its big jump, then burns out;
        any other tree does nothing. */
    method TreeStep(src: Pos, draw: nat -> int, cursor: nat) returns (next: nat)
      requires grid.Valid() && grid.InBounds(src)
      modifies this
      ensures Stepped(grid, next) == Rules.TreeStep(old(grid), params, src, draw, cursor)
      ensures agents == old(agents) && steps == old(steps)
      ensures running == old(running) && percentBurned == old(percentBurned)
      ensures old(Valid()) ==> Valid()
    {
      ghost var g0 := grid;
      var g, k := grid, cursor;
      if g.At(src) == Tree(Burning) {
        g, k := SpreadToNeighbours(g, params, src, Neighbours(g, src), draw, k);
        g, k := TryBigJump(g, params, src, draw, k);
        g := g.Set(src, Tree(BurnedOut));
      }
      grid, next := g, k;
      if IsModel(g0, agents, steps, running, percentBurned) {
        EvolutionKeepsModel(g0, grid, agents, steps, running, percentBurned);
      }
    }

    /** The number of the schedule's trees whose condition is `condition`. */
    method CountType(condition: Condition) returns (count: nat)
      requires grid.Valid()
      requires forall a :: a in agents ==> grid.InBounds(a) && grid.At(a).Tree?
      ensures count == Count(ConditionsOf(grid, agents), condition)
    {
      ghost var cs := ConditionsOf(grid, agents);
      count := 0;
      var i := 0;
      while i < |agents|
        invariant 0 <= i <= |agents|
        invariant count == Count(cs[..i], condition)
      {
        assert cs[..i + 1][..i] == cs[..i];
        assert agents[i] in agents;
        if grid.At(agents[i]).condition == condition {
          count := count + 1;
        }
        i := i + 1;
      }
      assert cs[..i] == cs;
    }

    /** The schedule's step: every tree is activated once, in `order` (a shuffle
        of the schedule's trees), then the step counter advances. It runs only as
        the first half of `Step`: until `Collect` follows, the series is one value
        behind the counter, so `Valid` does not hold in between. */
    method ScheduleStep(order: seq<Pos>, draw: nat -> int, cursor: nat) returns (next: nat)
      requires grid.Valid()
      requires forall t :: t in order ==> grid.InBounds(t)
      modifies this
      ensures Stepped(grid, next) == Activate(old(grid), params, order, draw, cursor)
      ensures steps == old(steps) + 1 && agents == old(agents)
      ensures running == old(running) && percentBurned == old(percentBurned)
    {
      next := cursor;
      var i := 0;
      while i < |order|
        invariant 0 <= i <= |order|
        invariant Stepped(grid, next) == Activate(old(grid), params, order[..i], draw, cursor)
        invariant agents == old(agents) && steps == old(steps)
        invariant running == old(running) && percentBurned == old(percentBurned)
      {
        assert order[..i + 1][..i] == order[..i];
        assert order[i] in order;
        next := TreeStep(order[i], draw, next);
        i := i + 1;
      }
      assert order[..i] == order;
      steps := steps + 1;
    }

    /** The data collector's collection: the burnt-out fraction of the trees is
        appended to the series, or a division by zero is raised when there are
        no trees. It runs only as the second half of `Step`, which re-establishes
        `Valid` after it. */
    method Collect() returns (collected: Collected)
      requires IsPopulation(grid, agents)
      modifies this
      ensures grid == old(grid) && agents == old(agents)
      ensures steps == old(steps) && running == old(running)
      ensures collected == PercentBurned(Count(ConditionsOf(grid, agents), BurnedOut), |agents|)
      ensures percentBurned ==
        if collected.Fraction? then old(percentBurned) + [collected.value] else old(percentBurned)
    {
      var burned := CountType(BurnedOut);
      collected := PercentBurned(burned, |agents|);
      if collected.Fraction? {
        percentBurned := percentBurned + [collected.value];
      }
    }

    /** One step of the model, with `order` the schedule's shuffle of its trees (as
        the trees are distinct, the same length and the same members make it a
        permutation): the schedule's step, then the collection of the burnt-out
        fraction, then the run stops once the counter reaches the horizon. With no
        trees the collection fails with a division by zero, after the counter has
        advanced and before the running flag is looked at. */
    method Step(order: seq<Pos>, draw: nat -> int, cursor: nat) returns (collected: Collected, next: nat)
      requires Valid()
      requires |order| == |agents| && forall t :: t in order <==> t in agents
      modifies this
      ensures Valid()
      ensures Stepped(grid, next) == Activate(old(grid), params, order, draw, cursor)
      ensures Evolves(old(grid), grid)
      ensures agents == old(agents) && steps == old(steps) + 1
      ensures collected == PercentBurned(Count(ConditionsOf(grid, agents), BurnedOut), |agents|)
      ensures percentBurned ==
        if collected.Fraction? then old(percentBurned) + [collected.value] else old(percentBurned)
      ensures running == (old(running) && !(collected.Fraction? && steps == Horizon))
    {
      ghost var g0, steps0, running0, series0 := grid, steps, running, percentBurned;
      next := ScheduleStep(order, draw, cursor);
      EvolutionKeepsPopulation(g0, grid, agents);
      collected := Collect();
      if collected.ZeroDivisionError? {
        StepKeepsModel(g0, grid, agents, steps0, running0, series0, collected, running, percentBurned);
        return;
      }
      if steps == Horizon {
        running := false;
      }
      StepKeepsModel(g0, grid, agents, steps0, running0, series0, collected, running, percentBurned);
    }
  }
}
