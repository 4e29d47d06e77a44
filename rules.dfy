/** What one burning tree does when the schedule activates it: the wind-gated
    spread to its axis-aligned neighbours, the optional big jump of an ember, and
    burning out. Everything here is a pure function of the grid; the random source
    is an infinite stream of draws `draw(0), draw(1), ...` read from a cursor. */
module Rules {
  import opened Cells

  /** The parameters every tree of the forest shares. */
  datatype Params = Params(
    probabilityOfSpread: int,
    southWindSpeed: int,
    westWindSpeed: int,
    bigJumps: bool)

  /** A grid together with the cursor of the next unread draw. */
  datatype Stepped = Stepped(grid: Grid, next: nat)

  function Abs(v: int): nat {
    if v < 0 then -v else v
  }

  function Max(a: int, b: int): int {
    if a < b then b else a
  }

  /** One of `randint(0, 100)`'s outcomes: both ends are included. */
  predicate IsDraw(d: int) {
    0 <= d <= 100
  }

  /** Every value of the stream is an outcome of `randint(0, 100)`. */
  ghost predicate IsDrawStream(draw: nat -> int) {
    forall i: nat :: IsDraw(draw(i))
  }

  /** `b` is one of the four von Neumann neighbours of `a`. */
  predicate IsAxisNeighbour(a: Pos, b: Pos) {
    Abs(b.x - a.x) + Abs(b.y - a.y) == 1
  }

  // ---------------------------------------------------------------------------
  // The directional gate

  /** The ignition probability (percent) from the burning tree at `src` toward
      the neighbour at `dst`: a larger x is east, a larger y is north. Wind adds
      its speed in the direction it blows, and closes the opposite direction. */
  function SpreadProbability(p: Params, src: Pos, dst: Pos): (r: int)
    requires src != dst
    ensures p.westWindSpeed == 0 && p.southWindSpeed == 0 ==> r == p.probabilityOfSpread
    ensures 0 <= p.probabilityOfSpread ==>
      0 <= r <= p.probabilityOfSpread + Max(Abs(p.westWindSpeed), Abs(p.southWindSpeed))
  {
    if src.x > dst.x then
      if p.westWindSpeed <= 0 then p.probabilityOfSpread + Abs(p.westWindSpeed) else 0
    else if src.x < dst.x then
      if p.westWindSpeed >= 0 then p.probabilityOfSpread + Abs(p.westWindSpeed) else 0
    else if src.y < dst.y then
      if p.southWindSpeed >= 0 then p.probabilityOfSpread + Abs(p.southWindSpeed) else 0
    else
      if p.southWindSpeed <= 0 then p.probabilityOfSpread + Abs(p.southWindSpeed) else 0
  }

  /** An independent statement of the gate: with `along` the component of the
      wind vector (west speed toward +x, south speed toward +y) in the direction of
      the neighbour, the probability is `base + along` downwind and 0 upwind. */
  lemma GateFollowsWind(p: Params, src: Pos, dst: Pos)
    requires IsAxisNeighbour(src, dst)
    ensures src != dst
    ensures var along := (dst.x - src.x) * p.westWindSpeed + (dst.y - src.y) * p.southWindSpeed;
      SpreadProbability(p, src, dst) == if along >= 0 then p.probabilityOfSpread + along else 0
  {
    if dst.x < src.x {
      assert dst == Pos(src.x - 1, src.y);
    } else if dst.x > src.x {
      assert dst == Pos(src.x + 1, src.y);
    } else if dst.y > src.y {
      assert dst == Pos(src.x, src.y + 1);
    } else {
      assert dst == Pos(src.x, src.y - 1);
    }
  }

  /** The scenario of a pure west wind of speed 10: east gets base + 10, west gets
      nothing, and north and south get the bare base probability. */
  lemma WestWindScenario(p: Params, src: Pos)
    requires p.westWindSpeed == 10 && p.southWindSpeed == 0
    ensures SpreadProbability(p, src, Pos(src.x + 1, src.y)) == p.probabilityOfSpread + 10
    ensures SpreadProbability(p, src, Pos(src.x - 1, src.y)) == 0
    ensures SpreadProbability(p, src, Pos(src.x, src.y + 1)) == p.probabilityOfSpread
    ensures SpreadProbability(p, src, Pos(src.x, src.y - 1)) == p.probabilityOfSpread
  {
  }

  // ---------------------------------------------------------------------------
  // Ignition by one draw

  /** The grid after an ignition attempt on the tree at `t` with probability
      `probability`: a draw is read only when the tree is FINE, and the tree catches
      fire when that draw is below the probability. */
  function TryIgnite(g: Grid, t: Pos, probability: int, draw: nat -> int, k: nat): (r: Stepped)
    requires g.Valid() && g.InBounds(t)
    ensures Evolves(g, r.grid)
    ensures r.next == if g.At(t) == Tree(Fine) then k + 1 else k
    ensures forall q :: g.InBounds(q) && q != t ==> r.grid.At(q) == g.At(q)
    ensures r.grid.At(t) != g.At(t) <==> g.At(t) == Tree(Fine) && draw(k) < probability
    ensures r.grid.At(t) != g.At(t) ==> r.grid.At(t) == Tree(Burning)
  {
    if g.At(t) == Tree(Fine) then
      Stepped(if draw(k) < probability then g.Set(t, Tree(Burning)) else g, k + 1)
    else
      Stepped(g, k)
  }

  /** A probability of at most 0 never ignites, one above 100 always does, and one
      of exactly 100 fails on the draw 100. */
  lemma IgnitionBounds(g: Grid, t: Pos, probability: int, draw: nat -> int, k: nat)
    requires g.Valid() && g.InBounds(t) && g.At(t) == Tree(Fine) && IsDraw(draw(k))
    ensures probability <= 0 ==> TryIgnite(g, t, probability, draw, k).grid.At(t) == Tree(Fine)
    ensures probability > 100 ==> TryIgnite(g, t, probability, draw, k).grid.At(t) == Tree(Burning)
    ensures probability == 100 && draw(k) == 100 ==>
      TryIgnite(g, t, probability, draw, k).grid.At(t) == Tree(Fine)
  {
  }

  // ---------------------------------------------------------------------------
  // Neighbours

  /** Whether the coordinate `q` lies on the grid and holds a tree. */
  predicate HasTree(g: Grid, q: Pos)
    requires g.Valid()
  {
    g.InBounds(q) && g.At(q).Tree?
  }

  /** `[q]` when `q` holds a tree, `[]` otherwise. */
  function TreeAt(g: Grid, q: Pos): seq<Pos>
    requires g.Valid()
  {
    if HasTree(g, q) then [q] else []
  }

  /** Two lists of distinct positions with no position in common join into one. */
  lemma DistinctConcat(a: seq<Pos>, b: seq<Pos>)
    requires Distinct(a) && Distinct(b) && forall q :: q in a ==> q !in b
    ensures Distinct(a + b)
  {
    forall i, j | 0 <= i < j < |a + b|
      ensures (a + b)[i] != (a + b)[j]
    {
      if i < |a| && j >= |a| {
        assert (a + b)[i] in a && (a + b)[j] in b;
      }
    }
  }

  /** The four von Neumann neighbours of `a`, by direction. */
  lemma AxisNeighbourCases(a: Pos, b: Pos)
    ensures IsAxisNeighbour(a, b) <==>
      b == Pos(a.x - 1, a.y) || b == Pos(a.x, a.y - 1) || b == Pos(a.x, a.y + 1) || b == Pos(a.x + 1, a.y)
  {
  }

  /** The trees on the four axis-aligned neighbouring coordinates of `src`,
      ordered by coordinate; missing and out-of-bounds neighbours are skipped. */
  function Neighbours(g: Grid, src: Pos): (ns: seq<Pos>)
    requires g.Valid()
    ensures |ns| <= 4
    ensures forall n :: n in ns <==> g.InBounds(n) && g.At(n).Tree? && IsAxisNeighbour(src, n)
    ensures forall n :: n in ns ==> n != src
  {
    var west, south := Pos(src.x - 1, src.y), Pos(src.x, src.y - 1);
    var north, east := Pos(src.x, src.y + 1), Pos(src.x + 1, src.y);
    forall n
      ensures IsAxisNeighbour(src, n) <==> n == west || n == south || n == north || n == east
    {
      AxisNeighbourCases(src, n);
    }
    TreeAt(g, west) + TreeAt(g, south) + TreeAt(g, north) + TreeAt(g, east)
  }

  /** No neighbour is listed twice. */
  lemma NeighboursDistinct(g: Grid, src: Pos)
    requires g.Valid()
    ensures Distinct(Neighbours(g, src))
  {
    var west, south := TreeAt(g, Pos(src.x - 1, src.y)), TreeAt(g, Pos(src.x, src.y - 1));
    var north, east := TreeAt(g, Pos(src.x, src.y + 1)), TreeAt(g, Pos(src.x + 1, src.y));
    FourDistinct(west, south, north, east, src);
  }

  /** Lists of at most one position each, on the four sides of `src`, join into
      a list without repetition. */
  lemma FourDistinct(west: seq<Pos>, south: seq<Pos>, north: seq<Pos>, east: seq<Pos>, src: Pos)
    requires west == [] || west == [Pos(src.x - 1, src.y)]
    requires south == [] || south == [Pos(src.x, src.y - 1)]
    requires north == [] || north == [Pos(src.x, src.y + 1)]
    requires east == [] || east == [Pos(src.x + 1, src.y)]
    ensures Distinct(west + south + north + east)
  {
    DistinctConcat(west, south);
    DistinctConcat(west + south, north);
    DistinctConcat(west + south + north, east);
  }

  /** The grid after the burning tree at `src` has tried to ignite each tree of
      `ns` in turn, each with its own wind-gated probability. */
  function SpreadAll(g: Grid, p: Params, src: Pos, ns: seq<Pos>, draw: nat -> int, k: nat): (r: Stepped)
    requires g.Valid()
    requires forall n :: n in ns ==> g.InBounds(n) && n != src
    ensures Evolves(g, r.grid)
    ensures k <= r.next <= k + |ns|
    ensures forall q :: g.InBounds(q) && q !in ns ==> r.grid.At(q) == g.At(q)
    ensures forall q :: q in ns && r.grid.At(q) != g.At(q) ==>
      g.At(q) == Tree(Fine) && r.grid.At(q) == Tree(Burning)
    decreases |ns|
  {
    if ns == [] then
      Stepped(g, k)
    else
      var s := SpreadAll(g, p, src, ns[..|ns| - 1], draw, k);
      var n := ns[|ns| - 1];
      assert n in ns;
      TryIgnite(s.grid, n, SpreadProbability(p, src, n), draw, s.next)
  }

  /** The number of entries of `ns` that hold a FINE tree on `g`: the draws an
      ignition attempt on each of them in turn reads. */
  function FineCount(g: Grid, ns: seq<Pos>): (n: nat)
    requires g.Valid()
    requires forall q :: q in ns ==> g.InBounds(q)
    ensures n <= |ns|
    decreases |ns|
  {
    if ns == [] then
      0
    else
      var init := ns[..|ns| - 1];
      assert forall q :: q in init ==> q in ns;
      FineCount(g, init) + (if g.At(ns[|ns| - 1]) == Tree(Fine) then 1 else 0)
  }

  /** Splitting off the last of distinct positions: the rest are distinct and do
      not contain it. */
  lemma DistinctLast(ns: seq<Pos>)
    requires Distinct(ns) && ns != []
    ensures Distinct(ns[..|ns| - 1]) && ns[|ns| - 1] !in ns[..|ns| - 1]
  {
    var init := ns[..|ns| - 1];
    forall j | 0 <= j < |init|
      ensures init[j] != ns[|ns| - 1]
    {
      assert init[j] == ns[j];
    }
  }

  /** The spread over distinct neighbours reads one draw per FINE neighbour. */
  lemma {:induction false} SpreadReads(g: Grid, p: Params, src: Pos, ns: seq<Pos>, draw: nat -> int, k: nat)
    requires g.Valid()
    requires forall n :: n in ns ==> g.InBounds(n) && n != src
    requires Distinct(ns)
    ensures SpreadAll(g, p, src, ns, draw, k).next == k + FineCount(g, ns)
    decreases |ns|
  {
    if ns != [] {
      var init := ns[..|ns| - 1];
      assert forall q :: q in init ==> q in ns;
      DistinctLast(ns);
      SpreadReads(g, p, src, init, draw, k);
    }
  }

  /** The last ignition attempt of the spread leaves every other cell as the
      earlier attempts left it. */
  lemma SpreadOthersKept(g: Grid, p: Params, src: Pos, ns: seq<Pos>, draw: nat -> int, k: nat, q: Pos)
    requires g.Valid()
    requires forall n :: n in ns ==> g.InBounds(n) && n != src
    requires ns != [] && g.InBounds(q) && q != ns[|ns| - 1]
    ensures var init := ns[..|ns| - 1];
      assert forall n :: n in init ==> n in ns;
      SpreadAll(g, p, src, ns, draw, k).grid.At(q) == SpreadAll(g, p, src, init, draw, k).grid.At(q)
  {
  }

  /** Whether the i-th of the neighbours `ns` wins its own ignition draw: the draw
      at the cursor its turn in the spread starts from is below the probability
      toward it. */
  predicate WinsTurn(g: Grid, p: Params, src: Pos, ns: seq<Pos>, draw: nat -> int, k: nat, i: nat)
    requires g.Valid()
    requires forall n :: n in ns ==> g.InBounds(n) && n != src
    requires i < |ns|
  {
    assert ns[i] in ns;
    assert forall n :: n in ns[..i] ==> n in ns;
    draw(SpreadAll(g, p, src, ns[..i], draw, k).next) < SpreadProbability(p, src, ns[i])
  }

  /** The ignition rule for the i-th of distinct neighbours: when FINE, it catches
      fire exactly when the draw at the cursor its turn starts from is below the
      probability toward it. */
  lemma {:induction false} SpreadDecidesAt(g: Grid, p: Params, src: Pos, ns: seq<Pos>, draw: nat -> int, k: nat, i: nat)
    requires g.Valid()
    requires forall n :: n in ns ==> g.InBounds(n) && n != src
    requires Distinct(ns)
    requires i < |ns| && g.At(ns[i]) == Tree(Fine)
    ensures SpreadAll(g, p, src, ns, draw, k).grid.At(ns[i]) == Tree(Burning) <==> WinsTurn(g, p, src, ns, draw, k, i)
    decreases |ns|
  {
    var init := ns[..|ns| - 1];
    assert forall q :: q in init ==> q in ns;
    DistinctLast(ns);
    if i < |init| {
      assert init[i] == ns[i] && ns[..i] == init[..i];
      SpreadDecidesAt(g, p, src, init, draw, k, i);
      SpreadOthersKept(g, p, src, ns, draw, k, ns[i]);
    } else {
      assert ns[..i] == init;
    }
  }

  /** A FINE neighbour toward which the probability exceeds 100 always catches fire. */
  lemma {:induction false} SpreadCertain(g: Grid, p: Params, src: Pos, ns: seq<Pos>, draw: nat -> int, k: nat, q: Pos)
    requires g.Valid()
    requires forall n :: n in ns ==> g.InBounds(n) && n != src
    requires IsDrawStream(draw)
    requires q in ns && g.At(q) == Tree(Fine) && SpreadProbability(p, src, q) > 100
    ensures SpreadAll(g, p, src, ns, draw, k).grid.At(q) == Tree(Burning)
    decreases |ns|
  {
    var init := ns[..|ns| - 1];
    assert ns == init + [ns[|ns| - 1]];
    assert forall n :: n in init ==> n in ns;
    var s := SpreadAll(g, p, src, init, draw, k);
    if q in init {
      SpreadCertain(g, p, src, init, draw, k, q);
    } else {
      assert s.grid.At(q) == Tree(Fine);
      assert IsDraw(draw(s.next));
    }
  }

  /** With every gated probability at most 0, no tree catches fire. */
  lemma {:induction false} SpreadImpossible(g: Grid, p: Params, src: Pos, ns: seq<Pos>, draw: nat -> int, k: nat)
    requires g.Valid()
    requires forall n :: n in ns ==> g.InBounds(n) && n != src
    requires IsDrawStream(draw)
    requires forall n :: n in ns ==> SpreadProbability(p, src, n) <= 0
    ensures SpreadAll(g, p, src, ns, draw, k).grid == g
    decreases |ns|
  {
    if ns != [] {
      var init := ns[..|ns| - 1];
      assert ns == init + [ns[|ns| - 1]];
      assert forall n :: n in init ==> n in ns;
      SpreadImpossible(g, p, src, init, draw, k);
      var s := SpreadAll(g, p, src, init, draw, k);
      assert IsDraw(draw(s.next));
    }
  }

  // ---------------------------------------------------------------------------
  // The big jump

  /** Python's `v // 8`: division rounding toward negative infinity. (Dafny's `/`
      is Euclidean, which for a positive divisor is the same thing.) */
  function FloorDiv8(v: int): (q: int)
    ensures 8 * q <= v < 8 * q + 8
  {
    v / 8
  }

  /** Division by 8 rounding toward zero, as C or Java would do it. */
  function TruncDiv8(v: int): int {
    if v >= 0 then v / 8 else -((-v) / 8)
  }

  /** Floor and truncating division differ exactly on negative non-multiples of 8,
      where the floor is one lower: `-1 // 8 == -1` while truncation gives 0. */
  lemma FloorBelowTruncation(v: int)
    ensures v < 0 && v % 8 != 0 ==> FloorDiv8(v) == TruncDiv8(v) - 1
    ensures v >= 0 || v % 8 == 0 ==> FloorDiv8(v) == TruncDiv8(v)
    ensures FloorDiv8(-1) == -1 && TruncDiv8(-1) == 0
  {
    if v < 0 {
      var q := (-v) / 8;
      assert -v == 8 * q + (-v) % 8;
      if v % 8 == 0 {
        assert (-v) % 8 == 0;
      } else {
        assert (-v) % 8 != 0;
        assert 8 * (-q - 1) <= v < 8 * (-q - 1) + 8;
      }
    }
  }

  /** The big-jump offset is 0 exactly for speeds 0..7 and -1 for speeds -8..-1. */
  lemma JumpOffsetSmallSpeeds(v: int)
    ensures FloorDiv8(v) == 0 <==> 0 <= v < 8
    ensures -8 <= v < 0 ==> FloorDiv8(v) == -1
  {
  }

  /** Where the ember of the tree at `src` lands. */
  function JumpTarget(p: Params, src: Pos): (t: Pos)
    ensures t == src <==> 0 <= p.westWindSpeed < 8 && 0 <= p.southWindSpeed < 8
  {
    Pos(src.x + FloorDiv8(p.westWindSpeed), src.y + FloorDiv8(p.southWindSpeed))
  }

  /** The grid after the big-jump attempt of the burning tree at `src`: only when
      enabled, only onto a tree inside the grid, and with the bare base probability. */
  function BigJump(g: Grid, p: Params, src: Pos, draw: nat -> int, k: nat): (r: Stepped)
    requires g.Valid()
    ensures Evolves(g, r.grid)
    ensures !p.bigJumps ==> r == Stepped(g, k)
    ensures !g.InBounds(JumpTarget(p, src)) || g.IsEmpty(JumpTarget(p, src)) ==> r == Stepped(g, k)
    ensures var t := JumpTarget(p, src);
      r.next == if p.bigJumps && g.InBounds(t) && g.At(t) == Tree(Fine) then k + 1 else k
    ensures var t := JumpTarget(p, src);
      p.bigJumps && g.InBounds(t) && g.At(t) == Tree(Fine) ==>
        (r.grid.At(t) == Tree(Burning) <==> draw(k) < p.probabilityOfSpread)
    ensures forall q :: g.InBounds(q) && r.grid.At(q) != g.At(q) ==>
      && p.bigJumps && q == JumpTarget(p, src)
      && g.At(q) == Tree(Fine) && r.grid.At(q) == Tree(Burning)
      && draw(k) < p.probabilityOfSpread
  {
    if !p.bigJumps then
      Stepped(g, k)
    else
      var t := JumpTarget(p, src);
      if !g.InBounds(t) || g.IsEmpty(t) then Stepped(g, k)
      else TryIgnite(g, t, p.probabilityOfSpread, draw, k)
  }

  /** An ember that lands on its own still-burning tree changes nothing and reads
      no draw. */
  lemma JumpOntoSelfIsNoOp(g: Grid, p: Params, src: Pos, draw: nat -> int, k: nat)
    requires g.Valid() && g.InBounds(src) && g.At(src) == Tree(Burning)
    requires 0 <= p.westWindSpeed < 8 && 0 <= p.southWindSpeed < 8
    ensures BigJump(g, p, src, draw, k) == Stepped(g, k)
  {
  }

  // ---------------------------------------------------------------------------
  // One activation of one tree

  /** The grid after the tree at `src` is activated: a burning tree spreads to its
      neighbours, makes its big jump, and burns out; any other tree does nothing. */
  function TreeStep(g: Grid, p: Params, src: Pos, draw: nat -> int, k: nat): (r: Stepped)
    requires g.Valid() && g.InBounds(src)
    ensures Evolves(g, r.grid)
    ensures g.At(src) == Tree(Burning) ==> r.grid.At(src) == Tree(BurnedOut)
    ensures g.At(src) != Tree(Burning) ==> r == Stepped(g, k)
    ensures k <= r.next <= k + 5
  {
    if g.At(src) != Tree(Burning) then
      Stepped(g, k)
    else
      var s := SpreadAll(g, p, src, Neighbours(g, src), draw, k);
      var j := BigJump(s.grid, p, src, draw, s.next);
      EvolvesTransitive(g, s.grid, j.grid);
      Stepped(j.grid.Set(src, Tree(BurnedOut)), j.next)
  }

  /** No spontaneous ignition: besides the activated tree itself, a cell changes
      only when the activated tree is burning, only from FINE to BURNING, and only
      on a von Neumann neighbour or on the big-jump target. */
  lemma TreeStepIgnitesOnlyNearby(g: Grid, p: Params, src: Pos, draw: nat -> int, k: nat, q: Pos)
    requires g.Valid() && g.InBounds(src) && g.InBounds(q) && q != src
    ensures var h := TreeStep(g, p, src, draw, k).grid;
      h.At(q) != g.At(q) ==>
        && g.At(src) == Tree(Burning)
        && g.At(q) == Tree(Fine) && h.At(q) == Tree(Burning)
        && (IsAxisNeighbour(src, q) || (p.bigJumps && q == JumpTarget(p, src)))
  {
    if g.At(src) == Tree(Burning) {
      var ns := Neighbours(g, src);
      var s := SpreadAll(g, p, src, ns, draw, k);
      var j := BigJump(s.grid, p, src, draw, s.next);
      assert TreeStep(g, p, src, draw, k).grid.At(q) == j.grid.At(q);
      if q in ns {
        if j.grid.At(q) != s.grid.At(q) {
          assert s.grid.At(q) == Tree(Fine);
        }
      } else {
        assert s.grid.At(q) == g.At(q);
      }
    }
  }

  /** The activation of a burning tree, unfolded: the spread, then the big jump
      from where the spread leaves the grid and the cursor, then the burn-out. */
  lemma BurningStepKeeps(g: Grid, p: Params, src: Pos, draw: nat -> int, k: nat)
    requires g.Valid() && g.InBounds(src) && g.At(src) == Tree(Burning)
    ensures TreeStep(g, p, src, draw, k) ==
      var s := SpreadAll(g, p, src, Neighbours(g, src), draw, k);
      var j := BigJump(s.grid, p, src, draw, s.next);
      Stepped(j.grid.Set(src, Tree(BurnedOut)), j.next)
  {
  }

  /** The spread of an activation, neighbour by neighbour: the i-th FINE neighbour
      of a burning tree ends BURNING when its draw is below the probability toward
      it, and, unless the ember may also land on it, only then. */
  lemma TreeStepSpreads(g: Grid, p: Params, src: Pos, draw: nat -> int, k: nat, i: nat)
    requires g.Valid() && g.InBounds(src) && g.At(src) == Tree(Burning)
    requires i < |Neighbours(g, src)| && g.At(Neighbours(g, src)[i]) == Tree(Fine)
    ensures var ns := Neighbours(g, src);
      var h := TreeStep(g, p, src, draw, k).grid;
      var lit := WinsTurn(g, p, src, ns, draw, k, i);
      && (lit ==> h.At(ns[i]) == Tree(Burning))
      && (!(p.bigJumps && JumpTarget(p, src) == ns[i]) ==> (h.At(ns[i]) == Tree(Burning) <==> lit))
  {
    var ns := Neighbours(g, src);
    NeighboursDistinct(g, src);
    var q := ns[i];
    assert q in ns;
    SpreadDecidesAt(g, p, src, ns, draw, k, i);
    var s := SpreadAll(g, p, src, ns, draw, k);
    var j := BigJump(s.grid, p, src, draw, s.next);
    BurningStepKeeps(g, p, src, draw, k);
    if s.grid.At(q) == Tree(Burning) || !(p.bigJumps && JumpTarget(p, src) == q) {
      assert j.grid.At(q) == s.grid.At(q);
    }
  }

  /** The big jump after a spread over distinct neighbours that do not include
      the target: it reads the draw after the spread's draws. */
  lemma JumpAfterSpread(g: Grid, p: Params, src: Pos, ns: seq<Pos>, draw: nat -> int, k: nat)
    requires g.Valid()
    requires forall n :: n in ns ==> g.InBounds(n) && n != src
    requires Distinct(ns)
    requires p.bigJumps && g.InBounds(JumpTarget(p, src)) && g.At(JumpTarget(p, src)) == Tree(Fine)
    requires JumpTarget(p, src) !in ns
    ensures var s := SpreadAll(g, p, src, ns, draw, k);
      var j := BigJump(s.grid, p, src, draw, s.next);
      && j.next == k + FineCount(g, ns) + 1
      && (j.grid.At(JumpTarget(p, src)) == Tree(Burning) <==> draw(k + FineCount(g, ns)) < p.probabilityOfSpread)
  {
    SpreadReads(g, p, src, ns, draw, k);
  }

  /** The big jump of an activation: when the ember lands on a FINE tree that is
      not a neighbour, it reads the draw after the spread's draws and lights the
      tree exactly when that draw is below the bare base probability. */
  lemma TreeStepJumps(g: Grid, p: Params, src: Pos, draw: nat -> int, k: nat)
    requires g.Valid() && g.InBounds(src) && g.At(src) == Tree(Burning)
    requires p.bigJumps && g.InBounds(JumpTarget(p, src)) && g.At(JumpTarget(p, src)) == Tree(Fine)
    requires !IsAxisNeighbour(src, JumpTarget(p, src))
    ensures var r := TreeStep(g, p, src, draw, k);
      var first := k + FineCount(g, Neighbours(g, src));
      && r.next == first + 1
      && (r.grid.At(JumpTarget(p, src)) == Tree(Burning) <==> draw(first) < p.probabilityOfSpread)
  {
    var ns := Neighbours(g, src);
    NeighboursDistinct(g, src);
    JumpAfterSpread(g, p, src, ns, draw, k);
    BurningStepKeeps(g, p, src, draw, k);
  }

  /** The big jump after a spread over distinct neighbours, when the ember lands
      on the i-th of them and it was FINE: a neighbour its own draw lit stays lit
      and reads no draw; otherwise the jump reads the draw after the spread's. */
  lemma JumpOntoSpreadNeighbour(g: Grid, p: Params, src: Pos, ns: seq<Pos>, draw: nat -> int, k: nat, i: nat)
    requires g.Valid()
    requires forall n :: n in ns ==> g.InBounds(n) && n != src
    requires Distinct(ns)
    requires i < |ns| && g.At(ns[i]) == Tree(Fine)
    requires p.bigJumps && JumpTarget(p, src) == ns[i]
    ensures var s := SpreadAll(g, p, src, ns, draw, k);
      var j := BigJump(s.grid, p, src, draw, s.next);
      var lit := WinsTurn(g, p, src, ns, draw, k, i);
      && (j.grid.At(ns[i]) == Tree(Burning) <==> lit || draw(s.next) < p.probabilityOfSpread)
      && j.next == s.next + (if lit then 0 else 1)
  {
    var q := ns[i];
    assert q in ns;
    SpreadDecidesAt(g, p, src, ns, draw, k, i);
    if !WinsTurn(g, p, src, ns, draw, k, i) {
      assert SpreadAll(g, p, src, ns, draw, k).grid.At(q) == Tree(Fine);
    }
  }

  /** The ember of an activation that lands on a FINE neighbour gives it a second
      chance: the neighbour ends BURNING when it wins its own draw or, failing that,
      when the draw right after the spread's draws (the cursor `SpreadReads`
      counts) is below the bare base probability. */
  lemma TreeStepJumpsOntoNeighbour(g: Grid, p: Params, src: Pos, draw: nat -> int, k: nat, i: nat)
    requires g.Valid() && g.InBounds(src) && g.At(src) == Tree(Burning)
    requires i < |Neighbours(g, src)| && g.At(Neighbours(g, src)[i]) == Tree(Fine)
    requires p.bigJumps && JumpTarget(p, src) == Neighbours(g, src)[i]
    ensures var ns := Neighbours(g, src);
      TreeStep(g, p, src, draw, k).grid.At(ns[i]) == Tree(Burning) <==>
        WinsTurn(g, p, src, ns, draw, k, i) || draw(SpreadAll(g, p, src, ns, draw, k).next) < p.probabilityOfSpread
  {
    var ns := Neighbours(g, src);
    NeighboursDistinct(g, src);
    JumpOntoSpreadNeighbour(g, p, src, ns, draw, k, i);
    BurningStepKeeps(g, p, src, draw, k);
  }

  /** The draws an activation reads: one per FINE neighbour, then one more when the
      ember lands on a tree inside the grid that is still FINE after the spread. */
  lemma TreeStepReads(g: Grid, p: Params, src: Pos, draw: nat -> int, k: nat)
    requires g.Valid() && g.InBounds(src) && g.At(src) == Tree(Burning)
    ensures var ns := Neighbours(g, src);
      var s := SpreadAll(g, p, src, ns, draw, k);
      var t := JumpTarget(p, src);
      TreeStep(g, p, src, draw, k).next ==
        k + FineCount(g, ns) + (if p.bigJumps && g.InBounds(t) && s.grid.At(t) == Tree(Fine) then 1 else 0)
  {
    NeighboursDistinct(g, src);
    SpreadReads(g, p, src, Neighbours(g, src), draw, k);
  }

  /** With no wind and a base probability above 100, every FINE neighbour of a
      burning tree catches fire when the tree is activated. The interface's slider
      stops at 100, so only a direct construction reaches such a base; at exactly
      100 ignition is not certain (`Schedule.HundredIsNotCertain`). */
  lemma CalmCertainSpread(g: Grid, p: Params, src: Pos, draw: nat -> int, k: nat, q: Pos)
    requires g.Valid() && g.InBounds(src) && g.At(src) == Tree(Burning)
    requires p.westWindSpeed == 0 && p.southWindSpeed == 0 && p.probabilityOfSpread > 100
    requires IsDrawStream(draw)
    requires g.InBounds(q) && IsAxisNeighbour(src, q) && g.At(q) == Tree(Fine)
    ensures TreeStep(g, p, src, draw, k).grid.At(q) == Tree(Burning)
  {
    var ns := Neighbours(g, src);
    SpreadCertain(g, p, src, ns, draw, k, q);
  }

  /** When no direction can reach a positive probability, activation only burns
      the tree out: nothing else changes. */
  lemma NoChanceNoSpread(g: Grid, p: Params, src: Pos, draw: nat -> int, k: nat)
    requires g.Valid() && g.InBounds(src)
    requires p.probabilityOfSpread + Abs(p.westWindSpeed) <= 0
    requires p.probabilityOfSpread + Abs(p.southWindSpeed) <= 0
    requires IsDrawStream(draw)
    ensures forall q :: g.InBounds(q) && q != src ==> TreeStep(g, p, src, draw, k).grid.At(q) == g.At(q)
  {
    if g.At(src) == Tree(Burning) {
      var ns := Neighbours(g, src);
      SpreadImpossible(g, p, src, ns, draw, k);
      var s := SpreadAll(g, p, src, ns, draw, k);
      assert IsDraw(draw(s.next));
    }
  }
}
