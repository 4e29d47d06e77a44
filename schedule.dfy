/** One tick of the random-activation schedule: every tree is activated once, in a
    given order (the shuffle of the schedule's trees), against the grid as the
    earlier activations of the same tick have left it. */
module Schedule {
  import opened Cells
  import opened Rules

  /** The grid after the trees at `order` have been activated in turn. */
  function Activate(g: Grid, p: Params, order: seq<Pos>, draw: nat -> int, k: nat): (r: Stepped)
    requires g.Valid()
    requires forall t :: t in order ==> g.InBounds(t)
    ensures Evolves(g, r.grid)
    ensures k <= r.next <= k + 5 * |order|
    decreases |order|
  {
    if order == [] then
      Stepped(g, k)
    else
      var s := Activate(g, p, order[..|order| - 1], draw, k);
      var t := order[|order| - 1];
      assert t in order;
      var r := TreeStep(s.grid, p, t, draw, s.next);
      EvolvesTransitive(g, s.grid, r.grid);
      r
  }

  /** Burn-out finality: a tree that is BURNING when the tick starts and is in the
      order is BURNED_OUT when the tick ends. */
  lemma {:induction false} BurningEndsBurnedOut(g: Grid, p: Params, order: seq<Pos>, draw: nat -> int, k: nat, t: Pos)
    requires g.Valid()
    requires forall u :: u in order ==> g.InBounds(u)
    requires t in order && g.At(t) == Tree(Burning)
    ensures Activate(g, p, order, draw, k).grid.At(t) == Tree(BurnedOut)
    decreases |order|
  {
    var init := order[..|order| - 1];
    assert order == init + [order[|order| - 1]];
    var s := Activate(g, p, init, draw, k);
    assert order[|order| - 1] in order;
    if t in init {
      BurningEndsBurnedOut(g, p, init, draw, k, t);
      EvolutionIsOneWay(s.grid, TreeStep(s.grid, p, order[|order| - 1], draw, s.next).grid, t);
    } else {
      assert t == order[|order| - 1];
      assert CellEvolves(g.At(t), s.grid.At(t));
    }
  }

  /** The rest of a tick only moves the grid forward from where a prefix of the
      order left it. */
  lemma {:induction false} ActivatePrefixEvolves(g: Grid, p: Params, order: seq<Pos>, draw: nat -> int, k: nat, i: nat)
    requires g.Valid()
    requires forall u :: u in order ==> g.InBounds(u)
    requires i <= |order|
    ensures assert forall u :: u in order[..i] ==> u in order;
      Evolves(Activate(g, p, order[..i], draw, k).grid, Activate(g, p, order, draw, k).grid)
    decreases |order|
  {
    assert forall u :: u in order[..i] ==> u in order;
    if i == |order| {
      assert order[..i] == order;
      EvolvesReflexive(Activate(g, p, order, draw, k).grid);
    } else {
      var init := order[..|order| - 1];
      assert forall u :: u in init ==> u in order;
      assert init[..i] == order[..i];
      ActivatePrefixEvolves(g, p, init, draw, k, i);
      EvolvesTransitive(Activate(g, p, order[..i], draw, k).grid,
                        Activate(g, p, init, draw, k).grid,
                        Activate(g, p, order, draw, k).grid);
    }
  }

  /** Burn-out finality at a tree's turn: a tree that is BURNING when the order
      reaches it, whether it burned at the start of the tick or was lit earlier in
      the same tick, is BURNED_OUT when the tick ends. */
  lemma BurnsOutAtItsTurn(g: Grid, p: Params, order: seq<Pos>, draw: nat -> int, k: nat, i: nat)
    requires g.Valid()
    requires forall u :: u in order ==> g.InBounds(u)
    requires i < |order|
    requires assert forall u :: u in order[..i] ==> u in order;
      assert order[i] in order;
      Activate(g, p, order[..i], draw, k).grid.At(order[i]) == Tree(Burning)
    ensures Activate(g, p, order, draw, k).grid.At(order[i]) == Tree(BurnedOut)
  {
    var t := order[i];
    assert t in order;
    assert forall u :: u in order[..i + 1] ==> u in order;
    assert order[..i + 1][..i] == order[..i];
    ActivatePrefixEvolves(g, p, order, draw, k, i + 1);
    var after := Activate(g, p, order[..i + 1], draw, k).grid;
    assert after.At(t) == Tree(BurnedOut);
    EvolutionIsOneWay(after, Activate(g, p, order, draw, k).grid, t);
  }

  /** When no direction can reach a positive probability, a tick changes no tree
      other than those that were already burning: FINE trees stay FINE. */
  lemma {:induction false} NoChanceNoSpreadInTick(g: Grid, p: Params, order: seq<Pos>, draw: nat -> int, k: nat, q: Pos)
    requires g.Valid()
    requires forall u :: u in order ==> g.InBounds(u)
    requires p.probabilityOfSpread + Abs(p.westWindSpeed) <= 0
    requires p.probabilityOfSpread + Abs(p.southWindSpeed) <= 0
    requires IsDrawStream(draw)
    requires g.InBounds(q) && g.At(q) == Tree(Fine)
    ensures Activate(g, p, order, draw, k).grid.At(q) == Tree(Fine)
    decreases |order|
  {
    if order != [] {
      var init := order[..|order| - 1];
      var t := order[|order| - 1];
      assert t in order;
      NoChanceNoSpreadInTick(g, p, init, draw, k, q);
      var s := Activate(g, p, init, draw, k);
      NoChanceNoSpread(s.grid, p, t, draw, s.next);
      if q == t {
        assert s.grid.At(t) != Tree(Burning);
      }
    }
  }

  // ---------------------------------------------------------------------------
  // The order matters: fire can travel several hops within one tick

  /** `g` is a row of three trees along x (3 wide, 1 high) in conditions a, b, c. */
  ghost predicate IsRow(g: Grid, a: Condition, b: Condition, c: Condition) {
    && g.Valid() && g.width == 3 && g.height == 1
    && g.At(Pos(0, 0)) == Tree(a) && g.At(Pos(1, 0)) == Tree(b) && g.At(Pos(2, 0)) == Tree(c)
  }

  /** The parameters of the row scenarios below, more than calm air: no wind,
      a base spread probability of exactly 100, and big jumps switched off. */
  predicate IsCalm(p: Params) {
    p.probabilityOfSpread == 100 && p.westWindSpeed == 0 && p.southWindSpeed == 0 && !p.bigJumps
  }

  lemma WestNeighbours(g: Grid, a: Condition, b: Condition, c: Condition)
    requires IsRow(g, a, b, c)
    ensures Neighbours(g, Pos(0, 0)) == [Pos(1, 0)]
  {
    var west, east := TreeAt(g, Pos(-1, 0)), TreeAt(g, Pos(1, 0));
    var south, north := TreeAt(g, Pos(0, -1)), TreeAt(g, Pos(0, 1));
    assert west == [] && east == [Pos(1, 0)];
    assert south == [] && north == [];
    assert west + south + north + east == [Pos(1, 0)];
  }

  lemma MiddleNeighbours(g: Grid, a: Condition, b: Condition, c: Condition)
    requires IsRow(g, a, b, c)
    ensures Neighbours(g, Pos(1, 0)) == [Pos(0, 0), Pos(2, 0)]
  {
    var west, east := TreeAt(g, Pos(0, 0)), TreeAt(g, Pos(2, 0));
    var south, north := TreeAt(g, Pos(1, -1)), TreeAt(g, Pos(1, 1));
    assert west == [Pos(0, 0)] && east == [Pos(2, 0)];
    assert south == [] && north == [];
    assert west + south + north + east == [Pos(0, 0), Pos(2, 0)];
  }

  lemma EastNeighbours(g: Grid, a: Condition, b: Condition, c: Condition)
    requires IsRow(g, a, b, c)
    ensures Neighbours(g, Pos(2, 0)) == [Pos(1, 0)]
  {
    var west, east := TreeAt(g, Pos(1, 0)), TreeAt(g, Pos(3, 0));
    var south, north := TreeAt(g, Pos(2, -1)), TreeAt(g, Pos(2, 1));
    assert west == [Pos(1, 0)] && east == [];
    assert south == [] && north == [];
    assert west + south + north + east == [Pos(1, 0)];
  }

  /** The west tree burns out and lights the middle one with the draw at `k`. */
  lemma ActivateWest(g: Grid, p: Params, c: Condition, draw: nat -> int, k: nat)
    requires IsRow(g, Burning, Fine, c) && IsCalm(p) && draw(k) < 100
    ensures var r := TreeStep(g, p, Pos(0, 0), draw, k);
      IsRow(r.grid, BurnedOut, Burning, c) && r.next == k + 1
  {
    WestNeighbours(g, Burning, Fine, c);
    var ns := [Pos(1, 0)];
    assert ns[..0] == [];
    var h := g.Set(Pos(1, 0), Tree(Burning));
    assert SpreadAll(g, p, Pos(0, 0), ns, draw, k) == Stepped(h, k + 1);
    assert h.At(Pos(2, 0)) == g.At(Pos(2, 0));
  }

  /** The spread from the middle tree: no draw for the burnt-out west tree, the draw
      at `k` for the east one. */
  lemma MiddleSpread(g: Grid, p: Params, draw: nat -> int, k: nat)
    requires IsRow(g, BurnedOut, Burning, Fine) && IsCalm(p) && draw(k) < 100
    ensures SpreadAll(g, p, Pos(1, 0), [Pos(0, 0), Pos(2, 0)], draw, k) ==
      Stepped(g.Set(Pos(2, 0), Tree(Burning)), k + 1)
  {
    var ns := [Pos(0, 0), Pos(2, 0)];
    assert ns[..1] == [Pos(0, 0)] && ns[..1][..0] == [];
    assert SpreadAll(g, p, Pos(1, 0), ns[..1], draw, k) == Stepped(g, k);
  }

  /** The middle tree burns out and lights the east one with the draw at `k`; the
      burnt-out west tree takes no draw. */
  lemma ActivateMiddle(g: Grid, p: Params, draw: nat -> int, k: nat)
    requires IsRow(g, BurnedOut, Burning, Fine) && IsCalm(p) && draw(k) < 100
    ensures var r := TreeStep(g, p, Pos(1, 0), draw, k);
      IsRow(r.grid, BurnedOut, BurnedOut, Burning) && r.next == k + 1
  {
    MiddleNeighbours(g, BurnedOut, Burning, Fine);
    MiddleSpread(g, p, draw, k);
    var h := g.Set(Pos(2, 0), Tree(Burning));
    assert h.At(Pos(0, 0)) == g.At(Pos(0, 0));
  }

  /** The east tree burns out; its only neighbour is burnt out, so no draw is taken. */
  lemma ActivateEast(g: Grid, p: Params, draw: nat -> int, k: nat)
    requires IsRow(g, BurnedOut, BurnedOut, Burning) && IsCalm(p)
    ensures var r := TreeStep(g, p, Pos(2, 0), draw, k);
      IsRow(r.grid, BurnedOut, BurnedOut, BurnedOut) && r.next == k
  {
    EastNeighbours(g, BurnedOut, BurnedOut, Burning);
    var ns := [Pos(1, 0)];
    assert ns[..0] == [];
    assert SpreadAll(g, p, Pos(2, 0), ns, draw, k) == Stepped(g, k);
  }

  /** Activated west to east, a row whose west end is burning burns out completely
      within a single tick: fire travels several hops in one tick. */
  lemma {:induction false} CascadeWestToEast(g: Grid, p: Params, draw: nat -> int, k: nat)
    requires IsRow(g, Burning, Fine, Fine) && IsCalm(p) && draw(k) < 100 && draw(k + 1) < 100
    ensures var r := Activate(g, p, [Pos(0, 0), Pos(1, 0), Pos(2, 0)], draw, k);
      IsRow(r.grid, BurnedOut, BurnedOut, BurnedOut) && r.next == k + 2
  {
    var o1, o2, o3 := [Pos(0, 0)], [Pos(0, 0), Pos(1, 0)], [Pos(0, 0), Pos(1, 0), Pos(2, 0)];
    assert o1[..0] == [] && o2[..1] == o1 && o3[..2] == o2;
    ActivateWest(g, p, Fine, draw, k);
    var s1 := Activate(g, p, o1, draw, k);
    ActivateMiddle(s1.grid, p, draw, s1.next);
    var s2 := Activate(g, p, o2, draw, k);
    ActivateEast(s2.grid, p, draw, s2.next);
  }

  /** Activated east to west, the same row advances by one hop only: the middle and
      east trees are still FINE when their turn comes, so they do nothing. */
  lemma {:induction false} OneHopEastToWest(g: Grid, p: Params, draw: nat -> int, k: nat)
    requires IsRow(g, Burning, Fine, Fine) && IsCalm(p) && draw(k) < 100
    ensures var r := Activate(g, p, [Pos(2, 0), Pos(1, 0), Pos(0, 0)], draw, k);
      IsRow(r.grid, BurnedOut, Burning, Fine) && r.next == k + 1
  {
    var o1, o2, o3 := [Pos(2, 0)], [Pos(2, 0), Pos(1, 0)], [Pos(2, 0), Pos(1, 0), Pos(0, 0)];
    assert o1[..0] == [] && o2[..1] == o1 && o3[..2] == o2;
    assert Activate(g, p, o1, draw, k) == Stepped(g, k);
    assert Activate(g, p, o2, draw, k) == Stepped(g, k);
    ActivateWest(g, p, Fine, draw, k);
  }

  /** A spread probability of 100 is not a certainty: the draw is taken from 0 to
      100 inclusive, and a draw of 100 leaves the neighbour FINE. */
  lemma HundredIsNotCertain(g: Grid, p: Params, c: Condition, draw: nat -> int, k: nat)
    requires IsRow(g, Burning, Fine, c) && IsCalm(p) && draw(k) == 100
    ensures TreeStep(g, p, Pos(0, 0), draw, k).grid.At(Pos(1, 0)) == Tree(Fine)
  {
    WestNeighbours(g, Burning, Fine, c);
    var ns := [Pos(1, 0)];
    assert ns[..0] == [];
    assert SpreadAll(g, p, Pos(0, 0), ns, draw, k) == Stepped(g, k + 1);
  }
}
