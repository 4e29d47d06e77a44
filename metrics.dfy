/** What the model reports after every step: the number of trees in a condition,
    the fraction of trees burnt out, and the fixed horizon of a run. */
module Metrics {
  import opened Cells

  /** A run stops when the step counter reaches this value. */
  const Horizon: nat := 50

  /** The number of entries of `cs` equal to `c`. */
  function Count(cs: seq<Condition>, c: Condition): (n: nat)
    ensures n <= |cs|
    decreases |cs|
  {
    if cs == [] then
      0
    else
      var init := cs[..|cs| - 1];
      assert cs == init + [cs[|cs| - 1]];
      Count(init, c) + (if cs[|cs| - 1] == c then 1 else 0)
  }

  /** The count is 0 exactly when no entry is `c`. */
  lemma {:induction false} CountZero(cs: seq<Condition>, c: Condition)
    ensures Count(cs, c) == 0 <==> c !in cs
    decreases |cs|
  {
    if cs != [] {
      var init := cs[..|cs| - 1];
      assert cs == init + [cs[|cs| - 1]];
      CountZero(init, c);
    }
  }

  /** The count is the length exactly when every entry is `c`. */
  lemma {:induction false} CountAll(cs: seq<Condition>, c: Condition)
    ensures Count(cs, c) == |cs| <==> forall i :: 0 <= i < |cs| ==> cs[i] == c
    decreases |cs|
  {
    if cs != [] {
      var init := cs[..|cs| - 1];
      assert cs == init + [cs[|cs| - 1]];
      CountAll(init, c);
      assert forall i :: 0 <= i < |init| ==> init[i] == cs[i];
    }
  }

  /** Every tree is in exactly one condition: the three counts add up to the
      number of trees. */
  lemma {:induction false} CountsSumToTotal(cs: seq<Condition>)
    ensures Count(cs, Fine) + Count(cs, Burning) + Count(cs, BurnedOut) == |cs|
    decreases |cs|
  {
    if cs != [] {
      CountsSumToTotal(cs[..|cs| - 1]);
    }
  }

  /** When every tree has moved forward (or stayed), no fewer trees are burnt out
      and no more trees are FINE. */
  lemma {:induction false} CountFollowsEvolution(cs: seq<Condition>, ds: seq<Condition>)
    requires |cs| == |ds|
    requires forall i :: 0 <= i < |cs| ==> Code(cs[i]) <= Code(ds[i])
    ensures Count(cs, BurnedOut) <= Count(ds, BurnedOut)
    ensures Count(ds, Fine) <= Count(cs, Fine)
    decreases |cs|
  {
    if cs != [] {
      CountFollowsEvolution(cs[..|cs| - 1], ds[..|ds| - 1]);
    }
  }

  /** The conditions of the trees at `agents`, in the order of `agents`. */
  function ConditionsOf(g: Grid, agents: seq<Pos>): (cs: seq<Condition>)
    requires g.Valid()
    requires forall a :: a in agents ==> g.InBounds(a) && g.At(a).Tree?
    ensures |cs| == |agents|
  {
    seq(|agents|, i requires 0 <= i < |agents| => g.At(agents[i]).condition)
  }

  /** Counting the trees of `agents` on a grid that has evolved from `g`: the
      burnt-out count does not decrease and the FINE count does not increase. */
  lemma CountsFollowGrid(g: Grid, h: Grid, agents: seq<Pos>)
    requires Evolves(g, h)
    requires forall a :: a in agents ==> g.InBounds(a) && g.At(a).Tree?
    ensures forall a :: a in agents ==> h.InBounds(a) && h.At(a).Tree?
    ensures Count(ConditionsOf(g, agents), BurnedOut) <= Count(ConditionsOf(h, agents), BurnedOut)
    ensures Count(ConditionsOf(h, agents), Fine) <= Count(ConditionsOf(g, agents), Fine)
  {
    var cs, ds := ConditionsOf(g, agents), ConditionsOf(h, agents);
    forall i | 0 <= i < |cs|
      ensures Code(cs[i]) <= Code(ds[i])
    {
      assert agents[i] in agents;
      assert CellEvolves(g.At(agents[i]), h.At(agents[i]));
    }
    CountFollowsEvolution(cs, ds);
  }

  /** The value the data collector records, or the error it raises. */
  datatype Collected = Fraction(value: real) | ZeroDivisionError

  /** The burnt-out share of the trees: `burnedOut / total`, which raises a
      division by zero when there are no trees. */
  function PercentBurned(burnedOut: nat, total: nat): (r: Collected)
    ensures r.ZeroDivisionError? <==> total == 0
    ensures r.Fraction? ==> r.value * total as real == burnedOut as real
    ensures r.Fraction? && burnedOut <= total ==> 0.0 <= r.value <= 1.0
  {
    if total == 0 then ZeroDivisionError else Fraction(burnedOut as real / total as real)
  }

  /** More burnt-out trees out of the same total give a larger fraction. */
  lemma PercentBurnedMonotone(a: nat, b: nat, total: nat)
    requires a <= b && total > 0
    ensures PercentBurned(a, total).value <= PercentBurned(b, total).value
  {
    var t := total as real;
    assert PercentBurned(b, total).value - PercentBurned(a, total).value == (b - a) as real / t;
  }
}
