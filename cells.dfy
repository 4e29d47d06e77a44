/** The state of the forest: tree conditions, the cells of the non-wrapping grid
    that hold them, and the one-way evolution a cell may undergo during a run. */
module Cells {

  /** The three conditions a tree can be in. */
  datatype Condition = Fine | Burning | BurnedOut

  /** The integer each condition is stored as (FINE = 0, BURNING = 1, BURNED_OUT = 2). */
  function Code(c: Condition): (n: int)
    ensures n == 0 <==> c == Fine
    ensures n == 1 <==> c == Burning
    ensures n == 2 <==> c == BurnedOut
  {
    match c
    case Fine => 0
    case Burning => 1
    case BurnedOut => 2
  }

  /** A coordinate holds no tree or exactly one tree. */
  datatype Cell = Empty | Tree(condition: Condition)

  /** A coordinate; it may lie outside the grid (a big-jump target, say). */
  datatype Pos = Pos(x: int, y: int)

  /** The grid, indexed `cells[x][y]`. `width` is the extent of x and `height`
      the extent of y; there is no wrap-around at the edges. */
  datatype Grid = Grid(width: nat, height: nat, cells: seq<seq<Cell>>) {

    predicate Valid() {
      |cells| == width && forall i :: 0 <= i < |cells| ==> |cells[i]| == height
    }

    /** The negation of the grid's out-of-bounds test. */
    predicate InBounds(p: Pos) {
      0 <= p.x < width && 0 <= p.y < height
    }

    function At(p: Pos): Cell
      requires Valid() && InBounds(p)
    {
      cells[p.x][p.y]
    }

    /** Whether a coordinate of the grid holds no tree. */
    predicate IsEmpty(p: Pos)
      requires Valid() && InBounds(p)
    {
      At(p) == Empty
    }

    /** The grid with the cell at `p` replaced by `c`. */
    function Set(p: Pos, c: Cell): (g: Grid)
      requires Valid() && InBounds(p)
      ensures g.Valid() && g.width == width && g.height == height
      ensures g.At(p) == c
      ensures forall q :: g.InBounds(q) && q != p ==> g.At(q) == At(q)
    {
      Grid(width, height, cells[p.x := cells[p.x][p.y := c]])
    }
  }

  /** No position occurs twice in `ps`. */
  predicate Distinct(ps: seq<Pos>) {
    forall i, j :: 0 <= i < j < |ps| ==> ps[i] != ps[j]
  }

  /** A grid of the given extents with no tree on it. */
  function EmptyGrid(width: nat, height: nat): (g: Grid)
    ensures g.Valid() && g.width == width && g.height == height
    ensures forall q :: g.InBounds(q) ==> g.At(q) == Empty
  {
    Grid(width, height, seq(width, _ => seq(height, _ => Empty)))
  }

  /** How one cell may change during a run: an empty coordinate stays empty and a
      tree stays a tree whose condition only moves FINE -> BURNING -> BURNED_OUT. */
  predicate CellEvolves(a: Cell, b: Cell) {
    match a
    case Empty => b == Empty
    case Tree(c) => b.Tree? && Code(c) <= Code(b.condition)
  }

  /** `h` can follow `g` in a run: same shape, and every cell evolves. */
  ghost predicate Evolves(g: Grid, h: Grid) {
    && g.Valid() && h.Valid()
    && g.width == h.width && g.height == h.height
    && forall q :: g.InBounds(q) ==> CellEvolves(g.At(q), h.At(q))
  }

  lemma EvolvesReflexive(g: Grid)
    requires g.Valid()
    ensures Evolves(g, g)
  {
  }

  lemma EvolvesTransitive(f: Grid, g: Grid, h: Grid)
    requires Evolves(f, g) && Evolves(g, h)
    ensures Evolves(f, h)
  {
  }

  /** Evolution never writes FINE, never brings a tree back, never places one. */
  lemma EvolutionIsOneWay(g: Grid, h: Grid, q: Pos)
    requires Evolves(g, h) && g.InBounds(q)
    ensures h.At(q) == Tree(Fine) ==> g.At(q) == Tree(Fine)
    ensures g.At(q) == Tree(BurnedOut) ==> h.At(q) == Tree(BurnedOut)
    ensures g.At(q) == Empty <==> h.At(q) == Empty
  {
  }
}
