/**
 * What one tick does to one column of the grid.
 *
 * A column is the sequence of cells at one x, indexed by row y from the top
 * (row 0) to the bottom.  `Tick` is the tick as the source runs it: visit the
 * rows from the second-to-last up to the top, and let every Sand or Water
 * cell swap with an Empty cell directly below it.  `Fallen` says the same
 * thing without the loop: a grain falls exactly when the run of grains under
 * it ends in an Empty cell, and then it lands one row lower.  The two are
 * proved equal, and the physical guarantees are proved about them.
 */
module Column {
  import opened Cells

  /**
   * How the cells rewritten by a swap get their colour.  src/cell.c copies
   * the falling cell whole and gives the emptied cell the colour of the
   * Empty cell it swapped with (CarryOver).  src/cellular_physics.c rebuilds
   * both cells with update_cell, whose colour is computed from the cell's
   * new type and position (Regenerate; `shade` stands for get_cell_color,
   * random draw included).
   */
  datatype Recolor = CarryOver | Regenerate(shade: (CellType, int, int) -> Color)

  /** The Empty cell that a swap leaves at (x, y), given the Empty cell `below` it took. */
  function Vacated(below: Cell, x: int, y: int, p: Recolor): (r: Cell)
    ensures r.kind == Empty && r.fill == CellSizeFill
    ensures p.CarryOver? ==> r.color == below.color
  {
    match p
    case CarryOver => Cell(Empty, below.color, CellSizeFill)
    case Regenerate(shade) => Cell(Empty, shade(Empty, x, y), CellSizeFill)
  }

  /** The cell that a swap writes at (x, y) when `src` falls into it. */
  function Moved(src: Cell, x: int, y: int, p: Recolor): (r: Cell)
    ensures r.kind == src.kind && r.fill == src.fill
    ensures p.CarryOver? ==> r == src
  {
    match p
    case CarryOver => src
    case Regenerate(shade) => Cell(src.kind, shade(src.kind, x, y), src.fill)
  }

  /** The materials of a column, top to bottom. */
  function Kinds(c: seq<Cell>): seq<CellType> {
    seq(|c|, i requires 0 <= i < |c| => c[i].kind)
  }

  // ---------------------------------------------------------------------
  // The tick as the source runs it

  /**
   * shift_down on row y of column x: when the cell below is Empty the two
   * rows exchange materials and the falling fill moves down with its grain;
   * otherwise the column is unchanged.  No other row is touched.
   */
  function Shift(c: seq<Cell>, x: int, y: int, p: Recolor): (r: seq<Cell>)
    requires 0 <= y < |c| - 1
    ensures |r| == |c|
    ensures forall i :: 0 <= i < |c| && i != y && i != y + 1 ==> r[i] == c[i]
    ensures c[y + 1].kind == Empty ==>
      r[y].kind == c[y + 1].kind && r[y + 1].kind == c[y].kind && r[y + 1].fill == c[y].fill
    ensures c[y + 1].kind != Empty ==> r == c
  {
    if c[y + 1].kind == Empty then
      c[y := Vacated(c[y + 1], x, y, p)][y + 1 := Moved(c[y], x, y + 1, p)]
    else
      c
  }

  /**
   * One step of the scan: only Sand and Water cells are handed to
   * shift_down, so a visit changes the column only when a grain sits on an
   * Empty cell, and then the grain moves one row down.
   */
  function Visit(c: seq<Cell>, x: int, y: int, p: Recolor): (r: seq<Cell>)
    requires 0 <= y < |c| - 1
    ensures |r| == |c|
    ensures forall i :: 0 <= i < |c| && i != y && i != y + 1 ==> r[i] == c[i]
    ensures Movable(c[y].kind) && c[y + 1].kind == Empty ==> r[y].kind == Empty && r[y + 1].kind == c[y].kind
    ensures !Movable(c[y].kind) || c[y + 1].kind != Empty ==> r == c
  {
    if Movable(c[y].kind) then Shift(c, x, y, p) else c
  }

  /** The column once the scan has visited rows |c| - 2 down to k; the rows above k are not yet touched. */
  function Scanned(c: seq<Cell>, x: int, k: nat, p: Recolor): (r: seq<Cell>)
    ensures |r| == |c|
    ensures forall i :: 0 <= i < k && i < |c| ==> r[i] == c[i]
    decreases |c| - k
  {
    if k + 1 >= |c| then c else Visit(Scanned(c, x, k + 1, p), x, k, p)
  }

  /**
   * The column after a whole tick.  A tick neither creates nor destroys
   * material: the multiset of materials is unchanged.
   */
  function Tick(c: seq<Cell>, x: int, p: Recolor): (r: seq<Cell>)
    ensures |r| == |c|
    ensures multiset(Kinds(r)) == multiset(Kinds(c))
  {
    ScannedConserves(c, x, 0, p);
    Scanned(c, x, 0, p)
  }

  // ---------------------------------------------------------------------
  // The tick without the loop

  /**
   * The grain at row y falls this tick: it is Sand or Water and the cells
   * under it end in an Empty one.  So a falling grain always has some Empty
   * cell below it in its column.
   */
  predicate Falls(c: seq<Cell>, y: nat)
    ensures Falls(c, y) ==> y + 1 < |c| && Movable(c[y].kind) && exists b :: y < b < |c| && c[b].kind == Empty
    decreases |c| - y
  {
    y + 1 < |c| && Movable(c[y].kind) && (c[y + 1].kind == Empty || Falls(c, y + 1))
  }

  /** Where the run of grains from row y down ends: the Empty cell the run falls into. */
  function Base(c: seq<Cell>, y: nat): (b: nat)
    requires Falls(c, y)
    ensures y < b < |c| && c[b].kind == Empty
    ensures forall k :: y <= k < b ==> Movable(c[k].kind)
    decreases |c| - y
  {
    if c[y + 1].kind == Empty then y + 1 else Base(c, y + 1)
  }

  /**
   * Row y of the column after a tick: it receives the grain from the row
   * above if that one falls; a falling row not refilled from above is left
   * Empty; every other row keeps its cell.  A Block is never disturbed.
   */
  function FallenRow(c: seq<Cell>, x: int, p: Recolor, y: nat): (r: Cell)
    requires y < |c|
    ensures c[y].kind == Block ==> r == c[y]
    ensures 0 < y && Falls(c, y - 1) ==> r.kind == c[y - 1].kind && r.fill == c[y - 1].fill
  {
    if 0 < y && Falls(c, y - 1) then Moved(c[y - 1], x, y, p)
    else if Falls(c, y) then Vacated(c[Base(c, y)], x, y, p)
    else c[y]
  }

  /** The column after a tick, without the loop. */
  function Fallen(c: seq<Cell>, x: int, p: Recolor): (r: seq<Cell>)
    ensures |r| == |c|
  {
    seq(|c|, y requires 0 <= y < |c| => FallenRow(c, x, p, y))
  }

  /**
   * The loop invariant of the scan, in terms of `Fallen`: once rows |c| - 2
   * down to k have been visited, row k is emptied exactly if its grain falls
   * and the rows below k already hold their final cells.
   */
  lemma {:induction false} ScannedShape(c: seq<Cell>, x: int, k: nat, p: Recolor)
    requires k < |c|
    ensures Scanned(c, x, k, p)[k] == if Falls(c, k) then Vacated(c[Base(c, k)], x, k, p) else c[k]
    ensures forall i :: k < i < |c| ==> Scanned(c, x, k, p)[i] == Fallen(c, x, p)[i]
    decreases |c| - k
  {
    if k + 1 < |c| {
      ScannedShape(c, x, k + 1, p);
      var d := Scanned(c, x, k + 1, p);
      var r := Scanned(c, x, k, p);
      assert r == Visit(d, x, k, p);
      assert d[k] == c[k];
      assert d[k + 1].kind == Empty <==> c[k + 1].kind == Empty || Falls(c, k + 1);
      if Falls(c, k) {
        assert r == d[k := Vacated(d[k + 1], x, k, p)][k + 1 := Moved(c[k], x, k + 1, p)];
        if c[k + 1].kind != Empty {
          assert Base(c, k) == Base(c, k + 1);
        }
      } else {
        assert r == d;
      }
    }
  }

  /** The scan computes exactly `Fallen`. */
  lemma TickIsFallen(c: seq<Cell>, x: int, p: Recolor)
    ensures Tick(c, x, p) == Fallen(c, x, p)
  {
    if |c| > 0 {
      ScannedShape(c, x, 0, p);
    }
  }

  /** A grain falls exactly when the run of grains directly beneath it ends in an Empty cell. */
  lemma FallsIffRun(c: seq<Cell>, y: nat)
    ensures Falls(c, y) <==> exists b :: LandsAt(c, y, b)
  {
    if Falls(c, y) {
      assert LandsAt(c, y, Base(c, y));
    }
    if b :| LandsAt(c, y, b) {
      RunFalls(c, y, b);
    }
  }

  /** Rows y .. b - 1 hold grains and row b is Empty. */
  predicate LandsAt(c: seq<Cell>, y: nat, b: nat) {
    y < b < |c| && c[b].kind == Empty && forall k :: y <= k < b ==> Movable(c[k].kind)
  }

  lemma {:induction false} RunFalls(c: seq<Cell>, y: nat, b: nat)
    requires LandsAt(c, y, b)
    ensures Falls(c, y)
    decreases b - y
  {
    if y + 1 < b {
      RunFalls(c, y + 1, b);
    }
  }

  // ---------------------------------------------------------------------
  // What a tick guarantees

  /** A grain either moves exactly one row down or stays where it is. */
  lemma GrainMovesAtMostOneRow(c: seq<Cell>, x: int, p: Recolor, y: nat)
    requires y < |c| && Movable(c[y].kind)
    ensures Falls(c, y) ==> y + 1 < |c| && Tick(c, x, p)[y + 1] == Moved(c[y], x, y + 1, p)
    ensures !Falls(c, y) ==> Tick(c, x, p)[y] == c[y]
  {
    TickIsFallen(c, x, p);
  }

  /** Blocks never move, nor does a grain resting on a Block or on the bottom row. */
  lemma StaysPut(c: seq<Cell>, x: int, p: Recolor, y: nat)
    requires y < |c|
    requires c[y].kind == Block || (Movable(c[y].kind) && (y == |c| - 1 || c[y + 1].kind == Block))
    ensures Tick(c, x, p)[y] == c[y]
  {
    TickIsFallen(c, x, p);
    assert !Falls(c, y) by {
      if Movable(c[y].kind) && y + 1 < |c| {
        assert !Falls(c, y + 1);
      }
    }
  }

  lemma ShiftConserves(c: seq<Cell>, x: int, y: int, p: Recolor)
    requires 0 <= y < |c| - 1
    ensures multiset(Kinds(Shift(c, x, y, p))) == multiset(Kinds(c))
  {
    if c[y + 1].kind == Empty {
      assert Kinds(Shift(c, x, y, p)) == Kinds(c)[y := Empty][y + 1 := c[y].kind];
    }
  }

  lemma {:induction false} ScannedConserves(c: seq<Cell>, x: int, k: nat, p: Recolor)
    ensures multiset(Kinds(Scanned(c, x, k, p))) == multiset(Kinds(c))
    decreases |c| - k
  {
    if k + 1 < |c| {
      ScannedConserves(c, x, k + 1, p);
      var d := Scanned(c, x, k + 1, p);
      if Movable(d[k].kind) {
        ShiftConserves(d, x, k, p);
      }
    }
  }

  /** No grain has an Empty cell directly below it. */
  predicate Stable(c: seq<Cell>) {
    forall y :: 0 <= y < |c| - 1 && Movable(c[y].kind) ==> c[y + 1].kind != Empty
  }

  /** Whenever some grain falls, some grain lies directly over an Empty cell. */
  lemma FallNeedsGap(c: seq<Cell>, y: nat)
    ensures Falls(c, y) ==> !Stable(c)
  {
    if Falls(c, y) {
      var b := Base(c, y);
      assert Movable(c[b - 1].kind) && c[b].kind == Empty;
    }
  }

  /** A column is left unchanged by a tick exactly when it is stable. */
  lemma TickFixedIffStable(c: seq<Cell>, x: int, p: Recolor)
    ensures Tick(c, x, p) == c <==> Stable(c)
  {
    TickIsFallen(c, x, p);
    if Stable(c) {
      forall y: nat | y < |c|
        ensures !Falls(c, y)
      {
        FallNeedsGap(c, y);
      }
      assert Fallen(c, x, p) == c;
    } else {
      var y :| 0 <= y < |c| - 1 && Movable(c[y].kind) && c[y + 1].kind == Empty;
      assert Falls(c, y);
      assert Fallen(c, x, p)[y + 1] == Moved(c[y], x, y + 1, p);
    }
  }

  /** A grain over a gap over a Block drops into the gap. */
  lemma GrainIntoGap(c: seq<Cell>, x: int, p: Recolor)
    requires |c| == 3 && c[0].kind == Sand && c[1].kind == Empty && c[2].kind == Block
    ensures Kinds(Tick(c, x, p)) == [Empty, Sand, Block]
    ensures p == CarryOver ==> Tick(c, x, p) == [Cell(Empty, c[1].color, CellSizeFill), c[0], c[2]]
  {
    TickIsFallen(c, x, p);
    assert Falls(c, 0) && !Falls(c, 1) && !Falls(c, 2);
  }

  /** Two stacked grains over a gap both fall one row in the same tick. */
  lemma StackIntoGap(c: seq<Cell>, x: int, p: Recolor)
    requires |c| == 3 && c[0].kind == Sand && c[1].kind == Sand && c[2].kind == Empty
    ensures Kinds(Tick(c, x, p)) == [Empty, Sand, Sand]
    ensures p == CarryOver ==> Tick(c, x, p) == [Cell(Empty, c[2].color, CellSizeFill), c[0], c[1]]
  {
    TickIsFallen(c, x, p);
    assert !Falls(c, 2) && Falls(c, 1) && Falls(c, 0);
  }

  /** The fill values of a column, top to bottom. */
  function Fills(c: seq<Cell>): seq<int> {
    seq(|c|, i requires 0 <= i < |c| => c[i].fill)
  }

  /** The two versions of the tick move the same materials and fills; they differ only in colour. */
  lemma RecolorOnlyAffectsColor(c: seq<Cell>, x: int, p: Recolor, q: Recolor)
    ensures Kinds(Tick(c, x, p)) == Kinds(Tick(c, x, q))
    ensures Fills(Tick(c, x, p)) == Fills(Tick(c, x, q))
  {
    TickIsFallen(c, x, p);
    TickIsFallen(c, x, q);
    forall y | 0 <= y < |c|
      ensures Fallen(c, x, p)[y].kind == Fallen(c, x, q)[y].kind
      ensures Fallen(c, x, p)[y].fill == Fallen(c, x, q)[y].fill
    {
      if 0 < y && Falls(c, y - 1) {
        assert Fallen(c, x, p)[y] == Moved(c[y - 1], x, y, p);
        assert Fallen(c, x, q)[y] == Moved(c[y - 1], x, y, q);
      } else if Falls(c, y) {
        assert Fallen(c, x, p)[y] == Vacated(c[Base(c, y)], x, y, p);
        assert Fallen(c, x, q)[y] == Vacated(c[Base(c, y)], x, y, q);
      }
    }
  }

  // ---------------------------------------------------------------------
  // The whole grid, as a sequence of columns

  /** The grid after a tick: every column ticks on its own and keeps its length and its materials. */
  function GridTick(cols: seq<seq<Cell>>, p: Recolor): (r: seq<seq<Cell>>)
    ensures |r| == |cols|
    ensures forall x :: 0 <= x < |cols| ==> |r[x]| == |cols[x]|
  {
    seq(|cols|, x requires 0 <= x < |cols| => Tick(cols[x], x, p))
  }

  /** The multiset of materials in the whole grid. */
  function TotalKinds(cols: seq<seq<Cell>>): multiset<CellType> {
    if cols == [] then multiset{} else TotalKinds(cols[..|cols| - 1]) + multiset(Kinds(cols[|cols| - 1]))
  }

  /** A tick preserves the multiset of materials of the whole grid. */
  lemma {:induction false} GridTickConserves(cols: seq<seq<Cell>>, p: Recolor)
    ensures TotalKinds(GridTick(cols, p)) == TotalKinds(cols)
  {
    if cols != [] {
      var n := |cols| - 1;
      var g := GridTick(cols, p);
      assert g[..n] == GridTick(cols[..n], p) by {
        forall i | 0 <= i < n
          ensures g[..n][i] == GridTick(cols[..n], p)[i]
        {
          assert g[i] == Tick(cols[i], i, p);
        }
      }
      assert multiset(Kinds(g[n])) == multiset(Kinds(cols[n]));
      GridTickConserves(cols[..n], p);
    }
  }

  /** Column x of a grid stored as cell_grid[x][y]. */
  ghost function ColumnOf(g: array2<Cell>, x: int): seq<Cell>
    reads g
    requires 0 <= x < g.Length0
  {
    seq(g.Length1, y requires 0 <= y < g.Length1 reads g => g[x, y])
  }

  /** The grid as its sequence of columns. */
  ghost function Columns(g: array2<Cell>): seq<seq<Cell>>
    reads g
  {
    seq(g.Length0, x requires 0 <= x < g.Length0 reads g => ColumnOf(g, x))
  }

}
