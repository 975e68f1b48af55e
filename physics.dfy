/**
 * The tick of src/cell.c, run in place on the grid `cell_grid[x][y]`
 * (an array2 whose first index is the column and second the row).  The
 * falling cell keeps its colour; the emptied cell takes the colour of the
 * Empty cell it swapped with.
 */
module Physics {
  import opened Cells
  import opened Column

  /**
   * shift_down: if the cell below (x, y) is Empty, the two cells exchange
   * places; the emptied cell gets fill CELL_SIZE % 256.  Every caller
   * passes a row above the bottom one, so (x, y + 1) is in the grid.
   */
  method ShiftDown(g: array2<Cell>, x: int, y: int)
    requires 0 <= x < g.Length0 && 0 <= y < g.Length1 - 1
    modifies g
    ensures old(g[x, y + 1].kind) != Empty ==>
      forall i, j :: 0 <= i < g.Length0 && 0 <= j < g.Length1 ==> g[i, j] == old(g[i, j])
    ensures old(g[x, y + 1].kind) == Empty ==>
      g[x, y + 1] == old(g[x, y]) && g[x, y] == Cell(Empty, old(g[x, y + 1].color), CellSizeFill)
    ensures forall i, j :: 0 <= i < g.Length0 && 0 <= j < g.Length1 && (i != x || (j != y && j != y + 1)) ==>
      g[i, j] == old(g[i, j])
    ensures ColumnOf(g, x) == Shift(old(ColumnOf(g, x)), x, y, CarryOver)
  {
    if g[x, y + 1].kind == Empty {
      var temp := g[x, y];
      g[x, y] := Cell(Empty, g[x, y + 1].color, CellSizeFill);
      g[x, y + 1] := temp;
    }
  }

  /**
   * process_tick: columns from the last one down to 0, and in each column
   * rows from the second-to-last up to the top; every Sand or Water cell is
   * handed to ShiftDown.  Each column ends up as `Tick` of what it was, so
   * by `TickIsFallen` every grain falls exactly when `Falls` says so.
   */
  method ProcessTick(g: array2<Cell>)
    requires g.Length0 == Width && g.Length1 == Height
    modifies g
    ensures forall x :: 0 <= x < Width ==> ColumnOf(g, x) == Tick(old(ColumnOf(g, x)), x, CarryOver)
    ensures Columns(g) == GridTick(old(Columns(g)), CarryOver)
  {
    var x := Width - 1;
    while x >= 0
      invariant -1 <= x < Width
      invariant forall i :: x < i < Width ==> ColumnOf(g, i) == Tick(old(ColumnOf(g, i)), i, CarryOver)
      invariant forall i :: 0 <= i <= x ==> ColumnOf(g, i) == old(ColumnOf(g, i))
    {
      label Column:
      ghost var before := ColumnOf(g, x);
      var y := Height - 2;
      while y >= 0
        invariant -1 <= y <= Height - 2
        invariant ColumnOf(g, x) == Scanned(before, x, y + 1, CarryOver)
        invariant forall i :: 0 <= i < Width && i != x ==> ColumnOf(g, i) == old@Column(ColumnOf(g, i))
      {
        ghost var current := ColumnOf(g, x);
        if g[x, y].kind == Water || g[x, y].kind == Sand {
          ShiftDown(g, x, y);
        }
        assert ColumnOf(g, x) == Visit(current, x, y, CarryOver);
        y := y - 1;
      }
      x := x - 1;
    }
  }

  /** The columns a scan that counts down from `from` to 0 visits, in order. */
  function Countdown(from: int): (r: seq<int>)
    ensures |r| == if from < 0 then 0 else from + 1
    ensures forall i :: 0 <= i < |r| ==> r[i] == from - i
    decreases from + 1
  {
    if from < 0 then [] else [from] + Countdown(from - 1)
  }

  /** The columns process_tick visits as written: from CELL_WIDTH down to 0. */
  const ColumnsAsWritten: seq<int> := Countdown(Width)

  /**
   * The column indices of ProcessTick's loop header: from CELL_WIDTH - 1 down
   * to 0.  This describes the header only; that ProcessTick ticks every
   * column once is carried by its loop invariants.
   */
  const ColumnsVisited: seq<int> := Countdown(Width - 1)

  /** The column loop as written starts at CELL_WIDTH, which is not a column of the grid. */
  lemma ColumnScanAsWrittenOverruns()
    ensures ColumnsAsWritten[0] == Width
    ensures !(0 <= ColumnsAsWritten[0] < Width)
  {
  }

  /**
   * A header starting at CELL_WIDTH - 1 instead counts through every column
   * exactly once, all in range.  Like ColumnsVisited, this is about the loop
   * header alone.
   */
  lemma ColumnScanVisitsEachColumnOnce()
    ensures |ColumnsVisited| == Width
    ensures forall i :: 0 <= i < Width ==> 0 <= ColumnsVisited[i] < Width
    ensures forall i, j :: 0 <= i < j < Width ==> ColumnsVisited[i] != ColumnsVisited[j]
  {
  }

}
