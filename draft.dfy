/**
 * The single-file version, src/cellular_physics.c.  Its grid, selected cell
 * and brush are globals updated in place; the tick and painting write cells
 * through update_cell, which recomputes the colour from the cell's new type
 * and position (the init loop assigns the initial cell directly).  `shade` stands for that colour computation (get_cell_color,
 * random draw included), so the tick here is the Regenerate variant of
 * module Column.
 */
module Draft {
  import opened Cells
  import opened Column
  import opened Input

  /** The initial cell { CELL_EMPTY, CELL_SIZE % 256 }: the number fills the first colour channel. */
  const InitCell: Cell := Cell(Empty, Color(16, 0, 0, 0), 0)

  class DraftApp {
    var grid: array2<Cell>
    var selected: Point
    var brush: int

    ghost predicate Valid()
      reads this
    {
      grid.Length0 == Width && grid.Length1 == Height && InGrid(selected) && 0 <= brush < NumCellTypes
    }

    /** The grid part of SDL_AppInit together with the static initialisers. */
    constructor ()
      ensures Valid() && fresh(grid)
      ensures forall x, y :: 0 <= x < Width && 0 <= y < Height ==> grid[x, y] == InitCell
      ensures selected == Point(0, 0) && brush == Ordinal(Sand)
    {
      var g := new Cell[Width, Height];
      var x := 0;
      while x < Width
        invariant 0 <= x <= Width
        invariant forall i, j :: 0 <= i < x && 0 <= j < Height ==> g[i, j] == InitCell
      {
        var y := 0;
        while y < Height
          invariant 0 <= y <= Height
          invariant forall i, j :: 0 <= i < x && 0 <= j < Height ==> g[i, j] == InitCell
          invariant forall j :: 0 <= j < y ==> g[x, j] == InitCell
        {
          g[x, y] := InitCell;
          y := y + 1;
        }
        x := x + 1;
      }
      grid := g;
      selected := Point(0, 0);
      brush := Ordinal(Sand);
    }

    /** update_global_mouse_coord, with the clamp kept inside the grid. */
    method UpdateMouse(px: int, py: int)
      requires Valid()
      modifies this
      ensures Valid() && grid == old(grid) && brush == old(brush)
      ensures selected == CellOf(px, py)
    {
      selected := CellOf(px, py);
    }

    /** update_cell: cell (x, y) gets the type and fill given and the colour for that type; nothing else changes. */
    method UpdateCell(t: CellType, fill: int, x: int, y: int, shade: (CellType, int, int) -> Color)
      requires Valid() && 0 <= x < Width && 0 <= y < Height
      modifies grid
      ensures grid[x, y] == Cell(t, shade(t, x, y), fill)
      ensures forall i, j :: 0 <= i < Width && 0 <= j < Height && (i != x || j != y) ==> grid[i, j] == old(grid[i, j])
    {
      grid[x, y] := Cell(t, shade(t, x, y), fill);
    }

    /**
     * shift_down: if the cell below (x, y) is Empty, (x, y) is rewritten as
     * Empty with fill CELL_SIZE % 256 and (x, y + 1) with the old type and
     * fill of (x, y); otherwise nothing changes.
     */
    method ShiftDown(x: int, y: int, shade: (CellType, int, int) -> Color)
      requires Valid() && 0 <= x < Width && 0 <= y < Height - 1
      modifies grid
      ensures old(grid[x, y + 1].kind) != Empty ==>
        forall i, j :: 0 <= i < Width && 0 <= j < Height ==> grid[i, j] == old(grid[i, j])
      ensures old(grid[x, y + 1].kind) == Empty ==>
        grid[x, y] == Cell(Empty, shade(Empty, x, y), CellSizeFill) &&
        grid[x, y + 1] == Cell(old(grid[x, y].kind), shade(old(grid[x, y].kind), x, y + 1), old(grid[x, y].fill))
      ensures forall i, j :: 0 <= i < Width && 0 <= j < Height && (i != x || (j != y && j != y + 1)) ==>
        grid[i, j] == old(grid[i, j])
      ensures ColumnOf(grid, x) == Shift(old(ColumnOf(grid, x)), x, y, Regenerate(shade))
    {
      if grid[x, y + 1].kind == Empty {
        var current := grid[x, y];
        UpdateCell(Empty, CellSizeFill, x, y, shade);
        UpdateCell(current.kind, current.fill, x, y + 1, shade);
      }
    }

    /** process_tick: the same descending scan as src/cell.c, through this version's shift_down. */
    method ProcessTick(shade: (CellType, int, int) -> Color)
      requires Valid()
      modifies grid
      ensures forall x :: 0 <= x < Width ==> ColumnOf(grid, x) == Tick(old(ColumnOf(grid, x)), x, Regenerate(shade))
      ensures Columns(grid) == GridTick(old(Columns(grid)), Regenerate(shade))
    {
      var x := Width - 1;
      while x >= 0
        invariant -1 <= x < Width
        invariant forall i :: x < i < Width ==> ColumnOf(grid, i) == Tick(old(ColumnOf(grid, i)), i, Regenerate(shade))
        invariant forall i :: 0 <= i <= x ==> ColumnOf(grid, i) == old(ColumnOf(grid, i))
      {
        label Column:
        ghost var before := ColumnOf(grid, x);
        var y := Height - 2;
        while y >= 0
          invariant -1 <= y <= Height - 2
          invariant ColumnOf(grid, x) == Scanned(before, x, y + 1, Regenerate(shade))
          invariant forall i :: 0 <= i < Width && i != x ==> ColumnOf(grid, i) == old@Column(ColumnOf(grid, i))
        {
          ghost var current := ColumnOf(grid, x);
          if grid[x, y].kind == Water || grid[x, y].kind == Sand {
            ShiftDown(x, y, shade);
          }
          assert ColumnOf(grid, x) == Visit(current, x, y, Regenerate(shade));
          y := y - 1;
        }
        x := x - 1;
      }
    }

    /**
     * SDL_AppEvent.  A left-button press maps the press position and then
     * paints that cell; motion maps the pointer and paints when only the
     * left button is held; the wheel moves the brush; quit ends the program.
     */
    method HandleEvent(e: Event, shade: (CellType, int, int) -> Color) returns (r: AppResult)
      requires Valid()
      modifies this, grid
      ensures Valid() && grid == old(grid)
      ensures r == if e.Quit? then Success else Continue
      ensures selected == if e.Motion? || (e.ButtonDown? && e.button == ButtonLeft) then CellOf(e.px, e.py) else old(selected)
      ensures brush == if e.Wheel? then Scroll(old(brush), e.dy) else old(brush)
      ensures Paints(e) ==>
        grid[selected.x, selected.y] == Cell(TypeOf(brush), shade(TypeOf(brush), selected.x, selected.y), CellSizeFill)
      ensures forall i, j :: 0 <= i < Width && 0 <= j < Height && (!Paints(e) || Point(i, j) != selected) ==>
        grid[i, j] == old(grid[i, j])
    {
      r := Continue;
      match e
      case Quit =>
        r := Success;
      case ButtonDown(button, px, py) =>
        if button == ButtonLeft {
          UpdateMouse(px, py);
          UpdateCell(TypeOf(brush), CellSizeFill, selected.x, selected.y, shade);
        }
      case Motion(state, px, py) =>
        UpdateMouse(px, py);
        if state == ButtonLeft {
          UpdateCell(TypeOf(brush), CellSizeFill, selected.x, selected.y, shade);
        }
      case Wheel(dy) =>
        brush := Scroll(brush, dy);
      case Other =>
    }
  }

}
