/**
 * The program state of src/main.c: the static grid, the last pointer cell
 * and the selected material, with the parts of the SDL callbacks that
 * touch them.  The grid is ticked by src/cell.c (module Physics).
 */
module Sandbox {
  import opened Cells
  import opened Column
  import opened Input
  import Physics

  /**
   * The initial cell { CELL_EMPTY, CELL_SIZE % 256, 1.0 }: by brace elision
   * the two numbers fill the first two colour channels, and the rest of the
   * colour and the fill are zero.
   */
  const InitCell: Cell := Cell(Empty, Color(16, 1, 0, 0), 0)

  /** The fill of a painted cell. */
  const PaintFill: int := 1

  class App {
    var grid: array2<Cell>
    var mouse: Point
    var brush: int

    ghost predicate Valid()
      reads this
    {
      grid.Length0 == Width && grid.Length1 == Height && InGrid(mouse) && 0 <= brush < NumCellTypes
    }

    /** The grid part of SDL_AppInit together with the static initialisers. */
    constructor ()
      ensures Valid() && fresh(grid)
      ensures forall x, y :: 0 <= x < Width && 0 <= y < Height ==> grid[x, y] == InitCell
      ensures mouse == Point(0, 0) && brush == Ordinal(Sand)
    {
      var g := new Cell[Width, Height];
      var x := 0;
      while x < Width
        invariant 0 <= x <= Width
        invariant forall i, j :: 0 <= i < x && 0 <= j < Height ==> g[i, j] == InitCell
      {
        var y := 0;
        while y < Height
          invariant 0 <= y <= Height
          invariant forall i, j :: 0 <= i < x && 0 <= j < Height ==> g[i, j] == InitCell
          invariant forall j :: 0 <= j < y ==> g[x, j] == InitCell
        {
          g[x, y] := InitCell;
          y := y + 1;
        }
        x := x + 1;
      }
      grid := g;
      mouse := Point(0, 0);
      brush := Ordinal(Sand);
    }

    /** update_global_mouse_coord, with the clamp kept inside the grid. */
    method UpdateMouse(px: int, py: int)
      requires Valid()
      modifies this
      ensures Valid() && grid == old(grid) && brush == old(brush)
      ensures mouse == CellOf(px, py)
    {
      mouse := CellOf(px, py);
    }

    /**
     * SDL_AppEvent.  A left-button press paints the last stored pointer
     * cell, without mapping the press position; motion first maps the
     * pointer and then paints when only the left button is held; the
     * wheel moves the brush; quit ends the program.  `color` stands for
     * init_cell_color of the brush, which draws at random.
     */
    method HandleEvent(e: Event, color: Color) returns (r: AppResult)
      requires Valid()
      modifies this, grid
      ensures Valid() && grid == old(grid)
      ensures r == if e.Quit? then Success else Continue
      ensures mouse == if e.Motion? then CellOf(e.px, e.py) else old(mouse)
      ensures brush == if e.Wheel? then Scroll(old(brush), e.dy) else old(brush)
      ensures Paints(e) ==> grid[mouse.x, mouse.y] == Cell(TypeOf(brush), color, PaintFill)
      ensures forall i, j :: 0 <= i < Width && 0 <= j < Height && (!Paints(e) || Point(i, j) != mouse) ==>
        grid[i, j] == old(grid[i, j])
    {
      r := Continue;
      match e
      case Quit =>
        r := Success;
      case ButtonDown(button, _, _) =>
        if button == ButtonLeft {
          grid[mouse.x, mouse.y] := Cell(TypeOf(brush), color, PaintFill);
        }
      case Motion(state, px, py) =>
        UpdateMouse(px, py);
        if state == ButtonLeft {
          grid[mouse.x, mouse.y] := Cell(TypeOf(brush), color, PaintFill);
        }
      case Wheel(dy) =>
        brush := Scroll(brush, dy);
      case Other =>
    }

    /** The simulation part of SDL_AppIterate: one tick of src/cell.c over the grid. */
    method Iterate() returns (r: AppResult)
      requires Valid()
      modifies grid
      ensures Valid() && r == Continue
      ensures forall x :: 0 <= x < Width ==> ColumnOf(grid, x) == Tick(old(ColumnOf(grid, x)), x, CarryOver)
    {
      Physics.ProcessTick(grid);
      r := Continue;
    }
  }

}
