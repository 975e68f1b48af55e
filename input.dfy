/**
 * The input side shared by both versions of the program: the events the
 * handler reacts to, the mapping from a pointer position to a grid cell
 * (update_global_mouse_coord) and the brush selector cycled by the wheel.
 */
module Input {
  import opened Cells

  /** A cell coordinate, as SDL_Point. */
  datatype Point = Point(x: int, y: int)

  predicate InGrid(p: Point) {
    0 <= p.x < Width && 0 <= p.y < Height
  }

  /** SDL_BUTTON_LEFT; as a motion button state it is the mask with only the left button held. */
  const ButtonLeft: int := 1

  /**
   * The events the handler distinguishes.  Pointer positions are whole
   * pixels and the wheel delta a whole number of steps; only its sign is read.
   */
  datatype Event =
    | Quit
    | ButtonDown(button: int, px: int, py: int)
    | Motion(state: int, px: int, py: int)
    | Wheel(dy: int)
    | Other

  /** The events on which the handler paints: left button pressed, or motion with only the left button held. */
  predicate Paints(e: Event) {
    (e.ButtonDown? && e.button == ButtonLeft) || (e.Motion? && e.state == ButtonLeft)
  }

  /** What the event handler and the frame callback report back to SDL. */
  datatype AppResult = Continue | Success

  /** Integer division that truncates toward zero, as C's conversion of a float quotient to int does. */
  function TruncDiv(p: int, d: int): (q: int)
    requires d > 0
    ensures 0 <= p ==> q * d <= p < (q + 1) * d
    ensures p < 0 ==> q <= 0
  {
    if p >= 0 then p / d else -((-p) / d)
  }

  /** SDL_clamp(v, lo, hi): a value inside [lo, hi] is kept, one outside is moved to the nearer bound. */
  function Clamp(v: int, lo: int, hi: int): (r: int)
    ensures lo <= hi ==> lo <= r <= hi
    ensures lo <= v <= hi ==> r == v
    ensures v < lo ==> r == lo
    ensures lo <= hi <= v ==> r == hi
  {
    if v < lo then lo else if v > hi then hi else v
  }

  /**
   * update_global_mouse_coord as written: the upper bounds are CELL_WIDTH and
   * CELL_HEIGHT, so the result ranges over one column and one row more than
   * the grid has.  Inside the window it is the cell containing the pixel.
   */
  function CellOfAsWritten(px: int, py: int): (p: Point)
    ensures 0 <= p.x <= Width && 0 <= p.y <= Height
    ensures 0 <= px < WindowWidth ==> p.x * CellSize <= px < (p.x + 1) * CellSize
    ensures 0 <= py < WindowHeight ==> p.y * CellSize <= py < (p.y + 1) * CellSize
  {
    Point(Clamp(TruncDiv(px, CellSize), 0, Width), Clamp(TruncDiv(py, CellSize), 0, Height))
  }

  /**
   * update_global_mouse_coord with the upper bounds CELL_WIDTH - 1 and
   * CELL_HEIGHT - 1: a pixel inside the window maps to the cell that
   * contains it, and a pixel outside to the nearest cell on the border.
   */
  function CellOf(px: int, py: int): (p: Point)
    ensures InGrid(p)
    ensures 0 <= px < WindowWidth ==> p.x * CellSize <= px < (p.x + 1) * CellSize
    ensures 0 <= py < WindowHeight ==> p.y * CellSize <= py < (p.y + 1) * CellSize
    ensures px < 0 ==> p.x == 0
    ensures py < 0 ==> p.y == 0
    ensures WindowWidth <= px ==> p.x == Width - 1
    ensures WindowHeight <= py ==> p.y == Height - 1
  {
    Point(Clamp(TruncDiv(px, CellSize), 0, Width - 1), Clamp(TruncDiv(py, CellSize), 0, Height - 1))
  }

  /** The first and the last pixel of the window map to the first and the last cell. */
  lemma CornerPixels()
    ensures CellOf(0, 0) == Point(0, 0) && CellOfAsWritten(0, 0) == Point(0, 0)
    ensures CellOf(WindowWidth - 1, WindowHeight - 1) == Point(Width - 1, Height - 1)
    ensures CellOfAsWritten(WindowWidth - 1, WindowHeight - 1) == Point(Width - 1, Height - 1)
  {
  }

  /** Inside the window the two clamps agree: they differ only past the right or bottom edge. */
  lemma CellOfMatchesAsWrittenInWindow(px: int, py: int)
    requires 0 <= px < WindowWidth && 0 <= py < WindowHeight
    ensures CellOf(px, py) == CellOfAsWritten(px, py)
  {
  }

  /**
   * Past the right edge the clamp as written yields column CELL_WIDTH, and
   * past the bottom edge row CELL_HEIGHT; neither is in the grid.
   */
  lemma ClampAsWrittenLeavesGrid(px: int, py: int)
    requires WindowWidth <= px || WindowHeight <= py
    ensures WindowWidth <= px ==> CellOfAsWritten(px, py).x == Width
    ensures WindowHeight <= py ==> CellOfAsWritten(px, py).y == Height
    ensures !InGrid(CellOfAsWritten(px, py))
  {
  }

  /**
   * The wheel handler: a positive delta selects the next material, wrapping
   * from the last to the first; any other delta selects the previous one,
   * wrapping from the first to the last.
   */
  function Scroll(t: int, dy: int): (r: int)
    requires 0 <= t < NumCellTypes
    ensures 0 <= r < NumCellTypes
    ensures 0 < dy ==> (r - t) % NumCellTypes == 1
    ensures dy <= 0 ==> (t - r) % NumCellTypes == 1
  {
    if dy > 0 then
      (t + 1) % NumCellTypes
    else
      var back := t - 1;
      if back == -1 then NumCellTypes - 1 else back
  }

  /** Scrolling one step forward and one step back, in either order, restores the brush. */
  lemma ScrollRoundTrip(t: int, up: int, down: int)
    requires 0 <= t < NumCellTypes && 0 < up && down <= 0
    ensures Scroll(Scroll(t, up), down) == t
    ensures Scroll(Scroll(t, down), up) == t
  {
  }

  /** Forward from Water gives Empty; backward from Empty gives Water. */
  lemma ScrollWraps()
    ensures Scroll(Ordinal(Water), 1) == Ordinal(Empty)
    ensures Scroll(Ordinal(Empty), 0) == Ordinal(Water)
  {
  }

}
