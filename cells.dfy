/**
 * The cell record and the grid constants shared by every part of the
 * sandbox (include/cell.h, include/config.h).
 */
module Cells {

  // Window and grid dimensions, in pixels and in cells.
  const WindowWidth: int := 1024
  const WindowHeight: int := 768
  const CellSize: int := 16
  const Width: int := WindowWidth / CellSize
  const Height: int := WindowHeight / CellSize

  /** The four materials, in the order of the C enumeration (0 to 3). */
  datatype CellType = Empty | Block | Sand | Water

  const NumCellTypes: int := 4

  /** Sand and water are the only materials the tick moves. */
  predicate Movable(t: CellType) {
    t == Sand || t == Water
  }

  /** The enumeration value of a material. */
  function Ordinal(t: CellType): int {
    match t
    case Empty => 0
    case Block => 1
    case Sand => 2
    case Water => 3
  }

  /** The material whose enumeration value is `n`; inverse of `Ordinal`. */
  function TypeOf(n: int): (t: CellType)
    requires 0 <= n < NumCellTypes
    ensures Ordinal(t) == n
  {
    if n == 0 then Empty else if n == 1 then Block else if n == 2 then Sand else Water
  }

  newtype byte = x: int | 0 <= x < 256

  /** An RGBA colour; only ever copied or supplied from outside the model. */
  datatype Color = Color(r: byte, g: byte, b: byte, a: byte)

  /** One grid entry: its material, its render colour and its fill value. */
  datatype Cell = Cell(kind: CellType, color: Color, fill: int)

  /** The fill value `CELL_SIZE % 256` written by the tick and by the draft's painting. */
  const CellSizeFill: int := CellSize % 256

}
