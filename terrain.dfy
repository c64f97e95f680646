/**
  Types shared by the samplers: grid cells, sampled positions and the
  exceptions the C# code can raise.
*/
module Terrain {

  /** A cell of the alphamap grid, `mapData[x, y]`. */
  datatype Cell = Cell(x: int, y: int)

  /** A sampled position: the grid cell `(x, y)` and an extra world offset
      `(dx, 0, dz)` added after the cell is mapped to world space.
      The grid-to-world mapping itself belongs to the terrain host. */
  datatype Position = Position(x: int, y: int, dx: int, dz: int)

  /** The exceptions the samplers can run into. */
  datatype Fault =
    | IndexOutOfRange      // reading `mapData` outside its bounds
    | ArgumentOutOfRange   // indexing a `List` outside `[0, Count)`

  /** An operation either completes with a value or stops with the exception it raises. */
  datatype Result<T> = Ok(value: T) | Fail(fault: Fault)

  /** The alphamap is square: the host has one resolution for width and height. */
  predicate Square(g: array2<real>) {
    g.Length0 == g.Length1
  }

  /** The position of a cell with no offset. */
  function At(c: Cell): Position {
    Position(c.x, c.y, 0, 0)
  }
}
