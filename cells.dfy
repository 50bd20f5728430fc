/**
 * Cells and generations of the word-seeded Game of Life.
 *
 * A cell is an unbounded (row, column) pair: stepping never clips, so a
 * pattern may drift to negative or very large coordinates.  Only the
 * initial placement (the seeder) and the text window (the renderer) refer
 * to the nominal 60 x 40 grid.
 */
module Cells {

  type Cell = (int, int)

  /** All live cells of one tick. */
  type Generation = set<Cell>

  /** Nominal grid height, used to centre the seed vertically. */
  const Rows: int := 60

  /** Nominal grid width, used to centre the seed horizontally. */
  const Columns: int := 40

  /** The eight offsets of the Moore neighbourhood, in the source's order. */
  const CellNeighbours: seq<Cell> :=
    [(-1, -1), (-1, 0), (-1, 1), (0, -1), (0, 1), (1, -1), (1, 0), (1, 1)]

  function Add(c: Cell, d: Cell): Cell {
    (c.0 + d.0, c.1 + d.1)
  }

  function Sub(c: Cell, d: Cell): Cell {
    (c.0 - d.0, c.1 - d.1)
  }
}
