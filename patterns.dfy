/**
 * Concrete grids: the packed layout of a small grid, and a grid that is not
 * square on which the engine's neighbour count and the standard one disagree.
 */
module Patterns {
  import opened Conway
  import opened Render

  /**
   * From a dead 3 by 3 grid, toggling the diagonal cells (0, 0), (1, 1) and
   * (2, 2) sets bits 0, 4 and 8: byte 0 is 0b0001_0001 and byte 1 is 0b1.
   */
  lemma DiagonalPacking()
    ensures var g := Toggled(Toggled(Toggled(Dead(9), Index(3, 0, 0)), Index(3, 1, 1)), Index(3, 2, 2));
      Pack(g) == [0x11, 0x01]
  {
    var g := Toggled(Toggled(Toggled(Dead(9), Index(3, 0, 0)), Index(3, 1, 1)), Index(3, 2, 2));
    assert g == [true, false, false, false, true, false, false, false, true];
    assert g[..8] == [true, false, false, false, true, false, false, false];
    assert g[8..] == [true];
  }

  /**
   * A column one cell wide and three high, counted at its middle cell.  On
   * the torus the row neighbours `(1, -1)` and `(1, +1)` both wrap to the
   * cell itself, so the standard count holds the middle cell twice.  The
   * engine's offsets on the width are `[0, 0, 1]`, so on the middle row it
   * skips two steps and holds the middle cell once.
   */
  lemma NarrowColumnCounts(cells: seq<bool>, width: nat, height: nat, row: nat, col: nat)
    requires width == 1 && height == 3 && Shaped(cells, width, height) && 0 < row < height - 1 && col < width
    ensures NeighborCount(cells, width, height, row, col)
      == 3 * Bit(cells[0]) + 2 * Bit(cells[1]) + 3 * Bit(cells[2])
    ensures NeighborCountAsWritten(cells, width, height, row, col)
      == 3 * Bit(cells[0]) + Bit(cells[1]) + 3 * Bit(cells[2])
  {
    var x, y, z := Bit(cells[0]), Bit(cells[1]), Bit(cells[2]);
    NarrowColumnTerms(cells, width, height, row, col);
    Sum9([x, x, x, y, 0, y, z, z, z]);
    NarrowColumnTermsAsWritten(cells, width, height, row, col);
    Sum9([x, x, x, 0, 0, y, z, z, z]);
  }

  /**
   * The isolated live cell `[false, true, false]` in that column survives
   * with the standard count (2) and dies with the engine's (1): on a grid
   * that is not square the two counts give different next states.
   */
  lemma NarrowColumnDiffers(cells: seq<bool>, width: nat, height: nat, row: nat, col: nat)
    requires width == 1 && height == 3 && Shaped(cells, width, height) && 0 < row < height - 1 && col < width
    requires !cells[0] && cells[1] && !cells[2]
    ensures NeighborCount(cells, width, height, row, col) == 2
    ensures NeighborCountAsWritten(cells, width, height, row, col) == 1
    ensures Rule(cells[row], NeighborCount(cells, width, height, row, col))
    ensures !Rule(cells[row], NeighborCountAsWritten(cells, width, height, row, col))
  {
    NarrowColumnCounts(cells, width, height, row, col);
  }

  lemma NarrowColumnTerms(cells: seq<bool>, width: nat, height: nat, row: nat, col: nat)
    requires width == 1 && height == 3 && Shaped(cells, width, height) && 0 < row < height - 1 && col < width
    ensures var x, y, z := Bit(cells[0]), Bit(cells[1]), Bit(cells[2]);
      Terms(cells, width, height, row, col) == [x, x, x, y, 0, y, z, z, z]
  {
    NarrowColumnTerm(cells, width, height, row, col, 0, 0);
    NarrowColumnTerm(cells, width, height, row, col, 0, 1);
    NarrowColumnTerm(cells, width, height, row, col, 0, 2);
    NarrowColumnTerm(cells, width, height, row, col, 1, 0);
    NarrowColumnTerm(cells, width, height, row, col, 1, 2);
    NarrowColumnTerm(cells, width, height, row, col, 2, 0);
    NarrowColumnTerm(cells, width, height, row, col, 2, 1);
    NarrowColumnTerm(cells, width, height, row, col, 2, 2);
  }

  /** Every block position wraps to column 0 of row `a`. */
  lemma NarrowColumnTerm(cells: seq<bool>, width: nat, height: nat, row: nat, col: nat, a: nat, b: nat)
    requires width == 1 && height == 3 && Shaped(cells, width, height) && 0 < row < height - 1 && col < width
    requires a < 3 && b < 3 && !(a == 1 && b == 1)
    ensures Term(cells, width, height, row, col, a, b) == Bit(cells[a])
  {
    var r, c := NeighborRow(height, row, a), NeighborCol(width, col, b);
    assert r == a && c == 0;
    assert Cell(cells, width, height, r, c) == cells[a];
  }

  lemma NarrowColumnTermsAsWritten(cells: seq<bool>, width: nat, height: nat, row: nat, col: nat)
    requires width == 1 && height == 3 && Shaped(cells, width, height) && 0 < row < height - 1 && col < width
    ensures var x, y, z := Bit(cells[0]), Bit(cells[1]), Bit(cells[2]);
      TermsAsWritten(cells, width, height, row, col) == [x, x, x, 0, 0, y, z, z, z]
  {
    NarrowColumnTermAsWritten(cells, width, height, row, col, 0, 0);
    NarrowColumnTermAsWritten(cells, width, height, row, col, 0, 1);
    NarrowColumnTermAsWritten(cells, width, height, row, col, 0, 2);
    NarrowColumnTermAsWritten(cells, width, height, row, col, 1, 2);
    NarrowColumnTermAsWritten(cells, width, height, row, col, 2, 0);
    NarrowColumnTermAsWritten(cells, width, height, row, col, 2, 1);
    NarrowColumnTermAsWritten(cells, width, height, row, col, 2, 2);
  }

  /** Off the middle row the engine's step reads row `a`; on it only `b == 2` is read. */
  lemma NarrowColumnTermAsWritten(cells: seq<bool>, width: nat, height: nat, row: nat, col: nat, a: nat, b: nat)
    requires width == 1 && height == 3 && Shaped(cells, width, height) && 0 < row < height - 1 && col < width
    requires a < 3 && b < 3 && (a != 1 || b == 2)
    ensures TermAsWritten(cells, width, height, row, col, a, b) == Bit(cells[a])
  {
    var dr, dc := SourceDelta(height, a), SourceDelta(width, b);
    var r, c := (row + dr) % height, (col + dc) % width;
    assert r == a && c == 0;
    assert Cell(cells, width, height, r, c) == cells[a];
  }
}
