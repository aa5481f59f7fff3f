/**
 * The engine's `Universe`: a square grid whose cell states live in a
 * fixed-size buffer, advanced one generation at a time.
 *
 * The bit set of the engine is modelled as an `array<bool>` of
 * `width * height` states in row-major order; the random source is an
 * injected sequence of booleans.
 */
module Engine {
  import opened Conway

  /** A side `s` with `s * s` below 2^32 is below 2^16. */
  lemma SideBound(side: nat)
    requires side * side < U32
    ensures side < 0x1_0000
  {
    if side >= 0x1_0000 {
      MulMonotone(0x1_0000, side, side);
    }
  }

  /** Adding one of the offsets to an in-range coordinate stays below 2^17. */
  lemma OffsetFits(side: nat, x: nat, k: nat)
    requires side * side < U32 && x < side
    ensures x + SourceDelta(side, k) < 0x2_0000
  {
    SideBound(side);
  }

  /** Step `(a, b)` of the neighbour loop adds the term of that block position. */
  lemma CountStep(cells: seq<bool>, width: nat, height: nat, row: nat, col: nat, a: nat, b: nat)
    requires Shaped(cells, width, height) && row < height && col < width
    requires a < 3 && b < 3
    ensures var t := TermsAsWritten(cells, width, height, row, col);
      var dr, dc := SourceDelta(height, a), SourceDelta(width, b);
      Sum(t[..3 * a + b + 1]) == Sum(t[..3 * a + b])
        + if dr == 0 && dc == 0 then 0
          else Bit(Cell(cells, width, height, (row + dr) % height, (col + dc) % width))
  {
    var t := TermsAsWritten(cells, width, height, row, col);
    SumPrefix(t, 3 * a + b);
    assert t[3 * a + b] == TermAsWritten(cells, width, height, row, col, a, b);
  }

  class Universe {
    var width: nat
    var height: nat
    var cells: array<bool>

    /**
     * The grid is square (the only constructor takes one side), its cell
     * count fits the engine's 32-bit index arithmetic, and the buffer holds
     * one state per cell.
     */
    ghost predicate Valid()
      reads this
    {
      width == height && width * height < U32 && cells.Length == width * height
    }

    /** new(length): a `length` by `length` grid whose cell `i` is `bits[i]`. */
    constructor (length: nat, bits: seq<bool>)
      requires length * length < U32
      requires |bits| >= length * length
      ensures Valid() && fresh(cells)
      ensures width == length && height == length
      ensures cells[..] == bits[..length * length]
    {
      width := length;
      height := length;
      var size := length * length;
      var buffer := new bool[size];
      for i := 0 to size
        invariant forall j :: 0 <= j < i ==> buffer[j] == bits[j]
      {
        buffer[i] := bits[i];
      }
      cells := buffer;
    }

    /** width: the stored side of the grid, whose square is the buffer length. */
    function Width(): (w: nat)
      reads this
      requires Valid()
      ensures w == width && w * w == cells.Length && w < 0x1_0000
    {
      SideBound(width);
      width
    }

    /** height: the stored side of the grid, whose square is the buffer length. */
    function Height(): (h: nat)
      reads this
      requires Valid()
      ensures h == height && h * h == cells.Length && h < 0x1_0000
    {
      SideBound(height);
      height
    }

    /** get_index: the row-major index of an in-range cell, inside the buffer. */
    function GetIndex(row: nat, col: nat): (i: nat)
      reads this
      requires Valid() && row < height && col < width
      ensures i < cells.Length && i == Index(width, row, col)
    {
      IndexBounds(width, height, row, col);
      Index(width, row, col)
    }

    /**
     * live_neighbor_count: the two nested loops over the offsets
     * `[side - 1, 0, 1]`, skipping the step where both offsets are 0.
     */
    method LiveNeighborCount(row: nat, col: nat) returns (count: nat)
      requires Valid() && row < height && col < width
      ensures count == NeighborCountAsWritten(cells[..], width, height, row, col)
      ensures count <= 8
    {
      var deltaRows := [height - 1, 0, 1];
      var deltaCols := [width - 1, 0, 1];
      ghost var t := TermsAsWritten(cells[..], width, height, row, col);
      count := 0;
      assert t[..0] == [];
      for a := 0 to 3
        invariant count == Sum(t[..3 * a])
      {
        var deltaRow := deltaRows[a];
        for b := 0 to 3
          invariant count == Sum(t[..3 * a + b])
        {
          var deltaCol := deltaCols[b];
          assert deltaRow == SourceDelta(height, a) && deltaCol == SourceDelta(width, b);
          CountStep(cells[..], width, height, row, col, a, b);
          if deltaRow == 0 && deltaCol == 0 {
            continue;
          }
          // Neither sum overflows 32 bits.
          OffsetFits(height, row, a);
          OffsetFits(width, col, b);
          var neighborRow := (row + deltaRow) % height;
          var neighborCol := (col + deltaCol) % width;
          var idx := GetIndex(neighborRow, neighborCol);
          count := count + Bit(cells[idx]);
        }
      }
      assert t[..9] == t;
    }

    /**
     * tick: every next state is computed into a separate buffer from the
     * current generation, which is read and never written; the new buffer
     * then replaces the old one.
     */
    method Tick()
      requires Valid()
      modifies this
      ensures Valid() && width == old(width) && height == old(height)
      ensures fresh(cells) && unchanged(old(cells))
      ensures cells[..] == Next(old(cells[..]), width, height)
    {
      ghost var g := cells[..];
      var next := new bool[cells.Length];
      forall i | 0 <= i < next.Length {
        next[i] := cells[i];
      }
      for row := 0 to height
        modifies next
        invariant cells[..] == g
        invariant row * width <= |g|
        invariant forall k :: 0 <= k < row * width ==> next[k] == NextCell(g, width, height, k)
      {
        MulMonotone(row + 1, height, width);
        assert (row + 1) * width == row * width + width;
        for col := 0 to width
          modifies next
          invariant cells[..] == g
          invariant row * width + col <= |g|
          invariant forall k :: 0 <= k < row * width + col ==> next[k] == NextCell(g, width, height, k)
        {
          var idx := GetIndex(row, col);
          var cell := cells[idx];
          var liveNeighbors := LiveNeighborCount(row, col);
          assert NextCell(g, width, height, idx) == Rule(cell, liveNeighbors) by {
            IndexDecodes(width, height, row, col);
            RuleAgrees(g, width, row, col);
          }
          next[idx] := Rule(cell, liveNeighbors);
        }
      }
      assert next[..] == Next(g, width, height);
      cells := next;
    }

    /** toggle_cell: flip the state at get_index(row, col), and only that one. */
    method ToggleCell(row: nat, col: nat)
      requires Valid() && row < height && col < width
      modifies cells
      ensures Valid()
      ensures cells[..] == Toggled(old(cells[..]), GetIndex(row, col))
    {
      var idx := GetIndex(row, col);
      var current := cells[idx];
      cells[idx] := !current;
    }

    /** randomize: every cell `i` of the buffer becomes `bits[i]`. */
    method Randomize(bits: seq<bool>)
      requires Valid() && |bits| >= cells.Length
      modifies cells
      ensures Valid()
      ensures cells[..] == bits[..cells.Length]
    {
      for i := 0 to cells.Length
        invariant forall j :: 0 <= j < i ==> cells[j] == bits[j]
      {
        cells[i] := bits[i];
      }
    }
  }
}
