/**
 * The rule of the toroidal Game of Life engine, as pure functions over a
 * row-major `seq<bool>` of `width * height` cells.
 *
 * Two neighbour counts are defined: `NeighborCount`, the standard count over
 * the eight wrapped neighbours (each coordinate offset by -1, 0 or +1 modulo
 * the side, the centre left out), and `NeighborCountAsWritten`, which follows
 * the engine's loop literally: offsets `[side - 1, 0, 1]` and a skip test on
 * the offset VALUES.  They agree unless a side is 1.
 */
module Conway {

  /** The engine computes indices in 32-bit unsigned arithmetic. */
  const U32: nat := 0x1_0000_0000

  /** `cells` holds exactly one state per cell of a `width` by `height` grid. */
  predicate Shaped(cells: seq<bool>, width: nat, height: nat)
  {
    |cells| == width * height
  }

  // ---------------------------------------------------------------------
  // Indexing

  /** Row-major linear index of `(row, col)` (get_index). */
  function Index(width: nat, row: nat, col: nat): nat
  {
    row * width + col
  }

  lemma MulMonotone(a: nat, b: nat, w: nat)
    requires a <= b
    ensures a * w <= b * w
  {
  }

  /** In-range coordinates give an in-range index. */
  lemma IndexBounds(width: nat, height: nat, row: nat, col: nat)
    requires row < height && col < width
    ensures Index(width, row, col) < width * height
  {
    MulMonotone(row + 1, height, width);
  }

  /** The index determines the coordinates: its quotient and remainder by the width. */
  lemma IndexDecodes(width: nat, height: nat, row: nat, col: nat)
    requires row < height && col < width
    ensures Index(width, row, col) / width == row
    ensures Index(width, row, col) % width == col
  {
    DivModOf(width, row, col);
  }

  lemma DivModOf(w: nat, q: nat, r: nat)
    requires r < w
    ensures (q * w + r) / w == q && (q * w + r) % w == r
  {
    var i := q * w + r;
    var q', r' := i / w, i % w;
    assert q' * w + r' == q * w + r;
    if q' > q {
      MulMonotone(q + 1, q', w);
    } else if q' < q {
      MulMonotone(q' + 1, q, w);
    }
  }

  /** Every index of the grid is the index of exactly one coordinate pair. */
  lemma IndexOnto(width: nat, height: nat, i: nat)
    requires i < width * height
    ensures i / width < height && i % width < width
    ensures Index(width, i / width, i % width) == i
  {
    assert width > 0;
    if i / width >= height {
      MulMonotone(height, i / width, width);
    }
  }

  /** Distinct in-range coordinates have distinct indices. */
  lemma IndexInjective(width: nat, height: nat, r1: nat, c1: nat, r2: nat, c2: nat)
    requires r1 < height && c1 < width && r2 < height && c2 < width
    requires Index(width, r1, c1) == Index(width, r2, c2)
    ensures r1 == r2 && c1 == c2
  {
    IndexDecodes(width, height, r1, c1);
    IndexDecodes(width, height, r2, c2);
  }

  /** The state of the cell at `(row, col)`. */
  function Cell(cells: seq<bool>, width: nat, height: nat, row: nat, col: nat): bool
    requires Shaped(cells, width, height) && row < height && col < width
  {
    IndexBounds(width, height, row, col);
    cells[Index(width, row, col)]
  }

  function Bit(b: bool): nat
  {
    if b then 1 else 0
  }

  // ---------------------------------------------------------------------
  // Neighbour counts

  /** `x` modulo `n`, in `0..n` (Dafny's `%` is Euclidean). */
  function Wrap(x: int, n: nat): (r: nat)
    requires n > 0
    ensures r < n
  {
    x % n
  }

  /** The three values `Wrap` takes on the neighbours of an in-range coordinate. */
  lemma WrapStep(x: nat, n: nat)
    requires x < n
    ensures Wrap(x - 1, n) == if x == 0 then n - 1 else x - 1
    ensures Wrap(x, n) == x
    ensures Wrap(x + 1, n) == if x + 1 == n then 0 else x + 1
  {
  }

  /** Position `(a, b)` of the 3 by 3 block around `(row, col)`, for `a, b < 3`. */
  function NeighborRow(height: nat, row: nat, a: nat): nat
    requires height > 0
  {
    Wrap(row + a - 1, height)
  }

  function NeighborCol(width: nat, col: nat, b: nat): nat
    requires width > 0
  {
    Wrap(col + b - 1, width)
  }

  /** Whether block position `(a, b)` holds a live neighbour (the centre never does). */
  function Term(cells: seq<bool>, width: nat, height: nat, row: nat, col: nat, a: nat, b: nat): nat
    requires Shaped(cells, width, height) && row < height && col < width
  {
    if a == 1 && b == 1 then 0
    else Bit(Cell(cells, width, height, NeighborRow(height, row, a), NeighborCol(width, col, b)))
  }

  /** The nine block positions, row by row, as the engine visits them. */
  function Terms(cells: seq<bool>, width: nat, height: nat, row: nat, col: nat): (t: seq<nat>)
    requires Shaped(cells, width, height) && row < height && col < width
    ensures |t| == 9 && t[4] == 0
    ensures forall k :: 0 <= k < 9 ==> t[k] <= 1
  {
    [Term(cells, width, height, row, col, 0, 0), Term(cells, width, height, row, col, 0, 1),
     Term(cells, width, height, row, col, 0, 2), Term(cells, width, height, row, col, 1, 0),
     Term(cells, width, height, row, col, 1, 1), Term(cells, width, height, row, col, 1, 2),
     Term(cells, width, height, row, col, 2, 0), Term(cells, width, height, row, col, 2, 1),
     Term(cells, width, height, row, col, 2, 2)]
  }

  /** The offset the engine adds at loop step `k` (`[side - 1, 0, 1][k]`). */
  function SourceDelta(side: nat, k: nat): nat
    requires side > 0
  {
    if k == 0 then side - 1 else if k == 1 then 0 else 1
  }

  /** One loop step of live_neighbor_count exactly as the engine writes it. */
  function TermAsWritten(cells: seq<bool>, width: nat, height: nat, row: nat, col: nat, a: nat, b: nat): nat
    requires Shaped(cells, width, height) && row < height && col < width
  {
    var dr, dc := SourceDelta(height, a), SourceDelta(width, b);
    if dr == 0 && dc == 0 then 0
    else Bit(Cell(cells, width, height, (row + dr) % height, (col + dc) % width))
  }

  function TermsAsWritten(cells: seq<bool>, width: nat, height: nat, row: nat, col: nat): (t: seq<nat>)
    requires Shaped(cells, width, height) && row < height && col < width
    ensures |t| == 9 && t[4] == 0
    ensures forall k :: 0 <= k < 9 ==> t[k] <= 1
  {
    [TermAsWritten(cells, width, height, row, col, 0, 0), TermAsWritten(cells, width, height, row, col, 0, 1),
     TermAsWritten(cells, width, height, row, col, 0, 2), TermAsWritten(cells, width, height, row, col, 1, 0),
     TermAsWritten(cells, width, height, row, col, 1, 1), TermAsWritten(cells, width, height, row, col, 1, 2),
     TermAsWritten(cells, width, height, row, col, 2, 0), TermAsWritten(cells, width, height, row, col, 2, 1),
     TermAsWritten(cells, width, height, row, col, 2, 2)]
  }

  /** Sum of a sequence, peeling off the last element (the order a loop adds in). */
  function Sum(s: seq<nat>): nat
  {
    if s == [] then 0 else Sum(s[..|s| - 1]) + s[|s| - 1]
  }

  lemma {:induction false} SumPrefix(s: seq<nat>, k: nat)
    requires k < |s|
    ensures Sum(s[..k + 1]) == Sum(s[..k]) + s[k]
  {
    assert s[..k + 1][..k] == s[..k];
  }

  /** A sum of 0/1 terms with one forced zero is at most one less than the length. */
  lemma {:induction false} SumOfBits(s: seq<nat>, z: nat)
    requires z < |s| && s[z] == 0
    requires forall k :: 0 <= k < |s| ==> s[k] <= 1
    ensures Sum(s) <= |s| - 1
  {
    var n := |s| - 1;
    if z == n {
      SumAtMostLength(s[..n]);
    } else {
      SumOfBits(s[..n], z);
    }
  }

  lemma {:induction false} SumAtMostLength(s: seq<nat>)
    requires forall k :: 0 <= k < |s| ==> s[k] <= 1
    ensures Sum(s) <= |s|
  {
    if s != [] {
      SumAtMostLength(s[..|s| - 1]);
    }
  }

  /** Sum of a nine-element sequence, written out. */
  lemma Sum9(s: seq<nat>)
    requires |s| == 9
    ensures Sum(s) == s[0] + s[1] + s[2] + s[3] + s[4] + s[5] + s[6] + s[7] + s[8]
  {
    assert s[..0] == [] && s[..9] == s;
    SumPrefix(s, 0); SumPrefix(s, 1); SumPrefix(s, 2);
    SumPrefix(s, 3); SumPrefix(s, 4); SumPrefix(s, 5);
    SumPrefix(s, 6); SumPrefix(s, 7); SumPrefix(s, 8);
  }

  /** Live cells among the eight wrapped neighbours of `(row, col)`. */
  function NeighborCount(cells: seq<bool>, width: nat, height: nat, row: nat, col: nat): (n: nat)
    requires Shaped(cells, width, height) && row < height && col < width
    ensures n <= 8
  {
    var t := Terms(cells, width, height, row, col);
    SumOfBits(t, 4);
    Sum(t)
  }

  /** live_neighbor_count as the engine computes it. */
  function NeighborCountAsWritten(cells: seq<bool>, width: nat, height: nat, row: nat, col: nat): (n: nat)
    requires Shaped(cells, width, height) && row < height && col < width
    ensures n <= 8
  {
    var t := TermsAsWritten(cells, width, height, row, col);
    SumOfBits(t, 4);
    Sum(t)
  }

  /** The engine's offsets, taken modulo the side, are the offsets -1, 0, +1. */
  lemma SourceDeltaWraps(side: nat, x: nat, k: nat)
    requires x < side && k < 3
    ensures (x + SourceDelta(side, k)) % side == Wrap(x + k - 1, side)
  {
    WrapStep(x, side);
    if k == 0 && x > 0 {
      assert x + side - 1 == (x - 1) + side;
    }
  }

  /** On a grid with both sides at least 2, the engine's count is the standard one. */
  lemma AsWrittenAgrees(cells: seq<bool>, width: nat, height: nat, row: nat, col: nat)
    requires Shaped(cells, width, height) && row < height && col < width
    requires width >= 2 && height >= 2
    ensures NeighborCountAsWritten(cells, width, height, row, col) == NeighborCount(cells, width, height, row, col)
  {
    var t := Terms(cells, width, height, row, col);
    var u := TermsAsWritten(cells, width, height, row, col);
    forall k | 0 <= k < 9
      ensures u[k] == t[k]
    {
      SourceDeltaWraps(height, row, k / 3);
      SourceDeltaWraps(width, col, k % 3);
    }
    assert u == t;
  }

  /** On a 1 by 1 torus all eight neighbours are the cell itself. */
  lemma SingleCellCount(cells: seq<bool>, side: nat, row: nat, col: nat)
    requires side == 1 && Shaped(cells, side, side) && row < side && col < side
    ensures NeighborCount(cells, side, side, row, col) == 8 * Bit(cells[0])
  {
    var x := Bit(cells[0]);
    SingleCellTerms(cells, side, row, col);
    Sum9([x, x, x, x, 0, x, x, x, x]);
  }

  lemma SingleCellTerms(cells: seq<bool>, side: nat, row: nat, col: nat)
    requires side == 1 && Shaped(cells, side, side) && row < side && col < side
    ensures var x := Bit(cells[0]);
      Terms(cells, side, side, row, col) == [x, x, x, x, 0, x, x, x, x]
  {
    SingleCellTerm(cells, side, row, col, 0, 0);
    SingleCellTerm(cells, side, row, col, 0, 1);
    SingleCellTerm(cells, side, row, col, 0, 2);
    SingleCellTerm(cells, side, row, col, 1, 0);
    SingleCellTerm(cells, side, row, col, 1, 2);
    SingleCellTerm(cells, side, row, col, 2, 0);
    SingleCellTerm(cells, side, row, col, 2, 1);
    SingleCellTerm(cells, side, row, col, 2, 2);
  }

  lemma SingleCellTerm(cells: seq<bool>, side: nat, row: nat, col: nat, a: nat, b: nat)
    requires side == 1 && Shaped(cells, side, side) && row < side && col < side
    requires !(a == 1 && b == 1)
    ensures Term(cells, side, side, row, col, a, b) == Bit(cells[0])
  {
    var r, c := NeighborRow(side, row, a), NeighborCol(side, col, b);
    assert r == 0 && c == 0;
    assert Cell(cells, side, side, r, c) == cells[0];
  }

  /**
   * On a 1 by 1 grid the engine's offsets are `[0, 0, 1]` on both axes, so its
   * skip test drops four of the nine steps instead of one: a live cell counts
   * itself five times, not eight.
   */
  lemma SingleCellCountAsWritten(cells: seq<bool>, side: nat, row: nat, col: nat)
    requires side == 1 && Shaped(cells, side, side) && row < side && col < side
    ensures NeighborCountAsWritten(cells, side, side, row, col) == 5 * Bit(cells[0])
  {
    var t := TermsAsWritten(cells, side, side, row, col);
    Sum9(t);
    assert t[0] == 0 && t[1] == 0 && t[3] == 0;
    assert t[2] == TermAsWritten(cells, side, side, row, col, 0, 2);
    assert t[5] == TermAsWritten(cells, side, side, row, col, 1, 2);
    assert t[6] == TermAsWritten(cells, side, side, row, col, 2, 0);
    assert t[7] == TermAsWritten(cells, side, side, row, col, 2, 1);
    assert t[8] == TermAsWritten(cells, side, side, row, col, 2, 2);
  }

  /** A live 1 by 1 grid is a concrete input on which the two counts differ. */
  lemma SingleCellCountsDiffer()
    ensures NeighborCountAsWritten([true], 1, 1, 0, 0) == 5
    ensures NeighborCount([true], 1, 1, 0, 0) == 8
  {
    SingleCellCountAsWritten([true], 1, 0, 0);
    SingleCellCount([true], 1, 0, 0);
  }

  /**
   * On a grid with both sides at least 3 the eight block positions other than
   * the centre are eight distinct cells, none of them `(row, col)` itself.
   */
  lemma NeighborsDistinct(width: nat, height: nat, row: nat, col: nat, a1: nat, b1: nat, a2: nat, b2: nat)
    requires width >= 3 && height >= 3 && row < height && col < width
    requires a1 < 3 && b1 < 3 && a2 < 3 && b2 < 3
    ensures (NeighborRow(height, row, a1) == NeighborRow(height, row, a2)
             && NeighborCol(width, col, b1) == NeighborCol(width, col, b2))
            <==> (a1 == a2 && b1 == b2)
    ensures (NeighborRow(height, row, a1) == row && NeighborCol(width, col, b1) == col)
            <==> (a1 == 1 && b1 == 1)
  {
    WrapStep(row, height);
    WrapStep(col, width);
  }

  // ---------------------------------------------------------------------
  // The transition

  /** The engine's match on (alive, live neighbours), arm by arm. */
  function Rule(alive: bool, n: nat): (next: bool)
    ensures next <==> n == 3 || (alive && n == 2)
    ensures alive && (n < 2 || n > 3) ==> !next
    ensures !alive && n != 3 ==> !next
  {
    if alive && (n < 2 || n > 3) then false
    else if alive && (n == 2 || n == 3) then true
    else if !alive && n == 3 then true
    else alive
  }

  /**
   * On a square grid the engine's count can replace the standard one without
   * changing any cell's next state: for side 1 the counts are 5 and 8 for a
   * live cell, and both kill it.
   */
  lemma RuleAgrees(cells: seq<bool>, side: nat, row: nat, col: nat)
    requires Shaped(cells, side, side) && row < side && col < side
    ensures Rule(Cell(cells, side, side, row, col), NeighborCountAsWritten(cells, side, side, row, col))
         == Rule(Cell(cells, side, side, row, col), NeighborCount(cells, side, side, row, col))
  {
    if side >= 2 {
      AsWrittenAgrees(cells, side, side, row, col);
    } else {
      SingleCellCount(cells, side, row, col);
      SingleCellCountAsWritten(cells, side, row, col);
    }
  }

  /** Next state of the cell at linear index `i`. */
  function NextCell(cells: seq<bool>, width: nat, height: nat, i: nat): bool
    requires Shaped(cells, width, height) && i < width * height
  {
    IndexOnto(width, height, i);
    Rule(cells[i], NeighborCount(cells, width, height, i / width, i % width))
  }

  /** The whole next generation, every cell computed from `cells` alone. */
  function Next(cells: seq<bool>, width: nat, height: nat): (next: seq<bool>)
    requires Shaped(cells, width, height)
    ensures Shaped(next, width, height)
    ensures forall row: nat, col: nat | row < height && col < width ::
      Cell(next, width, height, row, col)
        == Rule(Cell(cells, width, height, row, col), NeighborCount(cells, width, height, row, col))
  {
    var next := seq(width * height, i requires 0 <= i < width * height => NextCell(cells, width, height, i));
    forall row: nat, col: nat | row < height && col < width
      ensures Cell(next, width, height, row, col)
        == Rule(Cell(cells, width, height, row, col), NeighborCount(cells, width, height, row, col))
    {
      IndexBounds(width, height, row, col);
      IndexDecodes(width, height, row, col);
    }
    next
  }

  /** Two generations that agree on a cell and its eight neighbours agree on its next state. */
  lemma NextIsLocal(c1: seq<bool>, c2: seq<bool>, width: nat, height: nat, row: nat, col: nat)
    requires Shaped(c1, width, height) && Shaped(c2, width, height)
    requires row < height && col < width
    requires forall a: nat, b: nat | a < 3 && b < 3 ::
      Cell(c1, width, height, NeighborRow(height, row, a), NeighborCol(width, col, b))
        == Cell(c2, width, height, NeighborRow(height, row, a), NeighborCol(width, col, b))
    ensures Cell(Next(c1, width, height), width, height, row, col)
         == Cell(Next(c2, width, height), width, height, row, col)
  {
    WrapStep(row, height);
    WrapStep(col, width);
    assert Cell(c1, width, height, row, col) == Cell(c2, width, height, row, col) by {
      assert NeighborRow(height, row, 1) == row && NeighborCol(width, col, 1) == col;
    }
    assert Terms(c1, width, height, row, col) == Terms(c2, width, height, row, col);
  }

  /** The grid with every cell dead. */
  function Dead(n: nat): (cells: seq<bool>)
    ensures |cells| == n && forall i :: 0 <= i < n ==> !cells[i]
  {
    seq(n, i => false)
  }

  /** A dead grid gives every cell zero live neighbours. */
  lemma DeadCount(width: nat, height: nat, row: nat, col: nat)
    requires row < height && col < width
    ensures NeighborCount(Dead(width * height), width, height, row, col) == 0
  {
    var d := Dead(width * height);
    forall a: nat, b: nat | a < 3 && b < 3
      ensures Term(d, width, height, row, col, a, b) == 0
    {
      var r, c := NeighborRow(height, row, a), NeighborCol(width, col, b);
      IndexBounds(width, height, r, c);
    }
    Sum9(Terms(d, width, height, row, col));
  }

  /** With no live cell there is no birth: a dead grid stays dead. */
  lemma DeadStaysDead(width: nat, height: nat)
    ensures Next(Dead(width * height), width, height) == Dead(width * height)
  {
    var d := Dead(width * height);
    var next := Next(d, width, height);
    forall i | 0 <= i < width * height
      ensures !next[i]
    {
      IndexOnto(width, height, i);
      DeadCount(width, height, i / width, i % width);
      assert next[i] == NextCell(d, width, height, i);
    }
  }

  // ---------------------------------------------------------------------
  // Toggling

  /** `cells` with the state at `i` flipped and every other state kept. */
  function Toggled(cells: seq<bool>, i: nat): (r: seq<bool>)
    requires i < |cells|
    ensures |r| == |cells| && r[i] == !cells[i]
    ensures forall j :: 0 <= j < |cells| && j != i ==> r[j] == cells[j]
  {
    cells[i := !cells[i]]
  }

  /** Toggling the same cell twice restores the grid. */
  lemma ToggleTwice(cells: seq<bool>, i: nat)
    requires i < |cells|
    ensures Toggled(Toggled(cells, i), i) == cells
  {
  }

  /** Toggling two cells gives the same grid in either order. */
  lemma ToggleCommutes(cells: seq<bool>, i: nat, j: nat)
    requires i < |cells| && j < |cells|
    ensures Toggled(Toggled(cells, i), j) == Toggled(Toggled(cells, j), i)
  {
  }
}
