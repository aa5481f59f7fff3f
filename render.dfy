/**
 * The renderer's reading of the engine's buffer: the buffer holds one bit per
 * cell, 8 cells per byte, least significant bit first, and the renderer finds
 * cell `n` at bit `n % 8` of byte `n / 8`.
 *
 * `Pack` is the layout the engine's bit set presents to the renderer;
 * `BitIsSet` and `DecodeCells` are the renderer's side.
 */
module Render {
  import opened Conway

  type byte = bv8

  /** Bit `j` of a byte, counting from the least significant. */
  function BitAt(x: byte, j: nat): bool
    requires j < 8
  {
    (x >> j) & 1 == 1
  }

  /** getIndex: the renderer's row-major index, the engine's formula. */
  function GetIndex(width: nat, row: nat, col: nat): (i: nat)
    ensures i == Index(width, row, col)
  {
    row * width + col
  }

  /**
   * bitIsSet: mask test of bit `n % 8` in byte `n / 8`.  Past the end of the
   * array the byte reads as `undefined`, whose `&` with the mask is 0, so the
   * bit reads as clear.
   */
  function BitIsSet(n: nat, arr: seq<byte>): (set_: bool)
    ensures set_ <==> n / 8 < |arr| && BitAt(arr[n / 8], n % 8)
  {
    var b := n / 8;
    var mask: byte := 1 << (n % 8);
    b < |arr| && arr[b] & mask == mask
  }

  /** Up to 8 cells as one byte, the first cell in the least significant bit. */
  function PackByte(bits: seq<bool>): byte
    requires |bits| <= 8
  {
    if bits == [] then 0
    else (if bits[0] then 1 else 0) | (PackByte(bits[1..]) << 1)
  }

  /** Bit `j` of a packed byte is cell `j`, and 0 past the cells given. */
  lemma {:induction false} PackByteBit(bits: seq<bool>, j: nat)
    requires |bits| <= 8 && j < 8
    ensures BitAt(PackByte(bits), j) <==> j < |bits| && bits[j]
  {
    if bits != [] {
      var low: byte := if bits[0] then 1 else 0;
      var rest := PackByte(bits[1..]);
      if j > 0 {
        PackByteBit(bits[1..], j - 1);
        ShiftedBit(low, rest, j);
      }
    }
  }

  /** Bit `j > 0` of `low | (rest << 1)` is bit `j - 1` of `rest`, and bit 0 is `low`. */
  lemma ShiftedBit(low: byte, rest: byte, j: nat)
    requires low <= 1 && 0 < j < 8
    ensures ((low | (rest << 1)) >> j) & 1 == (rest >> (j - 1)) & 1
  {
  }

  /** The cell states packed into bytes, 8 per byte, the last byte padded with 0. */
  function Pack(cells: seq<bool>): (bytes: seq<byte>)
    ensures |bytes| == (|cells| + 7) / 8
    decreases |cells|
  {
    if cells == [] then []
    else if |cells| <= 8 then [PackByte(cells)]
    else [PackByte(cells[..8])] + Pack(cells[8..])
  }

  /** The first `n` cells read back from bytes, one `BitIsSet` per cell. */
  function Unpack(bytes: seq<byte>, n: nat): (cells: seq<bool>)
    ensures |cells| == n
    ensures forall i :: 0 <= i < n ==> cells[i] == BitIsSet(i, bytes)
  {
    seq(n, i requires 0 <= i => BitIsSet(i, bytes))
  }

  /** Reading cell `i` of a packed buffer gives cell `i`; the padding reads as clear. */
  lemma {:induction false} PackThenBitIsSet(cells: seq<bool>, i: nat)
    requires i < 8 * |Pack(cells)|
    ensures BitIsSet(i, Pack(cells)) <==> i < |cells| && cells[i]
    decreases |cells|
  {
    var bytes := Pack(cells);
    if i < 8 {
      var chunk := if |cells| <= 8 then cells else cells[..8];
      assert bytes[0] == PackByte(chunk);
      PackByteBit(chunk, i);
    } else {
      var rest := cells[8..];
      assert bytes[1..] == Pack(rest);
      PackThenBitIsSet(rest, i - 8);
      assert (i - 8) / 8 == i / 8 - 1 && (i - 8) % 8 == i % 8;
    }
  }

  /** Decoding a packed buffer returns exactly the cells it was packed from. */
  lemma UnpackPack(cells: seq<bool>)
    ensures Unpack(Pack(cells), |cells|) == cells
  {
    forall i | 0 <= i < |cells|
      ensures BitIsSet(i, Pack(cells)) == cells[i]
    {
      PackThenBitIsSet(cells, i);
    }
  }

  /**
   * The renderer's byte view may run past the packed bytes (it spans
   * `width * height` bytes of memory); the first `N` bits still decode to
   * the `N` cells, whatever the further bytes hold.
   */
  lemma LongerView(cells: seq<bool>, extra: seq<byte>)
    ensures Unpack(Pack(cells) + extra, |cells|) == cells
  {
    forall i | 0 <= i < |cells|
      ensures BitIsSet(i, Pack(cells) + extra) == cells[i]
    {
      PackThenBitIsSet(cells, i);
      assert (Pack(cells) + extra)[i / 8] == Pack(cells)[i / 8];
    }
  }

  /** Two bytes with the same 8 bits are equal. */
  lemma ByteExtensionality(x: byte, y: byte)
    requires forall j: nat | j < 8 :: BitAt(x, j) == BitAt(y, j)
    ensures x == y
  {
    assert BitAt(x, 0) == BitAt(y, 0) && BitAt(x, 1) == BitAt(y, 1);
    assert BitAt(x, 2) == BitAt(y, 2) && BitAt(x, 3) == BitAt(y, 3);
    assert BitAt(x, 4) == BitAt(y, 4) && BitAt(x, 5) == BitAt(y, 5);
    assert BitAt(x, 6) == BitAt(y, 6) && BitAt(x, 7) == BitAt(y, 7);
  }

  /** Reading past the first byte is reading the remaining bytes. */
  lemma BitIsSetTail(bytes: seq<byte>, i: nat)
    requires |bytes| > 0
    ensures BitIsSet(i + 8, bytes) == BitIsSet(i, bytes[1..])
  {
    assert (i + 8) / 8 == i / 8 + 1 && (i + 8) % 8 == i % 8;
  }

  /** Packing every bit of a buffer rebuilds the buffer: `Pack` is onto. */
  lemma {:induction false} PackUnpack(bytes: seq<byte>)
    ensures Pack(Unpack(bytes, 8 * |bytes|)) == bytes
    decreases |bytes|
  {
    if bytes != [] {
      var cells := Unpack(bytes, 8 * |bytes|);
      var chunk := cells[..8];
      forall j: nat | j < 8
        ensures BitAt(PackByte(chunk), j) == BitAt(bytes[0], j)
      {
        PackByteBit(chunk, j);
      }
      ByteExtensionality(PackByte(chunk), bytes[0]);
      var tail := Unpack(bytes[1..], 8 * (|bytes| - 1));
      forall i | 0 <= i < |tail|
        ensures cells[8..][i] == tail[i]
      {
        BitIsSetTail(bytes, i);
      }
      assert cells[8..] == tail;
      PackUnpack(bytes[1..]);
      if |bytes| == 1 {
        assert cells == chunk;
      }
    }
  }

  /**
   * The loops of drawCells with the drawing left out: for every `(row, col)`
   * of the grid, in row-major order, the state read with
   * `bitIsSet(getIndex(row, col), cells)`.  Every such index is below
   * `width * height`, so no cell is read from another cell's bit.
   */
  method DecodeCells(width: nat, height: nat, bytes: seq<byte>) returns (alive: seq<bool>)
    ensures alive == Unpack(bytes, width * height)
    ensures forall row: nat, col: nat | row < height && col < width ::
      GetIndex(width, row, col) < |alive|
        && alive[GetIndex(width, row, col)] == BitIsSet(GetIndex(width, row, col), bytes)
  {
    alive := [];
    for row := 0 to height
      invariant alive == Unpack(bytes, row * width)
    {
      for col := 0 to width
        invariant alive == Unpack(bytes, row * width + col)
      {
        var idx := GetIndex(width, row, col);
        var isAlive := BitIsSet(idx, bytes);
        alive := alive + [isAlive];
      }
      assert row * width + width == (row + 1) * width;
    }
    forall row: nat, col: nat | row < height && col < width
      ensures GetIndex(width, row, col) < |alive|
    {
      IndexBounds(width, height, row, col);
    }
  }
}
