/** Bytes, and the row-major arithmetic of four-byte pixels. */
module Bytes {

  type byte = x: int | 0 <= x < 256

  /** The bytes taken by `rows` rows that are `pitch` bytes apart. */
  function RowStart(pitch: nat, rows: nat): nat {
    if rows == 0 then 0 else RowStart(pitch, rows - 1) + pitch
  }

  lemma {:induction false} RowStartValue(pitch: nat, rows: nat)
    ensures RowStart(pitch, rows) == rows * pitch
  {
    if rows > 0 {
      RowStartValue(pitch, rows - 1);
      assert rows * pitch == (rows - 1) * pitch + pitch;
    }
  }

  lemma {:induction false} RowFits(pitch: nat, height: nat, row: nat)
    requires row < height
    ensures RowStart(pitch, row) + pitch <= RowStart(pitch, height)
  {
    if row < height - 1 {
      RowFits(pitch, height - 1, row);
    }
  }

  /** Byte offset of the pixel in row `row`, column `col`. */
  function Offset(pitch: nat, row: nat, col: nat): nat {
    RowStart(pitch, row) + 4 * col
  }

  lemma PackedOffset(width: nat, row: nat, col: nat)
    ensures Offset(4 * width, row, col) == (row * width + col) * 4
    ensures RowStart(4 * width, row) == 4 * (row * width)
  {
    RowStartValue(4 * width, row);
    assert row * (4 * width) == 4 * (row * width);
  }
}
