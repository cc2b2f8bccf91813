/** The cursor model: one integer position over the Lines x Columns cells
    of the display, with Go's truncating integer division. */
module Cursors {
  import opened Proto
  import opened Errors

  const Lines := 2
  const Columns := 16

  /** Go's integer `/`: the quotient is truncated toward zero. */
  function GoDiv(a: int, b: int): (r: int)
    requires b > 0
  {
    if a >= 0 then a / b else -((-a) / b)
  }

  /** Go's integer `%`: the remainder takes the sign of the dividend. */
  function GoRem(a: int, b: int): (r: int)
    requires b > 0
    ensures a >= 0 ==> 0 <= r < b
    ensures a < 0 ==> -b < r <= 0
    ensures a == GoDiv(a, b) * b + r
  {
    if a >= 0 then a % b else -((-a) % b)
  }

  /** The error a position stands for: negative positions are a fault,
      positions past the last cell are end-of-file, the rest are valid. */
  function PosError(pos: int): (e: Error)
    ensures e == NegativePosition <==> pos < 0
    ensures e == EOF <==> pos >= Lines * Columns
    ensures e == NoError <==> 0 <= pos < Lines * Columns
  {
    if pos < 0 then NegativePosition
    else if pos >= Lines * Columns then EOF
    else NoError
  }

  /** The number of cells left on the current row.  Go's `%` makes this
      more than a row's worth for a negative position. */
  function Remaining(pos: int): (r: int)
    ensures pos >= 0 ==> 1 <= r <= Columns
    ensures pos < 0 ==> Columns <= r < 2 * Columns
  {
    Columns - GoRem(pos, Columns)
  }

  /** The move-cursor command byte for a position: 0x80 + 0x40 * row +
      column, kept to its low eight bits.  Go computes it with wrapping
      byte operations; ByteIsGoByteArithmetic shows that wrapping once at
      the end gives the same byte. */
  function Byte(pos: int): (r: byte)
  {
    ToByte(CtlCursorPos + CtlCursorLn * GoDiv(pos, Columns) + GoRem(pos, Columns))
  }

  /** Byte agrees with Go's expression, where byte(pos / Columns) and
      byte(pos % Columns) are truncated first and every `*` and `+` wraps. */
  lemma ByteIsGoByteArithmetic(pos: int)
    ensures Byte(pos) ==
      AddByte(AddByte(CtlCursorPos, MulByte(CtlCursorLn, ToByte(GoDiv(pos, Columns)))),
              ToByte(GoRem(pos, Columns)))
  {
    var q, r := GoDiv(pos, Columns), GoRem(pos, Columns);
    var k, j := q / 256, r / 256;
    assert q == 256 * k + ToByte(q);
    assert r == 256 * j + ToByte(r);
    var x := CtlCursorLn * ToByte(q);
    var l := x / 256;
    assert x == 256 * l + MulByte(CtlCursorLn, ToByte(q));
    var y := CtlCursorPos + MulByte(CtlCursorLn, ToByte(q));
    var t := y / 256;
    assert y == 256 * t + AddByte(CtlCursorPos, MulByte(CtlCursorLn, ToByte(q)));
    var whole := CtlCursorPos + CtlCursorLn * q + r;
    assert whole == 256 * (CtlCursorLn * k + l + t + j)
      + (AddByte(CtlCursorPos, MulByte(CtlCursorLn, ToByte(q))) + ToByte(r));
    ModShift(CtlCursorLn * k + l + t + j, AddByte(CtlCursorPos, MulByte(CtlCursorLn, ToByte(q))) + ToByte(r));
  }

  /** Filling the rest of the row from a non-negative position lands on
      the start of a row. */
  lemma RemainingFillsRow(pos: int)
    requires pos >= 0
    ensures (pos + Remaining(pos)) % Columns == 0
  {
  }

  /** Moving k cells along the row of a valid position, short of the
      row's end, stays valid and leaves k fewer cells on the row; the row
      ends on a row start that is past the display exactly when the row is
      the last. */
  lemma RowEnd(pos: int, k: int)
    requires 0 <= pos < Lines * Columns && 0 <= k < Remaining(pos)
    ensures Remaining(pos + k) == Remaining(pos) - k && pos + k < Lines * Columns
    ensures (pos + Remaining(pos)) % Columns == 0 && pos + Remaining(pos) <= Lines * Columns
    ensures pos + Remaining(pos) < Lines * Columns <==> pos < Columns
  {
  }

  /** The position the display moves its cursor to on receiving the
      move-cursor byte `b`: 8X is line 0, column X; CX is line 1, column X. */
  function MoveTarget(b: byte): (r: int)
  {
    if b >= CtlCursorPos + CtlCursorLn then Columns + (b - (CtlCursorPos + CtlCursorLn))
    else b - CtlCursorPos
  }

  /** On a valid position the byte is 0x80 + column on line 0 and
      0xC0 + column on line 1, and the display decodes it back to the
      same position. */
  lemma ByteRoundTrip(pos: int)
    requires 0 <= pos < Lines * Columns
    ensures Byte(pos) == if pos < Columns then 0x80 + pos else 0xC0 + (pos - Columns)
    ensures MoveTarget(Byte(pos)) == pos
  {
    if pos < Columns {
      assert GoDiv(pos, Columns) == 0 && GoRem(pos, Columns) == pos;
    } else {
      assert GoDiv(pos, Columns) == 1 && GoRem(pos, Columns) == pos - Columns;
    }
  }

  /** Distinct valid positions have distinct move-cursor bytes. */
  lemma ByteInjective(a: int, b: int)
    requires 0 <= a < Lines * Columns && 0 <= b < Lines * Columns
    requires Byte(a) == Byte(b)
    ensures a == b
  {
    ByteRoundTrip(a);
    ByteRoundTrip(b);
  }

  /** Moving to (y, x) inside the display gives a valid position whose row
      and column read back as y and x. */
  lemma MoveRoundTrip(y: int, x: int)
    requires 0 <= y < Lines && 0 <= x < Columns
    ensures var pos := y * Columns + x;
      PosError(pos) == NoError && GoDiv(pos, Columns) == y && GoRem(pos, Columns) == x
  {
  }

  /** Cells left at the start, the end and the start of the next row. */
  lemma RemainingExamples()
    ensures Remaining(0) == 16 && Remaining(15) == 1 && Remaining(16) == 16
  {
  }

  /** A run of at most Remaining(pos) cells starting at a non-negative
      position stays on the position's row. */
  lemma RunStaysInRow(pos: int, m: int)
    requires pos >= 0 && 1 <= m <= Remaining(pos)
    ensures GoDiv(pos + m - 1, Columns) == GoDiv(pos, Columns)
    ensures GoRem(pos, Columns) + m <= Columns
  {
  }

  /** The cursor: a position that Advance and Move update in place. */
  class Cursor {
    var pos: int

    constructor ()
      ensures pos == 0
    {
      pos := 0;
    }

    /** Moves the cursor by n cells, then reports what the new position
        stands for; the position changes even when it is invalid. */
    method Advance(n: int) returns (err: Error)
      modifies this
      ensures pos == old(pos) + n
      ensures err == PosError(pos)
    {
      pos := pos + n;
      err := PosError(pos);
    }

    /** Moves the cursor to line y, column x, then reports what the new
        position stands for; the position changes even when it is invalid. */
    method Move(y: int, x: int) returns (err: Error)
      modifies this
      ensures pos == y * Columns + x
      ensures err == PosError(pos)
    {
      pos := y * Columns + x;
      err := PosError(pos);
    }
  }
}
