/** The text screen of kernel/tty.c: a scrolling window onto an unbounded sheet of text. */
module Tty {
  import opened Words
  import opened Stdlib

  /** One character cell of text memory. */
  datatype Cell = Cell(chr: Byte, attr: Byte)

  const NEWLINE: Byte := 10
  const SPACE: Byte := 32

  // ----- the sheet

  ghost function Blanks(n: nat, blank: Cell): (r: seq<Cell>)
    ensures |r| == n && forall k | 0 <= k < n :: r[k] == blank
  {
    seq(n, _ => blank)
  }

  /** Where the row after position `pos` starts. */
  function NextRow(pos: nat, width: nat): nat
    requires 0 < width
  {
    (pos / width + 1) * width
  }

  /** The sheet after one more character: a newline fills up the row, anything else is a cell. */
  ghost function Written(sheet: seq<Cell>, chr: Byte, attr: Byte, width: nat): (r: seq<Cell>)
    requires 0 < width
  {
    RowStarts(|sheet|, width);
    if chr == NEWLINE then sheet + Blanks(NextRow(|sheet|, width) - |sheet|, Cell(SPACE, attr))
    else sheet + [Cell(chr, attr)]
  }

  /** The text laid out, with wrapping and newlines, at the end of a sheet. */
  ghost function Layout(sheet: seq<Cell>, text: seq<Byte>, attr: Byte, width: nat): seq<Cell>
    requires 0 < width
  {
    if text == [] then sheet
    else Written(Layout(sheet, text[..|text| - 1], attr, width), text[|text| - 1], attr, width)
  }

  /** The cell at `pos`; everything not yet written is blank. */
  ghost function CellOf(sheet: seq<Cell>, pos: nat, attr: Byte): Cell {
    if pos < |sheet| then sheet[pos] else Cell(SPACE, attr)
  }

  /** How many rows have left a screen of `height` rows whose last row is the one being written. */
  function TopRow(pos: nat, width: nat, height: nat): nat
    requires 0 < width && 0 < height
  {
    if pos / width < height then 0 else pos / width - height + 1
  }

  /** Text without newlines follows the sheet, one cell for each character. */
  lemma {:induction false} PlainText(sheet: seq<Cell>, text: seq<Byte>, attr: Byte, width: nat)
    requires 0 < width && 10 !in text
    ensures Layout(sheet, text, attr, width) == sheet + seq(|text|, k requires 0 <= k < |text| => Cell(text[k], attr))
    decreases |text|
  {
    if text != [] { PlainText(sheet, text[..|text| - 1], attr, width); }
  }

  /** A newline adds between one and `width` blanks, up to the start of a row. */
  lemma NewlineFills(sheet: seq<Cell>, text: seq<Byte>, attr: Byte, width: nat)
    requires 0 < width
    ensures var before, after := Layout(sheet, text, attr, width), Layout(sheet, text + [10], attr, width);
            && |before| < |after| <= |before| + width && |after| % width == 0
            && after[..|before|] == before && forall k | |before| <= k < |after| :: after[k] == Cell(32, attr)
  {
    hide NextRow;
    var before := Layout(sheet, text, attr, width);
    assert (text + [10])[..|text|] == text;
    RowStarts(|before|, width);
    RowStart(|before|, width);
  }

  lemma RowStart(pos: nat, width: nat)
    requires 0 < width
    ensures NextRow(pos, width) % width == 0
  {
    WholeRows(pos / width + 1, width);
  }

  lemma {:induction false} WholeRows(rows: nat, width: nat)
    requires 0 < width
    ensures rows * width % width == 0
  {
    RowOf(rows, 0, width);
    RowStarts(rows * width, width);
  }

  /** A text in two parts is laid out one after the other. */
  lemma {:induction false} InParts(sheet: seq<Cell>, a: seq<Byte>, b: seq<Byte>, attr: Byte, width: nat)
    requires 0 < width
    ensures Layout(sheet, a + b, attr, width) == Layout(Layout(sheet, a, attr, width), b, attr, width)
    decreases |b|
  {
    hide Written;
    if b == [] {
      assert a + b == a;
    } else {
      InParts(sheet, a, b[..|b| - 1], attr, width);
      assert (a + b)[..|a + b| - 1] == a + b[..|b| - 1];
    }
  }

  // ----- arithmetic of rows

  lemma Distribute(a: int, b: int, w: int)
    ensures (a + b) * w == a * w + b * w
  {}

  lemma MulOrder(a: nat, b: nat, w: nat)
    requires a < b
    ensures a * w + w <= b * w
  {
    Distribute(a, b - a, w);
    Distribute(b - a - 1, 1, w);
  }

  lemma RowStarts(pos: nat, width: nat)
    requires 0 < width
    ensures pos / width * width <= pos < NextRow(pos, width) == pos / width * width + width
  {
    assert pos == pos / width * width + pos % width;
  }

  /** A position `x` rows below another is in the row `x` further. */
  lemma RowOf(top: nat, k: nat, width: nat)
    requires 0 < width
    ensures (top * width + k) / width == top + k / width
    ensures NextRow(top * width + k, width) == top * width + NextRow(k, width)
  {
    RowStarts(k, width);
    RowStarts(top * width + k, width);
    var q, r := (top * width + k) / width, top + k / width;
    Distribute(top, k / width, width);
    if q < r { MulOrder(q, r, width); }
    if r < q { MulOrder(r, q, width); }
    Distribute(r, 1, width);
  }

  lemma RowBelow(q: nat, k: nat, width: nat, height: nat)
    requires q * width <= k < height * width
    ensures q < height && q * width + width <= height * width
  {
    if q < height { MulOrder(q, height, width); }
    if height < q { MulOrder(height, q, width); }
  }

  /** Inside the screen the next row starts inside it or just behind it. */
  lemma NextRowInside(k: nat, width: nat, height: nat)
    requires 0 < width && k < height * width
    ensures NextRow(k, width) <= height * width && k / width < height
  {
    hide NextRow;
    RowStarts(k, width);
    RowBelow(k / width, k, width, height);
  }

  /** The row that a position is in. */
  lemma LastRow(k: nat, width: nat, height: nat)
    requires 0 < width && 0 < height && (height - 1) * width <= k < height * width
    ensures k / width == height - 1
  {
    hide NextRow;
    NextRowInside(k, width, height);
    RowStarts(k, width);
    var q := k / width;
    if q < height - 1 { MulOrder(q, height - 1, width); }
  }

  /** A screen whose last row holds the cursor shows the bottom of the sheet. */
  lemma ShowsBottom(top: nat, cursor: nat, width: nat, height: nat)
    requires 0 < width && 0 < height && cursor < height * width && (top > 0 ==> (height - 1) * width <= cursor)
    ensures top == TopRow(top * width + cursor, width, height)
  {
    RowOf(top, cursor, width);
    NextRowInside(cursor, width, height);
    if top > 0 { LastRow(cursor, width, height); }
  }

  // ----- cells in memory

  ghost function CellAt(s: seq<Byte>, k: nat): Cell
    requires 2 * k + 2 <= |s|
  {
    Cell(s[2 * k], s[2 * k + 1])
  }

  lemma MovedCell(s: seq<Byte>, dest: nat, src: nat, count: nat, k: nat)
    requires 2 * (dest + count) <= |s| && 2 * (src + count) <= |s| && 2 * k + 2 <= |s|
    ensures CellAt(Moved(s, 2 * dest, 2 * src, 2 * count), k)
         == if dest <= k < dest + count then CellAt(s, src + (k - dest)) else CellAt(s, k)
  {
    hide Moved;
    MovedByte(s, 2 * dest, 2 * src, 2 * count, 2 * k);
    MovedByte(s, 2 * dest, 2 * src, 2 * count, 2 * k + 1);
  }

  /** `memset_word` over `count` cells from cell `at`. */
  method MemsetWord(mem: array<Byte>, at: nat, value: Word, count: nat)
    requires 2 * (at + count) <= mem.Length && value < 0x1_0000
    modifies mem
    ensures forall k | 0 <= k && 2 * k + 2 <= mem.Length ::
              CellAt(mem[..], k) ==
              if at <= k < at + count then Cell(value % 0x100, value / 0x100) else old(CellAt(mem[..], k))
  {
    for i := 0 to count
      invariant forall k | 0 <= k && 2 * k + 2 <= mem.Length ::
        CellAt(mem[..], k) == if at <= k < at + i then Cell(value % 0x100, value / 0x100) else old(CellAt(mem[..], k))
    {
      ghost var before := mem[..];
      mem[2 * (at + i)] := value % 0x100;
      mem[2 * (at + i) + 1] := value / 0x100;
      forall k | 0 <= k && 2 * k + 2 <= mem.Length && k != at + i ensures CellAt(mem[..], k) == CellAt(before, k) {}
    }
  }

  /** The rows have moved up by one and the last one is blank; both are memory, two bytes a cell, the
      character first. */
  ghost predicate MovedUp(was: seq<Byte>, now: seq<Byte>, width: nat, height: nat, attr: Byte)
    requires 0 < height && |was| == |now| == 2 * (height * width + width)
  {
    && (forall j | 0 <= j < 2 * ((height - 1) * width) :: j + 2 * width < |was| && now[j] == was[j + 2 * width])
    && (forall k | (height - 1) * width <= k < height * width :: now[2 * k] == 32 && now[2 * k + 1] == attr)
  }

  class Screen {
    const buffer: array<Byte>       // tty_buffer, with one spare row behind the screen
    const width: nat                // tty_width
    const height: nat               // tty_height
    const attr: Byte                // text_attr
    var cursor: nat
    ghost var sheet: seq<Cell>      // everything laid out since the screen was cleared
    ghost var top: nat              // rows that have scrolled away

    ghost predicate Shape()
      reads this
    {
      0 < width && 0 < height && buffer.Length == 2 * (height * width + width)
    }

    /** The screen shows the sheet from row `top` on. */
    ghost predicate Shows()
      requires Shape()
      reads this, buffer
    {
      forall k | 0 <= k < height * width :: CellAt(buffer[..], k) == CellOf(sheet, top * width + k, attr)
    }

    ghost predicate Valid(): (valid: bool)
      reads this, buffer
      ensures valid ==> Shape() && 2 * cursor + 2 <= buffer.Length
    {
      && Shape() && cursor < height * width
      && |sheet| == top * width + cursor
      && (top > 0 ==> (height - 1) * width <= cursor)
      && Shows()
    }

    /** The scrolling branch of `move_cursor`, for a sheet that has just filled the last row. */
    method Scroll()
      requires Shape() && Shows() && |sheet| == top * width + height * width
      modifies this`cursor, this`top, buffer
      ensures Valid() && top == old(top) + 1
      ensures cursor == (height - 1) * width && MovedUp(old(buffer[..]), buffer[..], width, height, attr)
    {
      hide Moved, MovedUp;
      Distribute(height - 1, 1, width);
      Distribute(top, 1, width);
      cursor := (height - 1) * width;
      ghost var was := buffer[..];
      Memcpy(buffer, 0, 2 * width, 2 * (height * width));
      ghost var moved := buffer[..];
      MemsetWord(buffer, (height - 1) * width, 0x100 * attr + SPACE, width);
      top := top + 1;
      ScrolledCells(was, moved, buffer[..], sheet, top - 1, width, height, attr);
      ScrolledBytes(was, moved, buffer[..], width, height, attr);
    }

    /** `move_cursor` as `out_char` and `clear_screen` use it: to the end of the sheet. */
    method MoveCursor(pos: nat)
      requires Shape() && Shows() && pos <= height * width && |sheet| == top * width + pos
      requires top > 0 ==> (height - 1) * width <= pos
      modifies this`cursor, this`top, buffer
      ensures Valid()
      ensures Reaches(old(buffer[..]), pos)
    {
      hide MovedUp;
      cursor := pos;
      if cursor >= height * width {
        Scroll();
      }
    }

    /** The newline case of `out_char`. */
    method NewLine()
      requires Valid()
      modifies this, buffer
      ensures Valid() && sheet == Written(old(sheet), 10, attr, width)
      ensures Reaches(old(buffer[..]), (old(cursor) / width + 1) * width)
    {
      NextIs(cursor, width);
      hide NextRow, MovedUp;
      RowOf(top, cursor, width);
      RowStarts(cursor, width);
      NextRowInside(cursor, width, height);
      RowStarts(|sheet|, width);
      ghost var was := buffer[..];
      sheet := Written(sheet, 10, attr, width);
      forall k | 0 <= k < height * width ensures CellAt(buffer[..], k) == CellOf(sheet, top * width + k, attr) {
        assert CellAt(was, k) == CellOf(old(sheet), top * width + k, attr);
      }
      MoveCursor(NextRow(cursor, width));
    }

    /** The default case of `out_char`. */
    method PutChar(chr: Byte)
      requires Valid() && chr != 10
      modifies this, buffer
      ensures Valid() && sheet == Written(old(sheet), chr, attr, width)
      ensures Reaches(old(buffer[..])[2 * old(cursor) := chr][2 * old(cursor) + 1 := attr], old(cursor) + 1)
    {
      hide MovedUp;
      ghost var was := buffer[..];
      buffer[2 * cursor] := chr;
      buffer[2 * cursor + 1] := attr;
      sheet := Written(sheet, chr, attr, width);
      forall k | 0 <= k < height * width ensures CellAt(buffer[..], k) == CellOf(sheet, top * width + k, attr) {
        if k != cursor { assert CellAt(was, k) == CellOf(old(sheet), top * width + k, attr); }
      }
      MoveCursor(cursor + 1);
    }

    /** The memory `put` is on the screen with the cursor at `pos`; or, when `pos` is behind the screen,
        `put` has moved up by a row and the cursor is at the start of the blank last row. */
    ghost predicate Reaches(put: seq<Byte>, pos: int)
      requires Shape() && |put| == buffer.Length
      reads this, buffer
    {
      if pos < height * width then cursor == pos && buffer[..] == put
      else cursor == (height - 1) * width && MovedUp(put, buffer[..], width, height, attr)
    }

    /** `out_char` */
    method OutChar(chr: Byte)
      requires Valid()
      modifies this, buffer
      ensures Valid() && sheet == Written(old(sheet), chr, attr, width)
      ensures chr != 10 ==>
                Reaches(old(buffer[..])[2 * old(cursor) := chr][2 * old(cursor) + 1 := attr], old(cursor) + 1)
      ensures chr == 10 ==> Reaches(old(buffer[..]), (old(cursor) / width + 1) * width)
    {
      hide Written, NextRow, MovedUp, Reaches;
      if chr == NEWLINE {
        NewLine();
      } else {
        PutChar(chr);
      }
    }

    /** `clear_screen` */
    method ClearScreen()
      requires Shape()
      modifies this, buffer
      ensures Valid() && sheet == [] && cursor == 0
      ensures forall k | 0 <= k < height * width :: buffer[2 * k] == 32 && buffer[2 * k + 1] == attr
    {
      hide MovedUp;
      OneCell(width, height);
      MemsetWord(buffer, 0, 0x100 * attr + SPACE, height * width);
      sheet, top := [], 0;
      ghost var cleared := buffer[..];
      BlankBytes(cleared, height * width, attr);
      MoveCursor(0);
      assert forall k | 0 <= k < 2 * (height * width) :: buffer[k] == cleared[k];
    }

    /** `out_string`: everything before the terminating 0. */
    method OutString(str: seq<Byte>)
      requires Valid() && 0 in str
      modifies this, buffer
      ensures Valid()
      ensures exists n :: 0 <= n < |str| && str[n] == 0 && 0 !in str[..n] &&
                          sheet == Layout(old(sheet), str[..n], attr, width)
    {
      hide Written;
      var i := 0;
      while str[i] != 0
        invariant 0 <= i < |str| && 0 in str[i..] && 0 !in str[..i]
        invariant Valid() && sheet == Layout(old(sheet), str[..i], attr, width)
        decreases |str| - i
      {
        OutChar(str[i]);
        assert str[..i + 1][..i] == str[..i];
        i := i + 1;
      }
    }

    /** From a cleared screen, after any text, the screen is the bottom window of the laid-out sheet. */
    method ShowText(text: seq<Byte>)
      requires Shape()
      modifies this, buffer
      ensures Valid()
      ensures var sheet := Layout([], text, attr, width);
              var top := TopRow(|sheet|, width, height);
              && top * width + cursor == |sheet|
              && forall k | 0 <= k < height * width :: CellAt(buffer[..], k) == CellOf(sheet, top * width + k, attr)
      ensures 10 !in text && |text| < height * width ==>
                forall k | 0 <= k < height * width ::
                  buffer[2 * k] == (if k < |text| then text[k] else 32) && buffer[2 * k + 1] == attr
    {
      hide Written, TopRow, MovedUp;
      ClearScreen();
      for i := 0 to |text|
        invariant Valid() && sheet == Layout([], text[..i], attr, width)
      {
        OutChar(text[i]);
        assert text[..i + 1][..i] == text[..i];
      }
      assert text[..|text|] == text;
      ShowsBottom(top, cursor, width, height);
      if 10 !in text && |text| < height * width {
        PlainScreen(buffer[..], text, width, height, attr);
      }
    }
  }

  lemma OneCell(width: nat, height: nat)
    requires 0 < width && 0 < height
    ensures 0 < height * width
  {
    Distribute(height - 1, 1, width);
  }

  lemma BlankBytes(s: seq<Byte>, n: nat, attr: Byte)
    requires 2 * n <= |s| && forall k | 0 <= k < n :: CellAt(s, k) == Cell(SPACE, attr)
    ensures forall k | 0 <= k < n :: s[2 * k] == 32 && s[2 * k + 1] == attr
  {
    forall k | 0 <= k < n ensures s[2 * k] == 32 && s[2 * k + 1] == attr {
      assert CellAt(s, k) == Cell(SPACE, attr);
    }
  }

  lemma NextIs(pos: nat, width: nat)
    requires 0 < width
    ensures NextRow(pos, width) == (pos / width + 1) * width
  {}

  /** A text without newlines that fits is on the screen from its first cell on. */
  lemma PlainScreen(s: seq<Byte>, text: seq<Byte>, width: nat, height: nat, attr: Byte)
    requires 0 < width && 0 < height && 2 * (height * width) <= |s| && 10 !in text && |text| < height * width
    requires var sheet := Layout([], text, attr, width);
             var top := TopRow(|sheet|, width, height);
             forall k | 0 <= k < height * width :: CellAt(s, k) == CellOf(sheet, top * width + k, attr)
    ensures forall k | 0 <= k < height * width ::
              s[2 * k] == (if k < |text| then text[k] else 32) && s[2 * k + 1] == attr
  {
    hide Layout;
    PlainText([], text, attr, width);
    NextRowInside(|text|, width, height);
    forall k | 0 <= k < height * width
      ensures s[2 * k] == (if k < |text| then text[k] else 32) && s[2 * k + 1] == attr
    {
      assert CellAt(s, k) == CellOf(Layout([], text, attr, width), 0 * width + k, attr);
    }
  }

  lemma ScrolledBytes(was: seq<Byte>, moved: seq<Byte>, now: seq<Byte>, width: nat, height: nat, attr: Byte)
    requires 0 < width && 0 < height && |was| == |now| == 2 * (height * width + width)
    requires moved == Moved(was, 0, 2 * width, 2 * (height * width))
    requires forall k | 0 <= k < height * width :: CellAt(now, k)
                == if (height - 1) * width <= k < (height - 1) * width + width then Cell(SPACE, attr)
                   else CellAt(moved, k)
    ensures MovedUp(was, now, width, height, attr)
  {
    hide Moved;
    Distribute(height - 1, 1, width);
    forall j | 0 <= j < 2 * ((height - 1) * width) ensures now[j] == was[j + 2 * width] {
      var k := j / 2;
      assert CellAt(now, k) == CellAt(moved, k);
      MovedByte(was, 0, 2 * width, 2 * (height * width), j);
      assert j == 2 * k || j == 2 * k + 1;
    }
    forall k | (height - 1) * width <= k < height * width ensures now[2 * k] == 32 && now[2 * k + 1] == attr {
      assert CellAt(now, k) == Cell(SPACE, attr);
    }
  }

  /** Moving everything up a row and blanking the last row shows the sheet from one row further. */
  lemma ScrolledCells(
    was: seq<Byte>, moved: seq<Byte>, now: seq<Byte>, sheet: seq<Cell>, top: nat, width: nat, height: nat, attr: Byte)
    requires 0 < width && 0 < height && |was| == |now| == 2 * (height * width + width)
    requires moved == Moved(was, 0, 2 * width, 2 * (height * width))
    requires |sheet| == top * width + height * width
    requires forall k | 0 <= k < height * width :: CellAt(was, k) == CellOf(sheet, top * width + k, attr)
    requires forall k | 0 <= k < height * width :: CellAt(now, k)
                == if (height - 1) * width <= k < (height - 1) * width + width then Cell(SPACE, attr)
                   else CellAt(moved, k)
    ensures forall k | 0 <= k < height * width :: CellAt(now, k) == CellOf(sheet, (top + 1) * width + k, attr)
  {
    hide Moved, CellAt;
    Distribute(height - 1, 1, width);
    Distribute(top, 1, width);
    forall k | 0 <= k < height * width ensures CellAt(now, k) == CellOf(sheet, (top + 1) * width + k, attr) {
      MovedCell(was, 0, width, height * width, k);
    }
  }
}
