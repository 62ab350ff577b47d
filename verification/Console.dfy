/**
 The scrolling text console over its 4000 bytes of video memory: after any text,
 the screen is the visible part of the text's transcript.
 */
module Consoles {
  import opened Bytes
  import opened Transcripts

  /** Where the hardware cursor is parked while hidden. */
  const PARKED: nat := 0xFF * 80 + 0xFF

  ghost function Cells(buffer: seq<Byte>): seq<Entry>
    requires |buffer| == 4000
  {
    seq(2000, (i: nat) requires i < 2000 => Entry(buffer[2 * i], buffer[2 * i + 1]))
  }

  function Written(buffer: seq<Byte>, i: nat, e: Entry): (r: seq<Byte>)
    requires |buffer| == 4000 && i < 2000
    ensures |r| == 4000
  {
    buffer[..2 * i] + [e.low, e.high] + buffer[2 * i + 2..]
  }

  lemma CellWritten(buffer: seq<Byte>, i: nat, e: Entry)
    requires |buffer| == 4000 && i < 2000
    ensures Cells(Written(buffer, i, e)) == Cells(buffer)[i := e]
  {
  }

  /** Moving whole rows of bytes moves whole rows of cells. */
  lemma RowsMoved(buffer: seq<Byte>, lines: nat)
    requires |buffer| == 4000 && lines <= 25
    ensures Cells(Moved(buffer, 0, 2 * (80 * lines), 2 * (80 * (25 - lines))))
            == Cells(buffer)[80 * lines..] + Cells(buffer)[80 * (25 - lines)..]
  {
    var moved := Moved(buffer, 0, 2 * (80 * lines), 2 * (80 * (25 - lines)));
    forall i | 0 <= i < 2000
      ensures Cells(moved)[i] == (Cells(buffer)[80 * lines..] + Cells(buffer)[80 * (25 - lines)..])[i]
    {
    }
  }

  class VgaTextConsole {
    const buffer: array<Byte>
    var row: nat
    var column: nat
    var color: Byte
    var cursorIsVisible: bool
    /** The cursor position held by the display. */
    var cursor: nat

    ghost predicate Valid()
      reads this
    {
      && buffer.Length == 4000 && row < 25 && column < 80
      && cursor == if cursorIsVisible then row * 80 + column else PARKED
    }

    /** The console shows `text`, written since it was cleared. */
    ghost predicate Shows(text: seq<Byte>)
      reads this, buffer
    {
      Valid() && ShowsRows(Transcript(text))
    }

    ghost predicate ShowsRows(rows: seq<Row>)
      requires |rows| > 0
      reads this, buffer
    {
      && buffer.Length == 4000 && Cells(buffer[..]) == Screen(rows, color)
      && row == |rows| - 1 - Top(rows) && column == |Last(rows)| < 80
    }

    constructor (memory: array<Byte>)
      requires memory.Length == 4000
      modifies memory
      ensures buffer == memory && color == 7 && !cursorIsVisible && Shows([])
    {
      buffer, color, cursorIsVisible, row, column, cursor := memory, 7, false, 0, 0, PARKED;
      new;
      Clear();
    }

    method MoveTo(r: nat, c: nat)
      modifies `row, `column, `cursor
      ensures row == r && column == c
      ensures cursor == if cursorIsVisible then (r * 80 + c) % 0x10000 else old(cursor)
    {
      if cursorIsVisible {
        cursor := (r * 80 + c) % 0x10000;
      }
      row, column := r, c;
    }

    method SetCursorVisible(visible: bool)
      requires Valid()
      modifies `cursorIsVisible, `cursor
      ensures Valid() && cursorIsVisible == visible
      ensures cursor == if visible then row * 80 + column else 0xFF * 80 + 0xFF
    {
      cursorIsVisible := visible;
      cursor := if visible then row * 80 + column else PARKED;
    }

    method PutCharAt(c: Byte, r: nat, col: nat)
      requires buffer.Length == 4000 && r < 25 && col < 80
      modifies buffer
      ensures Cells(buffer[..]) == old(Cells(buffer[..]))[r * 80 + col := MakeEntry(c, color)]
    {
      var index := r * 80 + col;
      ghost var before := buffer[..];
      var entry := MakeEntry(c, color);
      buffer[2 * index] := entry.low;
      buffer[2 * index + 1] := entry.high;
      CellWritten(before, index, entry);
      assert buffer[..] == Written(before, index, entry);
    }

    /** Blanks rows `from` to the last. */
    method BlankRows(from: nat)
      requires buffer.Length == 4000 && from <= 25
      modifies buffer
      ensures Cells(buffer[..]) == old(Cells(buffer[..]))[..80 * from] + Blanks(80 * (25 - from), color)
    {
      ghost var before := Cells(buffer[..]);
      for y := from to 25
        invariant Cells(buffer[..]) == before[..80 * from] + Blanks(80 * (y - from), color) + before[80 * y..]
      {
        for x := 0 to 80
          invariant Cells(buffer[..]) == before[..80 * from] + Blanks(80 * (y - from) + x, color) + before[80 * y + x..]
        {
          PutCharAt(BLANK, y, x);
        }
      }
    }

    method Clear()
      requires buffer.Length == 4000 && (!cursorIsVisible ==> cursor == PARKED)
      modifies `row, `column, `cursor, buffer
      ensures Shows([])
    {
      BlankRows(0);
      MoveTo(0, 0);
      ScreenBlank(color);
    }

    /** Moves the screen up and blanks the rows at the bottom; the cursor stays. */
    method Scroll(lines: nat)
      requires buffer.Length == 4000 && lines <= 25
      modifies buffer, `row
      ensures row == old(row)
      ensures Cells(buffer[..]) == old(Cells(buffer[..]))[80 * lines..] + Blanks(80 * lines, color)
    {
      if lines > 0 {
        var oldRow := row;
        ghost var before := buffer[..];
        MemMove(buffer, 0, 2 * (80 * lines), 2 * (80 * (25 - lines)));
        RowsMoved(before, lines);
        row := 25 - lines;
        BlankRows(row);
        row := oldRow;
      }
    }

    /** To the start of the next row, scrolling when there is none. */
    method NextRow(ghost rows: seq<Row>)
      requires buffer.Length == 4000 && |rows| > 0 && row == |rows| - 1 - Top(rows)
      requires Cells(buffer[..]) == Screen(rows, color)
      modifies `row, `column, `cursor, buffer
      ensures ShowsRows(rows + [[]])
      ensures !cursorIsVisible ==> cursor == old(cursor)
    {
      ScreenNewRow(rows, color);
      column := 0;
      row := row + 1;
      if row == 25 {
        Scroll(1);
        MoveTo(24, 0);
      }
    }

    /** A character other than a newline, at the cursor. */
    method PutVisible(c: Byte, ghost rows: seq<Row>)
      requires |rows| > 0 && ShowsRows(rows)
      modifies `row, `column, `cursor, buffer
      ensures ShowsRows(if |Last(rows)| == 79 then Extend(rows, c) + [[]] else Extend(rows, c))
      ensures !cursorIsVisible ==> cursor == old(cursor)
    {
      PutCharAt(c, row, column);
      ScreenExtend(rows, c, color);
      column := column + 1;
      if column == 80 {
        NextRow(Extend(rows, c));
      }
    }

    method PutChar(c: Byte, ghost text: seq<Byte>)
      requires Shows(text)
      modifies `row, `column, `cursor, buffer
      ensures Shows(text + [c])
    {
      ghost var rows := Transcript(text);
      TranscriptStep(text, c);
      if c == NEWLINE {
        NextRow(rows);
      } else {
        PutVisible(c, rows);
      }
      MoveTo(row, column);
    }

    /** Hides the cursor, writes, and shows the cursor again if it was visible. */
    method WriteString(data: seq<Byte>, ghost text: seq<Byte>)
      requires Shows(text)
      modifies this, buffer
      ensures Shows(text + data)
      ensures color == old(color) && cursorIsVisible == old(cursorIsVisible)
    {
      var moveCursor := cursorIsVisible;
      if moveCursor {
        SetCursorVisible(false);
      }
      assert text + data[..0] == text;
      for i := 0 to |data|
        invariant Shows(text + data[..i])
        invariant color == old(color) && cursorIsVisible == (old(cursorIsVisible) && !moveCursor)
      {
        PutChar(data[i], text + data[..i]);
        assert text + data[..i] + [data[i]] == text + data[..i + 1];
      }
      assert text + data[..|data|] == text + data;
      if moveCursor {
        SetCursorVisible(true);
      }
    }
  }
}
