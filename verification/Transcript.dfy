/**
 What a console of 25 rows of 80 columns must show: the last 25 rows of the text
 laid out on an unbounded page. A line is cut into rows of 80 characters, and a
 full row is followed by a new, possibly empty one.
 */
module Transcripts {
  import opened Bytes

  const BLANK: Byte := 32
  const NEWLINE: Byte := 10

  type Row = seq<Byte>

  /** The text split at newlines. */
  function Lines(text: seq<Byte>): (lines: seq<Row>)
    ensures |lines| > 0
  {
    LinesAfter([], text)
  }

  /** The lines of `text`, the first of which has already begun with `line`. */
  function LinesAfter(line: Row, text: seq<Byte>): (lines: seq<Row>)
    ensures |lines| > 0
    decreases |text|
  {
    if text == [] then [line]
    else if text[0] == NEWLINE then [line] + LinesAfter([], text[1..])
    else LinesAfter(line + [text[0]], text[1..])
  }

  /** A line cut into full rows and a last one with room left. */
  function Cut(line: Row): (rows: seq<Row>)
    ensures |rows| > 0 && |rows[|rows| - 1]| < 80
    decreases |line|
  {
    if |line| < 80 then [line] else [line[..80]] + Cut(line[80..])
  }

  function CutAll(lines: seq<Row>): seq<Row> {
    if lines == [] then [] else CutAll(lines[..|lines| - 1]) + Cut(lines[|lines| - 1])
  }

  /** The whole text on an unbounded page. */
  function Transcript(text: seq<Byte>): (rows: seq<Row>)
    ensures |rows| > 0 && |rows[|rows| - 1]| < 80
  {
    CutAll(Lines(text))
  }

  function Last(rows: seq<Row>): Row
    requires |rows| > 0
  {
    rows[|rows| - 1]
  }

  /** The page with one more character on its last row. */
  function Extend(rows: seq<Row>, c: Byte): (r: seq<Row>)
    requires |rows| > 0
    ensures |r| == |rows| && Last(r) == Last(rows) + [c]
  {
    rows[..|rows| - 1] + [Last(rows) + [c]]
  }

  lemma {:induction false} LinesStep(line: Row, text: seq<Byte>, c: Byte)
    ensures LinesAfter(line, text + [c])
            == if c == NEWLINE then LinesAfter(line, text) + [[]] else Extend(LinesAfter(line, text), c)
    decreases |text|
  {
    if text == [] {
      assert text + [c] == [c] && [c][1..] == [];
    } else {
      var line', rest := if text[0] == NEWLINE then [] else line + [text[0]], text[1..];
      assert (text + [c])[1..] == rest + [c];
      LinesStep(line', rest, c);
    }
  }

  lemma {:induction false} CutStep(line: Row, c: Byte)
    ensures Cut(line + [c]) == if |Last(Cut(line))| == 79 then Extend(Cut(line), c) + [[]] else Extend(Cut(line), c)
    decreases |line|
  {
    if |line| >= 80 {
      assert (line + [c])[..80] == line[..80] && (line + [c])[80..] == line[80..] + [c];
      CutStep(line[80..], c);
    } else if |line| == 79 {
      assert (line + [c])[..80] == line + [c] && (line + [c])[80..] == [];
    }
  }

  lemma CutAllStep(lines: seq<Row>, line: Row)
    ensures CutAll(lines + [line]) == CutAll(lines) + Cut(line)
  {
    assert (lines + [line])[..|lines|] == lines;
  }

  /** A newline starts a row; any other character extends the last row, and fills it at column 80. */
  lemma TranscriptStep(text: seq<Byte>, c: Byte)
    ensures c == NEWLINE ==> Transcript(text + [c]) == Transcript(text) + [[]]
    ensures c != NEWLINE ==> Transcript(text + [c])
                             == if |Last(Transcript(text))| == 79 then Extend(Transcript(text), c) + [[]]
                                else Extend(Transcript(text), c)
  {
    LinesStep([], text, c);
    var lines := Lines(text);
    if c == NEWLINE {
      CutAllStep(lines, []);
    } else {
      var front, last := lines[..|lines| - 1], Last(lines);
      CutAllStep(front, last + [c]);
      CutStep(last, c);
    }
  }

  /** Nothing is lost on the page: its rows, a newline between lines, are the text. */
  lemma {:induction false} CutKeeps(line: Row)
    ensures Flat(Cut(line)) == line
    ensures forall i :: 0 <= i < |Cut(line)| - 1 ==> |Cut(line)[i]| == 80
    decreases |line|
  {
    if |line| >= 80 {
      CutKeeps(line[80..]);
      assert Cut(line)[1..] == Cut(line[80..]);
    }
  }

  function Flat(rows: seq<Row>): seq<Byte> {
    if rows == [] then [] else rows[0] + Flat(rows[1..])
  }

  function Join(lines: seq<Row>): seq<Byte>
    requires |lines| > 0
  {
    if |lines| == 1 then lines[0] else lines[0] + [NEWLINE] + Join(lines[1..])
  }

  lemma {:induction false} LinesKeep(line: Row, text: seq<Byte>)
    ensures Join(LinesAfter(line, text)) == line + text
    decreases |text|
  {
    if text != [] {
      var line' := if text[0] == NEWLINE then [] else line + [text[0]];
      var rest := LinesAfter(line', text[1..]);
      assert text == [text[0]] + text[1..];
      LinesKeep(line', text[1..]);
      if text[0] == NEWLINE {
        assert LinesAfter(line, text) == [line] + rest && ([line] + rest)[1..] == rest;
        assert line + [NEWLINE] + text[1..] == line + text;
      } else {
        assert line' + text[1..] == line + text;
      }
    }
  }

  lemma {:induction false} LinesAreLines(line: Row, text: seq<Byte>)
    requires NEWLINE !in line
    ensures forall l <- LinesAfter(line, text) :: NEWLINE !in l
    decreases |text|
  {
    if text != [] {
      LinesAreLines(if text[0] == NEWLINE then [] else line + [text[0]], text[1..]);
    }
  }

  // ----- The visible part -----

  /** A cell as stored: the character in the low byte and its attribute in the high byte. */
  datatype Entry = Entry(low: Byte, high: Byte)

  /** The high byte of a character widened to 16 bits: characters are signed. */
  function SignByte(c: Byte): Byte {
    if c < 0x80 then 0 else 0xFF
  }

  /** The widened character or-ed with the colour shifted into the high byte. */
  function MakeEntry(c: Byte, color: Byte): Entry {
    Entry(OrBytes(c, 0), OrBytes(SignByte(c), color))
  }

  /** The character is kept always, the colour exactly below 0x80: the sign swallows any other. */
  lemma ColourKept(c: Byte, color: Byte)
    ensures MakeEntry(c, color).low == c
    ensures MakeEntry(c, color).high == color <==> c < 0x80 || color == 0xFF
  {
    OrZero(c);
    OrZero(color);
    ByteWidth();
    OrOnes(color, 8);
  }

  /** The first row on the screen. */
  function Top(rows: seq<Row>): nat {
    if |rows| <= 25 then 0 else |rows| - 25
  }

  function CharAt(rows: seq<Row>, r: nat, x: nat): Byte {
    if r < |rows| && x < |rows[r]| then rows[r][x] else BLANK
  }

  /** The last 25 rows, padded with blanks. */
  function Screen(rows: seq<Row>, color: Byte): seq<Entry> {
    seq(2000, (i: nat) => MakeEntry(CharAt(rows, Top(rows) + i / 80, i % 80), color))
  }

  function Blanks(n: nat, color: Byte): seq<Entry> {
    seq(n, (i: nat) => MakeEntry(BLANK, color))
  }

  /** The cell after the last character. */
  function CursorCell(rows: seq<Row>): (i: nat)
    requires |rows| > 0 && |Last(rows)| < 80
    ensures i < 2000
  {
    (|rows| - 1 - Top(rows)) * 80 + |Last(rows)|
  }

  lemma ExtendedChar(rows: seq<Row>, c: Byte, i: nat)
    requires |rows| > 0 && |Last(rows)| < 80 && i < 2000
    ensures CharAt(Extend(rows, c), Top(rows) + i / 80, i % 80)
            == if i == CursorCell(rows) then c else CharAt(rows, Top(rows) + i / 80, i % 80)
  {
    var y, x := |rows| - 1 - Top(rows), |Last(rows)|;
    assert i == y * 80 + x <==> i / 80 == y && i % 80 == x;
  }

  lemma ScreenExtend(rows: seq<Row>, c: Byte, color: Byte)
    requires |rows| > 0 && |Last(rows)| < 80
    ensures Screen(Extend(rows, c), color) == Screen(rows, color)[CursorCell(rows) := MakeEntry(c, color)]
  {
    var after := Screen(rows, color)[CursorCell(rows) := MakeEntry(c, color)];
    forall i | 0 <= i < 2000
      ensures Screen(Extend(rows, c), color)[i] == after[i]
    {
      ExtendedChar(rows, c, i);
    }
  }

  lemma ScreenNewRow(rows: seq<Row>, color: Byte)
    ensures Screen(rows + [[]], color)
            == if |rows| < 25 then Screen(rows, color) else Screen(rows, color)[80..] + Blanks(80, color)
  {
    var rows' := rows + [[]];
    if |rows| >= 25 {
      forall i | 0 <= i < 2000
        ensures Screen(rows', color)[i] == (Screen(rows, color)[80..] + Blanks(80, color))[i]
      {
        if i < 1920 {
          assert (i + 80) / 80 == i / 80 + 1 && (i + 80) % 80 == i % 80;
        }
      }
    }
  }

  lemma ScreenBlank(color: Byte)
    ensures Screen(Transcript([]), color) == Blanks(2000, color)
  {
    NothingWritten();
    forall i | 0 <= i < 2000
      ensures Screen([[]], color)[i] == Blanks(2000, color)[i]
    {
      assert CharAt([[]], i / 80, i % 80) == BLANK;
    }
  }

  lemma NothingWritten()
    ensures Transcript([]) == [[]]
  {
    assert Lines([]) == [[]];
    assert CutAll([]) + Cut([]) == [[]];
  }
}
