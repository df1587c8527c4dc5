/**
The VGA text writer: a fixed screen of 25 rows of 80 characters that is shifted up in place,
against an unbounded log of wrapped lines.
*/
module Vga {
  const BUFFER_HEIGHT: nat := 25
  const BUFFER_WIDTH: nat := 80

  newtype byte = b: int | 0 <= b < 256

  const NEWLINE: byte := 0x0a
  const SPACE: byte := 0x20
  const REPLACEMENT: byte := 0xfe

  datatype ScreenChar = ScreenChar(ascii: byte, color: byte)

  type Row = seq<ScreenChar>

  /** What the screen shows, and where the next character goes in the last row. */
  datatype Screen = Screen(rows: seq<Row>, col: nat)

  ghost predicate ValidScreen(s: Screen) {
    && |s.rows| == BUFFER_HEIGHT && s.col <= BUFFER_WIDTH
    && forall r :: 0 <= r < |s.rows| ==> |s.rows[r]| == BUFFER_WIDTH
  }

  function Blank(color: byte): (row: Row)
    ensures |row| == BUFFER_WIDTH && forall c :: 0 <= c < BUFFER_WIDTH ==> row[c] == ScreenChar(SPACE, color)
  {
    seq(BUFFER_WIDTH, _ => ScreenChar(SPACE, color))
  }

  // ---------------------------------------------------------------- one byte at a time

  function NewLine(s: Screen, color: byte): Screen
    requires |s.rows| == BUFFER_HEIGHT
  {
    Screen(s.rows[1..] + [Blank(color)], 0)
  }

  function Put(s: Screen, x: ScreenChar): Screen
    requires ValidScreen(s) && s.col < BUFFER_WIDTH
  {
    var last := BUFFER_HEIGHT - 1;
    Screen(s.rows[last := s.rows[last][s.col := x]], s.col + 1)
  }

  function WriteByteTo(s: Screen, b: byte, color: byte): (s': Screen)
    requires ValidScreen(s)
    ensures ValidScreen(s')
  {
    if b == NEWLINE then NewLine(s, color)
    else Put(if s.col >= BUFFER_WIDTH then NewLine(s, color) else s, ScreenChar(b, color))
  }

  function WriteTextTo(s: Screen, text: seq<byte>, color: byte): (s': Screen)
    requires ValidScreen(s)
    ensures ValidScreen(s')
  {
    if text == [] then s
    else WriteByteTo(WriteTextTo(s, text[..|text| - 1], color), text[|text| - 1], color)
  }

  /** Bytes outside the printable range are shown as a block. */
  function Shown(b: byte): byte {
    if 0x20 <= b <= 0x7e || b == NEWLINE then b else REPLACEMENT
  }

  function ShownText(text: seq<byte>): seq<byte> {
    seq(|text|, i requires 0 <= i < |text| => Shown(text[i]))
  }

  /** Printable ASCII, from 32 to 126, and the newline, 10. */
  ghost predicate Printable(text: seq<byte>) {
    forall i :: 0 <= i < |text| ==> 32 <= text[i] <= 126 || text[i] == 10
  }

  /** A text of those bytes is shown as it is, and every byte of another one that is not among them
      as 254. */
  lemma ShownExact(text: seq<byte>)
    ensures ShownText(text) == text <==> forall i :: 0 <= i < |text| ==> Printable([text[i]]) || text[i] == 254
    ensures forall i :: 0 <= i < |text| && !Printable([text[i]]) ==> ShownText(text)[i] == 254
    ensures Printable(text) ==> ShownText(text) == text
  {
    forall i | 0 <= i < |text|
      ensures ShownText(text)[i] == if 32 <= text[i] <= 126 || text[i] == 10 then text[i] else 254
      ensures Printable([text[i]]) <==> 32 <= text[i] <= 126 || text[i] == 10
    {
      assert [text[i]][0] == text[i];
    }
  }

  // ---------------------------------------------------------------- the unbounded log

  /** The lines of a text: what stands between its newlines. */
  function Split(text: seq<byte>): (lines: seq<seq<byte>>)
    ensures 0 < |lines|
  {
    if text == [] then [[]]
    else if text[0] == NEWLINE then [[]] + Split(text[1..])
    else Prepend(text[0], Split(text[1..]))
  }

  /** One more byte in front of the first line. */
  function Prepend(b: byte, lines: seq<seq<byte>>): seq<seq<byte>>
    requires 0 < |lines|
  {
    [[b] + lines[0]] + lines[1..]
  }

  /** A line cut into pieces of at most 80 characters. A full piece is not followed by an empty
      one: wrapping waits for the next character. */
  function Chunks(cells: seq<ScreenChar>): (pieces: seq<seq<ScreenChar>>)
    ensures 0 < |pieces|
    ensures forall i :: 0 <= i < |pieces| ==> |pieces[i]| <= BUFFER_WIDTH
  {
    if |cells| <= BUFFER_WIDTH then [cells] else [cells[..BUFFER_WIDTH]] + Chunks(cells[BUFFER_WIDTH..])
  }

  function Cells(line: seq<byte>, color: byte): seq<ScreenChar> {
    seq(|line|, i requires 0 <= i < |line| => ScreenChar(line[i], color))
  }

  /** The pieces of all lines; the first line continues after `prefix`. */
  function Pieces(prefix: seq<ScreenChar>, lines: seq<seq<byte>>, color: byte): (pieces: seq<seq<ScreenChar>>)
    requires 0 < |lines|
    ensures 0 < |pieces|
    ensures forall i :: 0 <= i < |pieces| ==> |pieces[i]| <= BUFFER_WIDTH
    decreases |lines|
  {
    var first := Chunks(prefix + Cells(lines[0], color));
    if |lines| == 1 then first else first + Pieces([], lines[1..], color)
  }

  /** A piece at the start of a row, with what the row held behind it. */
  function Overlay(piece: seq<ScreenChar>, row: Row): (r: Row)
    requires |piece| <= |row|
  {
    piece + row[|piece|..]
  }

  /** The rows of the log: the first piece continues the row that was there, the others are on
      blank rows. */
  function Render(pieces: seq<seq<ScreenChar>>, row: Row, color: byte): (rows: seq<Row>)
    requires |row| == BUFFER_WIDTH && forall i :: 0 <= i < |pieces| ==> |pieces[i]| <= BUFFER_WIDTH
    ensures |rows| == |pieces|
  {
    seq(|pieces|, i requires 0 <= i < |pieces| => Overlay(pieces[i], if i == 0 then row else Blank(color)))
  }

  /** What the screen shows of the log: its last 25 rows. */
  function Tail(rows: seq<Row>): seq<Row>
    requires BUFFER_HEIGHT <= |rows|
  {
    rows[|rows| - BUFFER_HEIGHT..]
  }

  /** The screen that the log predicts. */
  function LogScreen(s: Screen, text: seq<byte>, color: byte): Screen
    requires ValidScreen(s)
  {
    var last := BUFFER_HEIGHT - 1;
    var pieces := Pieces(s.rows[last][..s.col], Split(text), color);
    Screen(Tail(s.rows[..last] + Render(pieces, s.rows[last], color)), |pieces[|pieces| - 1]|)
  }

  // ---------------------------------------------------------------- one more byte in the log

  /** One more character behind the last piece, on a new one if that is full. */
  function AddCell(pieces: seq<seq<ScreenChar>>, x: ScreenChar): seq<seq<ScreenChar>>
    requires 0 < |pieces|
  {
    var k := |pieces| - 1;
    if |pieces[k]| == BUFFER_WIDTH then pieces + [[x]] else pieces[k := pieces[k] + [x]]
  }

  lemma {:induction false} SplitNewline(text: seq<byte>)
    ensures Split(text + [NEWLINE]) == Split(text) + [[]]
  {
    if text == [] {
      assert Split([NEWLINE][1..]) == [[]];
    } else {
      assert (text + [NEWLINE])[1..] == text[1..] + [NEWLINE];
      SplitNewline(text[1..]);
    }
  }

  function AddByte(lines: seq<seq<byte>>, b: byte): seq<seq<byte>>
    requires 0 < |lines|
  {
    lines[..|lines| - 1] + [lines[|lines| - 1] + [b]]
  }

  lemma PrependAdd(a: byte, lines: seq<seq<byte>>, b: byte)
    requires 0 < |lines|
    ensures Prepend(a, AddByte(lines, b)) == AddByte(Prepend(a, lines), b)
  {
    if |lines| == 1 {
      assert [a] + (lines[0] + [b]) == [a] + lines[0] + [b];
    }
  }

  lemma {:induction false} SplitOther(text: seq<byte>, b: byte)
    requires b != NEWLINE
    ensures Split(text + [b]) == AddByte(Split(text), b)
  {
    if text == [] {
      assert text + [b] == [b] && [b][1..] == [];
      assert [b] + [] == [] + [b];
    } else {
      assert (text + [b])[1..] == text[1..] + [b];
      SplitOther(text[1..], b);
      if text[0] == NEWLINE {
        assert [[]] + AddByte(Split(text[1..]), b) == AddByte([[]] + Split(text[1..]), b);
      } else {
        PrependAdd(text[0], Split(text[1..]), b);
      }
    }
  }

  lemma {:induction false} ChunksSnoc(cells: seq<ScreenChar>, x: ScreenChar)
    ensures Chunks(cells + [x]) == AddCell(Chunks(cells), x)
  {
    if BUFFER_WIDTH < |cells| {
      ChunksSnoc(cells[BUFFER_WIDTH..], x);
      assert (cells + [x])[..BUFFER_WIDTH] == cells[..BUFFER_WIDTH];
      assert (cells + [x])[BUFFER_WIDTH..] == cells[BUFFER_WIDTH..] + [x];
    } else if |cells| == BUFFER_WIDTH {
      assert (cells + [x])[..BUFFER_WIDTH] == cells;
      assert (cells + [x])[BUFFER_WIDTH..] == [x];
    }
  }

  lemma {:induction false} PiecesNewline(prefix: seq<ScreenChar>, lines: seq<seq<byte>>, color: byte)
    requires 0 < |lines|
    ensures Pieces(prefix, lines + [[]], color) == Pieces(prefix, lines, color) + [[]]
    decreases |lines|
  {
    assert (lines + [[]])[1..] == lines[1..] + [[]];
    if |lines| == 1 {
      assert [] + Cells([], color) == [];
      assert Pieces([], [[]], color) == [[]];
    } else {
      PiecesNewline([], lines[1..], color);
    }
  }

  lemma {:induction false} PiecesOther(prefix: seq<ScreenChar>, lines: seq<seq<byte>>, b: byte, color: byte)
    requires 0 < |lines|
    ensures Pieces(prefix, AddByte(lines, b), color) == AddCell(Pieces(prefix, lines, color), ScreenChar(b, color))
    decreases |lines|
  {
    if |lines| == 1 {
      assert prefix + Cells(lines[0] + [b], color) == prefix + Cells(lines[0], color) + [ScreenChar(b, color)];
      ChunksSnoc(prefix + Cells(lines[0], color), ScreenChar(b, color));
    } else {
      assert AddByte(lines, b)[1..] == AddByte(lines[1..], b);
      PiecesOther([], lines[1..], b, color);
    }
  }

  // ---------------------------------------------------------------- the screen is the tail of the log

  lemma TailNewLine(rows: seq<Row>, row: Row)
    requires BUFFER_HEIGHT <= |rows|
    ensures Tail(rows + [row]) == Tail(rows)[1..] + [row]
  {
  }

  lemma TailUpdate(rows: seq<Row>, row: Row)
    requires BUFFER_HEIGHT <= |rows|
    ensures Tail(rows[|rows| - 1 := row]) == Tail(rows)[BUFFER_HEIGHT - 1 := row]
  {
  }

  ghost predicate ValidPieces(pieces: seq<seq<ScreenChar>>) {
    0 < |pieces| && forall i :: 0 <= i < |pieces| ==> |pieces[i]| <= BUFFER_WIDTH
  }

  /** The screen for given pieces after the rows above the last one. */
  ghost function Show(above: seq<Row>, row: Row, pieces: seq<seq<ScreenChar>>, color: byte): Screen
    requires |above| == BUFFER_HEIGHT - 1 && |row| == BUFFER_WIDTH && ValidPieces(pieces)
  {
    Screen(Tail(above + Render(pieces, row, color)), |pieces[|pieces| - 1]|)
  }

  lemma ShowValid(above: seq<Row>, row: Row, pieces: seq<seq<ScreenChar>>, color: byte)
    requires |above| == BUFFER_HEIGHT - 1 && |row| == BUFFER_WIDTH && ValidPieces(pieces)
    requires forall r :: 0 <= r < |above| ==> |above[r]| == BUFFER_WIDTH
    ensures ValidScreen(Show(above, row, pieces, color))
  {
  }

  /** A new piece in the log is a new line on the screen. */
  lemma ShowNewPiece(above: seq<Row>, row: Row, pieces: seq<seq<ScreenChar>>, color: byte)
    requires |above| == BUFFER_HEIGHT - 1 && |row| == BUFFER_WIDTH && ValidPieces(pieces)
    ensures Show(above, row, pieces + [[]], color) == NewLine(Show(above, row, pieces, color), color)
  {
    var rows := above + Render(pieces, row, color);
    assert Overlay([], Blank(color)) == Blank(color);
    assert above + Render(pieces + [[]], row, color) == rows + [Blank(color)];
    TailNewLine(rows, Blank(color));
  }

  /** One more character in the last piece is one more character on the screen. */
  lemma ShowLongerPiece(above: seq<Row>, row: Row, pieces: seq<seq<ScreenChar>>, x: ScreenChar, color: byte)
    requires |above| == BUFFER_HEIGHT - 1 && |row| == BUFFER_WIDTH && ValidPieces(pieces)
    requires forall r :: 0 <= r < |above| ==> |above[r]| == BUFFER_WIDTH
    requires |pieces[|pieces| - 1]| < BUFFER_WIDTH
    ensures ValidScreen(Show(above, row, pieces, color))
    ensures var k := |pieces| - 1;
      Show(above, row, pieces[k := pieces[k] + [x]], color) == Put(Show(above, row, pieces, color), x)
  {
    ShowValid(above, row, pieces, color);
    var k := |pieces| - 1;
    var rows := above + Render(pieces, row, color);
    var base := if k == 0 then row else Blank(color);
    var longer := Overlay(pieces[k] + [x], base);
    assert longer == Overlay(pieces[k], base)[|pieces[k]| := x];
    assert above + Render(pieces[k := pieces[k] + [x]], row, color) == rows[|rows| - 1 := longer];
    TailUpdate(rows, longer);
  }

  /** A character behind a full piece wraps. */
  lemma ShowWrap(above: seq<Row>, row: Row, pieces: seq<seq<ScreenChar>>, x: ScreenChar, color: byte)
    requires |above| == BUFFER_HEIGHT - 1 && |row| == BUFFER_WIDTH && ValidPieces(pieces)
    requires forall r :: 0 <= r < |above| ==> |above[r]| == BUFFER_WIDTH
    ensures ValidScreen(Show(above, row, pieces, color))
    ensures ValidScreen(NewLine(Show(above, row, pieces, color), color))
    ensures Show(above, row, pieces + [[x]], color) == Put(NewLine(Show(above, row, pieces, color), color), x)
  {
    ShowValid(above, row, pieces, color);
    ShowNewPiece(above, row, pieces, color);
    ShowLongerPiece(above, row, pieces + [[]], x, color);
    assert [] + [x] == [x];
    assert (pieces + [[]])[|pieces| := [] + [x]] == pieces + [[x]];
  }

  /** One more byte, whatever it is. */
  lemma ShowByte(above: seq<Row>, row: Row, pieces: seq<seq<ScreenChar>>, b: byte, color: byte)
    requires |above| == BUFFER_HEIGHT - 1 && |row| == BUFFER_WIDTH && ValidPieces(pieces)
    requires forall r :: 0 <= r < |above| ==> |above[r]| == BUFFER_WIDTH
    ensures ValidScreen(Show(above, row, pieces, color))
    ensures b == NEWLINE ==>
      Show(above, row, pieces + [[]], color) == WriteByteTo(Show(above, row, pieces, color), b, color)
    ensures b != NEWLINE ==>
      Show(above, row, AddCell(pieces, ScreenChar(b, color)), color) ==
      WriteByteTo(Show(above, row, pieces, color), b, color)
  {
    ShowValid(above, row, pieces, color);
    if b == NEWLINE {
      ShowNewPiece(above, row, pieces, color);
    } else if |pieces[|pieces| - 1]| == BUFFER_WIDTH {
      ShowWrap(above, row, pieces, ScreenChar(b, color), color);
    } else {
      ShowLongerPiece(above, row, pieces, ScreenChar(b, color), color);
    }
  }

  lemma LogOfNothing(s: Screen, color: byte)
    requires ValidScreen(s)
    ensures LogScreen(s, [], color) == s
  {
    var last := BUFFER_HEIGHT - 1;
    var row, prefix := s.rows[last], s.rows[last][..s.col];
    assert prefix + Cells([], color) == prefix;
    assert Pieces(prefix, Split([]), color) == [prefix];
    assert Overlay(prefix, row) == row;
    assert s.rows[..last] + Render([prefix], row, color) == s.rows;
  }

  /** The law of the writer: for every starting screen and every text, the screen afterwards is
      the last 25 rows of the log, and the column is the length of its last piece. */
  lemma {:induction false} ScreenIsTailOfLog(s: Screen, text: seq<byte>, color: byte)
    requires ValidScreen(s)
    ensures WriteTextTo(s, text, color) == LogScreen(s, text, color)
    decreases |text|
  {
    var last := BUFFER_HEIGHT - 1;
    var above, row, prefix := s.rows[..last], s.rows[last], s.rows[last][..s.col];
    if text == [] {
      LogOfNothing(s, color);
    } else {
      var k := |text| - 1;
      var init, b := text[..k], text[k];
      assert text == init + [b];
      ScreenIsTailOfLog(s, init, color);
      var pieces := Pieces(prefix, Split(init), color);
      if b == NEWLINE {
        SplitNewline(init);
        PiecesNewline(prefix, Split(init), color);
      } else {
        SplitOther(init, b);
        PiecesOther(prefix, Split(init), b, color);
      }
      ShowByte(above, row, pieces, b, color);
      assert LogScreen(s, init, color) == Show(above, row, pieces, color);
    }
  }

  lemma UnprintableShown(s: Screen, text: seq<byte>, color: byte)
    requires ValidScreen(s) && |text| == 1 && !Printable(text) && s.col < 80
    ensures WriteTextTo(s, ShownText(text), color).rows[24][s.col] == ScreenChar(254, color)
  {
    ShownExact(text);
    assert [text[0]] == text;
    assert ShownText(text)[..0] == [];
    assert WriteTextTo(s, ShownText(text)[..0], color) == s;
  }

  // ---------------------------------------------------------------- the writer

  class Writer {
    var columnPosition: nat
    const colorCode: byte
    const buffer: array2<ScreenChar>
    // The contents of the buffer, row by row.
    ghost var rows: seq<Row>

    ghost predicate Shape()
      reads this
    {
      buffer.Length0 == BUFFER_HEIGHT && buffer.Length1 == BUFFER_WIDTH
    }

    ghost predicate Valid()
      reads this, buffer
    {
      && Shape() && ValidScreen(Screen(rows, columnPosition))
      && forall r, c :: 0 <= r < BUFFER_HEIGHT && 0 <= c < BUFFER_WIDTH ==> buffer[r, c] == rows[r][c]
    }

    /** A writer over the memory of the screen, whatever that shows. */
    constructor (buffer: array2<ScreenChar>, colorCode: byte)
      requires buffer.Length0 == 25 && buffer.Length1 == 80
      ensures Valid() && this.buffer == buffer && this.colorCode == colorCode && columnPosition == 0
    {
      this.buffer := buffer;
      this.colorCode := colorCode;
      columnPosition := 0;
      rows := seq(BUFFER_HEIGHT, r requires 0 <= r < BUFFER_HEIGHT reads buffer =>
        seq(BUFFER_WIDTH, c requires 0 <= c < BUFFER_WIDTH reads buffer => buffer[r, c]));
    }

    /** Overwrites a row with blanks. */
    method ClearRow(row: nat)
      requires Shape() && row < BUFFER_HEIGHT
      modifies buffer
      ensures forall c :: 0 <= c < BUFFER_WIDTH ==> buffer[row, c] == ScreenChar(32, colorCode)
      ensures forall r, c :: 0 <= r < BUFFER_HEIGHT && 0 <= c < BUFFER_WIDTH && r != row ==>
        buffer[r, c] == old(buffer[r, c])
    {
      var blank := ScreenChar(SPACE, colorCode);
      for col := 0 to BUFFER_WIDTH
        invariant forall c :: 0 <= c < col ==> buffer[row, c] == blank
        invariant forall r, c :: 0 <= r < BUFFER_HEIGHT && 0 <= c < BUFFER_WIDTH && r != row ==>
          buffer[r, c] == old(buffer[r, c])
      {
        buffer[row, col] := blank;
      }
    }

    /** Shifts all rows one up and clears the last one. */
    method NewLineInPlace()
      requires Valid()
      modifies this`columnPosition, this`rows, buffer
      ensures Valid() && Screen(rows, columnPosition) == NewLine(old(Screen(rows, columnPosition)), colorCode)
    {
      ghost var before := rows;
      for row := 1 to BUFFER_HEIGHT
        invariant rows == before
        invariant forall r, c :: 0 <= r < row - 1 && 0 <= c < BUFFER_WIDTH ==> buffer[r, c] == before[r + 1][c]
        invariant forall r, c :: row - 1 < r < BUFFER_HEIGHT && 0 <= c < BUFFER_WIDTH ==> buffer[r, c] == before[r][c]
      {
        for col := 0 to BUFFER_WIDTH
          invariant rows == before
          invariant forall r, c :: 0 <= r < row - 1 && 0 <= c < BUFFER_WIDTH ==> buffer[r, c] == before[r + 1][c]
          invariant forall c :: 0 <= c < col ==> buffer[row - 1, c] == before[row][c]
          invariant forall r, c :: row - 1 < r < BUFFER_HEIGHT && 0 <= c < BUFFER_WIDTH ==> buffer[r, c] == before[r][c]
        {
          buffer[row - 1, col] := buffer[row, col];
        }
      }
      ClearRow(BUFFER_HEIGHT - 1);
      columnPosition := 0;
      rows := rows[1..] + [Blank(colorCode)];
    }

    method WriteByte(b: byte)
      requires Valid()
      modifies this`columnPosition, this`rows, buffer
      ensures Valid() && Screen(rows, columnPosition) == WriteByteTo(old(Screen(rows, columnPosition)), b, colorCode)
    {
      if b == NEWLINE {
        NewLineInPlace();
      } else {
        if columnPosition >= BUFFER_WIDTH {
          NewLineInPlace();
        }
        var row, col := BUFFER_HEIGHT - 1, columnPosition;
        var x := ScreenChar(b, colorCode);
        buffer[row, col] := x;
        rows := rows[row := rows[row][col := x]];
        columnPosition := columnPosition + 1;
      }
    }

    /** Writes a text. The screen afterwards is the last 25 rows of the log: of the text itself if it
        is printable. An unprintable byte is shown as 254. */
    method WriteString(text: seq<byte>)
      requires Valid()
      modifies this`columnPosition, this`rows, buffer
      ensures Valid()
      ensures Screen(rows, columnPosition) == LogScreen(old(Screen(rows, columnPosition)), ShownText(text), colorCode)
      ensures Printable(text) ==>
        Screen(rows, columnPosition) == LogScreen(old(Screen(rows, columnPosition)), text, colorCode)
      ensures |text| == 1 && !Printable(text) && old(columnPosition) < 80 ==>
        buffer[24, old(columnPosition)] == ScreenChar(254, colorCode)
    {
      ghost var s := Screen(rows, columnPosition);
      for i := 0 to |text|
        invariant Valid()
        invariant Screen(rows, columnPosition) == WriteTextTo(s, ShownText(text[..i]), colorCode)
      {
        WriteByte(Shown(text[i]));
        assert ShownText(text[..i + 1])[..i] == ShownText(text[..i]);
      }
      assert text[..|text|] == text;
      ScreenIsTailOfLog(s, ShownText(text), colorCode);
      ShownExact(text);
      if |text| == 1 && !Printable(text) && s.col < 80 {
        UnprintableShown(s, text, colorCode);
      }
    }
  }
}
