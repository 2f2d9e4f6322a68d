/**
 * output: the text written for a board. Line `x` lists the cells of column `x` (y = 0..8), with a
 * space before y = 3 and y = 6, and an extra newline before lines 3 and 6.
 */
module Export {
  import opened Grid

  /**
   * The character written for a cell value, as the code is written: the walrus binds the comparison
   * `board[pos] != 0`, so `val` is the boolean True for every filled cell and the character is '1'.
   */
  function Glyph(v: int): (c: char)
    ensures c == '.' <==> v == 0
    ensures v != 0 ==> c == '1'
  {
    var val := if v != 0 then 1 else 0;
    if val != 0 then ('0' as int + val) as char else '.'
  }

  /** The character evidently intended: '.' for an empty cell, the digit itself otherwise. */
  function DigitGlyph(v: int): (c: char)
    requires 0 <= v <= 9
  {
    if v != 0 then ('0' as int + v) as char else '.'
  }

  /** The value read back from a character of the text: a digit 1..9 for itself, 0 for anything else. */
  function CellValue(c: char): (v: int)
    ensures 0 <= v <= 9
  {
    if '1' <= c <= '9' then c as int - '0' as int else 0
  }

  /** The glyphs of a board, by flat position. */
  function Glyphs(board: seq<int>): (cs: seq<char>)
    requires |board| == 81
    ensures |cs| == 81 && forall p :: 0 <= p < 81 ==> cs[p] == Glyph(board[p])
  {
    seq(81, p requires 0 <= p < 81 => Glyph(board[p]))
  }

  /** The digit glyphs of a board whose cells hold 0..9. */
  function DigitGlyphs(board: seq<int>): (cs: seq<char>)
    requires |board| == 81 && forall p :: 0 <= p < 81 ==> 0 <= board[p] <= 9
    ensures |cs| == 81 && forall p :: 0 <= p < 81 ==> cs[p] == DigitGlyph(board[p])
  {
    seq(81, p requires 0 <= p < 81 => DigitGlyph(board[p]))
  }

  /**
   * Line `x`: the cells of column `x` with a space after the third and the sixth, then the newline;
   * character `j` of the line is a space at 3 and 7, the newline at 11, and otherwise cell j - j / 4.
   */
  function Line(cs: seq<char>, x: int): (line: seq<char>)
    requires |cs| == 81 && 0 <= x < 9
    ensures |line| == 12
  {
    seq(12, j requires 0 <= j < 12 =>
      if j == 3 || j == 7 then ' ' else if j == 11 then '\n' else cs[Pos(x, j - j / 4)])
  }

  /** How many characters of a line are written once its first `y` cells are. */
  function LineWritten(y: int): (k: int)
    requires 0 <= y <= 9
    ensures 0 <= k <= 11
  {
    if y == 0 then 0 else y + (y - 1) / 3
  }

  /** The newline written before line `x`: before lines 3 and 6 only. */
  function GroupBreak(x: int): string
  {
    if x != 0 && x % 3 == 0 then "\n" else ""
  }

  /** The first `n` lines, each with the group newline written before it. */
  function TextPrefix(cs: seq<char>, n: int): seq<char>
    requires |cs| == 81 && 0 <= n <= 9
  {
    if n == 0 then [] else TextPrefix(cs, n - 1) + GroupBreak(n - 1) + Line(cs, n - 1)
  }

  /** The whole text for the glyphs `cs`. */
  function Layout(cs: seq<char>): seq<char>
    requires |cs| == 81
  {
    TextPrefix(cs, 9)
  }

  /** The text output writes, as the code is written. */
  function ExportText(board: seq<int>): seq<char>
    requires |board| == 81
  {
    Layout(Glyphs(board))
  }

  /** The text output evidently means to write. */
  function ExportDigits(board: seq<int>): seq<char>
    requires |board| == 81 && forall p :: 0 <= p < 81 ==> 0 <= board[p] <= 9
  {
    Layout(DigitGlyphs(board))
  }

  /** Where line `x` starts: 12 characters for each line before it, plus the group newlines. */
  function LineStart(x: int): (st: int)
    requires 0 <= x < 9
    ensures 12 * x <= st <= 12 * x + (if x < 3 then 0 else if x < 6 then 1 else 2)
  {
    if x == 0 then 0 else LineStart(x - 1) + 12 + |GroupBreak(x)|
  }

  /** Where the cell at column `x`, row `y` stands in the text: after the lines before it and the spaces. */
  function Offset(x: int, y: int): (i: int)
    requires InGrid(x, y)
    ensures 0 <= i < 110
  {
    LineStart(x) + y + y / 3
  }

  /** Reads a board back from a text of the layout's length. */
  function ReadBack(text: seq<char>): (board: seq<int>)
    requires |text| == 110
    ensures |board| == 81
  {
    seq(81, p requires 0 <= p < 81 => CellValue(text[Offset(p % 9, p / 9)]))
  }

  // ---------------------------------------------------------------------------------------------
  // The layout.

  /** Cell `y` of a line stands after `y` cells and the spaces before it. */
  lemma LineCell(cs: seq<char>, x: int, y: int)
    requires |cs| == 81 && InGrid(x, y)
    ensures Line(cs, x)[y + y / 3] == cs[Pos(x, y)]
  {
    if y < 3 {
    } else if y < 6 {
      assert y / 3 == 1;
    } else {
      assert y / 3 == 2;
    }
  }

  /** Writing cell `y` of a line, after its group space, extends what was written of the line. */
  lemma LineStep(cs: seq<char>, x: int, y: int)
    requires |cs| == 81 && InGrid(x, y)
    ensures Line(cs, x)[..LineWritten(y + 1)]
         == Line(cs, x)[..LineWritten(y)] + (if y != 0 && y % 3 == 0 then " " else "") + [cs[Pos(x, y)]]
  {
    var line := Line(cs, x);
    LineCell(cs, x, y);
    var k := LineWritten(y);
    if y != 0 && y % 3 == 0 {
      assert k == y + y / 3 - 1 && line[k] == ' ';
      assert line[..k + 2] == line[..k] + [line[k]] + [line[k + 1]];
    } else {
      assert k == y + y / 3;
      assert line[..k + 1] == line[..k] + [line[k]];
    }
  }

  /** A whole line is its first 11 characters and the newline. */
  lemma LineComplete(cs: seq<char>, x: int)
    requires |cs| == 81 && 0 <= x < 9
    ensures Line(cs, x)[..LineWritten(9)] + "\n" == Line(cs, x)
  {
  }

  lemma {:induction false} TextPrefixLength(cs: seq<char>, n: int)
    requires |cs| == 81 && 0 <= n <= 9
    ensures n < 9 ==> |TextPrefix(cs, n) + GroupBreak(n)| == LineStart(n)
    ensures 0 < n ==> |TextPrefix(cs, n)| == LineStart(n - 1) + 12
  {
    if n > 0 {
      TextPrefixLength(cs, n - 1);
    }
  }

  lemma {:induction false} TextPrefixGrows(cs: seq<char>, n: int, m: int)
    requires |cs| == 81 && 0 <= n <= m <= 9
    ensures TextPrefix(cs, n) <= TextPrefix(cs, m)
    decreases m
  {
    if n < m {
      TextPrefixGrows(cs, n, m - 1);
      assert TextPrefix(cs, m - 1) <= TextPrefix(cs, m);
    }
  }

  /** The layout is 110 characters long and begins with every text prefix. */
  lemma PrefixInLayout(cs: seq<char>, n: int, i: int)
    requires |cs| == 81 && 0 <= n <= 9 && 0 <= i < |TextPrefix(cs, n)|
    ensures TextPrefix(cs, n) <= Layout(cs) && |Layout(cs)| == 110
    ensures Layout(cs)[i] == TextPrefix(cs, n)[i]
  {
    TextPrefixGrows(cs, n, 9);
    TextPrefixLength(cs, 9);
  }

  /** Line `x` stands in the layout from LineStart(x) on. */
  lemma LineInLayout(cs: seq<char>, x: int, j: int)
    requires |cs| == 81 && 0 <= x < 9 && 0 <= j < 12
    ensures |Layout(cs)| == 110
    ensures Layout(cs)[LineStart(x) + j] == Line(cs, x)[j]
  {
    TextPrefixLength(cs, x);
    var before := TextPrefix(cs, x) + GroupBreak(x);
    assert TextPrefix(cs, x + 1) == before + Line(cs, x);
    PrefixInLayout(cs, x + 1, LineStart(x) + j);
  }

  /** The group newline before lines 3 and 6 stands just before the line. */
  lemma GroupBreakInLayout(cs: seq<char>, x: int)
    requires |cs| == 81 && 0 <= x < 9 && x != 0 && x % 3 == 0
    ensures |Layout(cs)| == 110
    ensures Layout(cs)[LineStart(x) - 1] == '\n'
  {
    TextPrefixLength(cs, x);
    var before := TextPrefix(cs, x) + GroupBreak(x);
    assert TextPrefix(cs, x + 1) == before + Line(cs, x);
    assert before[LineStart(x) - 1] == '\n';
    PrefixInLayout(cs, x + 1, LineStart(x) - 1);
  }

  /** The layout is 110 characters, with cell (x, y) at Offset(x, y). */
  lemma LayoutCells(cs: seq<char>)
    requires |cs| == 81
    ensures |Layout(cs)| == 110
    ensures forall x, y :: InGrid(x, y) ==> Layout(cs)[Offset(x, y)] == cs[Pos(x, y)]
  {
    TextPrefixLength(cs, 9);
    forall x, y | InGrid(x, y) ensures Layout(cs)[Offset(x, y)] == cs[Pos(x, y)] {
      LineInLayout(cs, x, y + y / 3);
      LineCell(cs, x, y);
    }
  }

  /**
   * The separators of the layout: a space after the third and sixth cell of each line, a newline
   * closing each line, and an extra newline before lines 3 and 6 (at characters 36 and 73).
   */
  lemma LayoutSeparators(cs: seq<char>)
    requires |cs| == 81
    ensures |Layout(cs)| == 110
    ensures forall x :: 0 <= x < 9 ==>
      Layout(cs)[LineStart(x) + 3] == ' ' && Layout(cs)[LineStart(x) + 7] == ' ' && Layout(cs)[LineStart(x) + 11] == '\n'
    ensures Layout(cs)[36] == '\n' && Layout(cs)[73] == '\n'
  {
    TextPrefixLength(cs, 9);
    forall x | 0 <= x < 9
      ensures Layout(cs)[LineStart(x) + 3] == ' ' && Layout(cs)[LineStart(x) + 7] == ' ' && Layout(cs)[LineStart(x) + 11] == '\n'
    {
      LineInLayout(cs, x, 3);
      LineInLayout(cs, x, 7);
      LineInLayout(cs, x, 11);
    }
    GroupBreakInLayout(cs, 3);
    GroupBreakInLayout(cs, 6);
  }

  // ---------------------------------------------------------------------------------------------
  // What the text says about the board.

  /** As written, every filled cell is written as '1', whatever digit it holds. */
  lemma ExportWritesOne(board: seq<int>, x: int, y: int)
    requires |board| == 81 && InGrid(x, y)
    ensures |ExportText(board)| == 110
    ensures ExportText(board)[Offset(x, y)] == (if board[Pos(x, y)] != 0 then '1' else '.')
  {
    LayoutCells(Glyphs(board));
  }

  /** As written, two boards that differ only in the digit of a filled cell give the same text. */
  lemma ExportForgetsDigits()
    ensures var b5 := seq(81, p => if p == 0 then 5 else 0);
            var b7 := seq(81, p => if p == 0 then 7 else 0);
            b5 != b7 && ExportText(b5) == ExportText(b7)
  {
    var b5 := seq(81, p => if p == 0 then 5 else 0);
    var b7 := seq(81, p => if p == 0 then 7 else 0);
    assert b5[0] != b7[0];
    assert Glyphs(b5) == Glyphs(b7);
  }

  /** As written, reading the text back recovers only which cells are filled. */
  lemma ExportReadsBackAsOnes(board: seq<int>)
    requires |board| == 81
    ensures |ExportText(board)| == 110
    ensures ReadBack(ExportText(board)) == seq(81, p requires 0 <= p < 81 => if board[p] != 0 then 1 else 0)
  {
    var cs := Glyphs(board);
    LayoutCells(cs);
    forall p | 0 <= p < 81
      ensures ReadBack(ExportText(board))[p] == (if board[p] != 0 then 1 else 0)
    {
      assert Pos(p % 9, p / 9) == p;
    }
  }

  /** With the digits written, the text reads back as the board it was written from. */
  lemma ExportDigitsRoundTrip(board: seq<int>)
    requires |board| == 81 && forall p :: 0 <= p < 81 ==> 0 <= board[p] <= 9
    ensures |ExportDigits(board)| == 110
    ensures ReadBack(ExportDigits(board)) == board
  {
    var cs := DigitGlyphs(board);
    LayoutCells(cs);
    forall p | 0 <= p < 81 ensures ReadBack(ExportDigits(board))[p] == board[p] {
      assert Pos(p % 9, p / 9) == p;
    }
  }
}
