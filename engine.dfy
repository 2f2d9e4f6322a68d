/**
 * The engine as the program runs it: the module-level board, flags and trackers become the fields of
 * one object, and setCell, clearCell, find, search, reset, clear and output become its methods, each
 * proved against the functions of Board, Deduce and Export.
 */
module Engine {
  import opened Grid
  import opened Board
  import opened Deduce
  import opened Export

  class Sudoku {
    /** The 81 cell values, 0 for an empty cell, indexed by Pos(x, y). */
    var board: seq<int>
    /** The flag of each cell: Reverse for the cells search placed. */
    var battrs: seq<Attr>
    /** The trackers: the digits not yet placed in each column, row and block. */
    var cols: seq<set<int>>
    var rows: seq<set<int>>
    var blks: seq<set<int>>
    /** The members of each 3x3 box, built once at start-up. */
    const boxes: seq<seq<(int, int)>>

    /** The fields as a value. */
    function Model(): State
      reads this
    {
      State(board, battrs, cols, rows, blks)
    }

    ghost predicate Valid()
      reads this
    {
      boxes == BoxTable() && Invariant(Model())
    }

    /** The module initialisers: an empty board, every flag Normal, every tracker full, the box table built. */
    constructor ()
      ensures Valid() && Model() == Initial()
    {
      board := seq(81, _ => 0);
      battrs := seq(81, _ => Normal);
      cols := seq(9, _ => Digits);
      rows := seq(9, _ => Digits);
      blks := seq(9, _ => Digits);
      var table := BuildBoxes();
      boxes := table;
      new;
      InitialInvariant();
    }

    /** setCell: place `v` with flag `attrs` when the cell is empty and `v` is a candidate; otherwise nothing. */
    method SetCell(x: int, y: int, v: int, attrs: Attr := Normal)
      requires Valid() && InGrid(x, y)
      modifies this
      ensures Valid() && Model() == Placed(old(Model()), x, y, v, attrs)
    {
      PlacedKeepsInvariant(Model(), x, y, v, attrs);
      var pos := Pos(x, y);
      if board[pos] != 0 {
        return;
      }
      if v !in Intersection(Model(), x, y) {
        return;
      }
      var b := BlockOf(x, y);
      cols := cols[x := cols[x] - {v}];
      rows := rows[y := rows[y] - {v}];
      blks := blks[b := blks[b] - {v}];
      board := board[pos := v];
      battrs := battrs[pos := attrs];
    }

    /** clearCell: give the cell's value back to its three trackers and empty the cell; nothing when it is empty. */
    method ClearCell(x: int, y: int)
      requires Valid() && InGrid(x, y)
      modifies this
      ensures Valid() && Model() == Cleared(old(Model()), x, y)
    {
      ClearedKeepsInvariant(Model(), x, y);
      var pos := Pos(x, y);
      var val := board[pos];
      if val == 0 {
        return;
      }
      var b := BlockOf(x, y);
      cols := cols[x := cols[x] + {val}];
      rows := rows[y := rows[y] + {val}];
      blks := blks[b := blks[b] + {val}];
      board := board[pos := 0];
      battrs := battrs[pos := Normal];
    }

    /**
     * find: the scan for a naked single (x outer, y inner), then the column, row and box scans for a
     * hidden single, then the sentinel.
     */
    method Find() returns (r: Hit)
      requires Valid()
      ensures r == FindSpec(Model())
    {
      ghost var m := Model();
      for k := 0 to 81
        invariant NakedFrom(m, 0) == NakedFrom(m, k)
      {
        var x, y := k / 9, k % 9;
        if board[Pos(x, y)] != 0 {
          continue;
        }
        var inter := Intersection(Model(), x, y);
        if |inter| == 1 {
          var v :| v in inter;
          assert Sole(inter) == v;
          return Hit(x, y, v);
        }
      }
      ghost var units := UnitEntries(m);
      for x := 0 to 9
        invariant HiddenFrom(units, 0) == HiddenFrom(units, x)
      {
        var cels := Entries(Model(), seq(9, y => (x, y)));
        assert cels == units[x];
        var found := FirstSingle(cels);
        if found.Some? {
          return found.value;
        }
      }
      for y := 0 to 9
        invariant HiddenFrom(units, 0) == HiddenFrom(units, 9 + y)
      {
        var cels := Entries(Model(), seq(9, x => (x, y)));
        assert cels == units[9 + y];
        var found := FirstSingle(cels);
        if found.Some? {
          return found.value;
        }
      }
      for b := 0 to 9
        invariant HiddenFrom(units, 0) == HiddenFrom(units, 18 + b)
      {
        var cels := Entries(Model(), boxes[b]);
        assert cels == units[18 + b];
        var found := FirstSingle(cels);
        if found.Some? {
          return found.value;
        }
      }
      return NotFound;
    }

    /**
     * search: place what find returns, flagged Reverse, until find returns the sentinel. It stops; the
     * cells filled before keep value and flag, the cells it fills are flagged Reverse, and at the end no
     * empty cell has a single candidate and no entry of any unit a diff with one member.
     */
    method Search()
      requires Valid()
      modifies this
      ensures Valid() && Model() == Propagated(old(Model()))
      ensures Grows(old(Model()), Model())
      ensures FindSpec(Model()) == NotFound
      ensures forall k :: 0 <= k < 81 ==> !NakedAt(Model(), k)
      ensures forall j :: 0 <= j < 27 ==> NoSingletonDiff(Model(), j)
    {
      var ret := Find();
      while ret != NotFound
        invariant Valid() && ret == FindSpec(Model()) && Grows(old(Model()), Model())
        invariant Propagated(Model()) == Propagated(old(Model()))
        decreases |Empties(board)|
      {
        ghost var before := Model();
        IntersectionInDigits(before, ret.x, ret.y);
        PlacedReverseGrows(old(Model()), before, ret.x, ret.y, ret.v);
        SetCell(ret.x, ret.y, ret.v, Reverse);
        FillShrinksEmpties(before.board, Pos(ret.x, ret.y), ret.v);
        ret := Find();
      }
      NotFoundIffNothingForced(Model());
    }

    /** reset: clear every cell flagged Reverse, in scan order. */
    method Reset()
      requires Valid()
      modifies this
      ensures Valid() && Model() == AfterReset(old(Model()))
    {
      for k := 0 to 81
        invariant Valid()
        invariant forall p :: 0 <= p < 81 ==>
          board[p] == (if ScanIndex(p) < k && old(battrs[p]) == Reverse then 0 else old(board[p]))
        invariant forall p :: 0 <= p < 81 ==>
          battrs[p] == (if ScanIndex(p) < k && old(battrs[p]) == Reverse then Normal else old(battrs[p]))
      {
        var x, y := k / 9, k % 9;
        assert ScanIndex(Pos(x, y)) == k;
        if battrs[Pos(x, y)] == Reverse {
          ClearCell(x, y);
        }
      }
      ghost var r := AfterReset(old(Model()));
      assert board == r.board && battrs == r.attrs;
      InvariantDeterminesTrackers(Model());
    }

    /** clear: clear every cell, in scan order; the engine is back in its initial state. */
    method Clear()
      requires Valid()
      modifies this
      ensures Valid() && Model() == Initial()
    {
      for k := 0 to 81
        invariant Valid()
        invariant forall p :: 0 <= p < 81 && ScanIndex(p) < k ==> board[p] == 0
      {
        var x, y := k / 9, k % 9;
        assert ScanIndex(Pos(x, y)) == k;
        ClearCell(x, y);
      }
      ZeroBoardIsInitial(Model());
    }

    /**
     * output: the text written for the board, line x holding column x, each line written by WriteLine;
     * as the code is written, a filled cell gives '1'.
     */
    method Output() returns (text: string)
      requires |board| == 81
      ensures text == ExportText(board)
    {
      text := [];
      for x := 0 to 9
        invariant text == TextPrefix(Glyphs(board), x)
      {
        if x != 0 && x % 3 == 0 {
          text := text + "\n";
        }
        var line := WriteLine(x);
        text := text + line;
      }
    }

    /** The inner loop of output: the cells of column `x`, a space before y = 3 and y = 6, then the newline. */
    method WriteLine(x: int) returns (line: string)
      requires |board| == 81 && 0 <= x < 9
      ensures line == Line(Glyphs(board), x)
    {
      ghost var cs := Glyphs(board);
      line := [];
      for y := 0 to 9
        invariant line == Line(cs, x)[..LineWritten(y)]
      {
        if y != 0 && y % 3 == 0 {
          line := line + " ";
        }
        var ch := '.';
        var val := if board[Pos(x, y)] != 0 then 1 else 0;
        if val != 0 {
          ch := ('0' as int + val) as char;
        }
        assert ch == cs[Pos(x, y)];
        LineStep(cs, x, y);
        line := line + [ch];
      }
      LineComplete(cs, x);
      line := line + "\n";
    }
  }
}
