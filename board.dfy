/**
 * The engine's state as a value (board, provenance flags and the 27 trackers), the invariant that
 * ties the trackers to the board, and empty, getIntersection, setCell, clearCell and reset as functions
 * of a state; clear is specified by the initial state it returns to.
 */
module Board {
  import opened Grid

  /** Provenance of a cell (battrs): Normal for user-placed or empty cells, Reverse for cells placed by search. */
  datatype Attr = Normal | Reverse

  /**
   * `board` holds 81 values (0 for empty) indexed by Pos; `attrs` is parallel to it; `cols`, `rows`
   * and `blks` hold 9 trackers each, the digits not yet placed in that unit.
   */
  datatype State = State(
    board: seq<int>,
    attrs: seq<Attr>,
    cols: seq<set<int>>,
    rows: seq<set<int>>,
    blks: seq<set<int>>)

  predicate Shaped(s: State) {
    |s.board| == 81 && |s.attrs| == 81 && |s.cols| == 9 && |s.rows| == 9 && |s.blks| == 9
  }

  /** The tracker of unit `u`. */
  function Tracker(s: State, u: Unit): set<int>
    requires Shaped(s) && IsUnit(u)
  {
    match u
    case Col(x) => s.cols[x]
    case Row(y) => s.rows[y]
    case Blk(b) => s.blks[b]
  }

  /** The values held by the cells of unit `u` (0 among them when the unit has an empty cell). */
  ghost function Values(board: seq<int>, u: Unit): set<int>
    requires |board| == 81
  {
    set p | 0 <= p < 81 && InUnit(p, u) :: board[p]
  }

  /** No unit holds a digit twice. */
  ghost predicate NoRepeats(board: seq<int>)
    requires |board| == 81
  {
    forall p, q :: 0 <= p < 81 && 0 <= q < 81 && p != q && SameUnit(p, q) && board[p] != 0 ==> board[p] != board[q]
  }

  /**
   * The state invariant: cells hold 0..9; a digit is in a unit's tracker iff it is a digit 1..9 that
   * no cell of the unit holds; no unit holds a digit twice; an empty cell is marked Normal.
   */
  ghost predicate Invariant(s: State) {
    && Shaped(s)
    && (forall p :: 0 <= p < 81 ==> 0 <= s.board[p] <= 9)
    && (forall u :: IsUnit(u) ==> Tracker(s, u) == Digits - Values(s.board, u))
    && NoRepeats(s.board)
    && (forall p :: 0 <= p < 81 && s.board[p] == 0 ==> s.attrs[p] == Normal)
  }

  /** The module initialisers: an empty board, every cell Normal, every tracker full. */
  function Initial(): (s: State)
    ensures Shaped(s)
    ensures forall p :: 0 <= p < 81 ==> s.board[p] == 0 && s.attrs[p] == Normal
    ensures forall u :: IsUnit(u) ==> Tracker(s, u) == Digits
  {
    State(seq(81, _ => 0), seq(81, _ => Normal), seq(9, _ => Digits), seq(9, _ => Digits), seq(9, _ => Digits))
  }

  /** empty: whether the cell holds no value, that is, whether it is one of the empty cells of the board. */
  predicate IsEmpty(s: State, x: int, y: int)
    requires Shaped(s) && InGrid(x, y)
    ensures IsEmpty(s, x, y) <==> Pos(x, y) in Empties(s.board)
  {
    s.board[Pos(x, y)] == 0
  }

  /** getIntersection: the digits present in every tracker the cell consults. */
  function Intersection(s: State, x: int, y: int): (r: set<int>)
    requires Shaped(s) && InGrid(x, y)
    ensures forall d :: d in r <==> forall u :: u in UnitsOf(x, y) ==> d in Tracker(s, u)
  {
    var b := BlockOf(x, y);
    assert UnitsOf(x, y) == [Col(x), Row(y), Blk(b)];
    assert Col(x) in UnitsOf(x, y) && Row(y) in UnitsOf(x, y) && Blk(b) in UnitsOf(x, y);
    s.cols[x] * s.rows[y] * s.blks[b]
  }

  /** Under the invariant an intersection holds digits 1..9 only. */
  lemma IntersectionInDigits(s: State, x: int, y: int)
    requires Invariant(s) && InGrid(x, y)
    ensures Intersection(s, x, y) <= Digits
  {
    assert Col(x) in UnitsOf(x, y);
    assert Tracker(s, Col(x)) == Digits - Values(s.board, Col(x));
  }

  /**
   * setCell: a no-op when the cell is occupied or `v` is not in its intersection; otherwise the cell
   * gets `v` and `a`, and `v` leaves the three trackers of the cell (where it is present).
   */
  function Placed(s: State, x: int, y: int, v: int, a: Attr): (t: State)
    requires Shaped(s) && InGrid(x, y)
    ensures Shaped(t)
    ensures !(IsEmpty(s, x, y) && v in Intersection(s, x, y)) ==> t == s
    ensures IsEmpty(s, x, y) && v in Intersection(s, x, y) ==>
      && t.board[Pos(x, y)] == v && t.attrs[Pos(x, y)] == a
      && forall u :: u in UnitsOf(x, y) ==> Tracker(t, u) == Tracker(s, u) - {v}
    ensures forall q :: 0 <= q < 81 && q != Pos(x, y) ==> t.board[q] == s.board[q] && t.attrs[q] == s.attrs[q]
    ensures forall u :: IsUnit(u) && !InUnit(Pos(x, y), u) ==> Tracker(t, u) == Tracker(s, u)
  {
    var p := Pos(x, y);
    if s.board[p] != 0 || v !in Intersection(s, x, y) then s
    else
      var b := BlockOf(x, y);
      State(s.board[p := v], s.attrs[p := a],
            s.cols[x := s.cols[x] - {v}], s.rows[y := s.rows[y] - {v}], s.blks[b := s.blks[b] - {v}])
  }

  /**
   * clearCell: a no-op on an empty cell; otherwise its value goes back into the three trackers of
   * the cell, the cell becomes 0 and its flag Normal.
   */
  function Cleared(s: State, x: int, y: int): (t: State)
    requires Shaped(s) && InGrid(x, y)
    ensures Shaped(t)
    ensures IsEmpty(t, x, y)
    ensures IsEmpty(s, x, y) ==> t == s
    ensures !IsEmpty(s, x, y) ==>
      && t.attrs[Pos(x, y)] == Normal
      && forall u :: u in UnitsOf(x, y) ==> Tracker(t, u) == Tracker(s, u) + {s.board[Pos(x, y)]}
    ensures forall q :: 0 <= q < 81 && q != Pos(x, y) ==> t.board[q] == s.board[q] && t.attrs[q] == s.attrs[q]
    ensures forall u :: IsUnit(u) && !InUnit(Pos(x, y), u) ==> Tracker(t, u) == Tracker(s, u)
  {
    var p := Pos(x, y);
    var val := s.board[p];
    if val == 0 then s
    else
      var b := BlockOf(x, y);
      State(s.board[p := 0], s.attrs[p := Normal],
            s.cols[x := s.cols[x] + {val}], s.rows[y := s.rows[y] + {val}], s.blks[b := s.blks[b] + {val}])
  }

  /** The state whose trackers are computed from `board`, as the invariant demands. */
  ghost function Rebuilt(board: seq<int>, attrs: seq<Attr>): (s: State)
    requires |board| == 81 && |attrs| == 81
    ensures Shaped(s) && s.board == board && s.attrs == attrs
    ensures forall u :: IsUnit(u) ==> Tracker(s, u) == Digits - Values(board, u)
  {
    State(board, attrs,
          seq(9, i => Digits - Values(board, Col(i))),
          seq(9, i => Digits - Values(board, Row(i))),
          seq(9, i => Digits - Values(board, Blk(i))))
  }

  /**
   * reset: every cell marked Reverse is cleared; the other cells keep their value and flag, so no
   * flag is Reverse afterwards, and each tracker is recomputed from its unit's values.
   */
  ghost function AfterReset(s: State): (t: State)
    requires Shaped(s)
    ensures Shaped(t)
    ensures forall p :: 0 <= p < 81 ==>
      && t.attrs[p] == Normal
      && t.board[p] == (if s.attrs[p] == Reverse then 0 else s.board[p])
    ensures forall u :: IsUnit(u) ==> Tracker(t, u) == Digits - Values(t.board, u)
  {
    Rebuilt(seq(81, p requires 0 <= p < 81 => if s.attrs[p] == Reverse then 0 else s.board[p]),
            seq(81, p requires 0 <= p < 81 => if s.attrs[p] == Reverse then Normal else s.attrs[p]))
  }

  /** What search may do to a state: filled cells keep value and flag, newly filled cells are marked Reverse. */
  ghost predicate Grows(s: State, t: State)
    requires Shaped(s) && Shaped(t)
  {
    forall p :: 0 <= p < 81 ==>
      (s.board[p] != 0 ==> t.board[p] == s.board[p] && t.attrs[p] == s.attrs[p]) &&
      (s.board[p] == 0 && t.board[p] != 0 ==> t.attrs[p] == Reverse)
  }

  /** The empty cells, whose number bounds how often search can still place a value. */
  ghost function Empties(board: seq<int>): set<int>
    requires |board| == 81
  {
    set p | 0 <= p < 81 && board[p] == 0
  }

  // ---------------------------------------------------------------------------------------------
  // Facts about the values of a unit under a one-cell update.

  lemma ValueInUnit(board: seq<int>, u: Unit, q: int)
    requires |board| == 81 && 0 <= q < 81 && InUnit(q, u)
    ensures board[q] in Values(board, u)
  {
  }

  lemma ValuesOutside(board: seq<int>, p: int, w: int, u: Unit)
    requires |board| == 81 && 0 <= p < 81 && !InUnit(p, u)
    ensures Values(board[p := w], u) == Values(board, u)
  {
    var b' := board[p := w];
    forall d | d in Values(b', u) ensures d in Values(board, u) {
      var q :| 0 <= q < 81 && InUnit(q, u) && b'[q] == d;
      ValueInUnit(board, u, q);
    }
    forall d | d in Values(board, u) ensures d in Values(b', u) {
      var q :| 0 <= q < 81 && InUnit(q, u) && board[q] == d;
      ValueInUnit(b', u, q);
    }
  }

  lemma ValuesFill(board: seq<int>, p: int, v: int, u: Unit)
    requires |board| == 81 && 0 <= p < 81 && InUnit(p, u) && board[p] == 0 && v != 0
    ensures Digits - Values(board[p := v], u) == (Digits - Values(board, u)) - {v}
  {
    var b' := board[p := v];
    forall d | d in Digits
      ensures d in Values(b', u) <==> d in Values(board, u) || d == v
    {
      if d in Values(b', u) {
        var q :| 0 <= q < 81 && InUnit(q, u) && b'[q] == d;
        if q != p {
          ValueInUnit(board, u, q);
        }
      }
      if d in Values(board, u) {
        var q :| 0 <= q < 81 && InUnit(q, u) && board[q] == d;
        ValueInUnit(b', u, q);
      }
      ValueInUnit(b', u, p);
    }
  }

  lemma ValuesEmpty(board: seq<int>, p: int, u: Unit)
    requires |board| == 81 && 0 <= p < 81 && InUnit(p, u) && board[p] in Digits
    requires forall q :: 0 <= q < 81 && q != p && InUnit(q, u) ==> board[q] != board[p]
    ensures Digits - Values(board[p := 0], u) == (Digits - Values(board, u)) + {board[p]}
  {
    var b' := board[p := 0];
    ValueInUnit(board, u, p);
    forall d | d in Digits
      ensures d in Values(b', u) <==> d in Values(board, u) && d != board[p]
    {
      if d in Values(b', u) {
        var q :| 0 <= q < 81 && InUnit(q, u) && b'[q] == d;
        ValueInUnit(board, u, q);
      }
      if d in Values(board, u) && d != board[p] {
        var q :| 0 <= q < 81 && InUnit(q, u) && board[q] == d;
        ValueInUnit(b', u, q);
      }
    }
  }

  // ---------------------------------------------------------------------------------------------
  // The invariant: established by the initialisers, kept by setCell and clearCell.

  /** The initial state satisfies the invariant. */
  lemma InitialInvariant()
    ensures Invariant(Initial())
  {
    var s := Initial();
    forall u | IsUnit(u) ensures Tracker(s, u) == Digits - Values(s.board, u) {
      forall d | d in Values(s.board, u) ensures d == 0 {
      }
    }
  }

  /** setCell keeps the invariant; in particular it never places a digit twice in a unit. */
  lemma {:induction false} PlacedKeepsInvariant(s: State, x: int, y: int, v: int, a: Attr)
    requires Invariant(s) && InGrid(x, y)
    ensures Invariant(Placed(s, x, y, v, a))
  {
    var p := Pos(x, y);
    if s.board[p] == 0 && v in Intersection(s, x, y) {
      var t := Placed(s, x, y, v, a);
      assert v in Digits by {
        assert Col(x) in UnitsOf(x, y);
      }
      forall u | IsUnit(u) ensures Tracker(t, u) == Digits - Values(t.board, u) {
        if InUnit(p, u) {
          assert u in UnitsOf(x, y);
          ValuesFill(s.board, p, v, u);
        } else {
          ValuesOutside(s.board, p, v, u);
        }
      }
      forall p1, q1 | 0 <= p1 < 81 && 0 <= q1 < 81 && p1 != q1 && SameUnit(p1, q1) && t.board[p1] != 0
        ensures t.board[p1] != t.board[q1]
      {
        if p1 == p || q1 == p {
          var other := if p1 == p then q1 else p1;
          var u := CommonUnit(p, other);
          assert u in UnitsOf(x, y);
          ValueInUnit(s.board, u, other);
        }
      }
    }
  }

  /** clearCell keeps the invariant: no repeats mean the cleared digit really leaves each of its units. */
  lemma {:induction false} ClearedKeepsInvariant(s: State, x: int, y: int)
    requires Invariant(s) && InGrid(x, y)
    ensures Invariant(Cleared(s, x, y))
  {
    var p := Pos(x, y);
    if s.board[p] != 0 {
      var t := Cleared(s, x, y);
      forall u | IsUnit(u) ensures Tracker(t, u) == Digits - Values(t.board, u) {
        ClearedUnit(s, x, y, u);
      }
      assert NoRepeats(t.board) by {
        EmptyingKeepsNoRepeats(s.board, p);
      }
    }
  }

  /** The cleared digit stood nowhere else in a unit of the cell, so it returns to that unit's tracker. */
  lemma ClearedUnit(s: State, x: int, y: int, u: Unit)
    requires Shaped(s) && InGrid(x, y) && IsUnit(u) && s.board[Pos(x, y)] in Digits
    requires Tracker(s, u) == Digits - Values(s.board, u) && NoRepeats(s.board)
    ensures Tracker(Cleared(s, x, y), u) == Digits - Values(Cleared(s, x, y).board, u)
  {
    var p := Pos(x, y);
    if InUnit(p, u) {
      forall q | 0 <= q < 81 && q != p && InUnit(q, u) ensures s.board[q] != s.board[p] {
        UnitMembersShareUnit(p, q, u);
      }
    }
    ClearedTracker(s, x, y, u);
  }

  lemma ClearedTracker(s: State, x: int, y: int, u: Unit)
    requires Shaped(s) && InGrid(x, y) && IsUnit(u) && s.board[Pos(x, y)] in Digits
    requires Tracker(s, u) == Digits - Values(s.board, u)
    requires InUnit(Pos(x, y), u) ==>
      forall q :: 0 <= q < 81 && q != Pos(x, y) && InUnit(q, u) ==> s.board[q] != s.board[Pos(x, y)]
    ensures Tracker(Cleared(s, x, y), u) == Digits - Values(Cleared(s, x, y).board, u)
  {
    var p, b := Pos(x, y), BlockOf(x, y);
    var val := s.board[p];
    var t := Cleared(s, x, y);
    assert t.board == s.board[p := 0];
    if InUnit(p, u) {
      assert Tracker(t, u) == Tracker(s, u) + {val} by {
        match u
        case Col(c) => assert c == x;
        case Row(r) => assert r == y;
        case Blk(k) => assert k == b;
      }
      ValuesEmpty(s.board, p, u);
    } else {
      assert Tracker(t, u) == Tracker(s, u) by {
        match u
        case Col(c) => assert c != x;
        case Row(r) => assert r != y;
        case Blk(k) => assert k != b;
      }
      ValuesOutside(s.board, p, 0, u);
    }
  }

  lemma EmptyingKeepsNoRepeats(board: seq<int>, p: int)
    requires |board| == 81 && 0 <= p < 81 && NoRepeats(board)
    ensures NoRepeats(board[p := 0])
  {
  }

  /** A trackers-consistent state is determined by its board and flags. */
  lemma InvariantDeterminesTrackers(s: State)
    requires Invariant(s)
    ensures s == Rebuilt(s.board, s.attrs)
  {
    var r := Rebuilt(s.board, s.attrs);
    forall i | 0 <= i < 9 ensures s.cols[i] == r.cols[i] && s.rows[i] == r.rows[i] && s.blks[i] == r.blks[i] {
      assert Tracker(s, Col(i)) == Digits - Values(s.board, Col(i));
      assert Tracker(s, Row(i)) == Digits - Values(s.board, Row(i));
      assert Tracker(s, Blk(i)) == Digits - Values(s.board, Blk(i));
    }
  }

  // ---------------------------------------------------------------------------------------------
  // What setCell and clearCell do.

  /**
   * The legality of a placement: on an empty cell, `d` is in the intersection exactly when `d` is a
   * digit 1..9 whose placement leaves no unit holding a digit twice.
   */
  lemma IntersectionIsLegal(s: State, x: int, y: int, d: int)
    requires Invariant(s) && InGrid(x, y) && IsEmpty(s, x, y)
    ensures d in Intersection(s, x, y) <==> d in Digits && NoRepeats(s.board[Pos(x, y) := d])
  {
    if d in Intersection(s, x, y) {
      CandidateIsLegal(s, x, y, d);
    }
    if d in Digits && NoRepeats(s.board[Pos(x, y) := d]) {
      CellTrackers(s, x, y);
      LegalIsCandidate(s, x, y, d);
    }
  }

  /** Under the invariant, each tracker the cell consults is the complement of its unit's values. */
  lemma CellTrackers(s: State, x: int, y: int)
    requires Invariant(s) && InGrid(x, y)
    ensures forall u :: u in UnitsOf(x, y) ==> Tracker(s, u) == Digits - Values(s.board, u)
  {
  }

  /** A candidate is a digit, and placing it repeats nothing (the invariant survives setCell). */
  lemma CandidateIsLegal(s: State, x: int, y: int, d: int)
    requires Invariant(s) && InGrid(x, y) && IsEmpty(s, x, y) && d in Intersection(s, x, y)
    ensures d in Digits && NoRepeats(s.board[Pos(x, y) := d])
  {
    PlacedKeepsInvariant(s, x, y, d, Normal);
    assert Placed(s, x, y, d, Normal).board == s.board[Pos(x, y) := d];
    IntersectionInDigits(s, x, y);
  }

  /** A digit whose placement repeats nothing is in every tracker of the cell. */
  lemma LegalIsCandidate(s: State, x: int, y: int, d: int)
    requires Shaped(s) && InGrid(x, y) && IsEmpty(s, x, y) && d in Digits
    requires forall u :: u in UnitsOf(x, y) ==> Tracker(s, u) == Digits - Values(s.board, u)
    requires NoRepeats(s.board[Pos(x, y) := d])
    ensures d in Intersection(s, x, y)
  {
    var p := Pos(x, y);
    var b' := s.board[p := d];
    forall u | u in UnitsOf(x, y) ensures d in Tracker(s, u) {
      forall q | 0 <= q < 81 && InUnit(q, u) ensures s.board[q] != d {
        if q != p {
          UnitMembersShareUnit(p, q, u);
          assert b'[p] == d && b'[q] == s.board[q];
        }
      }
    }
  }


  /** Clearing a cell just filled restores the whole state: board, flags and all 27 trackers. */
  lemma {:induction false} PlaceThenClear(s: State, x: int, y: int, v: int, a: Attr)
    requires Invariant(s) && InGrid(x, y) && IsEmpty(s, x, y)
    ensures Cleared(Placed(s, x, y, v, a), x, y) == s
  {
    var p := Pos(x, y);
    if v in Intersection(s, x, y) {
      var b := BlockOf(x, y);
      assert Col(x) in UnitsOf(x, y) && Row(y) in UnitsOf(x, y) && Blk(b) in UnitsOf(x, y);
      var m := Placed(s, x, y, v, a);
      assert m == State(s.board[p := v], s.attrs[p := a],
                        s.cols[x := s.cols[x] - {v}], s.rows[y := s.rows[y] - {v}], s.blks[b := s.blks[b] - {v}]);
      assert (s.cols[x] - {v}) + {v} == s.cols[x];
      assert (s.rows[y] - {v}) + {v} == s.rows[y];
      assert (s.blks[b] - {v}) + {v} == s.blks[b];
      var t := Cleared(m, x, y);
      assert t == State(m.board[p := 0], m.attrs[p := Normal],
                        m.cols[x := m.cols[x] + {v}], m.rows[y := m.rows[y] + {v}], m.blks[b := m.blks[b] + {v}]);
      assert t.board == s.board;
      assert t.attrs == s.attrs;
      assert t.cols == s.cols;
      assert t.rows == s.rows;
      assert t.blks == s.blks;
    }
  }

  /** Placing the old value (with its old flag) into a cell just cleared restores the whole state. */
  lemma {:induction false} ClearThenPlace(s: State, x: int, y: int)
    requires Invariant(s) && InGrid(x, y) && !IsEmpty(s, x, y)
    ensures Placed(Cleared(s, x, y), x, y, s.board[Pos(x, y)], s.attrs[Pos(x, y)]) == s
  {
    var p := Pos(x, y);
    var val := s.board[p];
    var b := BlockOf(x, y);
    var c := Cleared(s, x, y);
    ValueInUnit(s.board, Col(x), p);
    ValueInUnit(s.board, Row(y), p);
    ValueInUnit(s.board, Blk(b), p);
    assert Tracker(s, Col(x)) == Digits - Values(s.board, Col(x));
    assert Tracker(s, Row(y)) == Digits - Values(s.board, Row(y));
    assert Tracker(s, Blk(b)) == Digits - Values(s.board, Blk(b));
    assert val in Intersection(c, x, y);
    var t := Placed(c, x, y, val, s.attrs[p]);
    assert t.board == s.board;
    assert t.attrs == s.attrs;
    assert t.cols == s.cols;
    assert t.rows == s.rows;
    assert t.blks == s.blks;
  }

  /** A successful placement makes the cell non-empty, so the set of empty cells shrinks. */
  lemma FillShrinksEmpties(board: seq<int>, p: int, v: int)
    requires |board| == 81 && 0 <= p < 81 && board[p] == 0 && v != 0
    ensures |Empties(board[p := v])| < |Empties(board)|
  {
    assert Empties(board[p := v]) == Empties(board) - {p};
  }

  /**
   * empty is the guard of both updates: clearCell leaves the state alone exactly on an empty cell,
   * setCell leaves it alone on a filled one, and a setCell that succeeds removes exactly this cell
   * from the empty cells.
   */
  lemma EmptyGuardsUpdates(s: State, x: int, y: int, v: int, a: Attr)
    requires Invariant(s) && InGrid(x, y)
    ensures IsEmpty(s, x, y) <==> Cleared(s, x, y) == s
    ensures !IsEmpty(s, x, y) ==> Placed(s, x, y, v, a) == s
    ensures IsEmpty(s, x, y) && v in Intersection(s, x, y) ==>
      Empties(Placed(s, x, y, v, a).board) == Empties(s.board) - {Pos(x, y)}
  {
    if IsEmpty(s, x, y) && v in Intersection(s, x, y) {
      IntersectionInDigits(s, x, y);
      var t := Placed(s, x, y, v, a);
      assert t.board == s.board[Pos(x, y) := v];
    }
  }

  // ---------------------------------------------------------------------------------------------
  // search, reset and clear.

  /** Placing a value found by search into an empty cell grows the state. */
  lemma {:induction false} PlacedReverseGrows(s0: State, s: State, x: int, y: int, v: int)
    requires Shaped(s0) && Shaped(s) && InGrid(x, y) && Grows(s0, s)
    ensures Grows(s0, Placed(s, x, y, v, Reverse))
  {
  }

  /**
   * reset undoes search: resetting after search gives the state that resetting before search
   * would have given, because search only fills empty cells and marks them Reverse.
   */
  lemma {:induction false} ResetUndoesSearch(s: State, t: State)
    requires Invariant(s) && Invariant(t) && Grows(s, t)
    ensures AfterReset(t) == AfterReset(s)
  {
    var rs, rt := AfterReset(s), AfterReset(t);
    assert rt.board == rs.board;
    assert rt.attrs == rs.attrs;
  }

  /** After reset no cell is marked Reverse, and the state still satisfies the invariant. */
  lemma {:induction false} AfterResetInvariant(s: State)
    requires Invariant(s)
    ensures Invariant(AfterReset(s))
    ensures forall p :: 0 <= p < 81 ==> AfterReset(s).attrs[p] == Normal
  {
    var r := AfterReset(s);
    forall p, q | 0 <= p < 81 && 0 <= q < 81 && p != q && SameUnit(p, q) && r.board[p] != 0
      ensures r.board[p] != r.board[q]
    {
      assert r.board[p] == s.board[p];
    }
    forall u | IsUnit(u) ensures Tracker(r, u) == Digits - Values(r.board, u) {
      match u
      case Col(i) =>
      case Row(i) =>
      case Blk(i) =>
    }
  }

  /** A state without Reverse cells is unchanged by reset. */
  lemma {:induction false} ResetWithoutAutomatic(s: State)
    requires Invariant(s)
    requires forall p :: 0 <= p < 81 ==> s.attrs[p] == Normal
    ensures AfterReset(s) == s
  {
    var r := AfterReset(s);
    assert r.board == s.board;
    assert r.attrs == s.attrs;
    InvariantDeterminesTrackers(s);
  }

  /** clear: a state satisfying the invariant whose board is all zeros is the initial state. */
  lemma {:induction false} ZeroBoardIsInitial(s: State)
    requires Invariant(s)
    requires forall p :: 0 <= p < 81 ==> s.board[p] == 0
    ensures s == Initial()
  {
    InitialInvariant();
    assert s.board == Initial().board;
    assert s.attrs == Initial().attrs;
    InvariantDeterminesTrackers(s);
    InvariantDeterminesTrackers(Initial());
  }
}
