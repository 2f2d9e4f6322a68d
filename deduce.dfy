/**
 * find: the search for a forced cell, first as a specification over a state (naked singles in scan
 * order, then hidden singles unit by unit), then the loops of its `diff` helper and of one unit's scan.
 */
module Deduce {
  import opened Grid
  import opened Board

  datatype Option<T> = None | Some(value: T)

  /** A result of find: column, row and value. */
  datatype Hit = Hit(x: int, y: int, v: int)

  /** The tuple find returns when no cell is forced. */
  const NotFound: Hit := Hit(0, 0, 0)

  /** One element of a unit's `cels` list: an empty cell and its intersection. */
  datatype Entry = Entry(x: int, y: int, cands: set<int>)

  /** The member `pop` takes from a one-element set. */
  ghost function Sole(s: set<int>): (d: int)
    requires |s| == 1
    ensures s == {d}
  {
    HasMember(s);
    var d :| d in s;
    assert |s - {d}| == 0;
    d
  }

  lemma HasMember(s: set<int>)
    requires |s| > 0
    ensures exists d :: d in s
  {
    if forall d :: d !in s {
      assert false;
    }
  }

  // ---------------------------------------------------------------------------------------------
  // Naked singles.

  /** The cell visited at step `k` of the x-outer, y-inner scan is empty with exactly one candidate. */
  predicate NakedAt(s: State, k: int)
    requires Shaped(s) && 0 <= k < 81
  {
    IsEmpty(s, k / 9, k % 9) && |Intersection(s, k / 9, k % 9)| == 1
  }

  /** The first naked single at scan step `k` or later. */
  ghost function NakedFrom(s: State, k: int): Option<Hit>
    requires Shaped(s) && 0 <= k <= 81
    decreases 81 - k
  {
    if k == 81 then None
    else if NakedAt(s, k) then Some(Hit(k / 9, k % 9, Sole(Intersection(s, k / 9, k % 9))))
    else NakedFrom(s, k + 1)
  }

  // ---------------------------------------------------------------------------------------------
  // Hidden singles.

  /** The cells of unit `j` in the order find collects them: columns 0..8, rows 0..8, then the box table. */
  function UnitCells(j: int): (cells: seq<(int, int)>)
    requires 0 <= j < 27
    ensures |cells| == 9
    ensures forall c :: c in cells ==> InGrid(c.0, c.1)
  {
    if j < 9 then seq(9, y => (j, y))
    else if j < 18 then seq(9, x => (x, j - 9))
    else BoxTable()[j - 18]
  }

  /** The `cels` comprehension: the empty cells among `cells`, in order, each with its intersection. */
  function Entries(s: State, cells: seq<(int, int)>): (es: seq<Entry>)
    requires Shaped(s) && forall c :: c in cells ==> InGrid(c.0, c.1)
    ensures |es| <= |cells|
  {
    if cells == [] then []
    else
      var (x, y) := cells[0];
      (if IsEmpty(s, x, y) then [Entry(x, y, Intersection(s, x, y))] else []) + Entries(s, cells[1..])
  }

  /** The `cels` list holds exactly the empty cells of the unit, each with its intersection. */
  lemma {:induction false} EntriesFacts(s: State, cells: seq<(int, int)>)
    requires Shaped(s) && forall c :: c in cells ==> InGrid(c.0, c.1)
    ensures forall e :: e in Entries(s, cells) ==>
      (e.x, e.y) in cells && IsEmpty(s, e.x, e.y) && e.cands == Intersection(s, e.x, e.y)
    ensures forall c :: c in cells && IsEmpty(s, c.0, c.1) ==>
      exists e :: e in Entries(s, cells) && e.x == c.0 && e.y == c.1
  {
    if cells != [] {
      EntriesFacts(s, cells[1..]);
      var (x, y) := cells[0];
      var head: seq<Entry> := if IsEmpty(s, x, y) then [Entry(x, y, Intersection(s, x, y))] else [];
      assert Entries(s, cells) == head + Entries(s, cells[1..]);
      forall c | c in cells && IsEmpty(s, c.0, c.1)
        ensures exists e :: e in Entries(s, cells) && e.x == c.0 && e.y == c.1
      {
        if c == cells[0] {
          assert Entries(s, cells)[0] == Entry(x, y, Intersection(s, x, y));
        } else {
          assert c in cells[1..];
        }
      }
    }
  }

  /** No two entries of the list name the same cell. */
  ghost predicate DistinctCells(es: seq<Entry>) {
    forall i, k :: 0 <= i < k < |es| ==> (es[i].x, es[i].y) != (es[k].x, es[k].y)
  }

  /** Over a list of distinct cells, the `cels` list names each cell at most once. */
  lemma {:induction false} EntriesDistinct(s: State, cells: seq<(int, int)>)
    requires Shaped(s) && forall c :: c in cells ==> InGrid(c.0, c.1)
    requires forall i, k :: 0 <= i < k < |cells| ==> cells[i] != cells[k]
    ensures DistinctCells(Entries(s, cells))
  {
    if cells != [] {
      var tail := cells[1..];
      EntriesDistinct(s, tail);
      EntriesNameListedCells(s, tail);
      var (x, y) := cells[0];
      assert forall j :: 0 <= j < |tail| ==> tail[j] == cells[j + 1];
      assert (x, y) !in tail;
      var head: seq<Entry> := if IsEmpty(s, x, y) then [Entry(x, y, Intersection(s, x, y))] else [];
      assert Entries(s, cells) == head + Entries(s, tail);
      ConsDistinct(head, Entries(s, tail), tail, x, y);
    }
  }

  /** An entry for a cell missing from the rest, put before distinct entries, keeps them distinct. */
  lemma ConsDistinct(head: seq<Entry>, rest: seq<Entry>, tail: seq<(int, int)>, x: int, y: int)
    requires head == [] || head == [Entry(x, y, head[0].cands)]
    requires DistinctCells(rest)
    requires forall i :: 0 <= i < |rest| ==> (rest[i].x, rest[i].y) in tail
    requires (x, y) !in tail
    ensures DistinctCells(head + rest)
  {
    var es := head + rest;
    if head != [] {
      forall i, k | 0 <= i < k < |es| ensures (es[i].x, es[i].y) != (es[k].x, es[k].y) {
        assert es[k] == rest[k - 1];
        if i > 0 {
          assert es[i] == rest[i - 1];
        }
      }
    }
  }

  /** Each entry of a `cels` list names a cell of the list it was built from. */
  lemma EntriesNameListedCells(s: State, cells: seq<(int, int)>)
    requires Shaped(s) && forall c :: c in cells ==> InGrid(c.0, c.1)
    ensures forall i :: 0 <= i < |Entries(s, cells)| ==> (Entries(s, cells)[i].x, Entries(s, cells)[i].y) in cells
  {
    EntriesFacts(s, cells);
    var es := Entries(s, cells);
    forall i | 0 <= i < |es| ensures (es[i].x, es[i].y) in cells {
      assert es[i] in es;
    }
  }

  /** The cells of each unit are distinct: a column, a row and a box each list nine different cells. */
  lemma UnitCellsDistinct(j: int)
    requires 0 <= j < 27
    ensures forall i, k :: 0 <= i < k < 9 ==> UnitCells(j)[i] != UnitCells(j)[k]
  {
    if j >= 18 {
      forall i, k | 0 <= i < k < 9 ensures UnitCells(j)[i] != UnitCells(j)[k] {
        BoxTableIsTransposedBlocks(j - 18, i);
        BoxTableIsTransposedBlocks(j - 18, k);
      }
    }
  }

  /** Every unit's `cels` list names each empty cell of the unit once. */
  lemma UnitEntriesDistinct(s: State, j: int)
    requires Shaped(s) && 0 <= j < 27
    ensures DistinctCells(UnitEntries(s)[j])
  {
    UnitCellsDistinct(j);
    EntriesDistinct(s, UnitCells(j));
  }

  /** diff: the candidates of entry `i` that no other entry of the list has. */
  function Exclusive(es: seq<Entry>, i: int): (r: set<int>)
    requires 0 <= i < |es|
    ensures r <= es[i].cands
    ensures forall j :: 0 <= j < |es| && j != i ==> r !! es[j].cands
  {
    set d | d in es[i].cands && forall j :: 0 <= j < |es| && j != i ==> d !in es[j].cands
  }

  /** The first entry, from index `i` on, whose diff has exactly one member. */
  ghost function FirstHidden(es: seq<Entry>, i: int): Option<Hit>
    requires 0 <= i <= |es|
    decreases |es| - i
  {
    if i == |es| then None
    else if |Exclusive(es, i)| == 1 then Some(Hit(es[i].x, es[i].y, Sole(Exclusive(es, i))))
    else FirstHidden(es, i + 1)
  }

  /** The `cels` lists of the 27 units, in the order find tries them. */
  function UnitEntries(s: State): (units: seq<seq<Entry>>)
    requires Shaped(s)
    ensures |units| == 27
  {
    seq(27, j requires 0 <= j < 27 => Entries(s, UnitCells(j)))
  }

  /** The first entry with a one-member diff in unit `j` or a later one. */
  ghost function HiddenFrom(units: seq<seq<Entry>>, j: int): Option<Hit>
    requires 0 <= j <= |units|
    decreases |units| - j
  {
    if j == |units| then None
    else
      match FirstHidden(units[j], 0)
      case Some(h) => Some(h)
      case None => HiddenFrom(units, j + 1)
  }

  /** find: the first naked single, else the first hidden single, else the sentinel. */
  ghost function FindSpec(s: State): (r: Hit)
    requires Shaped(s)
    ensures r == NotFound || (InGrid(r.x, r.y) && IsEmpty(s, r.x, r.y) && r.v in Intersection(s, r.x, r.y))
  {
    NakedFromSound(s);
    HiddenFromSound(s);
    match NakedFrom(s, 0)
    case Some(h) => h
    case None =>
      match HiddenFrom(UnitEntries(s), 0)
      case Some(h) => h
      case None => NotFound
  }

  /** Unit `j` has no entry whose diff has exactly one member. */
  ghost predicate NoSingletonDiff(s: State, j: int)
    requires Shaped(s) && 0 <= j < 27
  {
    NoSingleIn(UnitEntries(s)[j])
  }

  /** No entry of the list has a diff with exactly one member. */
  ghost predicate NoSingleIn(es: seq<Entry>) {
    forall i :: 0 <= i < |es| ==> |Exclusive(es, i)| != 1
  }

  /** `h` comes from entry `i` of the list: the entry is cell (h.x, h.y) and its diff is exactly {h.v}. */
  ghost predicate SingletonAt(es: seq<Entry>, i: int, h: Hit) {
    && 0 <= i < |es|
    && es[i].x == h.x && es[i].y == h.y
    && Exclusive(es, i) == {h.v}
  }

  /** Entry `i` is the first of the list whose diff has one member, and that member is `h.v`. */
  ghost predicate FirstSingletonAt(es: seq<Entry>, i: int, h: Hit) {
    SingletonAt(es, i, h) && forall i' :: 0 <= i' < i ==> |Exclusive(es, i')| != 1
  }

  /**
   * `h` is a hidden single of unit `j`: an empty cell of the unit whose intersection holds `h.v`,
   * while no other empty cell of the unit has `h.v` in its intersection.
   */
  ghost predicate HiddenSingleAt(s: State, j: int, h: Hit)
    requires Shaped(s) && 0 <= j < 27
  {
    && (h.x, h.y) in UnitCells(j)
    && IsEmpty(s, h.x, h.y)
    && h.v in Intersection(s, h.x, h.y)
    && forall c :: c in UnitCells(j) && c != (h.x, h.y) && IsEmpty(s, c.0, c.1) ==> h.v !in Intersection(s, c.0, c.1)
  }

  /**
   * search as a function of the state: place what find returns, flagged Reverse, until find returns
   * the sentinel. Each placement fills an empty cell, so the recursion ends.
   */
  ghost function Propagated(s: State): (t: State)
    requires Invariant(s)
    ensures Invariant(t) && FindSpec(t) == NotFound
    decreases |Empties(s.board)|
  {
    var h := FindSpec(s);
    if h == NotFound then s
    else
      IntersectionInDigits(s, h.x, h.y);
      PlacedKeepsInvariant(s, h.x, h.y, h.v, Reverse);
      var next := Placed(s, h.x, h.y, h.v, Reverse);
      assert next.board == s.board[Pos(h.x, h.y) := h.v];
      FillShrinksEmpties(s.board, Pos(h.x, h.y), h.v);
      Propagated(next)
  }

  /** search only fills empty cells and flags them Reverse: the state it reaches grows the one it starts from. */
  lemma {:induction false} PropagatedGrows(s: State)
    requires Invariant(s)
    ensures Grows(s, Propagated(s))
    decreases |Empties(s.board)|
  {
    var h := FindSpec(s);
    if h != NotFound {
      IntersectionInDigits(s, h.x, h.y);
      PlacedKeepsInvariant(s, h.x, h.y, h.v, Reverse);
      var next := Placed(s, h.x, h.y, h.v, Reverse);
      assert next.board == s.board[Pos(h.x, h.y) := h.v];
      FillShrinksEmpties(s.board, Pos(h.x, h.y), h.v);
      PlacedReverseGrows(s, s, h.x, h.y, h.v);
      PropagatedGrows(next);
      GrowsTransitive(s, next, Propagated(next));
    }
  }

  /** A state grown from a grown state is grown from the first. */
  lemma GrowsTransitive(r: State, s: State, t: State)
    requires Shaped(r) && Shaped(s) && Shaped(t) && Grows(r, s) && Grows(s, t)
    ensures Grows(r, t)
  {
  }

  /** reset after search gives the state reset gives without search. */
  lemma SearchThenReset(s: State)
    requires Invariant(s)
    ensures AfterReset(Propagated(s)) == AfterReset(s)
  {
    PropagatedGrows(s);
    ResetUndoesSearch(s, Propagated(s));
  }

  // ---------------------------------------------------------------------------------------------
  // The loops of diff and of the scan of one unit.

  /** diff: copies the candidates of entry `i`, then removes those of every other entry in list order. */
  method Diff(i: int, cels: seq<Entry>) returns (s: set<int>)
    requires 0 <= i < |cels|
    ensures s == Exclusive(cels, i)
  {
    s := cels[i].cands;
    for j := 0 to |cels|
      invariant forall d :: d in s <==> d in cels[i].cands && forall j' :: 0 <= j' < j && j' != i ==> d !in cels[j'].cands
    {
      if j != i {
        s := s - cels[j].cands;
      }
    }
    assert forall d :: d in s <==> d in Exclusive(cels, i);
  }

  /** The scan of one unit's `cels`: the first entry, in list order, whose diff has one member. */
  method FirstSingle(cels: seq<Entry>) returns (r: Option<Hit>)
    ensures r == FirstHidden(cels, 0)
  {
    for i := 0 to |cels|
      invariant FirstHidden(cels, 0) == FirstHidden(cels, i)
    {
      var s := Diff(i, cels);
      if |s| == 1 {
        var v :| v in s;
        return Some(Hit(cels[i].x, cels[i].y, v));
      }
    }
    return None;
  }

  // ---------------------------------------------------------------------------------------------
  // What the scans find.

  lemma {:induction false} NakedFromFacts(s: State, k: int)
    requires Shaped(s) && 0 <= k <= 81
    ensures NakedFrom(s, k).None? ==> forall k' :: k <= k' < 81 ==> !NakedAt(s, k')
    ensures NakedFrom(s, k).Some? ==>
      var h := NakedFrom(s, k).value;
      && InGrid(h.x, h.y) && k <= Step(h.x, h.y)
      && IsEmpty(s, h.x, h.y) && Intersection(s, h.x, h.y) == {h.v}
      && forall k' :: k <= k' < Step(h.x, h.y) ==> !NakedAt(s, k')
    decreases 81 - k
  {
    if k < 81 && !NakedAt(s, k) {
      NakedFromFacts(s, k + 1);
    }
  }

  lemma {:induction false} FirstHiddenFacts(es: seq<Entry>, i: int)
    requires 0 <= i <= |es|
    ensures FirstHidden(es, i).None? ==> forall i' :: i <= i' < |es| ==> |Exclusive(es, i')| != 1
    ensures FirstHidden(es, i).Some? ==>
      exists i' :: i <= i' && SingletonAt(es, i', FirstHidden(es, i).value)
                   && forall i'' :: i <= i'' < i' ==> |Exclusive(es, i'')| != 1
    decreases |es| - i
  {
    if i < |es| {
      if |Exclusive(es, i)| == 1 {
        assert Exclusive(es, i) == {FirstHidden(es, i).value.v};
        assert SingletonAt(es, i, FirstHidden(es, i).value);
      } else {
        FirstHiddenFacts(es, i + 1);
      }
    }
  }

  lemma {:induction false} HiddenFromFacts(units: seq<seq<Entry>>, j: int)
    requires 0 <= j <= |units|
    ensures HiddenFrom(units, j).None? ==> forall j' :: j <= j' < |units| ==> FirstHidden(units[j'], 0).None?
    ensures HiddenFrom(units, j).Some? ==>
      exists j' :: j <= j' < |units| && FirstHidden(units[j'], 0) == HiddenFrom(units, j)
                   && forall j'' :: j <= j'' < j' ==> FirstHidden(units[j''], 0).None?
    decreases |units| - j
  {
    if j < |units| && FirstHidden(units[j], 0).None? {
      HiddenFromFacts(units, j + 1);
    }
  }

  /** A hidden single found in unit `j` satisfies HiddenSingleAt. */
  lemma {:induction false} FirstHiddenIsHiddenSingle(s: State, j: int)
    requires Shaped(s) && 0 <= j < 27
    requires FirstHidden(UnitEntries(s)[j], 0).Some?
    ensures HiddenSingleAt(s, j, FirstHidden(UnitEntries(s)[j], 0).value)
  {
    var es := UnitEntries(s)[j];
    assert es == Entries(s, UnitCells(j));
    var h := FirstHidden(es, 0).value;
    FirstHiddenFacts(es, 0);
    var i :| 0 <= i < |es| && es[i].x == h.x && es[i].y == h.y && Exclusive(es, i) == {h.v};
    ExclusiveIsHiddenSingle(s, UnitCells(j), i, h);
  }

  /** An entry whose diff is {v} names an empty cell of the list that alone among them can take v. */
  lemma ExclusiveIsHiddenSingle(s: State, cells: seq<(int, int)>, i: int, h: Hit)
    requires Shaped(s) && forall c :: c in cells ==> InGrid(c.0, c.1)
    requires 0 <= i < |Entries(s, cells)|
    requires Entries(s, cells)[i].x == h.x && Entries(s, cells)[i].y == h.y
    requires Exclusive(Entries(s, cells), i) == {h.v}
    ensures (h.x, h.y) in cells && InGrid(h.x, h.y) && IsEmpty(s, h.x, h.y) && h.v in Intersection(s, h.x, h.y)
    ensures forall c :: c in cells && c != (h.x, h.y) && IsEmpty(s, c.0, c.1) ==> h.v !in Intersection(s, c.0, c.1)
  {
    var es := Entries(s, cells);
    EntriesFacts(s, cells);
    assert es[i] in es;
    forall c | c in cells && c != (h.x, h.y) && IsEmpty(s, c.0, c.1)
      ensures h.v !in Intersection(s, c.0, c.1)
    {
      var e :| e in es && e.x == c.0 && e.y == c.1;
      var i2 :| 0 <= i2 < |es| && es[i2] == e;
      assert h.v in Exclusive(es, i);
    }
  }


  /** A naked single of find names an empty cell and the one value of its intersection. */
  lemma NakedFromSound(s: State)
    requires Shaped(s)
    ensures NakedFrom(s, 0).Some? ==>
      var h := NakedFrom(s, 0).value;
      InGrid(h.x, h.y) && IsEmpty(s, h.x, h.y) && h.v in Intersection(s, h.x, h.y)
  {
    NakedFromFacts(s, 0);
  }

  /** A hidden single of find names an empty cell and a value from its intersection. */
  lemma {:induction false} HiddenFromSound(s: State)
    requires Shaped(s)
    ensures HiddenFrom(UnitEntries(s), 0).Some? ==>
      var h := HiddenFrom(UnitEntries(s), 0).value;
      InGrid(h.x, h.y) && IsEmpty(s, h.x, h.y) && h.v in Intersection(s, h.x, h.y)
  {
    var units := UnitEntries(s);
    HiddenFromFacts(units, 0);
    if HiddenFrom(units, 0).Some? {
      var j :| 0 <= j < 27 && FirstHidden(units[j], 0) == HiddenFrom(units, 0);
      FirstHiddenIsHiddenSingle(s, j);
    }
  }

  /**
   * Naked singles come first: when some empty cell has a single candidate, find returns the first
   * such cell of the x-outer, y-inner scan, with that candidate.
   */
  lemma {:induction false} NakedSingleFirst(s: State, k: int)
    requires Shaped(s) && 0 <= k < 81 && NakedAt(s, k)
    ensures var h := FindSpec(s);
      && InGrid(h.x, h.y) && Step(h.x, h.y) <= k
      && IsEmpty(s, h.x, h.y) && Intersection(s, h.x, h.y) == {h.v}
      && forall k' :: 0 <= k' < Step(h.x, h.y) ==> !NakedAt(s, k')
  {
    NakedFromFacts(s, 0);
  }

  /** NakedFrom finds nothing exactly when no scan step is a naked single. */
  lemma {:induction false} NakedFromNone(s: State)
    requires Shaped(s)
    ensures NakedFrom(s, 0).None? <==> forall k :: 0 <= k < 81 ==> !NakedAt(s, k)
  {
    NakedFromFacts(s, 0);
    if NakedFrom(s, 0).Some? {
      var h := NakedFrom(s, 0).value;
      assert NakedAt(s, Step(h.x, h.y));
    }
  }

  /** HiddenFrom finds nothing exactly when no unit has an entry whose diff has one member. */
  lemma {:induction false} HiddenFromNone(s: State)
    requires Shaped(s)
    ensures HiddenFrom(UnitEntries(s), 0).None? <==> forall j :: 0 <= j < 27 ==> NoSingletonDiff(s, j)
  {
    var units := UnitEntries(s);
    HiddenFromNoneIn(units);
    assert forall j :: 0 <= j < 27 ==> (NoSingletonDiff(s, j) <==> NoSingleIn(units[j]));
  }

  /** No list of the sequence has an entry whose diff has one member exactly when the scan finds nothing. */
  lemma HiddenFromNoneIn(units: seq<seq<Entry>>)
    ensures HiddenFrom(units, 0).None? <==> forall j :: 0 <= j < |units| ==> NoSingleIn(units[j])
  {
    HiddenFromFacts(units, 0);
    if HiddenFrom(units, 0).Some? {
      var j :| 0 <= j < |units| && FirstHidden(units[j], 0) == HiddenFrom(units, 0);
      FirstHiddenFacts(units[j], 0);
    } else {
      forall j | 0 <= j < |units| ensures NoSingleIn(units[j]) {
        FirstHiddenFacts(units[j], 0);
      }
    }
  }


  /**
   * Without naked singles, a result of find is a hidden single of some unit `j`: it is entry `i` of
   * the unit's list, whose diff is exactly its value, no earlier entry of that list has a diff with
   * exactly one member, and no unit tried before `j` (columns, then rows, then boxes) has one.
   */
  lemma {:induction false} HiddenSingleFound(s: State)
    requires Shaped(s)
    requires forall k :: 0 <= k < 81 ==> !NakedAt(s, k)
    requires FindSpec(s) != NotFound
    ensures exists j, i :: && 0 <= j < 27
                           && HiddenSingleAt(s, j, FindSpec(s))
                           && FirstSingletonAt(UnitEntries(s)[j], i, FindSpec(s))
                           && forall j' :: 0 <= j' < j ==> NoSingletonDiff(s, j')
  {
    var units := UnitEntries(s);
    NakedFromNone(s);
    assert HiddenFrom(units, 0).Some? && FindSpec(s) == HiddenFrom(units, 0).value;
    HiddenFromFacts(units, 0);
    var j :| 0 <= j < 27 && FirstHidden(units[j], 0) == HiddenFrom(units, 0)
             && forall j'' :: 0 <= j'' < j ==> FirstHidden(units[j''], 0).None?;
    FirstHiddenIsHiddenSingle(s, j);
    FirstHiddenFacts(units[j], 0);
    var h := FindSpec(s);
    var i :| SingletonAt(units[j], i, h) && forall i' :: 0 <= i' < i ==> |Exclusive(units[j], i')| != 1;
    assert FirstSingletonAt(units[j], i, h);
    forall j' | 0 <= j' < j ensures NoSingleIn(units[j']) {
      FirstHiddenFacts(units[j'], 0);
    }
  }

  /**
   * The sentinel is unambiguous: on a state satisfying the invariant, find returns (0, 0, 0) exactly
   * when no empty cell has a single candidate and no entry of any unit has a diff with one member.
   */
  lemma {:induction false} NotFoundIffNothingForced(s: State)
    requires Invariant(s)
    ensures FindSpec(s) == NotFound <==>
      (forall k :: 0 <= k < 81 ==> !NakedAt(s, k)) && (forall j :: 0 <= j < 27 ==> NoSingletonDiff(s, j))
  {
    NakedFromNone(s);
    HiddenFromNone(s);
    forall i | 0 <= i < 9 ensures s.cols[i] <= Digits {
      assert Tracker(s, Col(i)) == Digits - Values(s.board, Col(i));
    }
    FoundIsNotSentinel(s);
  }

  /** When the column trackers hold digits only, a found value is a digit, so no real result is the sentinel. */
  lemma FoundIsNotSentinel(s: State)
    requires Shaped(s) && forall i :: 0 <= i < 9 ==> s.cols[i] <= Digits
    ensures FindSpec(s) == NotFound <==> NakedFrom(s, 0).None? && HiddenFrom(UnitEntries(s), 0).None?
  {
    if NakedFrom(s, 0).Some? {
      NakedFromSound(s);
      var h := NakedFrom(s, 0).value;
      assert h.v in s.cols[h.x];
    } else if HiddenFrom(UnitEntries(s), 0).Some? {
      HiddenFromSound(s);
      var h := HiddenFrom(UnitEntries(s), 0).value;
      assert h.v in s.cols[h.x];
    }
  }
}
