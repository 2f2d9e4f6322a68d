/** Cell addressing of the 9x9 board: flat positions, the 27 units and the box table. */
module Grid {

  /** The digits a cell may hold; the board stores 0 for an empty cell. */
  const Digits: set<int> := {1, 2, 3, 4, 5, 6, 7, 8, 9}

  /** A cell address: column `x` and row `y`, both in 0..8. */
  predicate InGrid(x: int, y: int) {
    0 <= x < 9 && 0 <= y < 9
  }

  /** loc2boardpos: the flat board index of column `x`, row `y`; the address can be read back from it. */
  function Pos(x: int, y: int): (p: int)
    requires InGrid(x, y)
    ensures 0 <= p < 81
    ensures p % 9 == x && p / 9 == y
  {
    x + y * 9
  }

  /** The block index loc2tracker picks: the block is the 3x3 square holding the cell. */
  function BlockOf(x: int, y: int): (b: int)
    requires InGrid(x, y)
    ensures 0 <= b < 9
    ensures 3 * (b % 3) <= x < 3 * (b % 3) + 3
    ensures 3 * (b / 3) <= y < 3 * (b / 3) + 3
  {
    x / 3 + (y / 3) * 3
  }

  /** The block of a flat position. */
  function BlockAt(p: int): int
    requires 0 <= p < 81
  {
    BlockOf(p % 9, p / 9)
  }

  /** One of the 27 units, each with its own tracker: a column, a row or a block. */
  datatype Unit = Col(x: int) | Row(y: int) | Blk(b: int)

  predicate IsUnit(u: Unit) {
    match u
    case Col(x) => 0 <= x < 9
    case Row(y) => 0 <= y < 9
    case Blk(b) => 0 <= b < 9
  }

  /** Whether the cell at flat position `p` belongs to unit `u`. */
  predicate InUnit(p: int, u: Unit)
    requires 0 <= p < 81
  {
    match u
    case Col(x) => p % 9 == x
    case Row(y) => p / 9 == y
    case Blk(b) => BlockAt(p) == b
  }

  /** Two distinct-or-equal positions that share a column, a row or a block. */
  predicate SameUnit(p: int, q: int)
    requires 0 <= p < 81 && 0 <= q < 81
  {
    p % 9 == q % 9 || p / 9 == q / 9 || BlockAt(p) == BlockAt(q)
  }

  /** A unit holding both of two positions that share one. */
  function CommonUnit(p: int, q: int): (u: Unit)
    requires 0 <= p < 81 && 0 <= q < 81 && SameUnit(p, q)
    ensures IsUnit(u) && InUnit(p, u) && InUnit(q, u)
  {
    if p % 9 == q % 9 then Col(p % 9)
    else if p / 9 == q / 9 then Row(p / 9)
    else Blk(BlockAt(p))
  }

  /** Two positions of one unit share a unit, so SameUnit is exactly "some unit holds both". */
  lemma UnitMembersShareUnit(p: int, q: int, u: Unit)
    requires 0 <= p < 81 && 0 <= q < 81 && InUnit(p, u) && InUnit(q, u)
    ensures SameUnit(p, q)
  {
  }

  /** loc2tracker: the units whose trackers a cell consults, which are exactly the units holding it. */
  function UnitsOf(x: int, y: int): (us: seq<Unit>)
    requires InGrid(x, y)
    ensures |us| == 3
    ensures forall u :: u in us <==> IsUnit(u) && InUnit(Pos(x, y), u)
  {
    [Col(x), Row(y), Blk(BlockOf(x, y))]
  }

  /** The step at which the x-outer, y-inner scan of find, reset and clear visits column `x`, row `y`. */
  function Step(x: int, y: int): (k: int)
    requires InGrid(x, y)
    ensures 0 <= k < 81
    ensures k / 9 == x && k % 9 == y
  {
    9 * x + y
  }

  /** The scan order of find, reset and clear: x outer, y inner, so position `p` is visited at step ScanIndex(p). */
  function ScanIndex(p: int): (k: int)
    requires 0 <= p < 81
    ensures 0 <= k < 81
    ensures Pos(k / 9, k % 9) == p
  {
    Step(p % 9, p / 9)
  }

  /** The box table: entry `b` lists the cells of one 3x3 box, columns of the box in the outer position. */
  function BoxTable(): (t: seq<seq<(int, int)>>)
    ensures |t| == 9
    ensures forall b :: 0 <= b < 9 ==> |t[b]| == 9
    ensures forall b, k :: 0 <= b < 9 && 0 <= k < 9 ==> InGrid(t[b][k].0, t[b][k].1)
  {
    seq(9, b => seq(9, k => (3 * (b / 3) + k / 3, 3 * (b % 3) + k % 3)))
  }

  /**
   * Box `b` of the table is block b / 3 + 3 * (b % 3) (the table is transposed against the block
   * numbering), and each cell of that block stands in it at index 3 * (x % 3) + y % 3.
   */
  lemma BoxTableIsTransposedBlocks(b: int, k: int)
    requires 0 <= b < 9 && 0 <= k < 9
    ensures InGrid(BoxTable()[b][k].0, BoxTable()[b][k].1)
    ensures BlockOf(BoxTable()[b][k].0, BoxTable()[b][k].1) == b / 3 + 3 * (b % 3)
    ensures var (x, y) := BoxTable()[b][k]; 3 * (x % 3) + y % 3 == k
  {
    var (x, y) := BoxTable()[b][k];
    assert x == 3 * (b / 3) + k / 3 && y == 3 * (b % 3) + k % 3;
    SplitByThree(b / 3, k / 3);
    SplitByThree(b % 3, k % 3);
  }

  /** Dividing 3 * q + r by 3, for a remainder r in 0..2. */
  lemma SplitByThree(q: int, r: int)
    requires 0 <= r < 3
    ensures (3 * q + r) / 3 == q && (3 * q + r) % 3 == r
  {
  }

  /** Every cell stands in the box table, in the box whose index transposes its block index. */
  lemma BoxTableCoversGrid(x: int, y: int)
    requires InGrid(x, y)
    ensures BoxTable()[3 * (x / 3) + y / 3][3 * (x % 3) + y % 3] == (x, y)
  {
  }

  /** The nested loops that build `boxes`, appending the members of each box in order. */
  method BuildBoxes() returns (boxes: seq<seq<(int, int)>>)
    ensures boxes == BoxTable()
  {
    boxes := [];
    for i := 0 to 9
      invariant boxes == BoxTable()[..i]
    {
      var x, y := i / 3, i % 3;
      var lst: seq<(int, int)> := [];
      for j := 0 to 9
        invariant lst == BoxTable()[i][..j]
      {
        var z, q := j / 3, j % 3;
        lst := lst + [(x * 3 + z, y * 3 + q)];
      }
      assert lst == BoxTable()[i];
      assert BoxTable()[..i + 1] == BoxTable()[..i] + [BoxTable()[i]];
      boxes := boxes + [lst];
    }
  }
}
