# Sudoku candidate engine in Dafny

This project models the engine of `sudoku.py`, a terminal sudoku helper. The engine keeps an 81-cell
board, a flag per cell and 27 trackers: one per column, row and 3x3 block, each holding the digits not
yet placed in that unit. It places and clears values and keeps the trackers in step. `find` looks for
a forced cell: first a naked single (an empty cell whose three trackers share exactly one digit), then
a hidden single: an empty cell of a column, row or box whose candidates, less those of the unit's other
empty cells, leave exactly one digit. `search` fills
forced cells until none is left and flags each one it fills. `reset` clears the flagged cells, `clear`
clears the board, and `output` renders the board as text.

Layout:

- `grid.dfy` (module `Grid`): cell addressing.
  - `loc2boardpos` and the block index of `loc2tracker`.
  - The 27 units.
  - The x-outer, y-inner scan order.
  - The `boxes` table and the loop that builds it.
- `board.dfy` (module `Board`):
  - The engine state as a value.
  - The invariant tying each tracker to its unit's values.
  - `empty`, `getIntersection`, `setCell`, `clearCell` and `reset` as functions of a state, with the
    lemmas about them.
  - `clear`, specified by the initial state it returns to.
- `deduce.dfy` (module `Deduce`):
  - `find` as a specification: the naked-single scan, the `cels` lists, `diff`, the hidden-single
    scans, and the `(0, 0, 0)` sentinel.
  - The loops of `diff` and of one unit's scan, each proved equal to that specification.
  - Soundness and completeness lemmas.
- `export.dfy` (module `Export`): the text `output` writes, its layout lemmas, and the read-back round
  trip.
- `engine.dfy` (module `Engine`): class `Sudoku`.
  - Its fields are the module-level globals.
  - Its methods are `setCell`, `clearCell`, `find`, `search`, `reset`, `clear` and `output`.
  - Each method is proved against the functions above.
  - Every state-changing method keeps `Valid()`: the box table plus the invariant.

Coordinates follow the source. `x` indexes `cols` and `y` indexes `rows`, and cell (x, y) is stored at
`x + 9 * y`. `find`, `reset` and `clear` visit cells with x outer and y inner. Scan step `k` is cell
(k / 9, k % 9). `output` writes one text line per `x`.

## Model

| member | source | states |
|---|---|---|
| Grid.Pos | sudoku.py:43-46 | the flat index of (x, y) is in 0..80, and x and y can be read back from it as `p % 9` and `p / 9` |
| Grid.BlockOf | sudoku.py:37-40 | the block `x//3 + (y//3)*3` chosen by loc2tracker is in 0..8 and is the 3x3 square holding the cell |
| Grid.UnitsOf | sudoku.py:37-40 | loc2tracker consults three trackers, and these are exactly the units (column, row, block) that hold the cell |
| Grid.CommonUnit | sudoku.py:37-40 | two cells sharing a column, row or block have a unit that holds both |
| Grid.ScanIndex | sudoku.py:103 | the product(range(9), range(9)) scan visits every cell exactly once, and the step at which cell p is visited reads back to p |
| Grid.BoxTable | sudoku.py:16-23 | the `boxes` table has 9 boxes of 9 cells, and every listed cell lies on the grid |
| Grid.BuildBoxes | sudoku.py:16-23 | the nested append loops build exactly the box table |
| Grid.BoxTableCoversGrid | sudoku.py:16-23 | every cell (x, y) appears in the table, in box `3 * (x / 3) + y / 3` |
| Grid.BoxTableIsTransposedBlocks | sudoku.py:16-23 | box `b` holds the cells of block `b / 3 + 3 * (b % 3)`, so box and block numbering are transposed; each cell sits at index `3 * (x % 3) + y % 3` |
| Board.Initial | sudoku.py:8-14 | the initialisers give every cell the value 0 and the flag Normal, and every tracker the digits 1..9 |
| Board.InitialInvariant | sudoku.py:8-14 | the initial state satisfies the invariant: each tracker equals the digits 1..9 minus its unit's values, no unit repeats a digit, and empty cells are Normal |
| Board.IsEmpty | sudoku.py:94-97 | a cell is empty exactly when it is one of the board's empty cells, the set whose size bounds search |
| Board.EmptyGuardsUpdates | sudoku.py:56-97 | under the invariant, clearCell leaves the state unchanged exactly on an empty cell, setCell leaves it unchanged on a filled cell, and a successful setCell removes exactly this cell from the empty cells |
| Board.Intersection | sudoku.py:49-53 | a digit is in the intersection exactly when every tracker the cell consults holds it |
| Board.IntersectionInDigits | sudoku.py:49-53 | under the invariant, the intersection holds only digits 1..9 |
| Board.IntersectionIsLegal | sudoku.py:49-53 | on an empty cell, `d` is a candidate exactly when `d` is a digit and placing it repeats no digit in any unit |
| Board.Placed | sudoku.py:56-74 | setCell is a no-op unless the cell is empty and `v` is a candidate; otherwise the cell gets `v` and the flag, and `v` leaves the three trackers of the cell; other cells and the trackers of units not holding the cell are unchanged |
| Board.Cleared | sudoku.py:77-91 | after clearCell the cell is empty; on an empty cell nothing changes; otherwise the flag becomes Normal and the old value returns to the three trackers of the cell; other cells and other units' trackers are unchanged |
| Board.PlacedKeepsInvariant | sudoku.py:56-74 | setCell (including its two silent no-op guards) preserves the invariant |
| Board.ClearedKeepsInvariant | sudoku.py:77-91 | clearCell preserves the invariant; no-repeats is what makes the re-added digit correct, since no other cell of the three units holds it |
| Board.PlaceThenClear | sudoku.py:56-91 | clearing a cell that was empty and has just been set restores the whole state: board, flags and all 27 trackers |
| Board.ClearThenPlace | sudoku.py:56-91 | setting a just-cleared cell back to its old value and flag restores the whole state |
| Board.InvariantDeterminesTrackers | sudoku.py:11-14 | under the invariant, the trackers are determined by the board |
| Board.FillShrinksEmpties | sudoku.py:73 | a successful setCell strictly decreases the number of empty cells |
| Board.PlacedReverseGrows | sudoku.py:204-208 | a setCell with A_REVERSE keeps what search promises: filled cells keep value and flag, and newly filled cells are Reverse |
| Board.AfterReset | sudoku.py:211-216 | after reset no flag is Reverse, each cell flagged Reverse is 0 and every other cell keeps its value, and each tracker is the digits 1..9 minus its unit's values |
| Board.ResetUndoesSearch | sudoku.py:204-216 | reset after any search gives the same state as reset before it |
| Board.AfterResetInvariant | sudoku.py:211-216 | the state after reset satisfies the invariant and has no Reverse cell |
| Board.ResetWithoutAutomatic | sudoku.py:211-216 | reset changes nothing when no cell is Reverse |
| Board.ZeroBoardIsInitial | sudoku.py:236-239 | under the invariant, a state whose board is all zero is the initial state, trackers included |
| Deduce.Sole | sudoku.py:107 | `pop` on a one-element set returns its only member |
| Deduce.Entries | sudoku.py:121-133 | a `cels` list is no longer than the list of cells it is built from |
| Deduce.EntriesDistinct | sudoku.py:121-133 | built from distinct cells, a `cels` list names no cell twice |
| Deduce.UnitCellsDistinct | sudoku.py:120-133 | each column, row and box scan lists nine different cells |
| Deduce.UnitEntriesDistinct | sudoku.py:120-133 | no unit's `cels` list names a cell twice |
| Deduce.EntriesFacts | sudoku.py:121-133 | a `cels` list holds exactly the empty cells of the unit, each paired with its intersection |
| Deduce.Exclusive | sudoku.py:110-116 | diff's result is a subset of entry `i`'s candidates and shares no digit with any other entry's candidates |
| Deduce.Diff | sudoku.py:110-116 | diff returns the candidates of entry `i` that no other entry of the list has |
| Deduce.FirstSingle | sudoku.py:122-124 | one unit's scan returns the first entry, in list order, whose diff has exactly one member |
| Deduce.NakedFromFacts | sudoku.py:103-107 | the naked scan returns the first cell in scan order that is empty and has a single candidate, with that candidate; when it returns nothing, no cell qualifies |
| Deduce.FindSpec | sudoku.py:100-138 | every result of find other than the sentinel names an empty cell and one of its candidates, so the setCell that search makes with it succeeds |
| Deduce.Propagated | sudoku.py:204-208 | placing what find returns, flagged Reverse, until find returns the sentinel ends in a state that satisfies the invariant and where find returns (0, 0, 0) |
| Deduce.PropagatedGrows | sudoku.py:204-208 | search only fills empty cells and flags them Reverse; filled cells keep their value and flag |
| Deduce.SearchThenReset | sudoku.py:204-216 | reset after search gives the same state as reset without search |
| Deduce.NakedSingleFirst | sudoku.py:103-107 | when some empty cell has a single candidate, find returns the first such cell in scan order, with that candidate |
| Deduce.FirstHiddenIsHiddenSingle | sudoku.py:120-136 | a hidden single found in unit `j` is an empty cell of the unit, and no other empty cell of the unit has its value as a candidate |
| Deduce.HiddenSingleFound | sudoku.py:118-136 | without naked singles, a non-sentinel result is a hidden single of some unit `j`; it is entry `i` of the unit's `cels` list with diff exactly {v}; no earlier entry of that list has a one-member diff; and no unit scanned before `j` has an entry with a one-member diff |
| Deduce.NotFoundIffNothingForced | sudoku.py:138 | under the invariant, find returns (0, 0, 0) exactly when no empty cell has a single candidate and no entry of any unit's `cels` list has a diff with exactly one member |
| Deduce.FoundIsNotSentinel | sudoku.py:138 | when the trackers hold only digits, a found value is never 0, so no real result equals the sentinel |
| Export.LayoutCells | sudoku.py:219-233 | the text has 110 characters, and cell (x, y) stands at line start + `y + y / 3` |
| Export.LayoutSeparators | sudoku.py:223-233 | each line has spaces at offsets 3 and 7 and ends in a newline; extra newlines stand at characters 36 and 73, before lines 3 and 6 |
| Export.Glyph | sudoku.py:229-231 | as written, the character for a cell is '.' exactly when it is 0, and '1' for every other value |
| Export.ExportWritesOne | sudoku.py:229-232 | as written, a filled cell is written as '1' whatever its digit, and an empty cell as '.' |
| Export.ExportForgetsDigits | sudoku.py:230-231 | as written, two different boards give the same text |
| Export.ExportReadsBackAsOnes | sudoku.py:219-233 | as written, reading the text back recovers only which cells are filled |
| Export.ExportDigitsRoundTrip | sudoku.py:219-233 | with the digit written, reading the text back gives the board |
| Engine.Sudoku.constructor | sudoku.py:8-23 | the module initialisers yield the initial state with the box table built |
| Engine.Sudoku.SetCell | sudoku.py:56-74 | the new state is `Placed` of the old one, and the invariant holds; the flag defaults to Normal, as in the source |
| Engine.Sudoku.ClearCell | sudoku.py:77-91 | the new state is `Cleared` of the old one, and the invariant holds |
| Engine.Sudoku.Find | sudoku.py:100-138 | the naked scan, then the column, row and box scans, return exactly `FindSpec` of the current state |
| Engine.Sudoku.Search | sudoku.py:204-208 | the new state is `Propagated` of the old one; search terminates; earlier cells keep value and flag, and the cells it fills are Reverse; at the end find returns the sentinel, no empty cell has a single candidate, and no entry of any unit's `cels` list has a diff with exactly one member |
| Engine.Sudoku.Reset | sudoku.py:211-216 | the new state is the old one with every Reverse cell cleared, and the invariant holds |
| Engine.Sudoku.Clear | sudoku.py:236-239 | after clear the engine is in its initial state |
| Engine.Sudoku.Output | sudoku.py:219-233 | the text written is `ExportText` of the board |
| Engine.Sudoku.WriteLine | sudoku.py:226-233 | the inner loop writes line `x`: the column's glyphs, spaces before y = 3 and y = 6, then the newline |

## Left out

- Curses rendering is not modelled: `update`, `cursor`, `loc2txt` and the screen text in `main`. They only read the state.
- The interactive key loop and `clamp` are not modelled. Cursor positions never reach the engine unclamped, so every engine method takes coordinates in 0..8 as a precondition. Python indexes `board` with x + 9 * y, so some out-of-range pairs read or write another cell, negative ones also pick other trackers, and the rest raise IndexError.
- The file I/O of `output` is not modelled: opening `out.txt` and the writes. `Output` returns the string it would write.
- The curses attribute values are reduced to a two-valued flag, `Normal` or `Reverse`. The engine only compares a flag with `A_REVERSE`; the rendering left out above also passes the flag to curses.
- `curses.wrapper` and process start-up are replaced by the `Sudoku` constructor.
- The trackers are modelled as a `seq<set<int>>` per kind, and `setCell` and `clearCell` reassign the affected entries. Python's in-place `remove` and `add` on the set objects returned by `loc2tracker` have the same effect, because the 27 sets are distinct objects.
- Deduce.Diff: the loop skips index `i` rather than iterating over the concatenated slices `cels[0:i]+cels[i+1:]`. It visits the same entries in the same order.
- Deduce.FirstSingle: `s.pop()` on a one-element set is modelled by choosing the set's only member.
- setCell and clearCell return nothing and do no range check; the model follows the code. Output writes '1' for every filled cell (see Findings).

## Findings

| source | as written | input that shows it | evidently intended | confidence | as-written member | corrected member |
|---|---|---|---|---|---|---|
| sudoku.py:230-231 | `if val := board[...] != 0:` binds `val` to the comparison, so `chr(ord('0')+val)` writes '1' for every filled cell | a board with 5 at cell (0, 0) and one with 7 there produce the same text | `if (val := board[...]) != 0:`, writing the cell's digit | high, not executed | Export.ExportForgetsDigits | Export.ExportDigitsRoundTrip |
