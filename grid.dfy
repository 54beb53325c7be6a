/**
 * The logical grid of the OTP widget: `addEditTexts` puts cell `i` into row
 * `i / maxCountPerLine` at column `i % maxCountPerLine`, starting a new row
 * whenever `i % maxCountPerLine == 0`. The view tree is modelled as a sequence
 * of rows, each row the sequence of the cell indices its EditTexts were created
 * with; the watchers find their neighbours by the same row/column arithmetic.
 */
module Grid {
  import opened Wrappers

  /** Number of iterations of `for (i in 0 until n)`: none when `n <= 0`. */
  function Count(n: int): nat
  {
    if n < 0 then 0 else n
  }

  function Row(i: nat, perLine: nat): nat
    requires perLine >= 1
  {
    i / perLine
  }

  function Col(i: nat, perLine: nat): nat
    requires perLine >= 1
  {
    i % perLine
  }

  /** The linear index of the cell at (row, col). */
  function Index(row: nat, col: nat, perLine: nat): nat
  {
    row * perLine + col
  }

  /** Splitting an index into row and column loses nothing. */
  lemma AddressRoundTrip(i: nat, perLine: nat)
    requires perLine >= 1
    ensures Col(i, perLine) < perLine
    ensures Index(Row(i, perLine), Col(i, perLine), perLine) == i
  {
  }

  lemma MulAtLeast(a: int, b: nat)
    requires a >= 1
    ensures a * b >= b
  {
  }

  /** A (row, col) pair with `col < perLine` is the address of exactly one index. */
  lemma {:induction false} AddressUnique(row: nat, col: nat, perLine: nat)
    requires col < perLine
    ensures Row(Index(row, col, perLine), perLine) == row
    ensures Col(Index(row, col, perLine), perLine) == col
  {
    var i := Index(row, col, perLine);
    var q, d := Row(i, perLine), Col(i, perLine);
    AddressRoundTrip(i, perLine);
    assert (q - row) * perLine == col - d;
    if q > row {
      MulAtLeast(q - row, perLine);
      assert false;
    } else if q < row {
      MulAtLeast(row - q, perLine);
      assert false;
    }
  }

  /** How the address moves from index `i` to index `i + 1`. */
  lemma {:induction false} NextAddress(i: nat, perLine: nat)
    requires perLine >= 1
    ensures Col(i, perLine) + 1 < perLine ==>
              Row(i + 1, perLine) == Row(i, perLine) && Col(i + 1, perLine) == Col(i, perLine) + 1
    ensures Col(i, perLine) + 1 == perLine ==>
              Row(i + 1, perLine) == Row(i, perLine) + 1 && Col(i + 1, perLine) == 0
  {
    AddressRoundTrip(i, perLine);
    var r, c := Row(i, perLine), Col(i, perLine);
    if c + 1 < perLine {
      AddressUnique(r, c + 1, perLine);
    } else {
      assert Index(r + 1, 0, perLine) == i + 1;
      AddressUnique(r + 1, 0, perLine);
    }
  }

  /** `getChildAt(row) as? LinearLayout`, then `getChildAt(col) as? EditText`: null out of range. */
  function ChildAt(rows: seq<seq<nat>>, row: int, col: int): Option<nat>
  {
    if 0 <= row < |rows| && 0 <= col < |rows[row]| then Some(rows[row][col]) else None
  }

  /**
   * The view tree holds cells `0 .. count - 1`, cell `i` at row `i / perLine`
   * and column `i % perLine`, and every slot of the tree holds the cell whose
   * address it is.
   */
  ghost predicate Placed(rows: seq<seq<nat>>, count: nat, perLine: nat)
  {
    perLine >= 1 && Holds(rows, count, perLine) && Addressed(rows, count, perLine)
  }

  /** Cell `i`, for every `i < count`, sits at its address. */
  ghost predicate Holds(rows: seq<seq<nat>>, count: nat, perLine: nat)
    requires perLine >= 1
  {
    forall i: nat | i < count ::
      Row(i, perLine) < |rows| && Col(i, perLine) < |rows[Row(i, perLine)]|
      && rows[Row(i, perLine)][Col(i, perLine)] == i
  }

  /** Every slot holds the cell whose address it is, and that cell is below `count`. */
  ghost predicate Addressed(rows: seq<seq<nat>>, count: nat, perLine: nat)
  {
    forall r, c | 0 <= r < |rows| && 0 <= c < |rows[r]| ::
      c < perLine && rows[r][c] == Index(r, c, perLine) && rows[r][c] < count
  }

  /** Cell `i` opens a new row: the tree for `i + 1` cells is still placed. */
  lemma {:induction false} PlacedNewRow(rows: seq<seq<nat>>, i: nat, perLine: nat)
    requires Placed(rows, i, perLine)
    requires Col(i, perLine) == 0 && |rows| == Row(i, perLine)
    ensures Placed(rows + [[i]], i + 1, perLine)
  {
    HoldsNewRow(rows, i, perLine);
    AddressedNewRow(rows, i, perLine);
  }

  lemma {:induction false} HoldsNewRow(rows: seq<seq<nat>>, i: nat, perLine: nat)
    requires perLine >= 1 && Holds(rows, i, perLine)
    requires Col(i, perLine) == 0 && |rows| == Row(i, perLine)
    ensures Holds(rows + [[i]], i + 1, perLine)
  {
    var rows' := rows + [[i]];
    forall j: nat | j < i + 1
      ensures Row(j, perLine) < |rows'| && Col(j, perLine) < |rows'[Row(j, perLine)]|
              && rows'[Row(j, perLine)][Col(j, perLine)] == j
    {
      if j < i {
        assert rows'[Row(j, perLine)] == rows[Row(j, perLine)];
      }
    }
  }

  lemma {:induction false} AddressedNewRow(rows: seq<seq<nat>>, i: nat, perLine: nat)
    requires perLine >= 1 && Addressed(rows, i, perLine)
    requires Col(i, perLine) == 0 && |rows| == Row(i, perLine)
    ensures Addressed(rows + [[i]], i + 1, perLine)
  {
    var rows' := rows + [[i]];
    AddressRoundTrip(i, perLine);
    forall r, c | 0 <= r < |rows'| && 0 <= c < |rows'[r]|
      ensures c < perLine && rows'[r][c] == Index(r, c, perLine) && rows'[r][c] < i + 1
    {
      if r < |rows| {
        assert rows'[r] == rows[r];
        assert rows'[r][c] == rows[r][c];
      } else {
        assert r == Row(i, perLine) && c == Col(i, perLine);
        assert rows'[r][c] == i;
      }
    }
  }

  /** Cell `i` joins the last row: the tree for `i + 1` cells is still placed. */
  lemma {:induction false} PlacedSameRow(rows: seq<seq<nat>>, i: nat, perLine: nat)
    requires Placed(rows, i, perLine)
    requires |rows| == Row(i, perLine) + 1 && |rows[|rows| - 1]| == Col(i, perLine)
    ensures Placed(rows[|rows| - 1 := rows[|rows| - 1] + [i]], i + 1, perLine)
  {
    HoldsSameRow(rows, i, perLine);
    AddressedSameRow(rows, i, perLine);
  }

  lemma {:induction false} HoldsSameRow(rows: seq<seq<nat>>, i: nat, perLine: nat)
    requires perLine >= 1 && Holds(rows, i, perLine)
    requires |rows| == Row(i, perLine) + 1 && |rows[|rows| - 1]| == Col(i, perLine)
    ensures Holds(rows[|rows| - 1 := rows[|rows| - 1] + [i]], i + 1, perLine)
  {
    var last := |rows| - 1;
    var rows' := rows[last := rows[last] + [i]];
    forall j: nat | j < i + 1
      ensures Row(j, perLine) < |rows'| && Col(j, perLine) < |rows'[Row(j, perLine)]|
              && rows'[Row(j, perLine)][Col(j, perLine)] == j
    {
      if j < i {
        assert |rows'[Row(j, perLine)]| >= |rows[Row(j, perLine)]|;
        assert rows'[Row(j, perLine)][Col(j, perLine)] == rows[Row(j, perLine)][Col(j, perLine)];
      } else {
        assert rows'[last] == rows[last] + [i];
      }
    }
  }

  lemma {:induction false} AddressedSameRow(rows: seq<seq<nat>>, i: nat, perLine: nat)
    requires perLine >= 1 && Addressed(rows, i, perLine)
    requires |rows| == Row(i, perLine) + 1 && |rows[|rows| - 1]| == Col(i, perLine)
    ensures Addressed(rows[|rows| - 1 := rows[|rows| - 1] + [i]], i + 1, perLine)
  {
    var last := |rows| - 1;
    var rows' := rows[last := rows[last] + [i]];
    AddressRoundTrip(i, perLine);
    forall r, c | 0 <= r < |rows'| && 0 <= c < |rows'[r]|
      ensures c < perLine && rows'[r][c] == Index(r, c, perLine) && rows'[r][c] < i + 1
    {
      if r < last || c < |rows[last]| {
        assert rows'[r][c] == rows[r][c];
      } else {
        assert r == Row(i, perLine) && c == Col(i, perLine);
        assert rows'[r][c] == i;
      }
    }
    assert Addressed(rows', i + 1, perLine);
  }

  /**
   * The shape of the tree after cells `0 .. i - 1`: as many rows as the last
   * cell's row needs, and the last row as long as that cell's column needs.
   */
  ghost predicate Shaped(rows: seq<seq<nat>>, i: nat, perLine: nat)
    requires perLine >= 1
  {
    && (i == 0 ==> rows == [])
    && (i > 0 ==> |rows| == Row(i - 1, perLine) + 1 && |rows[|rows| - 1]| == Col(i - 1, perLine) + 1)
  }

  /** The tree after cells `0 .. i - 1`: placed and shaped. */
  ghost predicate Built(rows: seq<seq<nat>>, i: nat, perLine: nat)
  {
    perLine >= 1 && Placed(rows, i, perLine) && Shaped(rows, i, perLine)
  }

  /** One iteration of the loop of `addEditTexts`, on the tree. */
  function AddCell(rows: seq<seq<nat>>, i: nat, perLine: nat): seq<seq<nat>>
    requires perLine >= 1
  {
    var current := if i % perLine == 0 then rows + [[]] else rows;
    if |current| > 0 then current[|current| - 1 := current[|current| - 1] + [i]] else current
  }

  /** Where cell `i` goes in a tree shaped for cells `0 .. i - 1`. */
  lemma {:induction false} NextSlot(rows: seq<seq<nat>>, i: nat, perLine: nat)
    requires perLine >= 1 && Shaped(rows, i, perLine)
    ensures Col(i, perLine) == 0 ==> |rows| == Row(i, perLine)
    ensures Col(i, perLine) != 0 ==> |rows| == Row(i, perLine) + 1 && |rows[|rows| - 1]| == Col(i, perLine)
  {
    if i > 0 {
      NextAddress(i - 1, perLine);
    }
  }

  /** Cell `i` with `i % perLine == 0` opens a new row of the built tree. */
  lemma {:induction false} NewRowStep(rows: seq<seq<nat>>, i: nat, perLine: nat)
    requires Built(rows, i, perLine) && i % perLine == 0
    ensures Built(rows + [[i]], i + 1, perLine)
  {
    NextSlot(rows, i, perLine);
    PlacedNewRow(rows, i, perLine);
  }

  /** Cell `i` with `i % perLine != 0` joins the last row of the built tree. */
  lemma {:induction false} SameRowStep(rows: seq<seq<nat>>, i: nat, perLine: nat)
    requires Built(rows, i, perLine) && i % perLine != 0
    ensures |rows| > 0 && Built(rows[|rows| - 1 := rows[|rows| - 1] + [i]], i + 1, perLine)
  {
    NextSlot(rows, i, perLine);
    PlacedSameRow(rows, i, perLine);
  }

  /** One iteration either appends the row `[i]` or extends the last row by `i`. */
  lemma AddCellCases(rows: seq<seq<nat>>, i: nat, perLine: nat)
    requires perLine >= 1
    ensures i % perLine == 0 ==> AddCell(rows, i, perLine) == rows + [[i]]
    ensures i % perLine != 0 ==> AddCell(rows, i, perLine) == if |rows| > 0 then rows[|rows| - 1 := rows[|rows| - 1] + [i]] else rows
  {
    if i % perLine == 0 {
      var current := rows + [[]];
      assert current[|current| - 1] + [i] == [i];
    }
  }

  /** One iteration keeps the tree built. */
  lemma {:induction false} AddCellPlaced(rows: seq<seq<nat>>, i: nat, perLine: nat)
    requires Built(rows, i, perLine)
    ensures Built(AddCell(rows, i, perLine), i + 1, perLine)
  {
    AddCellCases(rows, i, perLine);
    if i % perLine == 0 {
      NewRowStep(rows, i, perLine);
    } else {
      SameRowStep(rows, i, perLine);
    }
  }

  /**
   * The loop of `addEditTexts(0)`: a new row whenever `i % maxCountPerLine == 0`,
   * then the EditText for cell `i` appended to the current row.
   */
  method AddEditTexts(squareCount: int, maxCountPerLine: nat) returns (rows: seq<seq<nat>>)
    requires maxCountPerLine >= 1
    ensures Built(rows, Count(squareCount), maxCountPerLine)
  {
    rows := [];
    var i: nat := 0;
    while i < squareCount
      invariant i <= Count(squareCount)
      invariant Built(rows, i, maxCountPerLine)
    {
      ghost var before := rows;
      if i % maxCountPerLine == 0 {
        rows := rows + [[]];
      }
      if |rows| > 0 {
        rows := rows[|rows| - 1 := rows[|rows| - 1] + [i]];
      }
      assert rows == AddCell(before, i, maxCountPerLine);
      AddCellPlaced(before, i, maxCountPerLine);
      i := i + 1;
    }
  }

  /** A placed tree answers every lookup by address: cell `j` when it exists, null otherwise. */
  lemma {:induction false} LookupPlaced(rows: seq<seq<nat>>, count: nat, perLine: nat, j: nat)
    requires Placed(rows, count, perLine)
    ensures ChildAt(rows, Row(j, perLine), Col(j, perLine)) == if j < count then Some(j) else None
  {
    AddressRoundTrip(j, perLine);
  }

  /** `getNextEditText(index)`: the EditText at the address of `index + 1`. */
  function NextEditText(rows: seq<seq<nat>>, perLine: nat, index: nat): (r: Option<nat>)
    requires perLine >= 1
    ensures r.Some? <==> Row(index + 1, perLine) < |rows| && Col(index + 1, perLine) < |rows[Row(index + 1, perLine)]|
  {
    ChildAt(rows, Row(index + 1, perLine), Col(index + 1, perLine))
  }

  /** Kotlin's `/` on `Int`, which truncates toward zero. */
  function TruncDiv(a: int, b: int): int
    requires b >= 1
  {
    if a >= 0 then a / b else -((-a) / b)
  }

  /** Kotlin's `%` on `Int`, whose result takes the sign of `a`. */
  function TruncRem(a: int, b: int): int
    requires b >= 1
  {
    if a >= 0 then a % b else -((-a) % b)
  }

  /**
   * `getPreviousEditText(index)`: the EditText at the address of `index - 1`,
   * computed with Kotlin's truncating `/` and `%`. For `index == 0` that is
   * row 0 and column -1, or row -1 and column 0 when `perLine == 1`; either
   * way `getChildAt` answers null.
   */
  function PreviousEditText(rows: seq<seq<nat>>, perLine: nat, index: nat): (r: Option<nat>)
    requires perLine >= 1
    ensures index == 0 ==> r == None
    ensures index > 0 ==> r == ChildAt(rows, Row(index - 1, perLine), Col(index - 1, perLine))
  {
    ChildAt(rows, TruncDiv(index - 1, perLine), TruncRem(index - 1, perLine))
  }

  /** The neighbour lookups find exactly the cells `index + 1` and `index - 1` when they exist. */
  lemma {:induction false} NeighbourLookup(rows: seq<seq<nat>>, count: nat, perLine: nat, index: nat)
    requires Placed(rows, count, perLine)
    ensures NextEditText(rows, perLine, index) == if index + 1 < count then Some(index + 1) else None
    ensures PreviousEditText(rows, perLine, index) ==
              if 0 < index <= count then Some(index - 1) else None
  {
    LookupPlaced(rows, count, perLine, index + 1);
    if index > 0 {
      LookupPlaced(rows, count, perLine, index - 1);
    }
  }

  /**
   * The focus request of `afterTextChanged`: forward when the cell now holds one
   * character and is not the last, backward when it was emptied and is not the
   * first, nowhere otherwise.
   */
  function FocusTarget(rows: seq<seq<nat>>, perLine: nat, squareCount: int, index: nat, text: string)
    : (target: Option<nat>)
    requires Placed(rows, Count(squareCount), perLine)
    requires index < squareCount
    ensures target == Some(index + 1) <==> |text| == 1 && index < squareCount - 1
    ensures target == Some(index - 1) <==> text == [] && index > 0
    ensures target == None <==> !(|text| == 1 && index < squareCount - 1) && !(text == [] && index > 0)
    ensures target.Some? ==> target.value < squareCount
  {
    NeighbourLookup(rows, Count(squareCount), perLine, index);
    if |text| == 1 && index < squareCount - 1 then NextEditText(rows, perLine, index)
    else if text == [] && index > 0 then PreviousEditText(rows, perLine, index)
    else None
  }
}
