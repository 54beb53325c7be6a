/**
 * The state of the OTP widget that its per-cell text watchers update: the
 * cell texts, the view tree the cells sit in, the composed `otp` string and
 * the flag that records an overridden border colour.
 */
module OtpWidget {
  import opened Wrappers
  import opened Grid
  import opened OtpText
  import opened Attributes

  /** Every cell holds a character. */
  ghost predicate AllFilled(cells: seq<string>)
  {
    forall k | 0 <= k < |cells| :: cells[k] != []
  }

  class OtpView {
    var squareCount: int
    var maxCountPerLine: int
    /** `inputType == InputType.TYPE_CLASS_TEXT`. */
    var textMode: bool
    /** The text of each EditText, by the index its watcher was created with. */
    var cells: seq<string>
    /** The row LinearLayouts and the indices of the EditTexts in each. */
    var rows: seq<seq<nat>>
    var otp: string
    var borderColorIsSet: bool

    /**
     * One cell per iteration of `addEditTexts`, each holding at most one
     * character (`InputFilter.LengthFilter(1)`), placed row by row.
     */
    ghost predicate Valid()
      reads this
    {
      && maxCountPerLine >= 1
      && |cells| == Count(squareCount)
      && (forall k | 0 <= k < |cells| :: |cells[k]| <= 1)
      && Placed(rows, |cells|, maxCountPerLine)
    }

    /** `init`: the two counts coerced, the input type read, and the empty cells built. */
    constructor (squareCountAttr: int, maxCountPerLineAttr: int, inputTypeAttr: Option<string>)
      ensures Valid()
      ensures squareCount == CoerceCount(squareCountAttr)
      ensures maxCountPerLine == CoerceCount(maxCountPerLineAttr)
      ensures textMode == TextModeFromAttr(inputTypeAttr)
      ensures cells == seq(squareCount, _ => []) && otp == [] && !borderColorIsSet
    {
      var count := CoerceCount(squareCountAttr);
      var perLine := CoerceCount(maxCountPerLineAttr);
      var tree := AddEditTexts(count, perLine);
      squareCount := count;
      maxCountPerLine := perLine;
      textMode := TextModeFromAttr(inputTypeAttr);
      otp := [];
      borderColorIsSet := false;
      rows := tree;
      cells := seq(count, _ => []);
    }

    /** `setInputType`: only TYPE_CLASS_TEXT keeps `otp` untrimmed. */
    method SetInputType(inputType: int)
      modifies this`textMode
      ensures textMode == (inputType == TYPE_CLASS_TEXT)
    {
      textMode := inputType == TYPE_CLASS_TEXT;
    }

    /**
     * `setSquareCount`: the count is taken as given, without coercion, and the
     * cells are rebuilt, all empty, only when it differs from the old one.
     * `otp` and the border flag are left as they are.
     */
    method SetSquareCount(newCount: int)
      requires Valid()
      modifies this`squareCount, this`cells, this`rows
      ensures Valid()
      ensures squareCount == newCount
      ensures old(squareCount) != newCount ==> cells == seq(Count(newCount), _ => [])
      ensures old(squareCount) == newCount ==> cells == old(cells) && rows == old(rows)
    {
      var previousCount := squareCount;
      squareCount := newCount;
      if previousCount != newCount {
        rows := AddEditTexts(newCount, maxCountPerLine);
        cells := seq(Count(newCount), _ => []);
      }
    }

    /** `updateOtp(index, char)`, on a copy of `otp` as a char array. */
    method UpdateOtp(index: nat, c: char)
      modifies this`otp
      ensures otp == UpdatedOtp(old(otp), index, c, textMode)
    {
      var s := otp;
      var otpArray := new char[|s|](k requires 0 <= k < |s| => s[k]);
      if otpArray.Length > index {
        otpArray[index] := c;
      } else {
        otp := PadEnd(otp, index, ' ') + [c];
        return;
      }
      assert otpArray[..] == s[index := c];
      otp := if !textMode then Trim(otpArray[..]) else otpArray[..];
    }

    /** `clearOtp(index)`, on a copy of `otp` as a char array. */
    method ClearOtp(index: nat)
      modifies this`otp
      ensures otp == ClearedOtp(old(otp), index)
    {
      var s := otp;
      var otpArray := new char[|s|](k requires 0 <= k < |s| => s[k]);
      if otpArray.Length > index {
        otpArray[index] := ' ';
      }
      assert otpArray[..] == ClearedOtp(s, index);
      otp := otpArray[..];
    }

    /**
     * `isOtpComplete()`: every cell, looked up in the view tree by its row and
     * column, is non-empty.
     */
    method IsOtpComplete() returns (complete: bool)
      requires Valid()
      ensures complete == AllFilled(cells)
    {
      var i: nat := 0;
      while i < squareCount
        invariant i <= |cells|
        invariant forall k | 0 <= k < i :: cells[k] != []
      {
        var row, col := i / maxCountPerLine, i % maxCountPerLine;
        LookupPlaced(rows, |cells|, maxCountPerLine, i);
        var editText := ChildAt(rows, row, col);
        if editText.None? || cells[editText.value] == [] {
          return false;
        }
        i := i + 1;
      }
      return true;
    }

    /**
     * `getOtpFromFields()`: the texts of the cells in index order, each looked
     * up in the view tree by its row and column.
     */
    method GetOtpFromFields() returns (code: string)
      requires Valid()
      ensures code == Concat(cells)
      ensures AllFilled(cells) ==>
                |code| == |cells| && forall k | 0 <= k < |cells| :: code[k] == cells[k][0]
    {
      var builder := [];
      var i: nat := 0;
      while i < squareCount
        invariant i <= |cells|
        invariant builder == Concat(cells[..i])
      {
        var row, col := i / maxCountPerLine, i % maxCountPerLine;
        LookupPlaced(rows, |cells|, maxCountPerLine, i);
        var editText := ChildAt(rows, row, col);
        if editText.Some? {
          assert cells[..i + 1][..i] == cells[..i];
          builder := builder + cells[editText.value];
        }
        i := i + 1;
      }
      assert cells[..|cells|] == cells;
      code := builder;
      if AllFilled(cells) {
        ConcatFilled(cells);
      }
    }

    /**
     * `afterTextChanged` of the watcher of cell `index`, whose text has become
     * `text`: `otp` is updated or cleared at `index`, the focus target is
     * returned, and when every cell is filled `otp` is recomposed from the
     * cells and returned as the completion event, on every such edit. The
     * border flag ends up equal to completeness.
     */
    method AfterTextChanged(index: nat, text: string) returns (focus: Option<nat>, completed: Option<string>)
      requires Valid()
      requires index < |cells| && |text| <= 1
      modifies this`cells, this`otp, this`borderColorIsSet
      ensures Valid()
      ensures cells == old(cells)[index := text]
      ensures focus == if |text| == 1 && index < squareCount - 1 then Some(index + 1)
                       else if text == [] && index > 0 then Some(index - 1)
                       else None
      ensures borderColorIsSet == AllFilled(cells)
      ensures AllFilled(cells) ==> otp == Concat(cells) && completed == Some(otp) && |otp| == squareCount
      ensures !AllFilled(cells) ==> completed == None
      ensures !AllFilled(cells) ==>
                otp == if text != [] then UpdatedOtp(old(otp), index, text[0], textMode)
                       else ClearedOtp(old(otp), index)
      ensures textMode && Mirrors(old(otp), old(cells)) ==> Mirrors(otp, cells)
    {
      RecordEdit(index, text);
      focus := FocusTarget(rows, maxCountPerLine, squareCount, index, text);
      completed := SignalCompletion();
    }

    /**
     * The first half of `afterTextChanged`: the cell takes its new text and
     * `otp` is updated, or cleared when the text is empty.
     */
    method RecordEdit(index: nat, text: string)
      requires Valid()
      requires index < |cells| && |text| <= 1
      modifies this`cells, this`otp
      ensures Valid()
      ensures cells == old(cells)[index := text]
      ensures otp == if text != [] then UpdatedOtp(old(otp), index, text[0], textMode)
                     else ClearedOtp(old(otp), index)
      ensures textMode && Mirrors(old(otp), old(cells)) ==> Mirrors(otp, cells)
    {
      ghost var before, beforeCells := otp, cells;
      cells := cells[index := text];
      if text != [] {
        UpdateOtp(index, text[0]);
      } else {
        ClearOtp(index);
      }
      if textMode && Mirrors(before, beforeCells) {
        TextModeEditMirrors(before, beforeCells, index, text);
      }
    }

    /**
     * The last part of `afterTextChanged`: when every cell is filled `otp` is
     * recomposed from the cells and reported; the border flag follows.
     */
    method SignalCompletion() returns (completed: Option<string>)
      requires Valid()
      modifies this`otp, this`borderColorIsSet
      ensures AllFilled(cells) ==> otp == Concat(cells) && completed == Some(otp) && |otp| == |cells|
      ensures !AllFilled(cells) ==> completed == None && otp == old(otp)
      ensures borderColorIsSet == AllFilled(cells)
      ensures textMode && Mirrors(old(otp), cells) ==> Mirrors(otp, cells)
    {
      var complete := IsOtpComplete();
      if complete {
        otp := GetOtpFromFields();
        completed := Some(otp);
        borderColorIsSet := true;
        ConcatMirrors(cells);
      } else {
        completed := None;
        if borderColorIsSet {
          borderColorIsSet := false;
        }
      }
    }

    /**
     * `clearOtpInput()`: every EditText of every row is cleared, and the first
     * one found is asked for focus.
     */
    method ClearOtpInput() returns (focus: Option<nat>)
      requires Valid()
      modifies this`cells
      ensures Valid()
      ensures cells == seq(|old(cells)|, _ => [])
      ensures focus == if |cells| > 0 then Some(0) else None
    {
      var firstEditText: Option<nat> := None;
      if |cells| > 0 {
        LookupPlaced(rows, |cells|, maxCountPerLine, 0);
        assert |rows| > 0 && |rows[0]| > 0 && rows[0][0] == 0;
      }
      var i := 0;
      while i < |rows|
        invariant 0 <= i <= |rows|
        invariant Valid() && |cells| == |old(cells)|
        invariant forall r, c | 0 <= r < i && 0 <= c < |rows[r]| :: cells[rows[r][c]] == []
        invariant i == 0 ==> firstEditText == None
        invariant i > 0 && |cells| > 0 ==> firstEditText == Some(0)
        invariant |cells| == 0 ==> firstEditText == None
      {
        if |cells| > 0 {
          assert rows[Row(0, maxCountPerLine)][Col(0, maxCountPerLine)] == 0;
        }
        var j := 0;
        while j < |rows[i]|
          invariant 0 <= j <= |rows[i]|
          invariant Valid() && |cells| == |old(cells)|
          invariant forall r, c | 0 <= r < i && 0 <= c < |rows[r]| :: cells[rows[r][c]] == []
          invariant forall c | 0 <= c < j :: cells[rows[i][c]] == []
          invariant i == 0 && j == 0 ==> firstEditText == None
          invariant (i > 0 || j > 0) && |cells| > 0 ==> firstEditText == Some(0)
          invariant |cells| == 0 ==> firstEditText == None
        {
          var editText := rows[i][j];
          cells := cells[editText := []];
          if firstEditText.None? {
            firstEditText := Some(editText);
          }
          j := j + 1;
        }
        i := i + 1;
      }
      forall k | 0 <= k < |cells| ensures cells[k] == [] {
        assert rows[Row(k, maxCountPerLine)][Col(k, maxCountPerLine)] == k;
      }
      focus := firstEditText;
    }

    /**
     * `onOtpError(clearOtp)`: the cells are emptied when asked, and the border
     * flag is set whatever the cells hold.
     */
    method OnOtpError(clearOtp: bool) returns (focus: Option<nat>)
      requires Valid()
      modifies this`cells, this`borderColorIsSet
      ensures Valid() && borderColorIsSet
      ensures clearOtp ==> cells == seq(|old(cells)|, _ => [])
      ensures !clearOtp ==> cells == old(cells)
      ensures focus == if clearOtp && |cells| > 0 then Some(0) else None
    {
      focus := None;
      if clearOtp {
        focus := ClearOtpInput();
      }
      borderColorIsSet := true;
    }
  }
}
