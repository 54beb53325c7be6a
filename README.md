# OtpView: a verified model of the OTP widget's code composition

The repository is an Android widget for entering a one-time passcode: a grid of
single-character EditTexts, wrapped into rows of `maxCountPerLine`, whose
per-cell text watchers keep a composed `otp` string, move the input focus to the
next or previous cell, and fire a completion event when every cell is filled.
This project models that logic of `OTPView.kt` in Dafny and proves what the code
promises about it.

- `wrappers.dfy` — `Option`, for the widget's nullable lookups.
- `attributes.dfy` (module `Attributes`) — the `< 1 → 4` coercion of the two
  counts, the `inputType` attribute (only "number", in any letter case, selects
  number mode; an absent attribute selects text mode) and `resolveTextStyle`.
- `grid.dfy` (module `Grid`) — the view tree of `addEditTexts` as a sequence of
  rows of cell indices; the row/column arithmetic; `getChildAt`, which answers
  null out of range; `getNextEditText` / `getPreviousEditText`; and the focus
  decision of `afterTextChanged`.
- `otp_text.dfy` (module `OtpText`) — Kotlin's `padEnd`, `trim` and
  `Char.isWhitespace`, the strings `updateOtp` and `clearOtp` leave, and the
  in-order concatenation `getOtpFromFields` builds.
- `otp_view.dfy` (module `OtpWidget`) — class `OtpView` with the fields the
  watchers update (`cells`, `rows`, `otp`, `borderColorIsSet`, `squareCount`,
  `maxCountPerLine`, and `textMode` for `inputType == TYPE_CLASS_TEXT`), and
  the methods `afterTextChanged`, `updateOtp`, `clearOtp`, `isOtpComplete`,
  `getOtpFromFields`, `clearOtpInput`, `onOtpError`, `setSquareCount`,
  `setInputType` and the constructor (`init`).

The user's edit of a cell is the first step of `OtpView.AfterTextChanged`
(`cells[index] := text`); the rest is the watcher's body. Focus requests
(`requestFocus`) are returned as the index of the cell asked for focus, and the
call of `completionListener?.onComplete(otp)` is returned as `Some(otp)`.

Points of the code's behaviour the model keeps:

- The completion event fires on every edit that leaves all cells filled;
  `otp` is then recomposed from the cells. The border flag is cleared on the
  first edit that leaves a cell empty, and nothing else is reported then.
- `otp` is a string that `updateOtp` pads with spaces and, in number mode,
  trims after an in-range update. Blanks standing for empty leading cells then
  disappear, and later characters move to lower positions
  (`OtpText.NumberModeShift`). The widget never exposes
  `otp` outside the completion event, and it recomposes `otp` from the cells
  before that event, so the event always carries the correct code. In text
  mode `otp` keeps mirroring the cells (`OtpText.TextModeEditMirrors`).
- `setSquareCount` does not coerce: a count of 0 or less gives no cells. It
  rebuilds the cells, all empty, only when the count changes, and it leaves
  `otp` and the border flag as they were.
- A watcher only exists for an index that has a cell, so `AfterTextChanged`
  requires `index < |cells|`; the code has no check of its own for other
  indices.

## Model

| member | source | states |
|---|---|---|
| Attributes.CoerceCount | OTPView/src/main/java/com/matrix/otpview/OTPView.kt:76-78 | the count is at least 1; it is the attribute exactly when the attribute is at least 1, and 4 otherwise (the same rule serves `maxCountPerLine` at lines 103-105) |
| Attributes.TextModeFromAttr | OTPView/src/main/java/com/matrix/otpview/OTPView.kt:96-97 | number mode exactly when the attribute is present and equals "number" letter by letter after lower-casing; otherwise text mode |
| Attributes.InputTypeExamples | OTPView/src/main/java/com/matrix/otpview/OTPView.kt:96-97 | an absent attribute gives text mode; "number" and "Number" give number mode; "numbers" and "text" do not |
| Attributes.ResolveTextStyle | OTPView/src/main/java/com/matrix/otpview/OTPView.kt:206-216 | BOLD, ITALIC and BOLD_ITALIC exactly for the names "bold", "italic" and "bold_italic"; NORMAL for anything else, an absent or empty name included |
| Attributes.ResolveStyleName | OTPView/src/main/java/com/matrix/otpview/OTPView.kt:206-216 | every style is what its own name resolves to, and distinct styles have distinct Typeface constants |
| Grid.AddressRoundTrip | OTPView/src/main/java/com/matrix/otpview/OTPView.kt:169-170 | column `i % maxCountPerLine` is below `maxCountPerLine` and `row * maxCountPerLine + col == i` |
| Grid.AddressUnique | OTPView/src/main/java/com/matrix/otpview/OTPView.kt:533-539 | a (row, col) pair with `col < maxCountPerLine` is the address of exactly the index `row * maxCountPerLine + col` |
| Grid.NextAddress | OTPView/src/main/java/com/matrix/otpview/OTPView.kt:169-178 | moving from cell `i` to `i + 1` stays in the row at the next column, or starts the next row at column 0 exactly when the row is full |
| Grid.PlacedNewRow | OTPView/src/main/java/com/matrix/otpview/OTPView.kt:170-178 | when `i % maxCountPerLine == 0`, a new row holding cell `i` keeps every cell at its address |
| Grid.PlacedSameRow | OTPView/src/main/java/com/matrix/otpview/OTPView.kt:180-201 | appending cell `i` to the current row keeps every cell at its address |
| Grid.AddEditTexts | OTPView/src/main/java/com/matrix/otpview/OTPView.kt:166-202 | the loop builds a view tree in which cell `i` sits at row `i / maxCountPerLine`, column `i % maxCountPerLine`, for every `i < squareCount`, every slot holds the cell whose address it is, and the tree has no more rows, and its last row no more slots, than the last cell needs |
| Grid.LookupPlaced | OTPView/src/main/java/com/matrix/otpview/OTPView.kt:574-577 | looking up the address of index `j` in the tree finds cell `j` when `j < squareCount`, and nothing otherwise |
| Grid.NextEditText | OTPView/src/main/java/com/matrix/otpview/OTPView.kt:533-540 | the lookup finds an EditText exactly when the tree has a slot at the address of `index + 1`; in a placed tree that is cell `index + 1` (`Grid.NeighbourLookup`) |
| Grid.PreviousEditText | OTPView/src/main/java/com/matrix/otpview/OTPView.kt:542-549 | the address of `index - 1` taken with Kotlin's truncating `/` and `%`: for `index == 0` it is off the grid, so the lookup is null, whatever `maxCountPerLine` is; for `index > 0` it is the ordinary row and column of `index - 1` |
| Grid.NeighbourLookup | OTPView/src/main/java/com/matrix/otpview/OTPView.kt:533-549 | `getNextEditText(index)` finds exactly cell `index + 1` when it exists, and `getPreviousEditText(index)` exactly cell `index - 1` when it exists |
| Grid.FocusTarget | OTPView/src/main/java/com/matrix/otpview/OTPView.kt:510-516 | the target is `index + 1` exactly when the text has length 1 and `index < squareCount - 1`, `index - 1` exactly when the text is empty and `index > 0`, none otherwise, and always a cell index below `squareCount` |
| OtpText.PadEnd | OTPView/src/main/java/com/matrix/otpview/OTPView.kt:556 | the result has length `max(|s|, length)`, starts with `s`, and is the pad character after it |
| OtpText.Trim | OTPView/src/main/java/com/matrix/otpview/OTPView.kt:560 | the result starts where the leading whitespace ends, is followed only by whitespace, and has no whitespace at either end |
| OtpText.TrimUnique | OTPView/src/main/java/com/matrix/otpview/OTPView.kt:560 | for whitespace `a` and `b` and a part `r` without whitespace at its ends, `trim(a + r + b) == r` |
| OtpText.TrimNoEdge | OTPView/src/main/java/com/matrix/otpview/OTPView.kt:560 | a string without whitespace at its ends is its own trim |
| OtpText.TrimIdempotent | OTPView/src/main/java/com/matrix/otpview/OTPView.kt:560 | trimming twice is trimming once |
| OtpText.UpdatedOtp | OTPView/src/main/java/com/matrix/otpview/OTPView.kt:551-562 | in range and in text mode only position `index` changes, to the character, and the length stays; in range and in number mode the result is the trimmed updated string; out of range the result has length `index + 1`, keeps the old `otp` as prefix, is spaces up to `index` and the character at `index` |
| OtpText.ClearedOtp | OTPView/src/main/java/com/matrix/otpview/OTPView.kt:564-570 | the length never changes; in range only position `index` changes, to a space; out of range `otp` is unchanged |
| OtpText.ConcatFilled | OTPView/src/main/java/com/matrix/otpview/OTPView.kt:583-593 | when every cell holds one character, the composed code has one character per cell, cell `k`'s at position `k` |
| OtpText.TextModeEditMirrors | OTPView/src/main/java/com/matrix/otpview/OTPView.kt:504-508 | in text mode, an edit applied through `updateOtp` or `clearOtp` keeps `otp` holding each cell's character (a space for an empty cell) at that cell's position |
| OtpText.ConcatMirrors | OTPView/src/main/java/com/matrix/otpview/OTPView.kt:518-520 | the code recomposed on completion holds each cell's character at that cell's position |
| OtpText.NumberModeShift | OTPView/src/main/java/com/matrix/otpview/OTPView.kt:559-561 | in number mode, with `otp` "  56" for cells 2 and 3, filling cell 1 with '7' gives "756": the blank of cell 0 is trimmed away and the characters no longer sit at their cells' positions |
| OtpWidget.OtpView.constructor | OTPView/src/main/java/com/matrix/otpview/OTPView.kt:66-113 | both counts coerced, text mode from the attribute, `squareCount` empty cells placed row by row, empty `otp`, flag clear |
| OtpWidget.OtpView.SetInputType | OTPView/src/main/java/com/matrix/otpview/OTPView.kt:310-313 | text mode exactly for TYPE_CLASS_TEXT |
| OtpWidget.OtpView.SetSquareCount | OTPView/src/main/java/com/matrix/otpview/OTPView.kt:319-328 | the count is taken uncoerced; the cells are rebuilt, all empty and placed, only when it changes; nothing else changes |
| OtpWidget.OtpView.UpdateOtp | OTPView/src/main/java/com/matrix/otpview/OTPView.kt:551-562 | the new `otp` is `UpdatedOtp` of the old one, in the current mode |
| OtpWidget.OtpView.ClearOtp | OTPView/src/main/java/com/matrix/otpview/OTPView.kt:564-570 | the new `otp` is `ClearedOtp` of the old one |
| OtpWidget.OtpView.IsOtpComplete | OTPView/src/main/java/com/matrix/otpview/OTPView.kt:572-581 | true exactly when every one of the `squareCount` cells, found through the view tree, is non-empty |
| OtpWidget.OtpView.GetOtpFromFields | OTPView/src/main/java/com/matrix/otpview/OTPView.kt:583-593 | the in-order concatenation of the cell texts; when all are filled it has length `squareCount`, cell `k`'s character at position `k` |
| OtpWidget.OtpView.AfterTextChanged | OTPView/src/main/java/com/matrix/otpview/OTPView.kt:504-527 | only cell `index` changes; the focus target as in `FocusTarget`; the border flag equals completeness afterwards; when complete, `otp` is the composed code of length `squareCount` and the completion event carries it; otherwise no event and `otp` is updated or cleared at `index`; in text mode `otp` keeps mirroring the cells |
| OtpWidget.OtpView.RecordEdit | OTPView/src/main/java/com/matrix/otpview/OTPView.kt:504-507 | the edited cell takes its new text and no other cell changes; `otp` is updated at `index` with the first character, or cleared there when the text is empty; in text mode `otp` keeps mirroring the cells |
| OtpWidget.OtpView.SignalCompletion | OTPView/src/main/java/com/matrix/otpview/OTPView.kt:518-526 | when every cell is filled, `otp` becomes the code composed from the cells, one character per cell, and the completion event carries it; otherwise no event and `otp` unchanged; the border flag equals completeness afterwards |
| OtpWidget.OtpView.ClearOtpInput | OTPView/src/main/java/com/matrix/otpview/OTPView.kt:475-491 | every cell is empty, the number of cells is unchanged, and focus goes to cell 0 when there is one |
| OtpWidget.OtpView.OnOtpError | OTPView/src/main/java/com/matrix/otpview/OTPView.kt:465-473 | the cells are emptied exactly when asked, and the border flag is set whatever the cells hold |

## Left out

- Views, layout parameters, sizes and the `autoSize` branch of `addEditTexts`
  (lines 131-162 place cells exactly like the other branch), `updateEditTextsLayout`,
  `resolveAvailableWidth` / `Height`: rendering with float dimensions.
- Drawables, colours, typefaces and fonts (`createBackgroundDrawable`,
  `updateEditTextsBackground`, `updateEditTextsTextSize`, `updateEditTextsTextColor`,
  `setCustomFont`, the colour and size setters): rendering calls. `resolveTextStyle`
  is modelled, its `Typeface.create` use is not.
- `updateOnCompleteBorderColor`: it repaints with a colour and then restores
  `borderColor`; no colour is part of the model.
- `shakeAnimation` and `vibrate`: animation and system-service calls.
- `requestFocus`: returned as the index of the cell to focus; the toolkit's
  delivery of focus is not modelled.
- OtpWidget.OtpView.ClearOtpInput: empties the cells only; the watcher callbacks
  the toolkit delivers for each cleared EditText (which would also blank `otp`
  position by position) are toolkit event delivery and are not modelled.
- Attribute reading through `obtainStyledAttributes`: the attribute values are
  constructor parameters; only the count coercions and the input type are modelled.
- Attributes.TextModeFromAttr: lower-cases ASCII letters only; no other letter
  lower-cases to one of the letters of "number", so the comparison is the same.
- The watchers' `beforeTextChanged` and `onTextChanged` do nothing.
- The `InputFilter.LengthFilter(1)` itself: the toolkit enforces it, so the model
  requires the text of an edited cell to have at most one character.
- Kotlin characters are UTF-16 code units; the model's characters are Unicode
  scalar values. No rule of the model depends on the difference.
- `MainActivity.kt` (`app/src/main/java/com/matrix/testproject/MainActivity.kt`)
  only wires the widget and compares the code with a fixed string.
