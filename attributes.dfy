/**
 * The parts of the widget's attribute handling that are logic rather than
 * rendering: the coercion of the two counts, the choice of input type and the
 * text-style name to typeface-style mapping.
 */
module Attributes {
  import opened Wrappers

  /** Default for `squareCount` and `maxCountPerLine`. */
  const DEFAULT_COUNT: int := 4

  /** `InputType.TYPE_CLASS_TEXT` and `InputType.TYPE_CLASS_NUMBER`. */
  const TYPE_CLASS_TEXT: int := 1
  const TYPE_CLASS_NUMBER: int := 2

  /** `getInt(..., 4).let { if (it < 1) 4 else it }`: a count below 1 becomes the default. */
  function CoerceCount(attr: int): (n: int)
    ensures n >= 1
    ensures n == attr <==> attr >= 1
    ensures n != attr ==> n == DEFAULT_COUNT
  {
    if attr < 1 then DEFAULT_COUNT else attr
  }

  /** `Char.lowercaseChar()` restricted to ASCII letters. */
  function LowerChar(c: char): char
  {
    if 'A' <= c <= 'Z' then (c as int + 32) as char else c
  }

  function Lowercase(s: string): string
  {
    seq(|s|, k requires 0 <= k < |s| => LowerChar(s[k]))
  }

  /**
   * Whether the `inputType` attribute leaves the widget in text mode: only the
   * string "number", in any letter case, selects number mode, so an absent
   * attribute means text mode.
   */
  function TextModeFromAttr(inputType: Option<string>): (textMode: bool)
    ensures !textMode <==>
              && inputType.Some? && |inputType.value| == 6
              && forall k | 0 <= k < 6 :: LowerChar(inputType.value[k]) == "number"[k]
  {
    !(inputType.Some? && Lowercase(inputType.value) == "number")
  }

  /** An absent attribute gives text mode; "number" and "Number" give number mode; "numbers" does not. */
  lemma InputTypeExamples()
    ensures TextModeFromAttr(None)
    ensures !TextModeFromAttr(Some("number")) && !TextModeFromAttr(Some("Number"))
    ensures TextModeFromAttr(Some("numbers")) && TextModeFromAttr(Some("text"))
  {
    assert "Number"[0] == 'N';
    assert "text"[0] != "number"[0];
  }

  /** `android.graphics.Typeface` styles. */
  datatype TypefaceStyle = Normal | Bold | Italic | BoldItalic
  {
    /** The `Typeface` constant the style stands for. */
    function Code(): int
    {
      match this
      case Normal => 0
      case Bold => 1
      case Italic => 2
      case BoldItalic => 3
    }
  }

  /** `resolveTextStyle()`: the three style names map to their styles, anything else to NORMAL. */
  function ResolveTextStyle(textStyle: Option<string>): (style: TypefaceStyle)
    ensures style == Bold <==> textStyle == Some("bold")
    ensures style == Italic <==> textStyle == Some("italic")
    ensures style == BoldItalic <==> textStyle == Some("bold_italic")
  {
    if textStyle.Some? && textStyle.value != "" then
      if textStyle.value == "bold" then Bold
      else if textStyle.value == "italic" then Italic
      else if textStyle.value == "bold_italic" then BoldItalic
      else Normal
    else
      Normal
  }

  /** The attribute value that selects a style (NORMAL is what an empty value selects). */
  function StyleName(style: TypefaceStyle): string
  {
    match style
    case Normal => ""
    case Bold => "bold"
    case Italic => "italic"
    case BoldItalic => "bold_italic"
  }

  /** Every style is selected by its name, and distinct styles have distinct constants. */
  lemma ResolveStyleName(style: TypefaceStyle)
    ensures ResolveTextStyle(Some(StyleName(style))) == style
    ensures forall other: TypefaceStyle :: other.Code() == style.Code() ==> other == style
  {
  }
}
