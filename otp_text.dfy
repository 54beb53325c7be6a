/**
 * The string surgery the per-cell watcher performs on the widget's `otp`
 * string: Kotlin's `padEnd` and `trim`, and the results of `updateOtp` and
 * `clearOtp`.
 */
module OtpText {

  /**
   * Kotlin's `Char.isWhitespace()` on the JVM, `Character.isWhitespace` or
   * `Character.isSpaceChar`: the controls U+0009..U+000D and U+001C..U+001F and
   * the space, line and paragraph separators.
   */
  predicate IsWhitespace(c: char)
  {
    || '\t' <= c <= '\r'
    || '\U{1C}' <= c <= ' '
    || c == '\U{A0}' || c == '\U{1680}'
    || '\U{2000}' <= c <= '\U{200A}'
    || c == '\U{2028}' || c == '\U{2029}' || c == '\U{202F}' || c == '\U{205F}' || c == '\U{3000}'
  }

  predicate AllWhitespace(s: string)
  {
    forall k | 0 <= k < |s| :: IsWhitespace(s[k])
  }

  /** Neither end of `s` is whitespace. */
  predicate NoEdgeWhitespace(s: string)
  {
    s == [] || (!IsWhitespace(s[0]) && !IsWhitespace(s[|s| - 1]))
  }

  /** `s.padEnd(length, padChar)`: `s` unchanged when long enough, else extended with `padChar`. */
  function PadEnd(s: string, length: nat, padChar: char): (r: string)
    ensures |r| == if length <= |s| then |s| else length
    ensures r[..|s|] == s
    ensures forall k | |s| <= k < |r| :: r[k] == padChar
  {
    if length <= |s| then s else s + seq(length - |s|, _ => padChar)
  }

  /** Number of whitespace characters at the front of `s`. */
  function LeadingWhitespace(s: string): (n: nat)
    ensures n <= |s| && AllWhitespace(s[..n])
    ensures n == |s| || !IsWhitespace(s[n])
  {
    if s != [] && IsWhitespace(s[0]) then 1 + LeadingWhitespace(s[1..]) else 0
  }

  /** Number of whitespace characters at the back of `s`. */
  function TrailingWhitespace(s: string): (n: nat)
    ensures n <= |s| && AllWhitespace(s[|s| - n..])
    ensures n == |s| || !IsWhitespace(s[|s| - 1 - n])
  {
    if s != [] && IsWhitespace(s[|s| - 1]) then 1 + TrailingWhitespace(s[..|s| - 1]) else 0
  }

  /**
   * `r` is `s` with its leading and trailing whitespace removed: it starts where
   * the leading whitespace of `s` ends, everything after it is whitespace, and
   * it has no whitespace at either end.
   */
  ghost predicate IsTrimOf(r: string, s: string)
  {
    var n := LeadingWhitespace(s);
    && NoEdgeWhitespace(r)
    && n + |r| <= |s|
    && r == s[n..n + |r|]
    && AllWhitespace(s[n + |r|..])
  }

  /**
   * `s.trim()`: the part of `s` between its leading and its trailing whitespace.
   * The result starts where the leading whitespace ends, everything after it
   * is whitespace, and it has no whitespace at either end.
   */
  function Trim(s: string): (r: string)
    ensures |r| <= |s|
    ensures IsTrimOf(r, s)
  {
    var t := s[LeadingWhitespace(s)..];
    var r := t[..|t| - TrailingWhitespace(t)];
    assert r == [] || r[0] == t[0];
    assert s[LeadingWhitespace(s) + |r|..] == t[|r|..];
    r
  }

  /** Whitespace followed by a part that does not start with whitespace: the leading run is exactly the former. */
  lemma {:induction false} LeadingOf(a: string, r: string)
    requires AllWhitespace(a)
    requires r == [] || !IsWhitespace(r[0])
    ensures LeadingWhitespace(a + r) == |a|
  {
    if a != [] {
      assert (a + r)[1..] == a[1..] + r;
      LeadingOf(a[1..], r);
    } else {
      assert a + r == r;
    }
  }

  /** A part that does not end in whitespace followed by whitespace: the trailing run is exactly the latter. */
  lemma {:induction false} TrailingOf(r: string, b: string)
    requires AllWhitespace(b)
    requires r != [] && !IsWhitespace(r[|r| - 1])
    ensures TrailingWhitespace(r + b) == |b|
  {
    if b != [] {
      assert (r + b)[..|r + b| - 1] == r + b[..|b| - 1];
      TrailingOf(r, b[..|b| - 1]);
    } else {
      assert r + b == r;
    }
  }

  /** A string made of whitespace only is all leading and all trailing whitespace. */
  lemma {:induction false} AllWhitespaceCounts(s: string)
    requires AllWhitespace(s)
    ensures LeadingWhitespace(s) == |s| && TrailingWhitespace(s) == |s|
  {
    if s != [] {
      AllWhitespaceCounts(s[1..]);
      AllWhitespaceCounts(s[..|s| - 1]);
    }
  }

  /** Whitespace, then a part without whitespace at its ends, then whitespace: trimming keeps exactly that part. */
  lemma {:induction false} TrimUnique(a: string, r: string, b: string)
    requires AllWhitespace(a) && AllWhitespace(b) && NoEdgeWhitespace(r)
    ensures Trim(a + r + b) == r
  {
    var s := a + r + b;
    if r == [] {
      assert s == a + b;
      assert AllWhitespace(s);
      AllWhitespaceCounts(s);
    } else {
      assert s == a + (r + b);
      LeadingOf(a, r + b);
      assert s[|a|..] == r + b;
      TrailingOf(r, b);
      assert (r + b)[..|r|] == r;
    }
  }

  /** A string without whitespace at its ends is its own trim. */
  lemma TrimNoEdge(s: string)
    requires NoEdgeWhitespace(s)
    ensures Trim(s) == s
  {
    TrimUnique([], s, []);
    assert [] + s + [] == s;
  }

  /** Trimming twice is trimming once. */
  lemma TrimIdempotent(s: string)
    ensures Trim(Trim(s)) == Trim(s)
  {
    TrimNoEdge(Trim(s));
  }

  /**
   * The `otp` string that `updateOtp(index, c)` leaves. In range, position
   * `index` becomes `c`; in text mode nothing else changes, in number mode the
   * result is then trimmed. Out of range, `otp` is padded with spaces up to
   * `index` and `c` appended, with no trimming.
   */
  function UpdatedOtp(otp: string, index: nat, c: char, textMode: bool): (r: string)
    ensures index < |otp| && textMode ==>
              && |r| == |otp| && r[index] == c
              && forall k | 0 <= k < |otp| && k != index :: r[k] == otp[k]
    ensures index < |otp| && !textMode ==> IsTrimOf(r, otp[index := c])
    ensures |otp| <= index ==>
              && |r| == index + 1 && r[..|otp|] == otp && r[index] == c
              && forall k | |otp| <= k < index :: r[k] == ' '
  {
    if index < |otp| then
      if textMode then otp[index := c] else Trim(otp[index := c])
    else
      PadEnd(otp, index, ' ') + [c]
  }

  /**
   * The `otp` string that `clearOtp(index)` leaves: the same length, with
   * position `index` turned into a space when it exists.
   */
  function ClearedOtp(otp: string, index: nat): (r: string)
    ensures |r| == |otp|
    ensures index < |otp| ==>
              r[index] == ' ' && forall k | 0 <= k < |otp| && k != index :: r[k] == otp[k]
    ensures |otp| <= index ==> r == otp
  {
    if index < |otp| then otp[index := ' '] else otp
  }

  /** `getOtpFromFields`: the texts of the cells, in order. */
  function Concat(cells: seq<string>): string
  {
    if cells == [] then [] else Concat(cells[..|cells| - 1]) + cells[|cells| - 1]
  }

  /** With every cell holding one character, the composed code has one character per cell, in order. */
  lemma {:induction false} ConcatFilled(cells: seq<string>)
    requires forall k | 0 <= k < |cells| :: |cells[k]| == 1
    ensures |Concat(cells)| == |cells|
    ensures forall k | 0 <= k < |cells| :: Concat(cells)[k] == cells[k][0]
  {
    if cells != [] {
      ConcatFilled(cells[..|cells| - 1]);
    }
  }

  /** The character a cell stands for in `otp`: its text, or a space when it is empty. */
  function CellChar(cell: string): char
  {
    if cell == [] then ' ' else cell[0]
  }

  /**
   * `otp` mirrors the cells: position `k` holds the character of cell `k`, and
   * every cell past the end of `otp` is empty.
   */
  ghost predicate Mirrors(otp: string, cells: seq<string>)
  {
    && |otp| <= |cells|
    && (forall k | 0 <= k < |otp| :: otp[k] == CellChar(cells[k]))
    && (forall k | |otp| <= k < |cells| :: cells[k] == [])
  }

  /** In text mode one cell edit, applied to `otp` by `updateOtp` or `clearOtp`, keeps `otp` mirroring the cells. */
  lemma {:induction false} TextModeEditMirrors(otp: string, cells: seq<string>, index: nat, text: string)
    requires Mirrors(otp, cells) && index < |cells| && |text| <= 1
    ensures Mirrors(if text != [] then UpdatedOtp(otp, index, text[0], true) else ClearedOtp(otp, index),
                    cells[index := text])
  {
    var cells' := cells[index := text];
    if text != [] {
      var otp' := UpdatedOtp(otp, index, text[0], true);
      forall k | 0 <= k < |otp'| ensures otp'[k] == CellChar(cells'[k]) {
        if k < |otp| && k != index {
          assert otp'[k] == otp[k];
        } else if k != index {
          assert otp'[k] == ' ' && cells'[k] == cells[k] == [];
        }
      }
    }
  }

  /** A complete code mirrors the cells it was composed from. */
  lemma ConcatMirrors(cells: seq<string>)
    requires forall k | 0 <= k < |cells| :: |cells[k]| == 1
    ensures Mirrors(Concat(cells), cells)
  {
    ConcatFilled(cells);
  }

  /**
   * In number mode the mirror breaks: with cells 2 and 3 filled first (`otp`
   * is "  56"), filling cell 1 trims the leading blank away, so the character
   * of cell 1 lands at position 0 and the others move one place left.
   */
  lemma NumberModeShift()
    ensures Mirrors("  56", ["", "", "5", "6"])
    ensures UpdatedOtp("  56", 1, '7', false) == "756"
    ensures !Mirrors(UpdatedOtp("  56", 1, '7', false), ["", "7", "5", "6"])
  {
    assert "  56"[1 := '7'] == " " + "756" + "";
    TrimUnique(" ", "756", "");
  }
}
