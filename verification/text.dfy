/** The few string operations of the Kotlin standard library the core relies on. */
module Text {
  import opened Wrappers

  /** Kotlin's `Char.isWhitespace()` on the JVM: `Character.isWhitespace` or
      `Character.isSpaceChar`, i.e. the Unicode space, line and paragraph
      separators together with the control characters U+0009..U+000D and
      U+001C..U+001F. */
  predicate IsWhitespace(c: char) {
    || ('\t' <= c <= '\r')
    || ('\U{001C}' <= c <= '\U{001F}')
    || c == ' '
    || c == '\U{00A0}'
    || c == '\U{1680}'
    || ('\U{2000}' <= c <= '\U{200A}')
    || c == '\U{2028}'
    || c == '\U{2029}'
    || c == '\U{202F}'
    || c == '\U{205F}'
    || c == '\U{3000}'
  }

  /** Kotlin's `isBlank()`, character by character from the front: blank
      exactly when every character is whitespace, the empty text included. */
  function IsBlank(s: string): (blank: bool)
    ensures blank <==> forall i :: 0 <= i < |s| ==> IsWhitespace(s[i])
    ensures |s| == 0 ==> blank
  {
    if |s| == 0 then true
    else IsWhitespace(s[0]) && IsBlank(s[1..])
  }

  /** The label a place shows in a search field:
      `displayName?.takeIf { it.isNotBlank() } ?: name`. */
  function PlaceLabel(name: Option<string>, displayName: Option<string>): (r: Option<string>)
    ensures displayName.Some? && !IsBlank(displayName.value) ==> r == displayName
    ensures (displayName.None? || IsBlank(displayName.value)) ==> r == name
    ensures r.Some? ==> r == name || !IsBlank(r.value)
  {
    var kept := if displayName.Some? && !IsBlank(displayName.value) then displayName else None;
    kept.OrElse(name)
  }

  /** The decimal digit for `d`. */
  function Digit(d: nat): (c: char)
    requires d < 10
    ensures '0' <= c <= '9'
    ensures c as int - '0' as int == d
  {
    ('0' as int + d) as char
  }

  /** The value of a decimal digit character. */
  function DigitValue(c: char): int {
    c as int - '0' as int
  }

  /** The value of a decimal numeral, read most significant digit first. */
  function DecimalValue(s: string): int
    decreases |s|
  {
    if |s| == 0 then 0 else 10 * DecimalValue(s[..|s| - 1]) + DigitValue(s[|s| - 1])
  }

  /** Kotlin's `Int.toString()` for a non-negative value: digits only, no
      leading zero, reading back as `n`. */
  function DecimalString(n: nat): (s: string)
    ensures 1 <= |s|
    ensures forall i :: 0 <= i < |s| ==> '0' <= s[i] <= '9'
    ensures |s| > 1 ==> s[0] != '0'
    ensures n < 10 <==> |s| == 1
    ensures DecimalValue(s) == n
  {
    if n < 10 then [Digit(n)] else DecimalString(n / 10) + [Digit(n % 10)]
  }

  /** Leading zeros do not change the value of a numeral. */
  lemma {:induction false} LeadingZerosKeepValue(zeros: string, s: string)
    requires forall i :: 0 <= i < |zeros| ==> zeros[i] == '0'
    ensures DecimalValue(zeros + s) == DecimalValue(s)
    decreases |s|, |zeros|
  {
    if |s| == 0 {
      assert zeros + s == zeros;
      if |zeros| > 0 {
        LeadingZerosKeepValue(zeros[..|zeros| - 1], s);
        assert zeros[..|zeros| - 1] + s == zeros[..|zeros| - 1];
      }
    } else {
      assert (zeros + s)[..|zeros + s| - 1] == zeros + s[..|s| - 1];
      LeadingZerosKeepValue(zeros, s[..|s| - 1]);
    }
  }

  /** Kotlin's `padStart(length, pad)`: prefix `pad` until `s` is `length` long. */
  function PadStart(s: string, length: nat, pad: char): (r: string)
    ensures |r| == if |s| < length then length else |s|
    ensures r[|r| - |s|..] == s
    ensures forall i :: 0 <= i < |r| - |s| ==> r[i] == pad
  {
    if |s| >= length then s else seq(length - |s|, _ => pad) + s
  }
}
