/**
 * The string primitives the library relies on: ordinal case-insensitive
 * comparison (`EqualsIgnoreCase`, `EndsWithIgnoreCase`,
 * `StringComparer.OrdinalIgnoreCase`) and `string.Trim`.
 */
module Strings {

  /**
   * Case folding of one UTF-16 code unit, as the ordinal ignore-case
   * comparison does it. It stands in for the invariant upper-case mapping
   * and folds the ASCII letters only; nothing proved about the dictionary or
   * the path helpers depends on which characters it folds.
   */
  function FoldChar(c: char): char
  {
    if 'a' <= c <= 'z' then (c as int - 32) as char else c
  }

  /** The folded form of a string: two strings are equal ignoring case iff their folds are equal. */
  function Fold(s: string): (r: string)
    ensures |r| == |s|
  {
    seq(|s|, i requires 0 <= i < |s| => FoldChar(s[i]))
  }

  predicate EqualsIgnoreCase(a: string, b: string)
  {
    Fold(a) == Fold(b)
  }

  /** `s` ends with `suffix`, comparing the last `|suffix|` code units ignoring case. */
  predicate EndsWithIgnoreCase(s: string, suffix: string)
  {
    |suffix| <= |s| && EqualsIgnoreCase(s[|s| - |suffix|..], suffix)
  }

  /** Any string ends with itself appended to something, ignoring case. */
  lemma EndsWithAppended(prefix: string, suffix: string)
    ensures EndsWithIgnoreCase(prefix + suffix, suffix)
  {
    assert (prefix + suffix)[|prefix + suffix| - |suffix|..] == suffix;
  }

  /** `char.IsWhiteSpace`: the Unicode space separators, line and paragraph separators, and the control characters U+0009 to U+000D and U+0085. */
  predicate IsWhiteSpace(c: char)
  {
    || '\t' <= c <= '\r'
    || c == ' '
    || c == '\U{85}'
    || c == '\U{A0}'
    || c == '\U{1680}'
    || '\U{2000}' <= c <= '\U{200A}'
    || c == '\U{2028}'
    || c == '\U{2029}'
    || c == '\U{202F}'
    || c == '\U{205F}'
    || c == '\U{3000}'
  }

  /** Every character of `s` is white space (the empty string included). */
  predicate IsBlank(s: string)
  {
    forall i | 0 <= i < |s| :: IsWhiteSpace(s[i])
  }

  function TrimStart(s: string): (r: string)
    ensures r != [] ==> !IsWhiteSpace(r[0])
    ensures r == [] <==> IsBlank(s)
  {
    if s != [] && IsWhiteSpace(s[0]) then TrimStart(s[1..]) else s
  }

  function TrimEnd(s: string): (r: string)
    ensures r == [] <==> IsBlank(s)
  {
    if s != [] && IsWhiteSpace(s[|s| - 1]) then TrimEnd(s[..|s| - 1]) else s
  }

  /** `string.Trim()`: white space removed from both ends. */
  function Trim(s: string): string
  {
    TrimEnd(TrimStart(s))
  }

  /** `string.IsNullOrEmpty(s.Trim())` holds exactly for the strings made of white space only. */
  lemma {:induction false} TrimEmptyIffBlank(s: string)
    ensures Trim(s) == [] <==> IsBlank(s)
  {
    var t := TrimStart(s);
    if t != [] {
      assert !IsWhiteSpace(t[0]);
      assert !IsBlank(t);
    }
  }
}
