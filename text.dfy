/** Trimming of surrounding whitespace, as Rust's `str::trim` does it: leading and
    trailing characters with the Unicode White_Space property are removed. */
module Text {

  /** The characters `char::is_whitespace` accepts. */
  predicate IsWhitespace(c: char) {
    ('\t' <= c <= '\r') || c == ' ' || c == '\U{85}' || c == '\U{A0}' || c == '\U{1680}'
    || ('\U{2000}' <= c <= '\U{200A}') || c == '\U{2028}' || c == '\U{2029}'
    || c == '\U{202F}' || c == '\U{205F}' || c == '\U{3000}'
  }

  /** The first index at or after `i` that does not hold whitespace (or `|s|`). */
  function SkipForward(s: string, i: nat): (k: nat)
    requires i <= |s|
    ensures i <= k <= |s|
    ensures forall j :: i <= j < k ==> IsWhitespace(s[j])
    ensures k < |s| ==> !IsWhitespace(s[k])
    decreases |s| - i
  {
    if i == |s| || !IsWhitespace(s[i]) then i else SkipForward(s, i + 1)
  }

  /** The end of `s[lo..hi]` once trailing whitespace is dropped. */
  function SkipBackward(s: string, lo: nat, hi: nat): (k: nat)
    requires lo <= hi <= |s|
    ensures lo <= k <= hi
    ensures forall j :: k <= j < hi ==> IsWhitespace(s[j])
    ensures k > lo ==> !IsWhitespace(s[k - 1])
    decreases hi
  {
    if hi == lo || !IsWhitespace(s[hi - 1]) then hi else SkipBackward(s, lo, hi - 1)
  }

  /** Where the trimmed text starts in `s`. */
  function TrimStart(s: string): nat {
    SkipForward(s, 0)
  }

  /** `s` with whitespace removed at both ends. The result is the part of `s` that starts
      at `TrimStart(s)`; everything cut away at either end is whitespace, the result
      neither starts nor ends with whitespace, and a text that does not start with
      whitespace keeps its first characters. */
  function Trim(s: string): (r: string)
    ensures var k := TrimStart(s);
      k + |r| <= |s| && r == s[k..k + |r|]
      && (forall j :: 0 <= j < k ==> IsWhitespace(s[j]))
      && (forall j :: k + |r| <= j < |s| ==> IsWhitespace(s[j]))
    ensures r == [] || (!IsWhitespace(r[0]) && !IsWhitespace(r[|r| - 1]))
    ensures |s| > 0 && !IsWhitespace(s[0]) ==> TrimStart(s) == 0 && r == s[..|r|]
  {
    var a := SkipForward(s, 0);
    var b := SkipBackward(s, a, |s|);
    s[a..b]
  }
}
