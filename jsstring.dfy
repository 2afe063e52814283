/**
 * String.prototype.trim as ECMAScript defines it (section 22.1.3.32 of
 * ECMA-262, with the WhiteSpace and LineTerminator code points of
 * sections 12.2 and 12.3): leading and trailing white space and line
 * terminators are removed, nothing else is touched.
 */
module JsString {

  /** The code points ECMAScript treats as WhiteSpace or LineTerminator. */
  predicate IsWhitespace(c: char)
  {
    || c == '\t' || c == '\n' || c == '\U{000B}' || c == '\U{000C}' || c == '\r'
    || c == ' ' || c == '\U{00A0}' || c == '\U{1680}'
    || ('\U{2000}' <= c <= '\U{200A}')
    || c == '\U{2028}' || c == '\U{2029}' || c == '\U{202F}' || c == '\U{205F}'
    || c == '\U{3000}' || c == '\U{FEFF}'
  }

  /** Every character of `s` in positions [lo, hi) is white space. */
  ghost predicate WhitespaceBetween(s: string, lo: int, hi: int)
  {
    forall k :: lo <= k < hi && 0 <= k < |s| ==> IsWhitespace(s[k])
  }

  ghost predicate WhitespaceOnly(s: string)
  {
    WhitespaceBetween(s, 0, |s|)
  }

  /** Neither end of `s` is white space. */
  ghost predicate IsTrimmed(s: string)
  {
    s == [] || (!IsWhitespace(s[0]) && !IsWhitespace(s[|s| - 1]))
  }

  /** `r` is `s` with some white space cut off each end. */
  ghost predicate StripsTo(s: string, r: string)
  {
    exists i :: 0 <= i <= |s| - |r| && IsStripAt(s, r, i)
  }

  /** `r` sits in `s` at position `i` with only white space around it. */
  ghost predicate IsStripAt(s: string, r: string, i: int)
    requires 0 <= i <= |s| - |r|
  {
    s[i..i + |r|] == r && WhitespaceBetween(s, 0, i) && WhitespaceBetween(s, i + |r|, |s|)
  }

  /** Where the text of `s` starts when scanning forward from `i`. */
  function SkipLeading(s: string, i: nat): (k: nat)
    requires i <= |s|
    ensures i <= k <= |s|
    ensures WhitespaceBetween(s, i, k)
    ensures k < |s| ==> !IsWhitespace(s[k])
    decreases |s| - i
  {
    if i < |s| && IsWhitespace(s[i]) then SkipLeading(s, i + 1) else i
  }

  /** Where the text of `s` ends when scanning back from `j`, never
      going below `lo`. */
  function SkipTrailing(s: string, lo: nat, j: nat): (k: nat)
    requires lo <= j <= |s|
    ensures lo <= k <= j
    ensures WhitespaceBetween(s, k, j)
    ensures k > lo ==> !IsWhitespace(s[k - 1])
    decreases j
  {
    if j > lo && IsWhitespace(s[j - 1]) then SkipTrailing(s, lo, j - 1) else j
  }

  /** `s.trim()`: white space is removed from the start, then from the end
      of what is left. */
  function Trim(s: string): (r: string)
    ensures IsTrimmed(r)
    ensures StripsTo(s, r)
  {
    var start := SkipLeading(s, 0);
    var end := SkipTrailing(s, start, |s|);
    assert IsStripAt(s, s[start..end], start);
    s[start..end]
  }

  /** A trimmed strip of `s` is the result of `trim`: the two predicates
      above determine it. */
  lemma TrimUnique(s: string, t: string)
    requires StripsTo(s, t) && IsTrimmed(t)
    ensures t == Trim(s)
  {
  }

  /** Trimming twice is trimming once. */
  lemma TrimIdempotent(s: string)
    ensures Trim(Trim(s)) == Trim(s)
  {
  }

  /** `s.trim() === ""` exactly when `s` holds nothing but white space. */
  lemma TrimEmptyIff(s: string)
    ensures Trim(s) == [] <==> WhitespaceOnly(s)
  {
  }
}
