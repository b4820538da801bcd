/**
 * The string primitives of JavaScript that the page script relies on:
 * the white-space class shared by `String.prototype.trim` and the regular
 * expression escape `\s`, trimming, and `String.prototype.includes`.
 */
module JsText {

  /** WhiteSpace and LineTerminator code points of ECMAScript; `trim` strips
      exactly these and `\s` matches exactly these. */
  predicate IsWhitespace(c: char)
  {
    || c == '\t' || c == '\n' || c == '\U{B}' || c == '\U{C}' || c == '\r'
    || c == ' ' || c == '\U{A0}' || c == '\U{1680}'
    || ('\U{2000}' <= c <= '\U{200A}')
    || c == '\U{2028}' || c == '\U{2029}' || c == '\U{202F}' || c == '\U{205F}'
    || c == '\U{3000}' || c == '\U{FEFF}'
  }

  /** Every character of `s` is white space (the empty string included). */
  ghost predicate IsBlank(s: string)
  {
    forall i :: 0 <= i < |s| ==> IsWhitespace(s[i])
  }

  /** No character of `s` is white space. */
  predicate NoWhitespace(s: string)
  {
    forall i :: 0 <= i < |s| ==> !IsWhitespace(s[i])
  }

  /** Every character of `s` from index `lo` up to `hi` is white space. */
  ghost predicate BlankBetween(s: string, lo: nat, hi: nat)
    requires lo <= hi <= |s|
  {
    forall k :: lo <= k < hi ==> IsWhitespace(s[k])
  }

  /** The number of white-space characters `s` starts with. */
  function LeadingBlanks(s: string): (n: nat)
    ensures n <= |s| && BlankBetween(s, 0, n)
    ensures n < |s| ==> !IsWhitespace(s[n])
  {
    if s == [] || !IsWhitespace(s[0]) then 0 else 1 + LeadingBlanks(s[1..])
  }

  /** The index at which the white space that `s` ends with begins. */
  function TrailingBlanks(s: string): (m: nat)
    ensures m <= |s| && BlankBetween(s, m, |s|)
    ensures m > 0 ==> !IsWhitespace(s[m - 1])
  {
    if s == [] || !IsWhitespace(s[|s| - 1]) then |s| else TrailingBlanks(s[..|s| - 1])
  }

  /** `r` is the infix of `s` that starts at `i`, with only white space
      before and after it. */
  ghost predicate IsInfixAmidBlanks(s: string, r: string, i: nat)
  {
    i + |r| <= |s| && r == s[i..i + |r|] && BlankBetween(s, 0, i) && BlankBetween(s, i + |r|, |s|)
  }

  /** `String.prototype.trim`: the infix left after removing white space at
      both ends; it neither starts nor ends with white space. */
  function Trim(s: string): (r: string)
    ensures exists i: nat :: IsInfixAmidBlanks(s, r, i)
    ensures r != [] ==> !IsWhitespace(r[0]) && !IsWhitespace(r[|r| - 1])
  {
    var i := LeadingBlanks(s);
    var j := if i == |s| then i else TrailingBlanks(s);
    assert IsInfixAmidBlanks(s, s[i..j], i);
    s[i..j]
  }

  /** Trimming leaves nothing exactly when the string is all white space:
      the JavaScript test `!s.trim()` holds exactly for blank strings. */
  lemma TrimEmptyIffBlank(s: string)
    ensures Trim(s) == [] <==> IsBlank(s)
  {
  }

  /** Trimming is idempotent. */
  lemma TrimIdempotent(s: string)
    ensures Trim(Trim(s)) == Trim(s)
  {
  }

  /** The leading white-space count is the only index that is preceded by
      white space alone and does not hold white space itself. */
  lemma LeadingBlanksUnique(s: string, n: nat)
    requires n <= |s| && BlankBetween(s, 0, n)
    requires n < |s| ==> !IsWhitespace(s[n])
    ensures LeadingBlanks(s) == n
  {
  }

  /** The start of the trailing white space is the only index that is
      followed by white space alone and not preceded by white space. */
  lemma TrailingBlanksUnique(s: string, m: nat)
    requires m <= |s| && BlankBetween(s, m, |s|)
    requires m > 0 ==> !IsWhitespace(s[m - 1])
    ensures TrailingBlanks(s) == m
  {
  }

  /** White space put in front of a string that is not blank adds to its
      leading white space. */
  lemma PaddedLeadingBlanks(p: string, s: string, q: string)
    requires IsBlank(p) && LeadingBlanks(s) < |s|
    ensures LeadingBlanks(p + s + q) == |p| + LeadingBlanks(s)
  {
    var u, i := p + s + q, LeadingBlanks(s);
    forall k | 0 <= k < |p| + i ensures IsWhitespace(u[k]) {
      if k < |p| {
        assert u[k] == p[k];
      } else {
        assert u[k] == s[k - |p|];
      }
    }
    assert u[|p| + i] == s[i];
    LeadingBlanksUnique(u, |p| + i);
  }

  /** White space put after a string that is not blank joins its trailing
      white space. */
  lemma PaddedTrailingBlanks(p: string, s: string, q: string)
    requires IsBlank(q) && TrailingBlanks(s) > 0
    ensures TrailingBlanks(p + s + q) == |p| + TrailingBlanks(s)
  {
    var u, j := p + s + q, TrailingBlanks(s);
    forall k | |p| + j <= k < |u| ensures IsWhitespace(u[k]) {
      if k < |p| + |s| {
        assert u[k] == s[k - |p|];
      } else {
        assert u[k] == q[k - |p| - |s|];
      }
    }
    assert u[|p| + j - 1] == s[j - 1];
    TrailingBlanksUnique(u, |p| + j);
  }

  /** `trim` of a string that is not blank cuts it at the end of its leading
      and the start of its trailing white space. */
  lemma TrimCuts(s: string)
    requires !IsBlank(s)
    ensures LeadingBlanks(s) < TrailingBlanks(s)
    ensures Trim(s) == s[LeadingBlanks(s)..TrailingBlanks(s)]
  {
  }

  /** Padding a blank string leaves it blank, so both trim to nothing. */
  lemma TrimPaddedBlank(p: string, s: string, q: string)
    requires IsBlank(p) && IsBlank(q) && IsBlank(s)
    ensures Trim(p + s + q) == Trim(s)
  {
  }

  /** Cutting the middle part back out of a joined string. */
  lemma MiddleSlice(p: string, s: string, q: string, i: nat, j: nat)
    requires i <= j <= |s|
    ensures (p + s + q)[|p| + i..|p| + j] == s[i..j]
  {
  }

  /** Padding a string that is not blank moves both cut points of `trim` by
      the length of the front padding and leaves the kept part alone. */
  lemma TrimPaddedWord(p: string, s: string, q: string)
    requires IsBlank(p) && IsBlank(q) && !IsBlank(s)
    ensures Trim(p + s + q) == Trim(s)
  {
    var u := p + s + q;
    TrimCuts(s);
    var i, j := LeadingBlanks(s), TrailingBlanks(s);
    assert !IsBlank(u) by {
      assert u[|p| + i] == s[i];
    }
    TrimCuts(u);
    PaddedLeadingBlanks(p, s, q);
    PaddedTrailingBlanks(p, s, q);
    MiddleSlice(p, s, q, i, j);
  }

  /** White space added around a string is removed again by `trim`. */
  lemma TrimPadded(p: string, s: string, q: string)
    requires IsBlank(p) && IsBlank(q)
    ensures Trim(p + s + q) == Trim(s)
  {
    if IsBlank(s) {
      TrimPaddedBlank(p, s, q);
    } else {
      TrimPaddedWord(p, s, q);
    }
  }

  /** `t` occurs in `s` starting at index `i`. */
  predicate OccursAt(s: string, t: string, i: nat)
  {
    i + |t| <= |s| && s[i..i + |t|] == t
  }

  /** An occurrence in `s` past its first index is an occurrence in its tail. */
  lemma OccursInTail(s: string, t: string)
    requires s != []
    ensures forall i: nat :: OccursAt(s, t, i) && i > 0 ==> OccursAt(s[1..], t, i - 1)
    ensures forall i: nat :: OccursAt(s[1..], t, i) ==> OccursAt(s, t, i + 1)
  {
  }

  /** `String.prototype.includes` for a string argument: `t` occurs somewhere in `s`. */
  function Includes(s: string, t: string): (r: bool)
    ensures r <==> exists i: nat :: OccursAt(s, t, i)
    decreases |s|
  {
    if |s| < |t| then
      false
    else if s[..|t|] == t then
      assert OccursAt(s, t, 0);
      true
    else
      OccursInTail(s, t);
      Includes(s[1..], t)
  }
}
