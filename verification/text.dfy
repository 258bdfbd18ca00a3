/** The two pieces of Python string behaviour the checker relies on:
    `str.strip()` with no argument, and the substring test `m in s`. */
module Text {

  /** Python's `str.isspace()` for one character: the ASCII controls
      TAB..CR and FS..US, the space, and the Unicode separators. */
  predicate IsSpace(c: char) {
    || ('\t' <= c <= '\r')
    || ('\U{1C}' <= c <= ' ')
    || c == '\U{85}' || c == '\U{A0}' || c == '\U{1680}'
    || ('\U{2000}' <= c <= '\U{200A}')
    || c == '\U{2028}' || c == '\U{2029}' || c == '\U{202F}'
    || c == '\U{205F}' || c == '\U{3000}'
  }

  predicate AllSpace(s: string) {
    forall k :: 0 <= k < |s| ==> IsSpace(s[k])
  }

  /** A string `strip()` leaves alone: it neither starts nor ends with
      whitespace. */
  predicate IsStripped(s: string) {
    |s| == 0 || (!IsSpace(s[0]) && !IsSpace(s[|s| - 1]))
  }

  /** Index of the first non-whitespace character at or after `i`, or
      `|s|` when there is none. */
  function SkipLeading(s: string, i: nat): (j: nat)
    requires i <= |s|
    ensures i <= j <= |s|
    ensures forall k :: i <= k < j ==> IsSpace(s[k])
    ensures j < |s| ==> !IsSpace(s[j])
    decreases |s| - i
  {
    if i < |s| && IsSpace(s[i]) then SkipLeading(s, i + 1) else i
  }

  /** Index just past the last non-whitespace character before `j`, but
      not below `lo`. */
  function SkipTrailing(s: string, lo: nat, j: nat): (e: nat)
    requires lo <= j <= |s|
    ensures lo <= e <= j
    ensures forall k :: e <= k < j ==> IsSpace(s[k])
    ensures e > lo ==> !IsSpace(s[e - 1])
    decreases j - lo
  {
    if j > lo && IsSpace(s[j - 1]) then SkipTrailing(s, lo, j - 1) else j
  }

  /** `s.strip()`: `s` with the whitespace on both ends removed. The result
      has none left on either end, and it is empty exactly when `s` is all
      whitespace. */
  function Strip(s: string): (r: string)
    ensures IsStripped(r)
    ensures |r| <= |s|
    ensures r == [] <==> AllSpace(s)
  {
    var i := SkipLeading(s, 0);
    var e := SkipTrailing(s, i, |s|);
    assert e == i ==> AllSpace(s);
    s[i..e]
  }

  /** What `strip()` removes is whitespace only: its result is the infix of
      `s` between a whitespace prefix and a whitespace suffix. */
  lemma StripCutsOnlySpace(s: string)
    ensures exists i :: 0 <= i <= |s| - |Strip(s)| && Strip(s) == s[i..i + |Strip(s)|]
                        && AllSpace(s[..i]) && AllSpace(s[i + |Strip(s)|..])
  {
    var i := SkipLeading(s, 0);
    var e := SkipTrailing(s, i, |s|);
    assert Strip(s) == s[i..e];
    assert AllSpace(s[..i]) && AllSpace(s[e..]);
  }

  lemma StrippedIsFixed(s: string)
    requires IsStripped(s)
    ensures Strip(s) == s
  {
  }

  /** Stripping twice is stripping once. */
  lemma StripIdempotent(s: string)
    ensures Strip(Strip(s)) == Strip(s)
  {
    StrippedIsFixed(Strip(s));
  }

  /** `m` occurs in `s` starting at index `i`. */
  predicate OccursAt(s: string, m: string, i: int) {
    0 <= i && i + |m| <= |s| && s[i..i + |m|] == m
  }

  lemma OccursAtTail(s: string, m: string)
    requires |s| > 0
    ensures forall i :: 0 <= i ==> (OccursAt(s[1..], m, i) <==> OccursAt(s, m, i + 1))
  {
    forall i | 0 <= i
      ensures OccursAt(s[1..], m, i) <==> OccursAt(s, m, i + 1)
    {
      if i + 1 + |m| <= |s| {
        assert s[1..][i..i + |m|] == s[i + 1..i + 1 + |m|];
      }
    }
  }

  /** Python's `m in s` for strings: true exactly when `m` occurs somewhere
      in `s`. */
  function Contains(s: string, m: string): (b: bool)
    ensures b <==> exists i :: OccursAt(s, m, i)
    decreases |s|
  {
    if |s| < |m| then false
    else if s[..|m|] == m then assert OccursAt(s, m, 0); true
    else
      var rest := Contains(s[1..], m);
      OccursAtTail(s, m);
      assert !OccursAt(s, m, 0);
      assert (exists i :: OccursAt(s, m, i)) ==> (exists i :: OccursAt(s[1..], m, i))
        by {
          if exists i :: OccursAt(s, m, i) {
            var i :| OccursAt(s, m, i);
            assert OccursAt(s[1..], m, i - 1);
          }
        }
      rest
  }
}
