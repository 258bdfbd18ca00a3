/** The syntactic email check `validate_email_format`, which asks whether
    `re.match` finds the pattern
        ^[a-zA-Z0-9._%+-]+@[a-zA-Z0-9.-]+\.[a-zA-Z]{2,}$
    in the string. The regular expression is stated as "there is a split of
    the string into the pattern's five pieces"; the checker that decides it
    looks for the `@` and the last `.` and is proved equivalent. */
module EmailFormat {
  import opened Outcomes

  // Character classes of the pattern. Without re.IGNORECASE or re.ASCII
  // flags the ranges are plain code-point ranges, so all of them are ASCII.

  predicate IsAsciiLetter(c: char) {
    ('a' <= c <= 'z') || ('A' <= c <= 'Z')
  }

  predicate IsAsciiDigit(c: char) {
    '0' <= c <= '9'
  }

  /** `[a-zA-Z0-9._%+-]` */
  predicate IsLocalChar(c: char) {
    IsAsciiLetter(c) || IsAsciiDigit(c) || c == '.' || c == '_' || c == '%' || c == '+' || c == '-'
  }

  /** `[a-zA-Z0-9.-]` */
  predicate IsDomainChar(c: char) {
    IsAsciiLetter(c) || IsAsciiDigit(c) || c == '.' || c == '-'
  }

  predicate AllLocal(s: string) {
    forall k :: 0 <= k < |s| ==> IsLocalChar(s[k])
  }

  predicate AllDomain(s: string) {
    forall k :: 0 <= k < |s| ==> IsDomainChar(s[k])
  }

  predicate AllLetters(s: string) {
    forall k :: 0 <= k < |s| ==> IsAsciiLetter(s[k])
  }

  /** The pattern between `^` and `$` matches all of `t` with its `@` at
      index `at` and its `\.` at index `dot`: `t[..at]` is the `+`-repeated
      local class, `t[at + 1..dot]` the `+`-repeated domain class, and
      `t[dot + 1..]` at least two letters. */
  ghost predicate SplitAt(t: string, at: int, dot: int) {
    && 1 <= at && at + 2 <= dot && dot + 3 <= |t|
    && AllLocal(t[..at]) && t[at] == '@'
    && AllDomain(t[at + 1..dot]) && t[dot] == '.'
    && AllLetters(t[dot + 1..])
  }

  /** The pattern matches the whole of `t`. */
  ghost predicate FullMatch(t: string) {
    exists at, dot :: SplitAt(t, at, dot)
  }

  /** `re.match` with the anchored pattern succeeds on `s`. Without
      re.MULTILINE, Python's `$` matches at the very end and also just before
      a single newline that ends the string. */
  ghost predicate RegexMatches(s: string) {
    || FullMatch(s)
    || (|s| > 0 && s[|s| - 1] == '\n' && FullMatch(s[..|s| - 1]))
  }

  /** Index of the first `c` in `s`, if there is one. */
  function FirstIndexOf(s: string, c: char): (r: Option<nat>)
    ensures r.Some? ==> r.value < |s| && s[r.value] == c
    ensures r.Some? ==> forall k :: 0 <= k < r.value ==> s[k] != c
    ensures r.None? ==> forall k :: 0 <= k < |s| ==> s[k] != c
  {
    if |s| == 0 then None
    else if s[0] == c then Some(0)
    else match FirstIndexOf(s[1..], c)
      case None => None
      case Some(i) => Some(i + 1)
  }

  /** Index of the last `c` in `s`, if there is one. */
  function LastIndexOf(s: string, c: char): (r: Option<nat>)
    ensures r.Some? ==> r.value < |s| && s[r.value] == c
    ensures r.Some? ==> forall k :: r.value < k < |s| ==> s[k] != c
    ensures r.None? ==> forall k :: 0 <= k < |s| ==> s[k] != c
  {
    if |s| == 0 then None
    else if s[|s| - 1] == c then Some(|s| - 1)
    else LastIndexOf(s[..|s| - 1], c)
  }

  /** The deterministic reading of the pattern: split at the first `@`; the
      part before it is non-empty and made of local characters; the part
      after it is made of domain characters, and its last `.` has at least
      one character before it and at least two after it, all letters. */
  predicate HasShape(t: string) {
    match FirstIndexOf(t, '@')
    case None => false
    case Some(at) =>
      var domain := t[at + 1..];
      && at >= 1 && AllLocal(t[..at]) && AllDomain(domain)
      && match LastIndexOf(domain, '.')
         case None => false
         case Some(dot) => dot >= 1 && dot + 3 <= |domain| && AllLetters(domain[dot + 1..])
  }

  /** `s` without the one final newline Python's `$` tolerates. */
  function DropFinalNewline(s: string): (t: string)
    ensures t == s || (s == t + ['\n'])
    ensures |s| > 0 && s[|s| - 1] == '\n' ==> |t| == |s| - 1
  {
    if |s| > 0 && s[|s| - 1] == '\n' then s[..|s| - 1] else s
  }

  /** `validate_email_format`: true exactly when the regular expression
      matches. */
  function ValidateEmailFormat(s: string): (ok: bool)
    ensures ok <==> RegexMatches(s)
  {
    var t := DropFinalNewline(s);
    ShapeIffFullMatch(t);
    FullMatchEndsWithLetter(s);
    HasShape(t)
  }

  /** A full match ends with a letter, so it never ends with a newline. */
  lemma FullMatchEndsWithLetter(s: string)
    ensures FullMatch(s) ==> |s| > 0 && IsAsciiLetter(s[|s| - 1])
  {
    if FullMatch(s) {
      var at, dot :| SplitAt(s, at, dot);
      assert s[|s| - 1] == s[dot + 1..][|s| - dot - 2];
    }
  }

  lemma ShapeIffFullMatch(t: string)
    ensures HasShape(t) <==> FullMatch(t)
  {
    if HasShape(t) {
      ShapeGivesSplit(t);
    }
    if FullMatch(t) {
      var at, dot :| SplitAt(t, at, dot);
      SplitGivesShape(t, at, dot);
    }
  }

  lemma ShapeGivesSplit(t: string)
    requires HasShape(t)
    ensures FullMatch(t)
  {
    var at := FirstIndexOf(t, '@').value;
    var domain := t[at + 1..];
    var d := LastIndexOf(domain, '.').value;
    var dot := at + 1 + d;
    assert t[at + 1..dot] == domain[..d];
    assert t[dot + 1..] == domain[d + 1..];
    assert SplitAt(t, at, dot);
  }

  lemma SplitGivesShape(t: string, at: int, dot: int)
    requires SplitAt(t, at, dot)
    ensures HasShape(t)
  {
    SplitAtIsUnique(t, at, dot);
    assert FirstIndexOf(t, '@') == Some(at);
    var domain := t[at + 1..];
    var d := dot - at - 1;
    DomainOfSplit(t, at, dot);
    assert LastIndexOf(domain, '.') == Some(d);
    assert domain[d + 1..] == t[dot + 1..];
  }

  /** The text after a split's `@` is made of domain characters, and the
      split's `.` is the last `.` in it. */
  lemma DomainOfSplit(t: string, at: int, dot: int)
    requires SplitAt(t, at, dot)
    ensures AllDomain(t[at + 1..])
    ensures forall k :: dot < k < |t| ==> t[k] != '.'
  {
    var domain := t[at + 1..];
    var d := dot - at - 1;
    forall k | 0 <= k < |domain|
      ensures IsDomainChar(domain[k])
    {
      if k < d {
        assert domain[k] == t[at + 1..dot][k];
      } else if k > d {
        assert domain[k] == t[dot + 1..][k - d - 1];
      }
    }
    forall k | dot < k < |t|
      ensures t[k] != '.'
    {
      assert t[k] == t[dot + 1..][k - dot - 1];
    }
  }

  /** In a match, the `@` the split uses is the only `@` of the string, and
      the `.` it uses is the last `.`. */
  lemma SplitAtIsUnique(t: string, at: int, dot: int)
    requires SplitAt(t, at, dot)
    ensures forall k :: 0 <= k < |t| && k != at ==> t[k] != '@'
    ensures forall k :: dot < k < |t| ==> IsAsciiLetter(t[k])
  {
    forall k | 0 <= k < |t| && k != at
      ensures t[k] != '@'
    {
      if k < at {
        assert IsLocalChar(t[..at][k]);
      } else if k < dot {
        assert IsDomainChar(t[at + 1..dot][k - at - 1]);
      } else if k > dot {
        assert IsAsciiLetter(t[dot + 1..][k - dot - 1]);
      }
    }
    forall k | dot < k < |t|
      ensures IsAsciiLetter(t[k])
    {
      assert t[k] == t[dot + 1..][k - dot - 1];
    }
  }

  /** Every accepted string holds exactly one `@`. */
  lemma AcceptedHasExactlyOneAt(s: string)
    requires ValidateEmailFormat(s)
    ensures multiset(s)['@'] == 1
  {
    var t := DropFinalNewline(s);
    assert FullMatch(t);
    var at, dot :| SplitAt(t, at, dot);
    SplitAtIsUnique(t, at, dot);
    OneOccurrence(t, at);
    if s != t {
      assert s == t + ['\n'];
    }
  }

  /** A string whose only `@` is at index `at` holds exactly one `@`. */
  lemma OneOccurrence(t: string, at: int)
    requires 0 <= at < |t| && t[at] == '@'
    requires forall k :: 0 <= k < |t| && k != at ==> t[k] != '@'
    ensures multiset(t)['@'] == 1
  {
    assert '@' !in t[..at];
    assert '@' !in t[at + 1..];
    assert t == t[..at] + [t[at]] + t[at + 1..];
  }

  /** A string without any `@` is rejected, as "bad-email" is. */
  lemma RejectsWithoutAt(s: string)
    requires '@' !in s
    ensures !ValidateEmailFormat(s)
  {
    if ValidateEmailFormat(s) {
      AcceptedHasExactlyOneAt(s);
      assert false;
    }
  }

  /** In a match, every `@` is followed, later on, by the split's `.`. */
  lemma DotFollowsEveryAt(t: string, at: int, dot: int, k: int)
    requires SplitAt(t, at, dot)
    requires 0 <= k < |t| && t[k] == '@'
    ensures k < dot < |t| && t[dot] == '.'
  {
    SplitAtIsUnique(t, at, dot);
  }

  /** A string with no `.` anywhere after its `@` is rejected, as "a@b" is. */
  lemma RejectsDotlessDomain(s: string, at: nat)
    requires at < |s| && s[at] == '@'
    requires forall k :: at < k < |s| ==> s[k] != '.'
    ensures !ValidateEmailFormat(s)
  {
    var t := DropFinalNewline(s);
    if FullMatch(t) {
      var a, dot :| SplitAt(t, a, dot);
      DotFollowsEveryAt(t, a, dot, at);
      assert false;
    }
  }

  /** In a match, the text after the last `.` is at least two letters. */
  lemma FinalLabelOfMatch(s: string, at: int, d: int, dot: int)
    requires SplitAt(s, at, d)
    requires 0 <= dot < |s| && s[dot] == '.' && forall k :: dot < k < |s| ==> s[k] != '.'
    ensures dot + 3 <= |s| && forall k :: dot < k < |s| ==> IsAsciiLetter(s[k])
  {
    SplitAtIsUnique(s, at, d);
  }

  /** A string whose text after its last `.` is shorter than two characters,
      or holds a character that is not an ASCII letter, is rejected. */
  lemma RejectsBadFinalLabel(s: string, dot: nat)
    requires dot < |s| && s[|s| - 1] != '\n'
    requires s[dot] == '.' && forall k :: dot < k < |s| ==> s[k] != '.'
    requires dot + 3 > |s| || exists k :: dot < k < |s| && !IsAsciiLetter(s[k])
    ensures !ValidateEmailFormat(s)
  {
    if FullMatch(s) {
      var a, d :| SplitAt(s, a, d);
      FinalLabelOfMatch(s, a, d, dot);
      assert false;
    }
  }

  /** The worked examples of an accepted address: "a@b.co", and the same
      followed by the one newline `$` tolerates. */
  lemma AcceptExamples()
    ensures ValidateEmailFormat("a@b.co")
    ensures ValidateEmailFormat("a@b.co\n")
  {
    assert SplitAt("a@b.co", 1, 3);
    assert "a@b.co\n"[..6] == "a@b.co";
  }

  /** The worked examples of rejected strings: "bad-email" has no `@`, "a@b"
      no `.` after it, and "a@b.c" a one-letter final label. */
  lemma RejectExamples()
    ensures !ValidateEmailFormat("bad-email")
    ensures !ValidateEmailFormat("a@b")
    ensures !ValidateEmailFormat("a@b.c")
  {
    RejectsWithoutAt("bad-email");
    RejectsDotlessDomain("a@b", 1);
    RejectsBadFinalLabel("a@b.c", 3);
  }
}
