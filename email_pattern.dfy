/** The e-mail shape accepted by the contact form: the regular expression
    `^[^\s@]+@[^\s@]+\.[^\s@]+$` (script.js, line 58), stated once as a direct
    reading of the pattern and once as an executable check, with a proof that
    the two agree on every string. */
module EmailPattern {

  /** ECMAScript `\s`: the WhiteSpace code points (TAB, VT, FF, SPACE, NBSP,
      ZWNBSP and the other space separators) and the LineTerminator code
      points (LF, CR, LS, PS). */
  predicate IsJsWhitespace(c: char) {
    c == '\t' || c == '\n' || c == '\U{000B}' || c == '\U{000C}' || c == '\r' ||
    c == ' ' || c == '\U{00A0}' || c == '\U{1680}' ||
    ('\U{2000}' <= c <= '\U{200A}') ||
    c == '\U{2028}' || c == '\U{2029}' || c == '\U{202F}' || c == '\U{205F}' ||
    c == '\U{3000}' || c == '\U{FEFF}'
  }

  /** The character class `[^\s@]`. */
  predicate IsPlainChar(c: char) {
    !IsJsWhitespace(c) && c != '@'
  }

  /** `[^\s@]*`: every character of `s` is in the class. */
  predicate AllPlain(s: string) {
    forall k :: 0 <= k < |s| ==> IsPlainChar(s[k])
  }

  predicate NoWhitespace(s: string) {
    forall k :: 0 <= k < |s| ==> !IsJsWhitespace(s[k])
  }

  /** The regular expression read literally: `s` splits at an `@` at index
      `i` and a `.` at index `j` into three non-empty runs of `[^\s@]`. */
  ghost predicate MatchesEmailRegex(s: string) {
    exists i, j ::
      0 < i && i + 1 < j && j + 1 < |s| &&
      s[i] == '@' && s[j] == '.' &&
      AllPlain(s[..i]) && AllPlain(s[i + 1..j]) && AllPlain(s[j + 1..])
  }

  /** Index of the first occurrence of `c` in `s`, or `|s|` if there is none. */
  function IndexOf(s: string, c: char): (r: nat)
    ensures r <= |s|
    ensures r < |s| ==> s[r] == c
    ensures forall k :: 0 <= k < r ==> s[k] != c
  {
    if s == [] then 0
    else if s[0] == c then 0
    else 1 + IndexOf(s[1..], c)
  }

  /** Number of occurrences of `c` in `s`. */
  function Count(s: string, c: char): (n: nat) {
    if s == [] then 0
    else (if s[0] == c then 1 else 0) + Count(s[1..], c)
  }

  /** The executable check: the first `@` starts the domain; the local part
      before it is non-empty and free of whitespace; the domain is free of
      whitespace and `@` and has a `.` that is neither its first nor its
      last character. */
  predicate IsValidEmail(s: string) {
    var at := IndexOf(s, '@');
    0 < at < |s| &&
    NoWhitespace(s[..at]) &&
    HasValidDomain(s[at + 1..])
  }

  predicate HasValidDomain(d: string) {
    AllPlain(d) && 3 <= |d| && '.' in d[1..|d| - 1]
  }

  lemma {:induction false} CountNone(s: string, c: char)
    requires forall k :: 0 <= k < |s| ==> s[k] != c
    ensures Count(s, c) == 0
  {
    if s != [] {
      CountNone(s[1..], c);
    }
  }

  lemma {:induction false} CountAppend(a: string, b: string, c: char)
    ensures Count(a + b, c) == Count(a, c) + Count(b, c)
  {
    if a == [] {
      assert a + b == b;
    } else {
      assert (a + b)[1..] == a[1..] + b;
      CountAppend(a[1..], b, c);
    }
  }

  /** An accepted address has exactly one `@`, and it sits between a
      non-empty whitespace-free local part and a domain with an interior dot. */
  lemma ValidEmailHasOneAt(s: string)
    requires IsValidEmail(s)
    ensures Count(s, '@') == 1
  {
    var at := IndexOf(s, '@');
    assert s == s[..at] + ([s[at]] + s[at + 1..]);
    CountNone(s[..at], '@');
    CountNone(s[at + 1..], '@');
    CountAppend([s[at]], s[at + 1..], '@');
    assert Count([s[at]], '@') == 1 by {
      assert [s[at]][1..] == [];
    }
    CountAppend(s[..at], [s[at]] + s[at + 1..], '@');
  }

  /** The first occurrence is the one with no earlier occurrence. */
  lemma {:induction false} IndexOfIsFirst(s: string, c: char, i: nat)
    requires i < |s| && s[i] == c
    requires forall k :: 0 <= k < i ==> s[k] != c
    ensures IndexOf(s, c) == i
  {
    if i > 0 {
      IndexOfIsFirst(s[1..], c, i - 1);
    }
  }

  /** Direction 1 for a given split: `@` at `i`, `.` at `j`. */
  lemma SplitIsValid(s: string, i: nat, j: nat)
    requires 0 < i && i + 1 < j && j + 1 < |s|
    requires s[i] == '@' && s[j] == '.'
    requires AllPlain(s[..i]) && AllPlain(s[i + 1..j]) && AllPlain(s[j + 1..])
    ensures IsValidEmail(s)
  {
    var local, mid, tail := s[..i], s[i + 1..j], s[j + 1..];
    forall k | 0 <= k < i ensures s[k] != '@' {
      assert local[k] == s[k];
    }
    IndexOfIsFirst(s, '@', i);
    var d := s[i + 1..];
    assert NoWhitespace(local) by {
      forall k | 0 <= k < |local| ensures !IsJsWhitespace(local[k]) {
        assert IsPlainChar(local[k]);
      }
    }
    forall k | 0 <= k < |d| ensures IsPlainChar(d[k]) {
      if k < |mid| {
        assert d[k] == mid[k];
      } else if k > |mid| {
        assert d[k] == tail[k - |mid| - 1];
      }
    }
    assert d[1..|d| - 1][|mid| - 1] == '.';
  }

  /** Direction 1: whatever the pattern matches, the check accepts. */
  lemma RegexImpliesValid(s: string)
    requires MatchesEmailRegex(s)
    ensures IsValidEmail(s)
  {
    var i, j :| 0 < i && i + 1 < j && j + 1 < |s| &&
      s[i] == '@' && s[j] == '.' &&
      AllPlain(s[..i]) && AllPlain(s[i + 1..j]) && AllPlain(s[j + 1..]);
    SplitIsValid(s, i, j);
  }

  /** Direction 2: whatever the check accepts, the pattern matches. */
  lemma ValidImpliesRegex(s: string)
    requires IsValidEmail(s)
    ensures MatchesEmailRegex(s)
  {
    var i := IndexOf(s, '@');
    var d := s[i + 1..];
    assert |d| == |s| - (i + 1);
    var inner := d[1..|d| - 1];
    var m :| 0 <= m < |inner| && inner[m] == '.';
    assert inner[m] == d[m + 1] == s[i + 2 + m];
    var j := i + 2 + m;
    var local, mid, tail := s[..i], s[i + 1..j], s[j + 1..];
    assert AllPlain(local) by {
      forall k | 0 <= k < |local| ensures IsPlainChar(local[k]) {
        assert local[k] == s[k];
      }
    }
    assert AllPlain(mid) by {
      forall k | 0 <= k < |mid| ensures IsPlainChar(mid[k]) {
        assert mid[k] == s[i + 1 + k] == d[k];
      }
    }
    assert AllPlain(tail) by {
      forall k | 0 <= k < |tail| ensures IsPlainChar(tail[k]) {
        assert tail[k] == s[j + 1 + k] == d[k + m + 2];
      }
    }
    assert 0 < i && i + 1 < j && j + 1 < |s| && s[i] == '@' && s[j] == '.';
  }

  /** The executable check decides the regular expression exactly. */
  lemma ValidIffRegex(s: string)
    ensures IsValidEmail(s) <==> MatchesEmailRegex(s)
  {
    if IsValidEmail(s) {
      ValidImpliesRegex(s);
    }
    if MatchesEmailRegex(s) {
      RegexImpliesValid(s);
    }
  }
}
