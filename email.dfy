/**
 * The author e-mail shape: the regular expression
 * `^[a-zA-Z0-9_.+-]+@[a-zA-Z0-9-]+\.[a-zA-Z0-9-.]+$` applied with Python's
 * `re.match`, written as a hand-coded recogniser and proved equal to the
 * language of the expression.
 */
module Email {
  import opened Wrappers
  import opened Text

  predicate IsAsciiAlnum(c: char)
  {
    ('a' <= c <= 'z') || ('A' <= c <= 'Z') || ('0' <= c <= '9')
  }

  /** `[a-zA-Z0-9_.+-]`, the local part. */
  predicate IsLocalChar(c: char)
  {
    IsAsciiAlnum(c) || c == '_' || c == '.' || c == '+' || c == '-'
  }

  /** `[a-zA-Z0-9-]`, the first domain label. */
  predicate IsLabelChar(c: char)
  {
    IsAsciiAlnum(c) || c == '-'
  }

  /** `[a-zA-Z0-9-.]`, the rest of the domain. */
  predicate IsTailChar(c: char)
  {
    IsAsciiAlnum(c) || c == '-' || c == '.'
  }

  predicate AllLocal(s: string)
  {
    forall k :: 0 <= k < |s| ==> IsLocalChar(s[k])
  }

  predicate AllLabel(s: string)
  {
    forall k :: 0 <= k < |s| ==> IsLabelChar(s[k])
  }

  predicate AllTail(s: string)
  {
    forall k :: 0 <= k < |s| ==> IsTailChar(s[k])
  }

  /**
   * The expression matches all of `s` with its `@` at `at` and the `.` that
   * ends the first label at `dot`: each `+` covers at least one character.
   */
  ghost predicate MatchesWith(s: string, at: int, dot: int)
  {
    0 < at && at + 1 < dot && dot + 1 < |s| && s[at] == '@' && s[dot] == '.' &&
    AllLocal(s[..at]) && AllLabel(s[at + 1..dot]) && AllTail(s[dot + 1..])
  }

  /** The language of the expression, anchored at both ends. */
  ghost predicate InLanguage(s: string)
  {
    exists at, dot :: MatchesWith(s, at, dot)
  }

  /**
   * The recogniser: the local part ends at the first `@` (it cannot contain
   * one), and the first label ends at the first `.` after it (it cannot
   * contain one).
   */
  predicate MatchesWhole(s: string)
  {
    match SplitOnce(s, '@')
    case None => false
    case Some((local, domain)) =>
      local != "" && AllLocal(local) &&
      match SplitOnce(domain, '.')
      case None => false
      case Some((first, rest)) => first != "" && AllLabel(first) && rest != "" && AllTail(rest)
  }

  /**
   * `re.match(regex, email)`: the `$` of a Python pattern also matches just
   * before a final newline, so one trailing `\n` is accepted too.
   */
  predicate IsEmail(s: string)
    ensures IsEmail(s) <==>
      InLanguage(s) || (s != "" && s[|s| - 1] == '\n' && InLanguage(s[..|s| - 1]))
  {
    MatchesWholeIff(s);
    if s != "" && s[|s| - 1] == '\n' then
      MatchesWholeIff(s[..|s| - 1]);
      MatchesWhole(s) || MatchesWhole(s[..|s| - 1])
    else
      MatchesWhole(s)
  }

  /** The recogniser accepts exactly the language of the expression. */
  lemma MatchesWholeIff(s: string)
    ensures MatchesWhole(s) <==> InLanguage(s)
  {
    if MatchesWhole(s) {
      var (local, domain) := SplitOnce(s, '@').value;
      var (first, rest) := SplitOnce(domain, '.').value;
      var at, dot := |local|, |local| + 1 + |first|;
      assert s == local + ['@'] + (first + ['.'] + rest);
      assert s[..at] == local && s[at + 1..dot] == first && s[dot + 1..] == rest;
      assert MatchesWith(s, at, dot);
    }
    if InLanguage(s) {
      var at, dot :| MatchesWith(s, at, dot);
      RecognisedAt(s, at, dot);
    }
  }

  /** A match of the expression is found by the recogniser. */
  lemma RecognisedAt(s: string, at: int, dot: int)
    requires MatchesWith(s, at, dot)
    ensures MatchesWhole(s)
  {
    var local, domain := s[..at], s[at + 1..];
    assert '@' !in local by {
      assert forall k :: 0 <= k < |local| ==> IsLocalChar(local[k]);
    }
    assert s == local + ['@'] + domain;
    SplitOnceOf(local, '@', domain);
    var first, rest := s[at + 1..dot], s[dot + 1..];
    assert '.' !in first by {
      assert forall k :: 0 <= k < |first| ==> IsLabelChar(first[k]);
    }
    assert domain == first + ['.'] + rest;
    SplitOnceOf(first, '.', rest);
  }

  /** In a match, every character other than the one at `at` is not an `@`. */
  lemma OnlyOneAt(s: string, at: int, dot: int, k: int)
    requires MatchesWith(s, at, dot) && 0 <= k < |s| && k != at
    ensures s[k] != '@'
  {
    if k < at {
      assert IsLocalChar(s[..at][k]);
    } else if k < dot {
      assert IsLabelChar(s[at + 1..dot][k - at - 1]);
    } else if k > dot {
      assert IsTailChar(s[dot + 1..][k - dot - 1]);
    }
  }

  /**
   * An accepted address (without its optional final newline) has exactly one
   * `@`, a non-empty local part before it, and after it a non-empty label,
   * a `.` and a non-empty remainder.
   */
  lemma AcceptedShape(s: string)
    requires MatchesWhole(s)
    ensures exists at, dot :: (MatchesWith(s, at, dot) &&
      forall k :: 0 <= k < |s| && s[k] == '@' ==> k == at)
  {
    MatchesWholeIff(s);
    var at, dot :| MatchesWith(s, at, dot);
    forall k | 0 <= k < |s| && s[k] == '@' ensures k == at {
      if k != at {
        OnlyOneAt(s, at, dot, k);
      }
    }
  }

  /**
   * `local@first.rest` is accepted when each part is non-empty and drawn from
   * its character class, and so is the same address followed by one newline.
   */
  lemma AcceptsParts(local: string, first: string, rest: string)
    requires local != "" && AllLocal(local)
    requires first != "" && AllLabel(first)
    requires rest != "" && AllTail(rest)
    ensures IsEmail(local + "@" + first + "." + rest)
    ensures IsEmail(local + "@" + first + "." + rest + "\n")
  {
    var s := local + "@" + first + "." + rest;
    var at, dot := |local|, |local| + 1 + |first|;
    assert s[..at] == local && s[at + 1..dot] == first && s[dot + 1..] == rest;
    RecognisedAt(s, at, dot);
    assert (s + "\n")[..|s|] == s;
  }

  lemma AcceptsExample(s: string)
    requires s == "a@b.com"
    ensures IsEmail(s)
  {
    assert MatchesWith(s, 1, 3) by {
      assert s[..1] == "a" && s[2..3] == "b" && s[4..] == "com";
    }
    RecognisedAt(s, 1, 3);
  }

  lemma RejectsExamples()
    ensures !IsEmail("not-an-email")
    ensures !IsEmail("a@b")
  {
    assert '@' !in "not-an-email" by {
      assert forall k :: 0 <= k < |"not-an-email"| ==> "not-an-email"[k] != '@';
    }
    MatchesWholeIff("a@b");
  }
}
