/**
 * The semantic-version grammar that the validator's version library accepts,
 * taken to be that of Semantic Versioning 2.0.0: a version core
 * MAJOR.MINOR.PATCH (SemVer 2.0.0 section 2), an optional pre-release
 * after `-` (SemVer 2.0.0 section 9) and optional build metadata after `+`
 * (SemVer 2.0.0 section 10).
 */
module SemVer {
  import opened Wrappers
  import opened Text

  predicate IsDigit(c: char)
  {
    '0' <= c <= '9'
  }

  /** `[0-9A-Za-z-]`, the characters of every identifier. */
  predicate IsIdentifierChar(c: char)
  {
    IsDigit(c) || ('a' <= c <= 'z') || ('A' <= c <= 'Z') || c == '-'
  }

  /** A numeric identifier: digits with no leading zero (SemVer 2.0.0 section 2). */
  predicate IsNumericIdentifier(s: string)
  {
    s != "" && (forall k :: 0 <= k < |s| ==> IsDigit(s[k])) && (|s| == 1 || s[0] != '0')
  }

  /** A non-empty run of `[0-9A-Za-z-]` (SemVer 2.0.0 section 10). */
  predicate IsAlphanumericIdentifier(s: string)
  {
    s != "" && forall k :: 0 <= k < |s| ==> IsIdentifierChar(s[k])
  }

  /** A pre-release identifier: numeric, or alphanumeric with a non-digit (SemVer 2.0.0 section 9). */
  predicate IsPreReleaseIdentifier(s: string)
  {
    IsNumericIdentifier(s) || (IsAlphanumericIdentifier(s) && exists k :: 0 <= k < |s| && !IsDigit(s[k]))
  }

  /** MAJOR.MINOR.PATCH. */
  predicate IsVersionCore(s: string)
  {
    var parts := Split(s, '.');
    |parts| == 3 && IsNumericIdentifier(parts[0]) && IsNumericIdentifier(parts[1]) && IsNumericIdentifier(parts[2])
  }

  predicate IsPreRelease(s: string)
  {
    var ids := Split(s, '.');
    forall k :: 0 <= k < |ids| ==> IsPreReleaseIdentifier(ids[k])
  }

  predicate IsBuild(s: string)
  {
    var ids := Split(s, '.');
    forall k :: 0 <= k < |ids| ==> IsAlphanumericIdentifier(ids[k])
  }

  /**
   * A version core followed by an optional pre-release. The core has no `-`,
   * so the first `-` is the one that starts the pre-release.
   */
  predicate IsCoreAndPreRelease(s: string)
  {
    match SplitOnce(s, '-')
    case None => IsVersionCore(s)
    case Some((core, pre)) => IsVersionCore(core) && IsPreRelease(pre)
  }

  /**
   * A semantic version. Neither the core nor the pre-release has a `+`, so
   * the first `+` is the one that starts the build metadata.
   */
  predicate IsSemVer(s: string)
  {
    match SplitOnce(s, '+')
    case None => IsCoreAndPreRelease(s)
    case Some((main, build)) => IsCoreAndPreRelease(main) && IsBuild(build)
  }

  /** The decimal digits of `n`. */
  function Decimal(n: nat): (s: string)
    ensures s != "" && forall k :: 0 <= k < |s| ==> IsDigit(s[k])
    ensures n == 0 <==> s == "0"
    ensures n > 0 ==> s[0] != '0'
  {
    var d := ['0' + (n % 10) as char];
    if n < 10 then d else Decimal(n / 10) + d
  }

  /** The decimal form of a number is a numeric identifier. */
  lemma DecimalIsNumeric(n: nat)
    ensures IsNumericIdentifier(Decimal(n))
  {
  }

  /** A string of digits contains neither `.`, `-` nor `+`. */
  lemma DigitsHaveNoSeparator(s: string)
    requires forall k :: 0 <= k < |s| ==> IsDigit(s[k])
    ensures '.' !in s && '-' !in s && '+' !in s
  {
    assert forall k :: 0 <= k < |s| ==> s[k] != '.' && s[k] != '-' && s[k] != '+';
  }

  /** Without `-` and `+` a semantic version is a bare version core. */
  lemma CoreOnly(s: string)
    requires '+' !in s && '-' !in s
    ensures IsSemVer(s) <==> IsVersionCore(s)
  {
  }

  /** The decimal forms of `ns`, in order. */
  function DecimalParts(ns: seq<nat>): (parts: seq<string>)
    ensures |parts| == |ns|
    ensures forall i :: 0 <= i < |ns| ==> parts[i] == Decimal(ns[i])
  {
    seq(|ns|, i requires 0 <= i < |ns| => Decimal(ns[i]))
  }

  /** Non-negative integers written in decimal and joined with dots, as in `1.2.3`. */
  function DottedDecimals(ns: seq<nat>): (s: string)
    requires |ns| >= 1
    ensures s != [] && IsDigit(s[0])
    ensures '+' !in s && '-' !in s
    ensures Split(s, '.') == DecimalParts(ns)
  {
    var parts := DecimalParts(ns);
    forall i | 0 <= i < |parts|
      ensures '.' !in parts[i] && '-' !in parts[i] && '+' !in parts[i]
    {
      DigitsHaveNoSeparator(parts[i]);
    }
    JoinAvoids(parts, '.', '+');
    JoinAvoids(parts, '.', '-');
    SplitJoin(parts, '.');
    Join(parts, '.')
  }

  /**
   * Dot-separated decimal numbers form a semantic version exactly when there
   * are three of them: MAJOR.MINOR.PATCH.
   */
  lemma DottedDecimalsIff(ns: seq<nat>)
    requires |ns| >= 1
    ensures IsSemVer(DottedDecimals(ns)) <==> |ns| == 3
  {
    var s := DottedDecimals(ns);
    CoreOnly(s);
    if |ns| == 3 {
      DecimalIsNumeric(ns[0]);
      DecimalIsNumeric(ns[1]);
      DecimalIsNumeric(ns[2]);
    }
  }

  /** A string without a dot is never a semantic version: its core cannot have three parts. */
  lemma NoDotNotSemVer(s: string)
    requires '.' !in s
    ensures !IsSemVer(s)
  {
    var main := if '+' in s then SplitOnce(s, '+').value.0 else s;
    assert '.' !in main by {
      if '+' in s {
        assert main + ['+'] + SplitOnce(s, '+').value.1 == s;
      }
    }
    var core := if '-' in main then SplitOnce(main, '-').value.0 else main;
    assert '.' !in core by {
      if '-' in main {
        assert core + ['-'] + SplitOnce(main, '-').value.1 == main;
      }
    }
    SplitNone(core, '.');
  }
}
