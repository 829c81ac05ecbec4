/**
 * The handful of Python string operations the validator relies on:
 * `c in s`, `s.split(c)`, `s.split(c, 1)`, `sub in s`, `s.lstrip(chars)` and
 * `s.strip()`, each with the property the validator needs from it.
 */
module Text {
  import opened Wrappers

  // ---------------------------------------------------------------------------
  // Searching and splitting

  /** The position of the first `c` in `s`, if there is one. */
  function IndexOf(s: string, c: char): (r: Option<nat>)
    ensures r.None? <==> c !in s
    ensures r.Some? ==> r.value < |s| && s[r.value] == c && c !in s[..r.value]
  {
    if s == [] then None
    else if s[0] == c then Some(0)
    else
      match IndexOf(s[1..], c)
      case None => None
      case Some(i) =>
        assert s[..i + 1] == [s[0]] + s[1..][..i];
        Some(i + 1)
  }

  /** Any position holding the first `c` is the one IndexOf reports. */
  lemma IndexOfIs(s: string, c: char, i: nat)
    requires i < |s| && s[i] == c && c !in s[..i]
    ensures IndexOf(s, c) == Some(i)
  {
    assert c in s;
  }

  /**
   * `s.split(c, 1)` when `c in s`: the part before the first `c` and the part
   * after it; None when `c` does not occur.
   */
  function SplitOnce(s: string, c: char): (r: Option<(string, string)>)
    ensures r.None? <==> c !in s
    ensures r.Some? ==> c !in r.value.0 && r.value.0 + [c] + r.value.1 == s
  {
    match IndexOf(s, c)
    case None => None
    case Some(i) =>
      assert s[..i] + [c] + s[i + 1..] == s;
      Some((s[..i], s[i + 1..]))
  }

  /** The split at the first `c` is the only one whose front part has no `c`. */
  lemma SplitOnceOf(a: string, c: char, b: string)
    requires c !in a
    ensures SplitOnce(a + [c] + b, c) == Some((a, b))
  {
    var s := a + [c] + b;
    assert s[..|a|] == a;
    IndexOfIs(s, c, |a|);
    assert s[|a| + 1..] == b;
  }

  /** `s.split(c)`: the pieces of `s` between occurrences of `c`. */
  function Split(s: string, c: char): (parts: seq<string>)
    ensures |parts| >= 1
    ensures forall k :: 0 <= k < |parts| ==> c !in parts[k]
    decreases |s|
  {
    match SplitOnce(s, c)
    case None => [s]
    case Some((front, back)) => [front] + Split(back, c)
  }

  /** `c.join(parts)`, the inverse of Split. */
  function Join(parts: seq<string>, c: char): string
    requires |parts| >= 1
  {
    if |parts| == 1 then parts[0] else parts[0] + [c] + Join(parts[1..], c)
  }

  /** Joining the pieces of a split gives back the string. */
  lemma {:induction false} JoinSplit(s: string, c: char)
    ensures Join(Split(s, c), c) == s
    decreases |s|
  {
    match SplitOnce(s, c)
    case None =>
    case Some((front, back)) =>
      JoinSplit(back, c);
      assert Split(s, c)[1..] == Split(back, c);
  }

  /** Splitting a join of pieces free of `c` gives back the pieces. */
  lemma {:induction false} SplitJoin(parts: seq<string>, c: char)
    requires |parts| >= 1
    requires forall k :: 0 <= k < |parts| ==> c !in parts[k]
    ensures Split(Join(parts, c), c) == parts
  {
    if |parts| == 1 {
      assert SplitOnce(parts[0], c).None?;
    } else {
      SplitJoin(parts[1..], c);
      SplitOnceOf(parts[0], c, Join(parts[1..], c));
    }
  }

  /** A character other than the separator that no piece holds is not in their join. */
  lemma {:induction false} JoinAvoids(parts: seq<string>, c: char, x: char)
    requires |parts| >= 1 && x != c
    requires forall k :: 0 <= k < |parts| ==> x !in parts[k]
    ensures x !in Join(parts, c)
  {
    if |parts| > 1 {
      JoinAvoids(parts[1..], c, x);
      assert parts[0] + [c] + Join(parts[1..], c) == Join(parts, c);
    }
  }

  /** A string without `c` is a single piece. */
  lemma SplitNone(s: string, c: char)
    requires c !in s
    ensures Split(s, c) == [s]
  {
  }

  /**
   * `seg` stands in `s` at position `i` as a whole `c`-delimited piece:
   * it is preceded by `c` or the start, and followed by `c` or the end.
   */
  ghost predicate PieceAt(s: string, c: char, seg: string, i: int)
  {
    0 <= i && i + |seg| <= |s| && s[i..i + |seg|] == seg &&
    (i == 0 || s[i - 1] == c) &&
    (i + |seg| == |s| || s[i + |seg|] == c)
  }

  /** A piece of the split is exactly a `c`-delimited occurrence in the string. */
  lemma InSplitIff(s: string, c: char, seg: string)
    requires c !in seg
    ensures seg in Split(s, c) <==> exists i :: PieceAt(s, c, seg, i)
  {
    if seg in Split(s, c) {
      var i := PieceOfSplit(s, c, seg);
    }
    if i :| PieceAt(s, c, seg, i) {
      SplitOfPiece(s, c, seg, i);
    }
  }

  /** Every piece of the split stands in the string between separators. */
  lemma {:induction false} PieceOfSplit(s: string, c: char, seg: string) returns (i: int)
    requires seg in Split(s, c)
    ensures PieceAt(s, c, seg, i)
    decreases |s|, 1
  {
    match SplitOnce(s, c)
    case None =>
      i := 0;
      WholePiece(s, c);
    case Some((front, back)) =>
      if seg == front {
        i := 0;
        FrontPiece(s, front, c, back);
      } else {
        i := PieceInBack(s, front, c, back, seg);
      }
  }

  /** The recursive step of PieceOfSplit: a piece after the first separator. */
  lemma {:induction false} PieceInBack(s: string, front: string, c: char, back: string, seg: string) returns (i: int)
    requires s == front + [c] + back && seg in Split(back, c)
    ensures PieceAt(s, c, seg, i)
    decreases |s|, 0
  {
    var j := PieceOfSplit(back, c, seg);
    PieceAfter(s, front, c, back, seg, j);
    i := |front| + 1 + j;
  }

  /** A string is a piece of itself at position 0. */
  lemma WholePiece(s: string, c: char)
    ensures PieceAt(s, c, s, 0)
  {
    assert s[0..|s|] == s;
  }

  /** The part before the first separator is a piece at position 0. */
  lemma FrontPiece(s: string, front: string, c: char, back: string)
    requires s == front + [c] + back
    ensures PieceAt(s, c, front, 0)
  {
    assert s[0..|front|] == front;
  }

  /** A piece of `back` is a piece of `front + [c] + back`, shifted. */
  lemma PieceAfter(s: string, front: string, c: char, back: string, seg: string, j: int)
    requires s == front + [c] + back && PieceAt(back, c, seg, j)
    ensures PieceAt(s, c, seg, |front| + 1 + j)
  {
    var i := |front| + 1 + j;
    assert s[|front| + 1..] == back;
    assert s[i..i + |seg|] == back[j..j + |seg|];
    assert s[i - 1] == if j == 0 then c else back[j - 1];
  }

  /** Every occurrence between separators of a string without `c` is a piece of the split. */
  lemma {:induction false} SplitOfPiece(s: string, c: char, seg: string, i: int)
    requires c !in seg && PieceAt(s, c, seg, i)
    ensures seg in Split(s, c)
    decreases |s|
  {
    match SplitOnce(s, c)
    case None =>
      OnlyPiece(s, c, seg, i);
    case Some((front, back)) =>
      if i < |front| + 1 {
        FirstPiece(s, front, c, back, seg, i);
      } else {
        PieceShift(s, front, c, back, seg, i);
        SplitOfPiece(back, c, seg, i - |front| - 1);
      }
  }

  /** In a string without `c` the only piece is the whole string. */
  lemma OnlyPiece(s: string, c: char, seg: string, i: int)
    requires c !in s && PieceAt(s, c, seg, i)
    ensures seg == s
  {
    assert i == 0;
    assert i + |seg| == |s|;
    assert s[0..|s|] == s;
  }

  /** A piece starting before the first separator is the part before it. */
  lemma FirstPiece(s: string, front: string, c: char, back: string, seg: string, i: int)
    requires s == front + [c] + back && c !in front && c !in seg
    requires PieceAt(s, c, seg, i) && i < |front| + 1
    ensures seg == front
  {
    assert forall k :: 0 <= k < |front| ==> s[k] == front[k] && s[k] != c;
    assert forall k :: 0 <= k < |seg| ==> seg[k] != c;
    assert s[|front|] == c;
    assert s[0..|front|] == front;
  }

  /** A piece after the first separator is a piece of the rest, shifted back. */
  lemma PieceShift(s: string, front: string, c: char, back: string, seg: string, i: int)
    requires s == front + [c] + back && PieceAt(s, c, seg, i) && i >= |front| + 1
    ensures PieceAt(back, c, seg, i - |front| - 1)
  {
    var n := |front| + 1;
    assert back == s[n..];
    assert back[i - n..i - n + |seg|] == s[i..i + |seg|];
  }

  /** `sub in s` for strings: `sub` occurs as a contiguous substring. */
  predicate Contains(s: string, sub: string)
  {
    exists i | 0 <= i <= |s| - |sub| :: OccursAt(s, sub, i)
  }

  predicate OccursAt(s: string, sub: string, i: int)
  {
    0 <= i <= |s| - |sub| && s[i..i + |sub|] == sub
  }

  // ---------------------------------------------------------------------------
  // Stripping

  /**
   * Python's whitespace (`str.isspace`), the characters `str.strip()` removes:
   * U+0009..U+000D, U+001C..U+001F, space, U+0085, U+00A0, U+1680,
   * U+2000..U+200A, U+2028, U+2029, U+202F, U+205F and U+3000.
   */
  predicate IsSpace(c: char)
  {
    ('\t' <= c <= '\r') || ('\U{1C}' <= c <= '\U{1F}') || c == ' ' ||
    c == '\U{85}' || c == '\U{A0}' || c == '\U{1680}' ||
    ('\U{2000}' <= c <= '\U{200A}') || c == '\U{2028}' || c == '\U{2029}' ||
    c == '\U{202F}' || c == '\U{205F}' || c == '\U{3000}'
  }

  /** Every character is whitespace (the empty string included). */
  predicate IsBlank(s: string)
  {
    forall k :: 0 <= k < |s| ==> IsSpace(s[k])
  }

  /** `lstrip`: drop the longest prefix whose characters satisfy `drop`. */
  function LStrip(s: string, drop: char -> bool): (t: string)
    ensures |t| <= |s| && t == s[|s| - |t|..]
    ensures forall k :: 0 <= k < |s| - |t| ==> drop(s[k])
    ensures t == [] || !drop(t[0])
  {
    if s != [] && drop(s[0]) then LStrip(s[1..], drop) else s
  }

  /** `rstrip`: drop the longest suffix whose characters satisfy `drop`. */
  function RStrip(s: string, drop: char -> bool): (t: string)
    ensures |t| <= |s| && t == s[..|t|]
    ensures forall k :: |t| <= k < |s| ==> drop(s[k])
    ensures t == [] || !drop(t[|t| - 1])
  {
    if s != [] && drop(s[|s| - 1]) then RStrip(s[..|s| - 1], drop) else s
  }

  /** Stripping a prefix of dropped characters from a string that does not start with one. */
  lemma {:induction false} LStripPrefix(p: string, t: string, drop: char -> bool)
    requires forall k :: 0 <= k < |p| ==> drop(p[k])
    requires t == [] || !drop(t[0])
    ensures LStrip(p + t, drop) == t
  {
    if p != [] {
      assert (p + t)[1..] == p[1..] + t;
      LStripPrefix(p[1..], t, drop);
    }
  }

  /** `s.strip()`. */
  function Strip(s: string): string
  {
    RStrip(LStrip(s, IsSpace), IsSpace)
  }

  /** `not s.strip()` holds exactly for the empty and the whitespace-only strings. */
  lemma StripEmptyIffBlank(s: string)
    ensures Strip(s) == "" <==> IsBlank(s)
  {
    var t := LStrip(s, IsSpace);
    assert t != [] ==> t[0] == s[|s| - |t|];
    assert t != [] ==> RStrip(t, IsSpace) != [];
  }
}
