/**
 * The semantic content checks: non-empty strings, the version tag, the
 * package-name match and the author fields.
 */
module Content {
  import opened Wrappers
  import opened Document
  import opened Failures
  import opened Text
  import SemVer
  import Email

  /** The author name left over from the package template. */
  const Placeholder: string := "your-github-username"

  /**
   * `_check_non_empty_str`: a falsy value, or a string that is empty once
   * stripped, is an empty field. A truthy value that is not a string has no
   * `strip` and raises AttributeError.
   */
  function CheckNonEmptyStr(v: Value, key: string): (r: Result)
    ensures r.Ok? <==> v.Str? && !IsBlank(v.s)
    ensures r.Err? && (v.Str? || v.Null?) ==> r == Err(EmptyField(key))
  {
    if !Truthy(v) then Err(EmptyField(key))
    else if !v.Str? then Err(Unexpected("AttributeError"))
    else
      StripEmptyIffBlank(v.s);
      if Strip(v.s) == "" then Err(EmptyField(key)) else Ok
  }

  predicate IsV(c: char)
  {
    c == 'v'
  }

  /**
   * `_check_tag`: no tag or an empty tag is skipped; otherwise every leading
   * `v` is stripped (`lstrip("v")`) and the rest must parse as a semantic version.
   */
  function CheckTag(tag: Option<string>): (r: Result)
    ensures tag.None? || tag.value == "" ==> r.Ok?
    ensures r.Err? ==> r == Err(InvalidVersion(tag.value))
  {
    if tag.None? || tag.value == "" then Ok
    else if SemVer.IsSemVer(LStrip(tag.value, IsV)) then Ok
    else Err(InvalidVersion(tag.value))
  }

  /**
   * `_check_package_name`: no expected name or an empty one is skipped;
   * otherwise the metadata name must equal it.
   */
  function CheckPackageName(metadataName: Value, expected: Option<string>): (r: Result)
    ensures expected.None? ==> r.Ok?
    ensures r.Err? ==>
      expected.Some? && metadataName != Str(expected.value) && r == Err(NameMismatch(expected.value, metadataName))
  {
    if expected.None? || expected.value == "" then Ok
    else if metadataName != Str(expected.value) then Err(NameMismatch(expected.value, metadataName))
    else Ok
  }

  /**
   * `_check_author_content`: `name`, then `email`, must be non-empty; then
   * the name must not hold the template placeholder; then the e-mail must
   * have the accepted shape. A missing key reads as `""`.
   */
  function CheckAuthorContent(author: map<string, Value>): (r: Result)
    ensures r.Err? ==>
      r.failure == EmptyField("author.name") || r.failure == EmptyField("author.email") ||
      r.failure == PlaceholderDetected("author.name") || r.failure.InvalidEmail? ||
      r.failure == Unexpected("AttributeError")
    ensures r.Err? && r.failure.InvalidEmail? ==> "email" in author && author["email"] == Str(r.failure.email)
  {
    var name := GetOr(author, "name", Str(""));
    var email := GetOr(author, "email", Str(""));
    var nameCheck := CheckNonEmptyStr(name, "author.name");
    if nameCheck.Err? then nameCheck
    else
      var emailCheck := CheckNonEmptyStr(email, "author.email");
      if emailCheck.Err? then emailCheck
      else if Contains(name.s, Placeholder) then Err(PlaceholderDetected("author.name"))
      else if !Email.IsEmail(email.s) then Err(InvalidEmail(email.s))
      else Ok
  }

  /** Only `None`, `""` and whitespace-only strings fail the non-empty check, as EmptyField. */
  lemma NonEmptyStrOnStrings(s: string, key: string)
    ensures CheckNonEmptyStr(Str(s), key) == (if IsBlank(s) then Err(EmptyField(key)) else Ok)
    ensures CheckNonEmptyStr(Null, key) == Err(EmptyField(key))
  {
  }

  /**
   * The author fields pass exactly when both are strings that are not blank,
   * the name does not hold the placeholder and the e-mail has the accepted shape.
   */
  lemma AuthorContentOkIff(author: map<string, Value>)
    ensures CheckAuthorContent(author).Ok? <==>
      "name" in author && author["name"].Str? && !IsBlank(author["name"].s) &&
      "email" in author && author["email"].Str? && !IsBlank(author["email"].s) &&
      !Contains(author["name"].s, Placeholder) && Email.IsEmail(author["email"].s)
  {
    assert !Str("").Str? || IsBlank("");
  }

  /**
   * The author check reports, in this order: an empty name, an empty e-mail,
   * the placeholder in the name, a malformed e-mail. The placeholder is only
   * looked for once both fields are known to be non-empty.
   */
  lemma AuthorContentOrder(name: string, email: string, others: map<string, Value>)
    ensures var author := others["name" := Str(name)]["email" := Str(email)];
      CheckAuthorContent(author) ==
        if IsBlank(name) then Err(EmptyField("author.name"))
        else if IsBlank(email) then Err(EmptyField("author.email"))
        else if Contains(name, Placeholder) then Err(PlaceholderDetected("author.name"))
        else if !Email.IsEmail(email) then Err(InvalidEmail(email))
        else Ok
  {
    var author := others["name" := Str(name)]["email" := Str(email)];
    assert author["name"] == Str(name) && author["email"] == Str(email);
  }

  /** A name holding the placeholder is rejected once both author fields are non-empty. */
  lemma PlaceholderRejected(prefix: string, suffix: string, email: string)
    requires !IsBlank(email)
    ensures CheckAuthorContent(map["name" := Str(prefix + Placeholder + suffix), "email" := Str(email)])
      == Err(PlaceholderDetected("author.name"))
  {
    var name := prefix + Placeholder + suffix;
    assert OccursAt(name, Placeholder, |prefix|);
    assert !IsBlank(name) by {
      assert !IsSpace(name[|prefix|]);
    }
    AuthorContentOrder(name, email, map[]);
    assert map[]["name" := Str(name)]["email" := Str(email)] == map["name" := Str(name), "email" := Str(email)];
  }

  /** `n` letters `v`. */
  function VPrefix(n: nat): (p: string)
    ensures |p| == n && forall k :: 0 <= k < n ==> p[k] == 'v'
  {
    seq(n, _ => 'v')
  }

  /**
   * A non-empty tag of `v`s followed by `t`, where `t` does not itself start
   * with `v`, passes exactly when `t` is a semantic version, and is reported
   * as an invalid version otherwise.
   */
  lemma CheckTagIff(k: nat, t: string)
    requires (t == "" || t[0] != 'v') && VPrefix(k) + t != ""
    ensures CheckTag(Some(VPrefix(k) + t)) ==
      if SemVer.IsSemVer(t) then Ok else Err(InvalidVersion(VPrefix(k) + t))
  {
    LStripPrefix(VPrefix(k), t, IsV);
  }

  /**
   * A tag of `v`s (possibly none) followed by dot-separated decimal numbers
   * passes exactly when there are three numbers; otherwise it is reported as
   * an invalid version (as `v1.2` and `1.2.3.4` are).
   */
  lemma DottedTagIff(vs: nat, ns: seq<nat>)
    requires |ns| >= 1
    ensures var tag := VPrefix(vs) + SemVer.DottedDecimals(ns);
      CheckTag(Some(tag)) == if |ns| == 3 then Ok else Err(InvalidVersion(tag))
  {
    SemVer.DottedDecimalsIff(ns);
    CheckTagIff(vs, SemVer.DottedDecimals(ns));
  }

  /** A non-empty tag without a dot, such as `abc`, is an invalid version. */
  lemma NoDotTagRejected(tag: string)
    requires tag != "" && '.' !in tag
    ensures CheckTag(Some(tag)) == Err(InvalidVersion(tag))
  {
    var t := LStrip(tag, IsV);
    assert '.' !in t;
    SemVer.NoDotNotSemVer(t);
  }

  /** The tag check skips a missing or empty tag and rejects the word `abc`. */
  lemma TagExamples()
    ensures CheckTag(None).Ok? && CheckTag(Some("")).Ok?
    ensures CheckTag(Some("abc")) == Err(InvalidVersion("abc"))
  {
    assert forall k :: 0 <= k < |"abc"| ==> "abc"[k] != '.';
    NoDotTagRejected("abc");
  }

  /** The name check is skipped without an expected name and otherwise demands equality. */
  lemma PackageNameMatchIff(metadataName: Value, expected: string)
    ensures CheckPackageName(metadataName, None).Ok? && CheckPackageName(metadataName, Some("")).Ok?
    ensures expected != "" ==>
      (CheckPackageName(metadataName, Some(expected)).Ok? <==> metadataName == Str(expected))
    ensures expected != "" && metadataName != Str(expected) ==>
      CheckPackageName(metadataName, Some(expected)) == Err(NameMismatch(expected, metadataName))
  {
  }
}
