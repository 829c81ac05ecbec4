/**
 * The whole validation of a loaded metadata document: the top level must be
 * a mapping, then the schema is checked, then the content rules, each stage
 * stopping at its first failure.
 */
module Pipeline {
  import opened Wrappers
  import opened Document
  import opened Failures
  import opened Text
  import opened Schema
  import opened Content
  import opened EntryPoints
  import opened Provides

  /** The environment the checks consult: the package root, the files under it and its modules. */
  datatype Environment = Environment(root: string, existing: set<string>, modules: map<string, Resolution>)

  /** The content checks of `validate_content`, in the order it runs them. */
  function ContentStages(data: map<string, Value>, env: Environment, tag: Option<string>, name: Option<string>): (rs: seq<Result>)
    ensures |rs| == 6
  {
    [ CheckTag(tag),
      CheckPackageName(Get(data, "name"), name),
      CheckNonEmptyStr(Get(data, "name"), "name"),
      CheckNonEmptyStr(Get(data, "description"), "description"),
      CheckAuthorContent(GetMapping(data, "author")),
      ProvidesResult(GetMapping(data, "provides"), env.root, env.existing, env.modules) ]
  }

  /**
   * What `validate_content(data, root, tag, name)` reports: the first stage
   * that fails, in their fixed order, or Ok when every stage passes.
   */
  function ContentResult(data: map<string, Value>, env: Environment, tag: Option<string>, name: Option<string>): (r: Result)
    ensures r == FirstFailure(ContentStages(data, env, tag, name))
  {
    var rs := ContentStages(data, env, tag, name);
    ChainIsFirstFailure(rs[0], rs[1], rs[2], rs[3], rs[4], rs[5]);
    assert rs == [rs[0], rs[1], rs[2], rs[3], rs[4], rs[5]];
    CheckTag(tag)
      .Then(CheckPackageName(Get(data, "name"), name))
      .Then(CheckNonEmptyStr(Get(data, "name"), "name"))
      .Then(CheckNonEmptyStr(Get(data, "description"), "description"))
      .Then(CheckAuthorContent(GetMapping(data, "author")))
      .Then(ProvidesResult(GetMapping(data, "provides"), env.root, env.existing, env.modules))
  }

  /**
   * What the `try` block of `main` reports for the loaded document `doc`:
   * a top level that is not a mapping, then the schema, then the content.
   */
  function PackageResult(doc: Value, env: Environment, tag: Option<string>, name: Option<string>): (r: Result)
    ensures !doc.Dict? ==> r == Err(WrongShape)
    ensures r.Ok? ==> doc.Dict? && TopShaped(doc.entries) && AuthorShaped(doc.entries["author"].entries)
  {
    if !doc.Dict? then Err(WrongShape)
    else
      SchemaOkIff(doc.entries);
      SchemaResult(doc.entries).Then(ContentResult(doc.entries, env, tag, name))
  }

  /** `validate_content`. */
  method ValidateContent(data: map<string, Value>, env: Environment, tag: Option<string>, name: Option<string>)
    returns (r: Result)
    ensures r == ContentResult(data, env, tag, name)
  {
    r := CheckTag(tag);
    if r.Err? { return; }
    r := CheckPackageName(Get(data, "name"), name);
    if r.Err? { return; }
    r := CheckNonEmptyStr(Get(data, "name"), "name");
    if r.Err? { return; }
    r := CheckNonEmptyStr(Get(data, "description"), "description");
    if r.Err? { return; }
    r := CheckAuthorContent(GetMapping(data, "author"));
    if r.Err? { return; }
    r := CheckProvides(GetMapping(data, "provides"), env.root, env.existing, env.modules);
  }

  /** The validation steps of `main` after loading. */
  method ValidatePackage(doc: Value, env: Environment, tag: Option<string>, name: Option<string>)
    returns (r: Result)
    ensures r == PackageResult(doc, env, tag, name)
  {
    if !doc.Dict? {
      return Err(WrongShape);
    }
    r := ValidateSchema(doc.entries);
    if r.Err? { return; }
    r := ValidateContent(doc.entries, env, tag, name);
  }

  /** Six checks chained with `Then` report the first failure among them. */
  lemma {:induction false} ChainIsFirstFailure(a: Result, b: Result, c: Result, d: Result, e: Result, f: Result)
    ensures a.Then(b).Then(c).Then(d).Then(e).Then(f) == FirstFailure([a, b, c, d, e, f])
  {
    var rs := [a, b, c, d, e, f];
    if a.Err? {
      FirstFailureAt(rs, 0);
    } else if b.Err? {
      FirstFailureAt(rs, 1);
    } else if c.Err? {
      FirstFailureAt(rs, 2);
    } else if d.Err? {
      FirstFailureAt(rs, 3);
    } else if e.Err? {
      FirstFailureAt(rs, 4);
    } else if f.Err? {
      FirstFailureAt(rs, 5);
    }
  }

  /** The top-level shape comes first: anything but a mapping fails before any other check. */
  lemma ShapeFirst(doc: Value, env: Environment, tag: Option<string>, name: Option<string>)
    requires !doc.Dict?
    ensures PackageResult(doc, env, tag, name) == Err(WrongShape)
  {
  }

  /** A schema failure is reported before any content check runs. */
  lemma SchemaBeforeContent(data: map<string, Value>, env: Environment, tag: Option<string>, name: Option<string>)
    requires SchemaResult(data).Err?
    ensures PackageResult(Dict(data), env, tag, name) == SchemaResult(data)
  {
  }

  /**
   * A mapping is accepted exactly when it passes the schema and every
   * content stage; a rejection names the first content stage that fails.
   */
  lemma AcceptedIff(data: map<string, Value>, env: Environment, tag: Option<string>, name: Option<string>)
    ensures var rs := ContentStages(data, env, tag, name);
      PackageResult(Dict(data), env, tag, name).Ok? <==>
        SchemaResult(data).Ok? && forall i :: 0 <= i < 6 ==> rs[i].Ok?
    ensures var rs := ContentStages(data, env, tag, name);
      forall i :: 0 <= i < 6 && SchemaResult(data).Ok? && rs[i].Err? && (forall j :: 0 <= j < i ==> rs[j].Ok?) ==>
        PackageResult(Dict(data), env, tag, name) == rs[i]
  {
    var rs := ContentStages(data, env, tag, name);
    forall i | 0 <= i < 6 && SchemaResult(data).Ok? && rs[i].Err? && (forall j :: 0 <= j < i ==> rs[j].Ok?)
      ensures PackageResult(Dict(data), env, tag, name) == rs[i]
    {
      FirstFailureAt(rs, i);
    }
  }

  /** Without `--tag` and `--name`, neither the tag nor the name match is checked. */
  lemma NoArgumentsSkipChecks(data: map<string, Value>, env: Environment)
    ensures ContentResult(data, env, None, None) ==
      CheckNonEmptyStr(Get(data, "name"), "name")
        .Then(CheckNonEmptyStr(Get(data, "description"), "description"))
        .Then(CheckAuthorContent(GetMapping(data, "author")))
        .Then(ProvidesResult(GetMapping(data, "provides"), env.root, env.existing, env.modules))
  {
  }
}
