/** Whole-document runs: a minimal valid package, and the same package with a bad e-mail. */
module Scenarios {
  import opened Wrappers
  import opened Document
  import opened Failures
  import opened Text
  import opened Schema
  import opened Content
  import opened EntryPoints
  import opened Provides
  import opened Pipeline
  import Email

  function Author(email: string): map<string, Value>
  {
    map["name" := Str("A"), "email" := Str(email)]
  }

  function Package(email: string): map<string, Value>
  {
    map["name" := Str("pkg"),
        "description" := Str("d"),
        "author" := Dict(Author(email)),
        "provides" := Dict(map["code" := Str("m:f")])]
  }

  /** Module `m` holds `def f(): pass`; no files exist. */
  const Env: Environment := Environment("/pkg", {}, map["m" := Source([FunctionDef("f", [])])])

  lemma PackageSchemaPasses(email: string)
    ensures SchemaResult(Package(email)).Ok?
  {
    SchemaOkIff(Package(email));
  }

  lemma EntryPointResolves()
    ensures ProvidesResult(map["code" := Str("m:f")], Env.root, Env.existing, Env.modules).Ok?
  {
    assert DefinedAtTopLevel([FunctionDef("f", [])], "f") by {
      assert Defines([FunctionDef("f", [])][0], "f");
    }
    assert "m" + ":" + "f" == "m:f";
    ResolvesIff("m", "f", Env.modules);
    assert EntryPointResult(Str("m:f"), Env.modules).Ok?;
    ProvidesOkIff(map["code" := Str("m:f")], Env.root, Env.existing, Env.modules);
  }

  lemma ShortNamesNotBlank()
    ensures !IsBlank("pkg") && !IsBlank("d") && !IsBlank("A")
    ensures !Contains("A", Placeholder)
  {
    assert !IsSpace("pkg"[0]) && !IsSpace("d"[0]) && !IsSpace("A"[0]);
  }

  lemma EmailNotBlank()
    ensures !IsBlank("a@b.com")
  {
    assert !IsSpace("a@b.com"[0]);
  }

  lemma AuthorAccepted()
    ensures CheckAuthorContent(Author("a@b.com")).Ok?
  {
    ShortNamesNotBlank();
    EmailNotBlank();
    GoodEmail();
    AuthorContentOrder("A", "a@b.com", map[]);
    assert map[]["name" := Str("A")]["email" := Str("a@b.com")] == Author("a@b.com");
  }

  lemma GoodEmail()
    ensures Email.IsEmail("a@b.com")
  {
    Email.AcceptsExample("a@b.com");
  }

  /**
   * Without `--tag` and `--name`, the minimal package whose entry point
   * `m:f` names a top-level function is accepted.
   */
  lemma MinimalPackageAccepted()
    ensures PackageResult(Dict(Package("a@b.com")), Env, None, None).Ok?
  {
    PackageSchemaPasses("a@b.com");
    MinimalContentAccepted();
  }

  lemma MinimalContentAccepted()
    ensures ContentResult(Package("a@b.com"), Env, None, None).Ok?
  {
    PackageFields("a@b.com");
    ShortNamesNotBlank();
    AuthorAccepted();
    EntryPointResolves();
  }

  lemma PackageFields(email: string)
    ensures var data := Package(email);
      Get(data, "name") == Str("pkg") && Get(data, "description") == Str("d") &&
      GetMapping(data, "author") == Author(email) &&
      GetMapping(data, "provides") == map["code" := Str("m:f")]
  {
  }

  lemma AuthorRejected()
    ensures CheckAuthorContent(Author("not-an-email")) == Err(InvalidEmail("not-an-email"))
  {
    ShortNamesNotBlank();
    Email.RejectsExamples();
    assert !IsBlank("not-an-email") by {
      assert !IsSpace("not-an-email"[0]);
    }
    AuthorContentOrder("A", "not-an-email", map[]);
    assert map[]["name" := Str("A")]["email" := Str("not-an-email")] == Author("not-an-email");
  }

  lemma BadEmailContent()
    ensures ContentResult(Package("not-an-email"), Env, None, None) == Err(InvalidEmail("not-an-email"))
  {
    PackageFields("not-an-email");
    ShortNamesNotBlank();
    AuthorRejected();
  }

  /** The same package with e-mail `not-an-email` fails the author check with InvalidEmail. */
  lemma BadEmailRejected()
    ensures PackageResult(Dict(Package("not-an-email")), Env, None, None) == Err(InvalidEmail("not-an-email"))
  {
    PackageSchemaPasses("not-an-email");
    BadEmailContent();
  }
}
