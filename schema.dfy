/**
 * Structural checking of a mapping against a declarative schema: required
 * keys and expected types, checked field by field in the schema's declared
 * order, stopping at the first failure. Keys the schema does not name are
 * never looked at.
 */
module Schema {
  import opened Document
  import opened Failures

  /** One schema rule: the key, the expected type and whether it must be present. */
  datatype Field = Field(key: string, tag: Tag, required: bool)

  type Schema = seq<Field>

  /** The top-level schema. */
  const TopSchema: Schema := [
    Field("name", StrTag, true),
    Field("description", StrTag, true),
    Field("author", DictTag, true),
    Field("provides", DictTag, true)
  ]

  /** The schema of the `author` mapping. */
  const AuthorSchema: Schema := [
    Field("name", StrTag, true),
    Field("email", StrTag, true)
  ]

  /** The key path used in messages: `parent.key`, or `key` when there is no parent. */
  function FullKey(parent: string, key: string): (k: string)
    ensures parent == "" ==> k == key
    ensures parent != "" ==> k == parent + "." + key
  {
    if parent != "" then parent + "." + key else key
  }

  /** The check of one field (one iteration of the loop over the schema). */
  function CheckField(data: map<string, Value>, f: Field, parent: string): (r: Result)
    ensures r.Ok? <==> (f.required ==> f.key in data) && (f.key in data ==> IsInstance(data[f.key], f.tag))
    ensures f.required && f.key !in data ==> r == Err(MissingKey(FullKey(parent, f.key)))
    ensures f.key in data && !IsInstance(data[f.key], f.tag) ==>
      r == Err(WrongType(FullKey(parent, f.key), TypeName(f.tag), TypeName(TagOf(data[f.key]))))
  {
    var full := FullKey(parent, f.key);
    if f.required && f.key !in data then
      Err(MissingKey(full))
    else if f.key in data && !IsInstance(data[f.key], f.tag) then
      Err(WrongType(full, TypeName(f.tag), TypeName(TagOf(data[f.key]))))
    else
      Ok
  }

  /** The field checks, in the schema's order. */
  function FieldResults(data: map<string, Value>, schema: Schema, parent: string): (rs: seq<Result>)
    ensures |rs| == |schema|
    ensures forall i :: 0 <= i < |schema| ==> rs[i] == CheckField(data, schema[i], parent)
  {
    seq(|schema|, i requires 0 <= i < |schema| => CheckField(data, schema[i], parent))
  }

  /**
   * What `_validate_dict_schema(data, schema, parent)` reports: a missing or
   * a mistyped key, or Ok.
   */
  function DictSchemaResult(data: map<string, Value>, schema: Schema, parent: string): (r: Result)
    ensures r.Err? ==> r.failure.MissingKey? || r.failure.WrongType?
  {
    FirstFailure(FieldResults(data, schema, parent))
  }

  /** `_validate_dict_schema`: a loop over the schema that stops at the first failing field. */
  method ValidateDictSchema(data: map<string, Value>, schema: Schema, parent: string) returns (r: Result)
    ensures r == DictSchemaResult(data, schema, parent)
  {
    var i := 0;
    while i < |schema|
      invariant 0 <= i <= |schema|
      invariant forall j :: 0 <= j < i ==> CheckField(data, schema[j], parent).Ok?
    {
      r := CheckField(data, schema[i], parent);
      if r.Err? {
        FirstFailureAt(FieldResults(data, schema, parent), i);
        return;
      }
      i := i + 1;
    }
    r := Ok;
  }

  /**
   * The schema passes exactly when every required key is present and every
   * present schema key holds a value of the expected type.
   */
  lemma DictSchemaOkIff(data: map<string, Value>, schema: Schema, parent: string)
    ensures DictSchemaResult(data, schema, parent).Ok? <==>
      forall i :: 0 <= i < |schema| ==>
        (schema[i].required ==> schema[i].key in data) &&
        (schema[i].key in data ==> IsInstance(data[schema[i].key], schema[i].tag))
  {
    var rs := FieldResults(data, schema, parent);
    assert forall i :: 0 <= i < |schema| ==> rs[i] == CheckField(data, schema[i], parent);
  }

  /**
   * The first field in declared order that is required and absent is
   * reported as missing, under its full key, once all fields before it pass.
   */
  lemma MissingKeyReported(data: map<string, Value>, schema: Schema, parent: string, i: nat)
    requires i < |schema| && schema[i].required && schema[i].key !in data
    requires forall j :: 0 <= j < i ==> CheckField(data, schema[j], parent).Ok?
    ensures DictSchemaResult(data, schema, parent) == Err(MissingKey(FullKey(parent, schema[i].key)))
  {
    FirstFailureAt(FieldResults(data, schema, parent), i);
  }

  /**
   * A present schema key of the wrong type is reported with its full key,
   * the expected type's name and the actual type's name, once all fields
   * before it pass.
   */
  lemma WrongTypeReported(data: map<string, Value>, schema: Schema, parent: string, i: nat)
    requires i < |schema| && schema[i].key in data && !IsInstance(data[schema[i].key], schema[i].tag)
    requires forall j :: 0 <= j < i ==> CheckField(data, schema[j], parent).Ok?
    ensures DictSchemaResult(data, schema, parent) ==
      Err(WrongType(FullKey(parent, schema[i].key), TypeName(schema[i].tag), TypeName(TagOf(data[schema[i].key]))))
  {
    FirstFailureAt(FieldResults(data, schema, parent), i);
  }

  /**
   * Every failure is the failure of the first failing field in declared
   * order, and is either a missing or a mistyped key.
   */
  lemma DictSchemaFailure(data: map<string, Value>, schema: Schema, parent: string)
    requires DictSchemaResult(data, schema, parent).Err?
    ensures exists i :: (0 <= i < |schema| &&
      (forall j :: 0 <= j < i ==> CheckField(data, schema[j], parent).Ok?) &&
      DictSchemaResult(data, schema, parent) == CheckField(data, schema[i], parent))
    ensures DictSchemaResult(data, schema, parent).failure.MissingKey? ||
            DictSchemaResult(data, schema, parent).failure.WrongType?
  {
    var rs := FieldResults(data, schema, parent);
    var i :| 0 <= i < |rs| && rs[i] == FirstFailure(rs) && forall j :: 0 <= j < i ==> rs[j].Ok?;
    assert forall j :: 0 <= j < i ==> CheckField(data, schema[j], parent).Ok? by {
      forall j | 0 <= j < i ensures CheckField(data, schema[j], parent).Ok? {
        assert rs[j] == CheckField(data, schema[j], parent);
      }
    }
  }

  /** Keys the schema does not name never change the outcome. */
  lemma ExtraKeyIgnored(data: map<string, Value>, schema: Schema, parent: string, key: string, v: Value)
    requires forall i :: 0 <= i < |schema| ==> schema[i].key != key
    ensures DictSchemaResult(data[key := v], schema, parent) == DictSchemaResult(data, schema, parent)
  {
    assert FieldResults(data[key := v], schema, parent) == FieldResults(data, schema, parent);
  }

  /** What `validate_schema(data)` reports: the top-level schema, then the `author` schema. */
  function SchemaResult(data: map<string, Value>): (r: Result)
    ensures r.Err? ==> r.failure.MissingKey? || r.failure.WrongType?
    ensures DictSchemaResult(data, TopSchema, "").Err? ==> r == DictSchemaResult(data, TopSchema, "")
  {
    DictSchemaResult(data, TopSchema, "").Then(DictSchemaResult(GetMapping(data, "author"), AuthorSchema, "author"))
  }

  /** `validate_schema`. */
  method ValidateSchema(data: map<string, Value>) returns (r: Result)
    ensures r == SchemaResult(data)
  {
    r := ValidateDictSchema(data, TopSchema, "");
    if r.Err? {
      return;
    }
    r := ValidateDictSchema(GetMapping(data, "author"), AuthorSchema, "author");
  }

  /** The top-level fields the schema demands, with their types. */
  predicate TopShaped(data: map<string, Value>)
  {
    "name" in data && data["name"].Str? &&
    "description" in data && data["description"].Str? &&
    "author" in data && data["author"].Dict? &&
    "provides" in data && data["provides"].Dict?
  }

  /** The `author` fields the schema demands, with their types. */
  predicate AuthorShaped(author: map<string, Value>)
  {
    "name" in author && author["name"].Str? && "email" in author && author["email"].Str?
  }

  lemma TopSchemaOkIff(data: map<string, Value>)
    ensures DictSchemaResult(data, TopSchema, "").Ok? <==> TopShaped(data)
  {
    var rs := FieldResults(data, TopSchema, "");
    assert rs[0].Ok? <==> "name" in data && data["name"].Str?;
    assert rs[1].Ok? <==> "description" in data && data["description"].Str?;
    assert rs[2].Ok? <==> "author" in data && data["author"].Dict?;
    assert rs[3].Ok? <==> "provides" in data && data["provides"].Dict?;
    assert (forall i :: 0 <= i < |rs| ==> rs[i].Ok?) <==> rs[0].Ok? && rs[1].Ok? && rs[2].Ok? && rs[3].Ok?;
  }

  lemma AuthorSchemaOkIff(author: map<string, Value>)
    ensures DictSchemaResult(author, AuthorSchema, "author").Ok? <==> AuthorShaped(author)
  {
    DictSchemaOkIff(author, AuthorSchema, "author");
    assert AuthorSchema[0] == Field("name", StrTag, true);
    assert AuthorSchema[1] == Field("email", StrTag, true);
  }

  /**
   * A document passes the schema exactly when it has string `name` and
   * `description`, a mapping `author` with string `name` and `email`, and a
   * mapping `provides`.
   */
  lemma SchemaOkIff(data: map<string, Value>)
    ensures SchemaResult(data).Ok? <==> TopShaped(data) && AuthorShaped(data["author"].entries)
  {
    TopSchemaOkIff(data);
    AuthorSchemaOkIff(GetMapping(data, "author"));
  }

  /** The missing `author.email` of a document is reported with its dotted path. */
  lemma MissingAuthorEmail(data: map<string, Value>)
    requires DictSchemaResult(data, TopSchema, "").Ok?
    requires "author" in data && data["author"].Dict?
    requires var a := data["author"].entries; "name" in a && a["name"].Str? && "email" !in a
    ensures SchemaResult(data) == Err(MissingKey("author.email"))
  {
    var a := data["author"].entries;
    assert GetMapping(data, "author") == a;
    assert CheckField(a, AuthorSchema[0], "author").Ok?;
    MissingKeyReported(a, AuthorSchema, "author", 1);
    assert FullKey("author", AuthorSchema[1].key) == "author.email";
  }
}
