# Rayforge package validator — verified model

This project models the validation core of `scripts/validate_package.py`, the
script that checks a Rayforge package's `rayforge-package.yaml` before it is
published. A loaded metadata document goes through three stages, and the first
failure stops the run:

1. the top level must be a mapping;
2. the schema check: `name`, `description`, `author` and `provides` must be
   present with the right types, then `author.name` and `author.email`;
3. the content checks, in this order:
   - the optional git tag must be a semantic version once its leading `v`s are
     stripped;
   - the optional expected name must equal the metadata name;
   - `name` and `description` must not be blank;
   - the author must have a non-blank name and e-mail, no template placeholder
     in the name, and an e-mail of the accepted shape;
   - `provides` must declare `code` and/or `assets`. Every asset is a mapping
     whose `path` is a non-empty string with no `..` component, naming a path
     that exists (a file or a directory). The `module:attribute` code entry point must name an
     attribute bound at the top level of the module's source, found without
     running it.

The model has these parts:
- The document is a JSON-like `Document.Value`.
- A validation outcome is `Failures.Result`: `Ok`, or `Err` with the kind of
  exception the script would raise (`Failures.Failure`).
- Fail-fast order is expressed once. `Result.Then` chains fixed steps.
  `FirstFailure` covers a loop: it gives the first failing check.
  `FirstFailureAt` says which check that is.

Each loop in the source becomes a `method` with a `while` loop:
- the schema loop;
- the assets loop;
- the scan over a module's top-level statements and their assignment targets.

Each such method is proved equal to a specification function. Properties are
then proved about those functions. The orchestration functions
(`validate_schema`, `validate_content`, the `try` block of `main`) are methods
proved against functions in the same way.

Things the script does through the environment are parameters:
- the filesystem is the set of paths that exist;
- the importable modules are a map from module name to that module's parsed
  top-level statements, or to the exception raised while loading them.

## Model

| member | source | states |
|---|---|---|
| Failures.Result.Then | scripts/validate_package.py:259-260 | a chained step passes iff both steps pass; an earlier failure is reported unchanged and the later step is not consulted |
| Failures.FirstFailure | scripts/validate_package.py:46-59 | a sequence of checks passes iff every check passes; a failure equals some check's failure with every earlier check passing |
| Failures.FirstFailureAt | scripts/validate_package.py:46-59 | if check i fails and all before it pass, the reported failure is check i's, whatever follows |
| Document.Get | scripts/validate_package.py:202 | `d.get(key)` is the stored value, or `None` when the key is absent |
| Document.GetOr | scripts/validate_package.py:98-99 | `d.get(key, default)` is the stored value, or the default when the key is absent |
| Document.GetMapping | scripts/validate_package.py:207-208 | `d.get(key, {})` read as a mapping: the stored mapping, or empty when the key is absent |
| Schema.FullKey | scripts/validate_package.py:47 | the reported key is `parent.key`, or just `key` at the top level |
| Schema.CheckField | scripts/validate_package.py:48-59 | one field passes iff it is present when required and, when present, an instance of its type; an absent required key is MissingKey under the full key, before any type check; a wrong type reports the full key, the expected type's name and the actual type's name |
| Schema.DictSchemaResult | scripts/validate_package.py:44-59 | a schema failure is always a missing key or a wrong type |
| Schema.ValidateDictSchema | scripts/validate_package.py:44-59 | the loop over the schema returns exactly the first failing field's failure, in declared order, or Ok |
| Schema.DictSchemaOkIff | scripts/validate_package.py:44-59 | the schema passes iff every required key is present and every present schema key has the expected type |
| Schema.MissingKeyReported | scripts/validate_package.py:48-49 | the first failing field, when required and absent, is reported as MissingKey with its dotted full key |
| Schema.WrongTypeReported | scripts/validate_package.py:51-59 | the first failing field, when present with the wrong type, is reported as WrongType naming the key, the expected type and the actual type |
| Schema.DictSchemaFailure | scripts/validate_package.py:44-59 | every schema failure is the failure of the first failing field, and is a missing key or a wrong type |
| Schema.ExtraKeyIgnored | scripts/validate_package.py:46 | adding a key the schema does not name never changes the outcome |
| Schema.TopSchemaOkIff | scripts/validate_package.py:25-30 | the top-level schema passes iff `name` and `description` are strings and `author` and `provides` are mappings |
| Schema.AuthorSchemaOkIff | scripts/validate_package.py:32-35 | the author schema passes iff `name` and `email` are strings |
| Schema.SchemaResult | scripts/validate_package.py:62-67 | a failure of validate_schema is a missing key or a wrong type, and a top-level failure is reported before the author schema is looked at |
| Schema.ValidateSchema | scripts/validate_package.py:62-67 | validate_schema reports the top-level schema's failure first, then the author schema's, under the `author.` prefix |
| Schema.SchemaOkIff | scripts/validate_package.py:62-67 | a document passes the schema iff it has string `name` and `description`, a mapping `provides`, and a mapping `author` with string `name` and `email` |
| Schema.MissingAuthorEmail | scripts/validate_package.py:66 | a missing author e-mail is reported as the dotted key `author.email` |
| Text.IndexOf | scripts/validate_package.py:137 | the first position of a character, or none exactly when it does not occur |
| Text.SplitOnce | scripts/validate_package.py:143 | `split(c, 1)` gives none iff `c` is absent; otherwise a front with no `c` such that front + c + back is the input |
| Text.SplitOnceOf | scripts/validate_package.py:143 | the first-separator split of a + c + b, with no `c` in a, is exactly (a, b) |
| Text.Split | scripts/validate_package.py:120 | `split(c)` gives at least one piece, and no piece holds `c` |
| Text.JoinSplit | scripts/validate_package.py:120 | joining the pieces of a split with the separator gives back the string |
| Text.SplitJoin | scripts/validate_package.py:120 | splitting a join of separator-free pieces gives back the pieces |
| Text.InSplitIff | scripts/validate_package.py:120 | a separator-free string is a piece of the split iff it stands in the string between separators or string ends |
| Text.LStrip | scripts/validate_package.py:75 | `lstrip` removes the longest prefix of dropped characters, and what remains does not start with one |
| Text.RStrip | scripts/validate_package.py:40 | `rstrip` removes the longest suffix of dropped characters, and what remains does not end with one |
| Text.LStripPrefix | scripts/validate_package.py:75 | stripping a run of dropped characters in front of a string that does not start with one gives the string |
| Text.StripEmptyIffBlank | scripts/validate_package.py:40 | `s.strip()` is empty iff every character of `s` is whitespace |
| Content.CheckNonEmptyStr | scripts/validate_package.py:38-41 | the check passes iff the value is a string with a non-whitespace character; `None` and blank strings are EmptyField for the key |
| Content.NonEmptyStrOnStrings | scripts/validate_package.py:38-41 | on strings, exactly the blank ones fail, as EmptyField |
| Content.CheckTag | scripts/validate_package.py:70-81 | no tag and the empty tag pass; every failure is InvalidVersion naming the tag as given |
| Content.CheckTagIff | scripts/validate_package.py:70-81 | a non-empty tag made of `v`s and then a rest that does not start with `v` passes iff that rest is a semantic version, and is InvalidVersion of the whole tag otherwise |
| Content.DottedTagIff | scripts/validate_package.py:70-81 | `v`s followed by dot-separated decimal numbers pass iff there are exactly three numbers; otherwise InvalidVersion of the tag, as for `v1.2` and `1.2.3.4` |
| Content.NoDotTagRejected | scripts/validate_package.py:70-81 | a non-empty tag with no dot, such as `abc`, is InvalidVersion |
| Content.TagExamples | scripts/validate_package.py:72-73 | no tag and the empty tag are skipped; `abc` is rejected |
| Content.CheckPackageName | scripts/validate_package.py:84-93 | without an expected name the check passes; every failure is NameMismatch of the expected name and the metadata value, which differ |
| Content.PackageNameMatchIff | scripts/validate_package.py:84-93 | with no or an empty expected name the check is skipped; otherwise it passes iff the metadata name is that string, and fails with NameMismatch otherwise |
| Content.CheckAuthorContent | scripts/validate_package.py:96-112 | an author failure is an empty `author.name`, an empty `author.email`, the placeholder in `author.name`, a malformed e-mail, or the AttributeError of a non-string; a malformed e-mail names the stored address |
| Content.AuthorContentOkIff | scripts/validate_package.py:96-112 | the author passes iff name and e-mail are non-blank strings, the name holds no placeholder and the e-mail has the accepted shape |
| Content.AuthorContentOrder | scripts/validate_package.py:101-112 | the reported failure is an empty name, else an empty e-mail, else the placeholder, else a malformed e-mail |
| Content.PlaceholderRejected | scripts/validate_package.py:104-107 | a name holding `your-github-username` anywhere is PlaceholderDetected, once the e-mail is non-blank |
| Email.IsEmail | scripts/validate_package.py:110-111 | `re.match` accepts a string iff it is in the language of the anchored expression, or is such a string followed by one newline |
| Email.MatchesWholeIff | scripts/validate_package.py:110 | the recogniser accepts exactly the strings matched by the e-mail regular expression, anchored at both ends |
| Email.RecognisedAt | scripts/validate_package.py:110 | any way of matching the expression is found by the recogniser |
| Email.AcceptedShape | scripts/validate_package.py:110 | an accepted address has exactly one `@` |
| Email.AcceptsParts | scripts/validate_package.py:110-111 | local@label.rest from the right character classes is accepted, with or without one final newline (Python's `$`) |
| Email.AcceptsExample | scripts/validate_package.py:110-111 | `a@b.com` is accepted |
| Email.RejectsExamples | scripts/validate_package.py:110-111 | `not-an-email` and `a@b` are rejected |
| SemVer.DottedDecimalsIff | scripts/validate_package.py:75 | dot-separated decimal numbers form a semantic version iff there are three of them |
| SemVer.NoDotNotSemVer | scripts/validate_package.py:75 | a string with no dot is never a semantic version |
| Assets.DropEmptyAndDot | scripts/validate_package.py:120 | the kept names are exactly the segments other than `""` and `.` |
| Assets.Parts | scripts/validate_package.py:120 | `..` is a part iff it is a `/`-separated segment; no part is empty or `.` |
| Assets.JoinPath | scripts/validate_package.py:125 | the joined path ends with the asset path; an absolute path is kept as it is; a relative one is put under `root/` |
| Assets.CheckAssetPath | scripts/validate_package.py:115-127 | an asset path failure is InvalidAsset, PathTraversal or AssetNotFound |
| Assets.TraversalIff | scripts/validate_package.py:120 | `..` is among the path's parts iff it stands as a whole `/`-delimited component |
| Assets.AssetPathOrder | scripts/validate_package.py:115-127 | a missing or non-string path is InvalidAsset, then a `..` component is PathTraversal, then the entry passes iff the joined path exists |
| Assets.TraversalIgnoresFilesystem | scripts/validate_package.py:120-123 | a traversal is reported whatever exists on disk |
| Assets.TraversalExample | scripts/validate_package.py:120 | `assets/../secret` has a `..` component |
| Assets.NotTraversalExamples | scripts/validate_package.py:120 | `..foo` and `a..b` have no `..` component |
| Assets.AbsolutePathReplacesRoot | scripts/validate_package.py:125-126 | an absolute asset path is looked up as given, not under the root |
| EntryPoints.FindTopLevel | scripts/validate_package.py:155-166 | the scan returns true iff some top-level statement is a `def` or `class` with that name, or an assignment with that bare name as a target |
| EntryPoints.EntryPointResult | scripts/validate_package.py:137-171 | an entry-point failure is a malformed reference, a missing module, a missing attribute or another exception |
| EntryPoints.CheckCodeEntryPoint | scripts/validate_package.py:130-173 | the resolution of a code entry point returns exactly the result its specification gives |
| EntryPoints.NoColonMalformed | scripts/validate_package.py:137-141 | a reference without `:` is MalformedRef, whatever modules exist |
| EntryPoints.ResolvesIff | scripts/validate_package.py:143-171 | `m:attr` with no `:` in m resolves iff m is found and parsed and binds attr at top level; a missing m is ModuleNotFound; an unbound attr is AttributeNotFound |
| EntryPoints.EmptyModuleNotFound | scripts/validate_package.py:143-150 | `:attr` names the empty module, which is ModuleNotFound when the lookup does not know it |
| EntryPoints.NestedDefinitionNotFound | scripts/validate_package.py:155-171 | a definition nested inside the only class or function is not found: AttributeNotFound |
| EntryPoints.WhatCounts | scripts/validate_package.py:157-166 | `def`, `class` and bare-name assignment bind the name; `async def`, annotated or augmented assignment, tuple and attribute targets, imports and nested blocks do not |
| Provides.CheckAssetEntry | scripts/validate_package.py:189-192 | an entry that is not a mapping is AssetNotMapping; otherwise its `path` goes to the asset path check |
| Provides.AssetsPart | scripts/validate_package.py:185-192 | an `assets` failure is AssetsNotList or an asset entry's failure |
| Provides.CheckProvides | scripts/validate_package.py:176-195 | the provides check returns exactly the result its specification gives |
| Provides.ProvidesOkIff | scripts/validate_package.py:176-195 | `provides` passes iff it declares `code` or `assets`, every declared asset entry passes, and the declared entry point resolves |
| Provides.ProvidesResult | scripts/validate_package.py:176-195 | EmptyProvides is reported iff neither `code` nor `assets` is declared; an asset failure implies `assets` is declared, an entry-point failure that `code` is |
| Provides.FirstBadAssetReported | scripts/validate_package.py:189-195 | the first failing asset entry is reported, in list order, whatever later entries and the code entry point are |
| Provides.AssetsNotListFirst | scripts/validate_package.py:186-188 | `assets` that is not a list is reported before the code entry point is looked at |
| Provides.CodeCheckedLast | scripts/validate_package.py:194-195 | once the assets pass, the result is the entry point check's |
| Provides.MissingPathInvalid | scripts/validate_package.py:192 | an asset mapping with no `path`, or a `path` that is not a non-empty string, is InvalidAsset |
| Pipeline.ValidateContent | scripts/validate_package.py:198-209 | validate_content returns exactly the chained result of its six checks |
| Pipeline.ValidatePackage | scripts/validate_package.py:252-260 | after loading, the script returns exactly WrongShape for a non-mapping, otherwise the schema result chained with the content result |
| Pipeline.ChainIsFirstFailure | scripts/validate_package.py:198-209 | six chained checks report the first failure among them |
| Pipeline.ContentResult | scripts/validate_package.py:198-209 | the content result is the first failure of tag, name match, name, description, author, provides, in that order |
| Pipeline.PackageResult | scripts/validate_package.py:252-260 | a non-mapping is WrongShape; an accepted document has the shape the schema demands |
| Pipeline.ShapeFirst | scripts/validate_package.py:254-257 | a document that is not a mapping fails with WrongShape before anything else |
| Pipeline.SchemaBeforeContent | scripts/validate_package.py:259-260 | a schema failure is reported before any content check |
| Pipeline.AcceptedIff | scripts/validate_package.py:252-260 | a mapping is accepted iff it passes the schema and every content stage; otherwise the first failing content stage is reported |
| Pipeline.NoArgumentsSkipChecks | scripts/validate_package.py:70-87 | without `--tag` and `--name` neither the tag nor the name match is checked |
| Scenarios.MinimalPackageAccepted | scripts/validate_package.py:252-262 | the package named `pkg` with author `A <a@b.com>` and entry point `m:f`, where module `m` defines `f`, is accepted |
| Scenarios.BadEmailRejected | scripts/validate_package.py:109-112 | the same package with e-mail `not-an-email` fails with InvalidEmail of that address |

## Left out

- Command-line parsing, messages printed to the console, and the mapping from
  outcomes to exit codes are not modelled. A failure is reduced to its kind and
  the values it names.
- YAML loading and its errors are left out. The model starts from the loaded
  document. An empty file loads as `None`, which fails as WrongShape.
- The semantic-version library is not part of this model. Its parser is taken
  to accept exactly the Semantic Versioning 2.0.0 grammar (sections 2, 9 and 10).
  Two details of a regular-expression implementation are not modelled: `\d`
  matching non-ASCII digits, and `$` accepting a final newline.
- Importing and parsing a module become the `modules` map, which `sys.path`,
  `importlib.util.find_spec`, `read_text` and `ast.parse` would produce. So the
  model does not capture:
  - that `find_spec` imports (runs) the parent packages of a dotted name;
  - the `sys.path` insertion and removal.
  The lookup consults the modules already imported, then the built-in and
  frozen modules, then every entry of `sys.path`, with the package root first.
  An exception from that machinery is `Unloadable` with the exception's name.
  The main examples are a `SyntaxError`, a missing parent package, and the
  `ImportError` for a relative name such as `.x`. An empty module name (`:f`)
  raises no exception: it is ModuleNotFound unless a file named `.py` exists in
  some path entry, which is then found and scanned like any other module
  (`EntryPoints.EmptyModuleNotFound` covers the case where it is not known).
- The filesystem is the set of existing paths: `existing` holds the strings
  whose `Path` exists, and an asset exists iff `root + "/" + path` (or the
  absolute path itself) is in the set. `pathlib` parses that string exactly as
  it parses `root_path / path_str`, so empty and `.` segments need no separate
  treatment.
- Paths follow POSIX rules (`PurePosixPath`); Windows paths are left out.
- Document.GetMapping: a present value that is not a mapping reads as the empty
  mapping. The schema check always rejects such a value first
  (`Schema.SchemaOkIff`), so the difference is never reported. Without that
  check the source would behave differently:
  - a non-mapping `author` raises `AttributeError` at `author_data.get`;
  - a falsy `provides` (`None`, `""`, `[]`, `0`) is EmptyProvides, as in the model;
  - a string or list `provides` holding `"code"` or `"assets"` raises
    `TypeError` at `provides_data["code"]` or `provides_data["assets"]`;
  - any other non-empty string or list `provides` is EmptyProvides;
  - a truthy number or boolean `provides` raises `TypeError` at the `in` test.
- Document.Value cannot hold several values that `yaml.safe_load` produces:
  floats, dates and datetimes, bytes, sets, and mapping keys that are not
  strings. For example `name: 1.5` would be WrongType(`name`, `str`, `float`),
  which the model cannot express.
- The module syntax tree keeps only what the scan can see: the kind of each
  top-level statement, its name, and its assignment targets. Nested bodies are
  kept but never searched.
