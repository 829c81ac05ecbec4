/**
 * Static resolution of a `module:attribute` code entry point: the module is
 * looked up without running it, and the attribute must be bound by one of
 * the module's top-level statements.
 */
module EntryPoints {
  import opened Wrappers
  import opened Document
  import opened Failures
  import opened Text

  /** The target of an assignment (a Python `ast` expression in store context). */
  datatype Target =
    | NameTarget(id: string)                // x = ...
    | TupleTarget(elts: seq<Target>)        // x, y = ...
    | ListTarget(elts: seq<Target>)         // [x, y] = ...
    | AttributeTarget(attr: string)         // obj.x = ...
    | SubscriptTarget                       // obj[i] = ...
    | StarredTarget(inner: Target)          // *x, y = ...

  /** A statement of a module's syntax tree; nested bodies are kept but never searched. */
  datatype Stmt =
    | FunctionDef(name: string, body: seq<Stmt>)
    | AsyncFunctionDef(name: string, body: seq<Stmt>)
    | ClassDef(name: string, body: seq<Stmt>)
    | Assign(targets: seq<Target>)          // t1 = t2 = ... = value
    | AnnAssign(target: Target)             // x: T = value
    | AugAssign(target: Target)             // x += value
    | Import(names: seq<string>)            // import x / from m import x
    | Compound(body: seq<Stmt>)             // if, for, while, with, try, ...
    | OtherStmt                             // expressions, pass, return, ...

  /**
   * What looking a module name up gives: the parsed top-level statements,
   * or a Python exception raised while finding, reading or parsing the
   * source. The lookup consults the modules already imported, then the
   * built-in and frozen modules, then every entry of the import path, with
   * the package root first. A name that the lookup does not know is a module
   * that was not found.
   */
  datatype Resolution = Source(statements: seq<Stmt>) | Unloadable(exception: string)

  /** A top-level `def` or `class` named `attr`, or an assignment with the bare name `attr` as a target. */
  predicate Defines(st: Stmt, attr: string)
  {
    match st
    case FunctionDef(name, _) => name == attr
    case ClassDef(name, _) => name == attr
    case Assign(targets) => exists k :: 0 <= k < |targets| && targets[k] == NameTarget(attr)
    case _ => false
  }

  predicate DefinedAtTopLevel(statements: seq<Stmt>, attr: string)
  {
    exists i :: 0 <= i < |statements| && Defines(statements[i], attr)
  }

  /** The scan over `tree.body` and each assignment's `node.targets`, stopping at the first match. */
  method FindTopLevel(statements: seq<Stmt>, attr: string) returns (found: bool)
    ensures found <==> DefinedAtTopLevel(statements, attr)
  {
    var i := 0;
    while i < |statements|
      invariant 0 <= i <= |statements|
      invariant forall j :: 0 <= j < i ==> !Defines(statements[j], attr)
    {
      var node := statements[i];
      if node.FunctionDef? || node.ClassDef? {
        if node.name == attr {
          return true;
        }
      }
      if node.Assign? {
        var k := 0;
        while k < |node.targets|
          invariant 0 <= k <= |node.targets|
          invariant forall m :: 0 <= m < k ==> node.targets[m] != NameTarget(attr)
        {
          var target := node.targets[k];
          if target.NameTarget? && target.id == attr {
            return true;
          }
          k := k + 1;
        }
      }
      i := i + 1;
    }
    return false;
  }

  /**
   * What `_check_code_entry_point(code, root)` reports. A reference without
   * `:` is malformed; otherwise it is split at its first `:`. A value that is
   * not a string fails as Python does on `":" in code` and `code.split`.
   */
  function EntryPointResult(code: Value, modules: map<string, Resolution>): (r: Result)
    ensures r.Err? ==> r.failure.MalformedRef? || r.failure.ModuleNotFound? ||
                       r.failure.AttributeNotFound? || r.failure.Unexpected?
  {
    match code
    case Str(ref) =>
      (match SplitOnce(ref, ':')
       case None => Err(MalformedRef(code))
       case Some((moduleName, attr)) =>
         if moduleName !in modules then Err(ModuleNotFound(moduleName))
         else if modules[moduleName].Unloadable? then Err(Unexpected(modules[moduleName].exception))
         else if DefinedAtTopLevel(modules[moduleName].statements, attr) then Ok
         else Err(AttributeNotFound(attr, moduleName)))
    case List(items) => if Str(":") in items then Err(Unexpected("AttributeError")) else Err(MalformedRef(code))
    case Dict(entries) => if ":" in entries then Err(Unexpected("AttributeError")) else Err(MalformedRef(code))
    case _ => Err(Unexpected("TypeError"))
  }

  /** `_check_code_entry_point`, with module lookup and parsing given by `modules`. */
  method CheckCodeEntryPoint(code: Value, modules: map<string, Resolution>) returns (r: Result)
    ensures r == EntryPointResult(code, modules)
  {
    match code {
      case Str(_) =>
      case List(items) =>
        // `":" in code` is list membership; `code.split` then fails.
        return if Str(":") in items then Err(Unexpected("AttributeError")) else Err(MalformedRef(code));
      case Dict(entries) =>
        // `":" in code` is key membership; `code.split` then fails.
        return if ":" in entries then Err(Unexpected("AttributeError")) else Err(MalformedRef(code));
      case _ =>
        // `":" in code` on a number, a boolean or `None`.
        return Err(Unexpected("TypeError"));
    }
    var split := SplitOnce(code.s, ':');
    if split.None? {
      return Err(MalformedRef(code));
    }
    var (moduleName, attr) := split.value;
    if moduleName !in modules {
      return Err(ModuleNotFound(moduleName));
    }
    match modules[moduleName]
    case Unloadable(exception) =>
      r := Err(Unexpected(exception));
    case Source(statements) =>
      var found := FindTopLevel(statements, attr);
      r := if found then Ok else Err(AttributeNotFound(attr, moduleName));
  }

  /** A string reference without `:` is malformed, whatever modules exist. */
  lemma NoColonMalformed(ref: string, modules: map<string, Resolution>)
    requires ':' !in ref
    ensures EntryPointResult(Str(ref), modules) == Err(MalformedRef(Str(ref)))
  {
  }

  /**
   * `module:attr`, with no `:` in `module`, resolves exactly when `module`
   * is found and parsed and one of its top-level statements binds `attr`;
   * everything after the first `:` is the attribute.
   */
  lemma ResolvesIff(moduleName: string, attr: string, modules: map<string, Resolution>)
    requires ':' !in moduleName
    ensures var r := EntryPointResult(Str(moduleName + ":" + attr), modules);
      (r.Ok? <==> moduleName in modules && modules[moduleName].Source? &&
                  DefinedAtTopLevel(modules[moduleName].statements, attr)) &&
      (moduleName !in modules ==> r == Err(ModuleNotFound(moduleName))) &&
      ((moduleName in modules && modules[moduleName].Source? &&
        !DefinedAtTopLevel(modules[moduleName].statements, attr)) ==> r == Err(AttributeNotFound(attr, moduleName)))
  {
    assert moduleName + ":" + attr == moduleName + [':'] + attr;
    SplitOnceOf(moduleName, ':', attr);
  }

  /** A reference with nothing before its `:` names the empty module, which is not found unless known. */
  lemma EmptyModuleNotFound(attr: string, modules: map<string, Resolution>)
    requires "" !in modules
    ensures EntryPointResult(Str(":" + attr), modules) == Err(ModuleNotFound(""))
  {
    ResolvesIff("", attr, modules);
  }

  /**
   * A definition nested in a class or a function does not count, even when
   * the enclosing definition is the module's only statement.
   */
  lemma NestedDefinitionNotFound(moduleName: string, attr: string, outer: Stmt, modules: map<string, Resolution>)
    requires ':' !in moduleName
    requires (outer.ClassDef? || outer.FunctionDef?) && outer.name != attr
    ensures EntryPointResult(Str(moduleName + ":" + attr), modules[moduleName := Source([outer])]) ==
      Err(AttributeNotFound(attr, moduleName))
  {
    ResolvesIff(moduleName, attr, modules[moduleName := Source([outer])]);
  }

  /**
   * Only these statements bind the attribute: `def`, `class`, and an
   * assignment to the bare name. `async def`, annotated and augmented
   * assignments, tuple targets, attribute targets and imports do not.
   */
  lemma WhatCounts(attr: string, body: seq<Stmt>, others: seq<Target>)
    ensures Defines(FunctionDef(attr, body), attr) && Defines(ClassDef(attr, body), attr)
    ensures Defines(Assign(others + [NameTarget(attr)]), attr)
    ensures !Defines(AsyncFunctionDef(attr, body), attr)
    ensures !Defines(AnnAssign(NameTarget(attr)), attr) && !Defines(AugAssign(NameTarget(attr)), attr)
    ensures !Defines(Assign([TupleTarget([NameTarget(attr)])]), attr)
    ensures !Defines(Assign([AttributeTarget(attr)]), attr)
    ensures !Defines(Import([attr]), attr) && !Defines(Compound([FunctionDef(attr, body)]), attr)
  {
    assert (others + [NameTarget(attr)])[|others|] == NameTarget(attr);
  }
}
