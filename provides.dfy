/** The `provides` section: declared assets first, in list order, then the code entry point. */
module Provides {
  import opened Document
  import opened Failures
  import opened Assets
  import opened EntryPoints

  /** The failures the asset checks report. */
  predicate IsAssetFailure(f: Failure)
  {
    f.AssetsNotList? || f.AssetNotMapping? || f.InvalidAsset? || f.PathTraversal? || f.AssetNotFound?
  }

  /** The failures the entry-point check reports. */
  predicate IsCodeFailure(f: Failure)
  {
    f.MalformedRef? || f.ModuleNotFound? || f.AttributeNotFound? || f.Unexpected?
  }

  /** One entry of `provides.assets`: it must be a mapping, whose `path` is then checked. */
  function CheckAssetEntry(entry: Value, root: string, existing: set<string>): (r: Result)
    ensures !entry.Dict? ==> r == Err(AssetNotMapping)
    ensures entry.Dict? ==> r == CheckAssetPath(Get(entry.entries, "path"), root, existing)
  {
    if !entry.Dict? then Err(AssetNotMapping)
    else CheckAssetPath(Get(entry.entries, "path"), root, existing)
  }

  /** The asset checks, in list order. */
  function AssetResults(entries: seq<Value>, root: string, existing: set<string>): (rs: seq<Result>)
    ensures |rs| == |entries|
    ensures forall i :: 0 <= i < |entries| ==> rs[i] == CheckAssetEntry(entries[i], root, existing)
  {
    seq(|entries|, i requires 0 <= i < |entries| => CheckAssetEntry(entries[i], root, existing))
  }

  /** The part of `_check_provides` that concerns `assets`, or Ok when there is none. */
  function AssetsPart(section: map<string, Value>, root: string, existing: set<string>): (r: Result)
    ensures r.Err? ==> IsAssetFailure(r.failure)
  {
    if "assets" !in section then Ok
    else if !section["assets"].List? then Err(AssetsNotList)
    else FirstFailure(AssetResults(section["assets"].items, root, existing))
  }

  /** The part of `_check_provides` that concerns `code`, or Ok when there is none. */
  function CodePart(section: map<string, Value>, modules: map<string, Resolution>): Result
  {
    if "code" in section then EntryPointResult(section["code"], modules) else Ok
  }

  /**
   * What `_check_provides(provides_data, root)` reports: an empty section, or one
   * with neither `code` nor `assets`, is rejected before anything else.
   */
  function ProvidesResult(section: map<string, Value>, root: string, existing: set<string>,
                          modules: map<string, Resolution>): (r: Result)
    ensures r == Err(EmptyProvides) <==> "code" !in section && "assets" !in section
    ensures r.Err? && !r.failure.EmptyProvides? ==> "code" in section || "assets" in section
    ensures r.Err? && IsAssetFailure(r.failure) ==> "assets" in section
    ensures r.Err? && IsCodeFailure(r.failure) ==> "code" in section
  {
    if section == map[] || ("code" !in section && "assets" !in section) then Err(EmptyProvides)
    else AssetsPart(section, root, existing).Then(CodePart(section, modules))
  }

  /** `_check_provides`: the loop over the assets stops at the first failing entry. */
  method CheckProvides(section: map<string, Value>, root: string, existing: set<string>,
                       modules: map<string, Resolution>) returns (r: Result)
    ensures r == ProvidesResult(section, root, existing, modules)
  {
    if section == map[] || ("code" !in section && "assets" !in section) {
      return Err(EmptyProvides);
    }
    if "assets" in section {
      var assets := section["assets"];
      if !assets.List? {
        return Err(AssetsNotList);
      }
      var i := 0;
      while i < |assets.items|
        invariant 0 <= i <= |assets.items|
        invariant forall j :: 0 <= j < i ==> CheckAssetEntry(assets.items[j], root, existing).Ok?
      {
        r := CheckAssetEntry(assets.items[i], root, existing);
        if r.Err? {
          FirstFailureAt(AssetResults(assets.items, root, existing), i);
          return;
        }
        i := i + 1;
      }
    }
    if "code" in section {
      r := CheckCodeEntryPoint(section["code"], modules);
    } else {
      r := Ok;
    }
  }

  /**
   * The section passes exactly when it declares `code` or `assets`, every
   * declared asset is a mapping whose path passes, and the declared entry
   * point resolves.
   */
  lemma ProvidesOkIff(section: map<string, Value>, root: string, existing: set<string>,
                      modules: map<string, Resolution>)
    ensures ProvidesResult(section, root, existing, modules).Ok? <==>
      ("code" in section || "assets" in section) &&
      ("assets" in section ==>
         section["assets"].List? &&
         forall i :: 0 <= i < |section["assets"].items| ==>
           CheckAssetEntry(section["assets"].items[i], root, existing).Ok?) &&
      ("code" in section ==> EntryPointResult(section["code"], modules).Ok?)
  {
  }

  /**
   * The first failing asset is reported, whatever the later assets and the
   * entry point would report.
   */
  lemma FirstBadAssetReported(section: map<string, Value>, root: string, existing: set<string>,
                              modules: map<string, Resolution>, i: nat)
    requires "assets" in section && section["assets"].List?
    requires i < |section["assets"].items|
    requires CheckAssetEntry(section["assets"].items[i], root, existing).Err?
    requires forall j :: 0 <= j < i ==> CheckAssetEntry(section["assets"].items[j], root, existing).Ok?
    ensures ProvidesResult(section, root, existing, modules) ==
      CheckAssetEntry(section["assets"].items[i], root, existing)
  {
    FirstFailureAt(AssetResults(section["assets"].items, root, existing), i);
  }

  /** `assets` that is not a list is reported before the entry point is looked at. */
  lemma AssetsNotListFirst(section: map<string, Value>, root: string, existing: set<string>,
                           modules: map<string, Resolution>)
    requires "assets" in section && !section["assets"].List?
    ensures ProvidesResult(section, root, existing, modules) == Err(AssetsNotList)
  {
  }

  /** Once the assets pass, what is reported is exactly what the entry point check reports. */
  lemma CodeCheckedLast(section: map<string, Value>, root: string, existing: set<string>,
                        modules: map<string, Resolution>)
    requires "code" in section
    requires AssetsPart(section, root, existing).Ok?
    ensures ProvidesResult(section, root, existing, modules) == EntryPointResult(section["code"], modules)
  {
  }

  /** An asset entry without `path`, or with a `path` that is not a non-empty string, is invalid. */
  lemma MissingPathInvalid(entries: map<string, Value>, root: string, existing: set<string>)
    requires "path" !in entries || !entries["path"].Str? || entries["path"].s == ""
    ensures CheckAssetEntry(Dict(entries), root, existing) == Err(InvalidAsset)
  {
  }
}
