/**
 * Asset entries: a path must be a non-empty string, must have no `..`
 * component, and must exist under the package root.
 */
module Assets {
  import opened Document
  import opened Failures
  import opened Text

  /** The anchor of a POSIX path: `//` for exactly two leading slashes, `/` for one or three or more. */
  function Anchor(p: string): (a: seq<string>)
    ensures ".." !in a
  {
    if |p| >= 2 && p[0] == '/' && p[1] == '/' && (|p| == 2 || p[2] != '/') then ["//"]
    else if |p| >= 1 && p[0] == '/' then ["/"]
    else []
  }

  /** The segments without the empty ones and the single dots, order kept. */
  function DropEmptyAndDot(segments: seq<string>): (r: seq<string>)
    ensures forall x :: x in r <==> x in segments && x != "" && x != "."
  {
    if segments == [] then []
    else if segments[0] == "" || segments[0] == "." then DropEmptyAndDot(segments[1..])
    else [segments[0]] + DropEmptyAndDot(segments[1..])
  }

  /** `PurePosixPath(p).parts`: the anchor, then the `/`-separated names. `..` is kept. */
  function Parts(p: string): (r: seq<string>)
    ensures ".." in r <==> ".." in Split(p, '/')
    ensures forall x :: x in r ==> x != "" && x != "."
  {
    Anchor(p) + DropEmptyAndDot(Split(p, '/'))
  }

  /** `root_path / p`: an absolute `p` replaces the root. */
  function JoinPath(root: string, p: string): (r: string)
    ensures |p| <= |r| && r[|r| - |p|..] == p
    ensures p != "" && p[0] == '/' ==> r == p
    ensures p == "" || p[0] != '/' ==> |root| < |r| && r[..|root| + 1] == root + "/"
  {
    if p != "" && p[0] == '/' then p else root + "/" + p
  }

  /**
   * `_check_asset_path` against a filesystem given as the set of paths that
   * exist: invalid unless a non-empty string, then traversal, then existence.
   */
  function CheckAssetPath(path: Value, root: string, existing: set<string>): (r: Result)
    ensures r.Err? ==> r.failure.InvalidAsset? || r.failure.PathTraversal? || r.failure.AssetNotFound?
  {
    if !Truthy(path) || !path.Str? then Err(InvalidAsset)
    else if ".." in Parts(path.s) then Err(PathTraversal(path.s))
    else if JoinPath(root, path.s) !in existing then Err(AssetNotFound(path.s))
    else Ok
  }

  /**
   * A path is rejected for traversal exactly when `..` stands in it as a whole
   * component: between slashes, or at either end.
   */
  lemma TraversalIff(p: string)
    ensures ".." in Parts(p) <==> exists i :: PieceAt(p, '/', "..", i)
  {
    InSplitIff(p, '/', "..");
  }

  /** The checks run in order: a bad value, then traversal, then existence. */
  lemma AssetPathOrder(path: Value, root: string, existing: set<string>)
    ensures !path.Str? || path.s == "" ==> CheckAssetPath(path, root, existing) == Err(InvalidAsset)
    ensures path.Str? && path.s != "" && ".." in Parts(path.s) ==>
      CheckAssetPath(path, root, existing) == Err(PathTraversal(path.s))
    ensures path.Str? && path.s != "" && ".." !in Parts(path.s) ==>
      (CheckAssetPath(path, root, existing).Ok? <==> JoinPath(root, path.s) in existing)
  {
  }

  /** Traversal is reported whatever exists on disk. */
  lemma TraversalIgnoresFilesystem(p: string, root: string, existing: set<string>)
    requires p != "" && ".." in Parts(p)
    ensures CheckAssetPath(Str(p), root, existing) == CheckAssetPath(Str(p), root, {})
  {
  }

  /** A `..` component is found between slashes. */
  lemma TraversalExample()
    ensures ".." in Parts("assets/../secret")
  {
    var p := "assets/../secret";
    assert p[7..9] == "..";
    assert PieceAt(p, '/', "..", 7);
    TraversalIff(p);
  }

  /** A slash-free name is its own single component. */
  lemma SingleComponent(p: string)
    requires p != "" && '/' !in p && p != "."
    ensures Parts(p) == [p]
  {
    SplitNone(p, '/');
    assert p[0] in p;
    assert Anchor(p) == [];
    assert [p][1..] == [];
    assert DropEmptyAndDot([p]) == [p] + DropEmptyAndDot([]);
  }

  /** Names that merely contain `..` are not `..` components. */
  lemma NotTraversalExamples()
    ensures ".." !in Parts("..foo")
    ensures ".." !in Parts("a..b")
  {
    assert forall k :: 0 <= k < |"..foo"| ==> "..foo"[k] != '/';
    SingleComponent("..foo");
    assert forall k :: 0 <= k < |"a..b"| ==> "a..b"[k] != '/';
    SingleComponent("a..b");
  }

  /** An absolute asset path is looked up as it is, not under the root. */
  lemma AbsolutePathReplacesRoot(p: string, root: string, existing: set<string>)
    requires p != "" && p[0] == '/' && ".." !in Parts(p)
    ensures CheckAssetPath(Str(p), root, existing).Ok? <==> p in existing
  {
  }
}
