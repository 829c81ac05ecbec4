/**
 * Failure kinds and the fail-fast result of every check. Each check either
 * passes or reports one failure; a sequence of checks reports the first
 * failure in order and runs nothing after it.
 */
module Failures {
  import opened Document

  datatype Failure =
    | WrongShape                                          // top level is not a mapping
    | MissingKey(key: string)                             // dotted key path
    | WrongType(key: string, expected: string, actual: string)
    | InvalidVersion(tag: string)
    | NameMismatch(expectedName: string, found: Value)
    | EmptyField(key: string)
    | PlaceholderDetected(key: string)
    | InvalidEmail(email: string)
    | EmptyProvides
    | AssetsNotList
    | AssetNotMapping
    | InvalidAsset
    | PathTraversal(path: string)
    | AssetNotFound(path: string)
    | MalformedRef(ref: Value)
    | ModuleNotFound(moduleName: string)
    | AttributeNotFound(attr: string, moduleName: string)
    | Unexpected(exception: string)                       // any other Python exception

  datatype Result = Ok | Err(failure: Failure) {

    /** Runs `next` only when this check passed: the first failure wins. */
    function Then(next: Result): (r: Result)
      ensures r.Ok? <==> Ok? && next.Ok?
      ensures Err? ==> r == this
      ensures Ok? ==> r == next
    {
      if Err? then this else next
    }
  }

  /** The outcome of running the checks `rs` in order, stopping at the first failure. */
  function FirstFailure(rs: seq<Result>): (r: Result)
    ensures r.Ok? <==> forall i :: 0 <= i < |rs| ==> rs[i].Ok?
    ensures r.Err? ==> exists i :: 0 <= i < |rs| && rs[i] == r && forall j :: 0 <= j < i ==> rs[j].Ok?
  {
    if rs == [] then Ok
    else
      var rest := FirstFailure(rs[1..]);
      assert forall i :: 1 <= i < |rs| ==> rs[1..][i - 1] == rs[i];
      rs[0].Then(rest)
  }

  /** The check reported is the first one that fails, whatever follows it. */
  lemma {:induction false} FirstFailureAt(rs: seq<Result>, i: nat)
    requires i < |rs| && rs[i].Err?
    requires forall j :: 0 <= j < i ==> rs[j].Ok?
    ensures FirstFailure(rs) == rs[i]
  {
    var r := FirstFailure(rs);
    assert r.Err?;
    var k :| 0 <= k < |rs| && rs[k] == r && forall j :: 0 <= j < k ==> rs[j].Ok?;
    assert k == i;
  }
}
