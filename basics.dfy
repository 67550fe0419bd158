/** Small shared vocabulary: optional values, results with an error, and the
    "first name of a fixed list that is present" search that the data
    scripts use for file probing, target names and identifier names. */
module Basics {

  datatype Option<T> = None | Some(value: T)

  datatype Result<T, E> = Ok(value: T) | Err(error: E)

  /** Position of the first candidate that is present, or |candidates| when
      none is. The three ensures determine the position uniquely. */
  function FirstIndex(candidates: seq<string>, present: set<string>): (k: nat)
    ensures k <= |candidates|
    ensures k < |candidates| ==> candidates[k] in present
    ensures forall j :: 0 <= j < k ==> candidates[j] !in present
  {
    if candidates == [] then 0
    else if candidates[0] in present then 0
    else 1 + FirstIndex(candidates[1..], present)
  }

  /** The first candidate, in list order, that belongs to `present`. */
  function FirstPresent(candidates: seq<string>, present: set<string>): (r: Option<string>)
    ensures r.None? <==> forall j :: 0 <= j < |candidates| ==> candidates[j] !in present
    ensures r.Some? ==> r.value in present && r.value == candidates[FirstIndex(candidates, present)]
  {
    var k := FirstIndex(candidates, present);
    if k < |candidates| then Some(candidates[k]) else None
  }

  /** The early-return probing loop: try each candidate in order and answer
      with the first one that is present. */
  method FirstMatch(candidates: seq<string>, present: set<string>) returns (r: Option<string>)
    ensures r == FirstPresent(candidates, present)
  {
    for i := 0 to |candidates|
      invariant forall j :: 0 <= j < i ==> candidates[j] !in present
    {
      if candidates[i] in present {
        return Some(candidates[i]);
      }
    }
    return None;
  }
}
