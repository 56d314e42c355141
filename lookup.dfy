/**
 * Resolving a list of ids one findById at a time, each absent id raising
 * the entity's not-found error, as the JDBC-era mappers do with
 * stream().map(id -> findById(id).orElseThrow(...)).
 */
module Lookup {
  import opened Exceptions

  /** findById answers a row for this id: it is not negative and is stored. */
  predicate Found<T>(m: map<int, T>, id: int)
  {
    0 <= id && id in m
  }

  /** What one failing lookup raises: findById refuses a negative id, orElseThrow an absent one. */
  function LookupError(id: int, missing: int -> Error): Error
  {
    if id < 0 then NoValidId else missing(id)
  }

  /**
   * One row per id, in input order, duplicates included; the first id that
   * does not resolve decides the error.
   */
  function Resolve<T>(m: map<int, T>, ids: seq<int>, missing: int -> Error): (r: Result<seq<T>>)
    ensures r.Success? <==> forall i :: 0 <= i < |ids| ==> Found(m, ids[i])
    ensures r.Success? ==> |r.value| == |ids|
                           && forall i :: 0 <= i < |ids| ==> ids[i] in m && r.value[i] == m[ids[i]]
    ensures r.Failure? ==>
              exists k :: 0 <= k < |ids| && !Found(m, ids[k]) && r.error == LookupError(ids[k], missing)
                          && forall i :: 0 <= i < k ==> Found(m, ids[i])
  {
    if |ids| == 0 then Success([])
    else if !Found(m, ids[0]) then Failure(LookupError(ids[0], missing))
    else
      var rest := Resolve(m, ids[1..], missing);
      if rest.Failure? then
        assert forall i :: 1 <= i < |ids| ==> ids[i] == ids[1..][i - 1];
        Failure(rest.error)
      else
        Success([m[ids[0]]] + rest.value)
  }
}
