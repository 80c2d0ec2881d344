/**
 * What the metadata patch scripts do to values: the concurrency-checked
 * `Math.max` update, and the put-if-absent of the actor marker.
 */
module MetadataPatch {
  import opened Wrappers
  import opened StorageFormat

  datatype PatchError = ConcurrencyCheckFailed(expected: Option<int>, actual: int64)

  /**
   * The update script's rule: the stored value must equal the check, and then
   * becomes the larger of itself and the proposed value. A check that is not
   * a number (or null) never equals a stored number.
   */
  function UpdatedMaxSequenceNr(stored: int64, check: Option<int>, proposed: int64): (r: Result<int64, PatchError>)
    ensures r.Success? <==> check == Some(stored as int)
    ensures r.Failure? ==> r.error == ConcurrencyCheckFailed(check, stored)
    ensures r.Success? ==> r.value >= stored && r.value >= proposed && (r.value == stored || r.value == proposed)
  {
    if check != Some(stored as int) then Failure(ConcurrencyCheckFailed(check, stored))
    else Success(if stored >= proposed then stored else proposed)
  }

  /** A second update with the same arguments succeeds only if the first changed nothing. */
  lemma UpdateNotRepeatable(stored: int64, check: Option<int>, proposed: int64)
    requires UpdatedMaxSequenceNr(stored, check, proposed).Success?
    ensures var next := UpdatedMaxSequenceNr(stored, check, proposed).value;
            UpdatedMaxSequenceNr(next, check, proposed).Success? <==> next == stored
  {
  }

  /**
   * Successive update scripts, stopping at the first that throws: a run of
   * successful updates never lowers the stored value, and ends at or above
   * every value it was offered.
   */
  function ApplyUpdates(stored: int64, checks: seq<Option<int>>, proposed: seq<int64>): (r: Result<int64, PatchError>)
    requires |checks| == |proposed|
    ensures r.Success? ==> r.value >= stored
    ensures r.Success? ==> forall i :: 0 <= i < |proposed| ==> r.value >= proposed[i]
    decreases |checks|
  {
    if checks == [] then Success(stored)
    else
      var next :- UpdatedMaxSequenceNr(stored, checks[0], proposed[0]);
      var r := ApplyUpdates(next, checks[1..], proposed[1..]);
      assert r.Success? ==> forall i :: 1 <= i < |proposed| ==> proposed[i] == proposed[1..][i - 1];
      r
  }

  /** `if (load(id) == null) put(id, doc)` */
  function PutIfAbsent<V>(m: map<string, V>, id: string, doc: V): (r: map<string, V>)
    ensures id in r && (id in m ==> r == m) && (id !in m ==> r == m[id := doc])
  {
    if id in m then m else m[id := doc]
  }

  /** Running the put twice leaves what running it once left: the first document stays. */
  lemma PutIfAbsentIdempotent<V>(m: map<string, V>, id: string, first: V, second: V)
    ensures PutIfAbsent(PutIfAbsent(m, id, first), id, second) == PutIfAbsent(m, id, first)
    ensures PutIfAbsent(m, id, first)[id] == (if id in m then m[id] else first)
  {
  }
}
