/**
 * `RavenDbSnapshotStore`: the ids of snapshot documents, and the load, save
 * and delete operations over the snapshot collection.
 */
module SnapshotStore {
  import opened Wrappers
  import opened Text
  import opened StorageFormat
  import opened KeyOrder
  import opened EventCodec
  import opened RavenDbPersistence
  import opened Database
  import opened SnapshotTypes

  // ---- Snapshot ids ----------------------------------------------------------

  /** `{SnapshotsCollection}/{persistenceId}/` */
  function GetSnapshotPrefix(c: Collections, persistenceId: string): (prefix: string)
    ensures prefix == GetEventPrefix(c.(events := c.snapshots), persistenceId)
  {
    c.snapshots + "/" + persistenceId + "/"
  }

  /** The snapshot prefix followed by the 19-digit sequence number; a negative one is replaced by 0. */
  function GetSnapshotId(c: Collections, persistenceId: string, sequenceNr: int64): (id: string)
    ensures id == GetSequenceId(c.(events := c.snapshots), persistenceId, sequenceNr)
  {
    assert (if sequenceNr < 0 then 0 else sequenceNr) == Clamp(sequenceNr);
    GetSnapshotPrefix(c, persistenceId) + ToLeadingZerosFormat(if sequenceNr < 0 then 0 else sequenceNr)
  }

  /**
   * A snapshot id is its entity's prefix followed by exactly 19 digits,
   * which read back as the sequence number with 0 for anything below 1.
   */
  lemma SnapshotIdLayout(c: Collections, persistenceId: string, sequenceNr: int64)
    ensures var prefix := GetSnapshotPrefix(c, persistenceId);
            var id := GetSnapshotId(c, persistenceId, sequenceNr);
            && prefix <= id
            && |id| == |prefix| + Width
            && AllDigits(id[|prefix|..])
            && DecimalValue(id[|prefix|..]) == Clamp(sequenceNr)
  {
    SequenceIdLayout(c.(events := c.snapshots), persistenceId, sequenceNr);
  }

  /** Two snapshot ids are equal exactly when entity and clamped sequence number are. */
  lemma SnapshotIdInjective(c: Collections, p: string, q: string, a: int64, b: int64)
    ensures GetSnapshotId(c, p, a) == GetSnapshotId(c, q, b) <==> p == q && Clamp(a) == Clamp(b)
  {
    SequenceIdInjective(c.(events := c.snapshots), p, q, a, b);
  }

  /** For one entity, snapshot id order is clamped sequence order, in both directions. */
  lemma SnapshotIdOrder(c: Collections, p: string, a: int64, b: int64)
    ensures Less(GetSnapshotId(c, p, a), GetSnapshotId(c, p, b)) <==> Clamp(a) < Clamp(b)
  {
    SequenceIdOrder(c.(events := c.snapshots), p, a, b);
  }

  /** With no '/' in entity ids, an entity's snapshot prefix only covers its own snapshot ids. */
  lemma SnapshotPrefixIsolation(c: Collections, p: string, q: string, n: int64)
    requires '/' !in p && '/' !in q
    requires GetSnapshotPrefix(c, p) <= GetSnapshotId(c, q, n)
    ensures p == q
  {
    PrefixIsolation(c.(events := c.snapshots), p, q, n);
  }

  /** Every stored snapshot sits under the id of its own entity and sequence number, and no entity id holds '/'. */
  predicate WellKeyedSnapshots(c: Collections, snapshots: map<string, SnapshotDoc>) {
    forall k :: k in snapshots ==>
      k == GetSnapshotId(c, snapshots[k].persistenceId, snapshots[k].sequenceNr) && '/' !in snapshots[k].persistenceId
  }

  // ---- Selection criteria and the scans -----------------------------------------

  /** Akka's `SnapshotSelectionCriteria`. */
  datatype SnapshotSelectionCriteria = SnapshotSelectionCriteria(
    maxSequenceNr: int64,
    maxTimeStamp: Ticks,
    minSequenceNr: int64,
    minTimestamp: Ticks)

  /** The load filter: both windows, bounds included. */
  predicate Admissible(criteria: SnapshotSelectionCriteria, d: SnapshotDoc) {
    && criteria.minTimestamp <= d.timestamp <= criteria.maxTimeStamp
    && criteria.minSequenceNr <= d.sequenceNr <= criteria.maxSequenceNr
  }

  /** The delete filter: the two upper bounds only. */
  function ShouldDelete(criteria: SnapshotSelectionCriteria, d: SnapshotDoc): (b: bool)
    ensures b <==> Admissible(criteria.(minSequenceNr := INT64_MIN, minTimestamp := 0), d)
    ensures Admissible(criteria, d) ==> b
  {
    d.sequenceNr <= criteria.maxSequenceNr && d.timestamp <= criteria.maxTimeStamp
  }

  /** Both scans start strictly after the id of `MinSequenceNr - 1` (wrapping at the 64-bit minimum). */
  function ScanStart(c: Collections, persistenceId: string, criteria: SnapshotSelectionCriteria): string {
    GetSnapshotId(c, persistenceId, Decrement(criteria.minSequenceNr))
  }

  /** The ids the load and delete scans visit, smallest first. */
  ghost function CriteriaScan(c: Collections, snapshots: map<string, SnapshotDoc>, persistenceId: string,
                              criteria: SnapshotSelectionCriteria): seq<string>
  {
    Scan(snapshots, GetSnapshotPrefix(c, persistenceId), Some(ScanStart(c, persistenceId, criteria)))
  }

  /** Which stored snapshots a scan visits: the entity's, with a clamped sequence number above the start's. */
  lemma SnapshotScanCovers(c: Collections, snapshots: map<string, SnapshotDoc>, pid: string, after: int64, k: string)
    requires WellKeyedSnapshots(c, snapshots) && '/' !in pid && k in snapshots
    ensures InRange(k, GetSnapshotPrefix(c, pid), Some(GetSnapshotId(c, pid, after))) <==>
            snapshots[k].persistenceId == pid && Clamp(snapshots[k].sequenceNr) > Clamp(after)
  {
    var d := snapshots[k];
    SnapshotIdLayout(c, d.persistenceId, d.sequenceNr);
    if GetSnapshotPrefix(c, pid) <= k {
      SnapshotPrefixIsolation(c, pid, d.persistenceId, d.sequenceNr);
    }
    SnapshotIdOrder(c, pid, after, d.sequenceNr);
  }

  /**
   * An admissible snapshot of the entity is visited exactly when its
   * sequence number is at least 1 and the lower bound is not the 64-bit
   * minimum: a snapshot stored at 0 or below shares the id of 0, which the
   * scan starts after, and `long.MinValue - 1` wraps to the maximum.
   */
  lemma LoadWindow(c: Collections, snapshots: map<string, SnapshotDoc>, pid: string,
                   criteria: SnapshotSelectionCriteria, k: string)
    requires WellKeyedSnapshots(c, snapshots) && '/' !in pid && k in snapshots
    requires Admissible(criteria, snapshots[k])
    ensures k in CriteriaScan(c, snapshots, pid, criteria) <==>
            snapshots[k].persistenceId == pid && snapshots[k].sequenceNr >= 1 && criteria.minSequenceNr != INT64_MIN
  {
    SnapshotScanCovers(c, snapshots, pid, Decrement(criteria.minSequenceNr), k);
  }

  // ---- LoadAsync -----------------------------------------------------------------

  /** The last id among `keys` whose snapshot passes the load filter. */
  function LastAdmissible(snapshots: map<string, SnapshotDoc>, criteria: SnapshotSelectionCriteria, keys: seq<string>)
    : (r: Option<string>)
    requires forall k :: k in keys ==> k in snapshots
    ensures r.Some? ==> r.value in keys && Admissible(criteria, snapshots[r.value])
  {
    if keys == [] then None
    else
      var last := keys[|keys| - 1];
      if Admissible(criteria, snapshots[last]) then Some(last)
      else LastAdmissible(snapshots, criteria, keys[..|keys| - 1])
  }

  /**
   * Over ids in ascending order, nothing is picked exactly when no snapshot
   * passes, and what is picked comes after every other snapshot that passes.
   */
  lemma {:induction false} LastAdmissibleIsLast(snapshots: map<string, SnapshotDoc>, criteria: SnapshotSelectionCriteria,
                                                keys: seq<string>)
    requires forall k :: k in keys ==> k in snapshots
    requires StrictlySorted(keys)
    ensures var r := LastAdmissible(snapshots, criteria, keys);
            && (r.None? <==> forall k :: k in keys ==> !Admissible(criteria, snapshots[k]))
            && (r.Some? ==> forall k :: k in keys && Admissible(criteria, snapshots[k]) ==> k == r.value || Less(k, r.value))
  {
    if keys != [] {
      var n := |keys| - 1;
      var init := keys[..n];
      assert keys == init + [keys[n]];
      assert forall i :: 0 <= i < n ==> init[i] == keys[i];
      LastAdmissibleIsLast(snapshots, criteria, init);
      forall k | k in keys && k != keys[n] ensures k in init && Less(k, keys[n]) {
        var i :| 0 <= i < |keys| && keys[i] == k;
        assert i < n;
      }
    }
  }

  /** The SelectedSnapshot that `ToSelectedSnapshot` makes of a stored document. */
  function Selection(ser: SnapshotSerialization, d: SnapshotDoc): (r: Result<SelectedSnapshot, CodecError>)
    ensures r.Success? <==> Restore(ser, d.payload, d.serializationId, d.manifest).Success?
    ensures r.Success? ==> r.value.metadata == SnapshotMetadata(d.persistenceId, d.sequenceNr, d.timestamp)
  {
    match Restore(ser, d.payload, d.serializationId, d.manifest)
    case Success(p) => Success(SelectedSnapshot(SnapshotMetadata(d.persistenceId, d.sequenceNr, d.timestamp), p))
    case Failure(e) => Failure(e)
  }

  /** What `LoadAsync` answers: null when nothing passes, else the last passing snapshot, restored. */
  ghost function LoadAnswer(ser: SnapshotSerialization, c: Collections, snapshots: map<string, SnapshotDoc>,
                            persistenceId: string, criteria: SnapshotSelectionCriteria)
    : Result<Option<SelectedSnapshot>, CodecError>
  {
    match LastAdmissible(snapshots, criteria, CriteriaScan(c, snapshots, persistenceId, criteria))
    case None => Success(None)
    case Some(k) =>
      match Selection(ser, snapshots[k])
      case Success(s) => Success(Some(s))
      case Failure(e) => Failure(e)
  }

  /**
   * In a well-keyed store the load picks the entity's admissible snapshot
   * with the highest sequence number among those at 1 or above, and finds
   * none only when there is none (or the lower bound is the 64-bit minimum).
   */
  lemma LoadPicksHighest(c: Collections, snapshots: map<string, SnapshotDoc>, pid: string, criteria: SnapshotSelectionCriteria)
    requires WellKeyedSnapshots(c, snapshots) && '/' !in pid
    ensures var r := LastAdmissible(snapshots, criteria, CriteriaScan(c, snapshots, pid, criteria));
            && (r.Some? ==>
                 && r.value in snapshots
                 && snapshots[r.value].persistenceId == pid
                 && snapshots[r.value].sequenceNr >= 1
                 && Admissible(criteria, snapshots[r.value])
                 && (forall k | k in snapshots && snapshots[k].persistenceId == pid && snapshots[k].sequenceNr >= 1
                              && Admissible(criteria, snapshots[k])
                      :: snapshots[k].sequenceNr <= snapshots[r.value].sequenceNr))
            && (r.None? <==>
                 criteria.minSequenceNr == INT64_MIN ||
                 forall k :: k in snapshots && snapshots[k].persistenceId == pid && snapshots[k].sequenceNr >= 1 ==>
                               !Admissible(criteria, snapshots[k]))
  {
    var keys := CriteriaScan(c, snapshots, pid, criteria);
    var r := LastAdmissible(snapshots, criteria, keys);
    LastAdmissibleIsLast(snapshots, criteria, keys);
    if r.Some? {
      var top := r.value;
      LoadWindow(c, snapshots, pid, criteria, top);
      forall k | k in snapshots && snapshots[k].persistenceId == pid && snapshots[k].sequenceNr >= 1 &&
                 Admissible(criteria, snapshots[k])
        ensures snapshots[k].sequenceNr <= snapshots[top].sequenceNr
      {
        LoadWindow(c, snapshots, pid, criteria, k);
        if k != top {
          SnapshotIdOrder(c, pid, snapshots[k].sequenceNr, snapshots[top].sequenceNr);
        }
      }
    } else {
      forall k | k in snapshots && snapshots[k].persistenceId == pid && snapshots[k].sequenceNr >= 1 &&
                 Admissible(criteria, snapshots[k]) && criteria.minSequenceNr != INT64_MIN
        ensures false
      {
        LoadWindow(c, snapshots, pid, criteria, k);
      }
    }
  }

  // ---- SaveAsync -----------------------------------------------------------------

  /** The configured `SaveChangesMode`; `OtherMode` stands for any other value of the enumeration. */
  datatype SaveChangesMode = ClusterWide | Majority | Single | OtherMode(value: int)

  datatype SaveError =
    | ArgumentOutOfRange(mode: int)     // an unsupported SaveChangesMode
    | CopyFailed(error: SnapshotError)  // CopyTo refused the stored document
    | SaveChangesFailed(message: string) // the commit raised

  /** The document `Snapshot.Serialize` builds. */
  function SerializedDoc(ser: SnapshotSerialization, metadata: SnapshotMetadata, snapshot: Payload): SnapshotDoc {
    var form := StoredForm(ser, snapshot);
    SnapshotDoc(metadata.timestamp, metadata.sequenceNr, metadata.persistenceId, ManifestFor(ser, snapshot), form.1, form.0)
  }

  /** Under ClusterWide, the stored document at `id` has another sequence number, so `CopyTo` raises. */
  predicate CopyRefused(mode: SaveChangesMode, snapshots: map<string, SnapshotDoc>, id: string, entity: SnapshotDoc) {
    mode.ClusterWide? && id in snapshots && snapshots[id].sequenceNr != entity.sequenceNr
  }

  /**
   * The outcome of `SaveAsync` (the replicas it waits for, or the exception)
   * and the snapshot collection after it; `saveReply` is the exception the
   * commit raises, if any, and a failed commit stores nothing.
   */
  function SaveEffect(mode: SaveChangesMode, snapshots: map<string, SnapshotDoc>, id: string, entity: SnapshotDoc, nodeCount: nat,
                      saveReply: Option<string>)
    : (r: (Result<Option<nat>, SaveError>, map<string, SnapshotDoc>))
    ensures r.0.Success? ==> r.1 == snapshots[id := entity]
    ensures r.0.Failure? ==> r.1 == snapshots
    ensures r.0.Failure? <==> mode.OtherMode? || CopyRefused(mode, snapshots, id, entity) || saveReply.Some?
    ensures mode.OtherMode? ==> r.0 == Failure(ArgumentOutOfRange(mode.value))
    ensures CopyRefused(mode, snapshots, id, entity) ==>
              r.0 == Failure(CopyFailed(InvalidOperation(snapshots[id].persistenceId, snapshots[id].sequenceNr, entity.sequenceNr)))
    ensures !mode.OtherMode? && !CopyRefused(mode, snapshots, id, entity) && saveReply.Some? ==>
              r.0 == Failure(SaveChangesFailed(saveReply.value))
    ensures r.0.Success? ==> (r.0.value.Some? <==> mode.Majority?)
    ensures mode.Majority? && saveReply.None? ==> r.0 == Success(Some(nodeCount / 2))
  {
    var staged: (Result<Option<nat>, SaveError>, map<string, SnapshotDoc>) :=
      match mode
      case ClusterWide =>
        if id !in snapshots then (Success(None), snapshots[id := entity])
        else if snapshots[id].sequenceNr != entity.sequenceNr then
          var current := snapshots[id];
          (Failure(CopyFailed(InvalidOperation(current.persistenceId, current.sequenceNr, entity.sequenceNr))), snapshots)
        else (Success(None), snapshots[id := entity])
      case Majority => (Success(Some(nodeCount / 2)), snapshots[id := entity])
      case Single => (Success(None), snapshots[id := entity])
      case OtherMode(m) => (Failure(ArgumentOutOfRange(m)), snapshots);
    if staged.0.Success? && saveReply.Some? then (Failure(SaveChangesFailed(saveReply.value)), snapshots)
    else staged
  }

  /** The load criteria that admit exactly one (entity, sequence number, time). */
  function Exactly(metadata: SnapshotMetadata): (criteria: SnapshotSelectionCriteria)
    ensures forall d :: Admissible(criteria, d) <==> d.sequenceNr == metadata.sequenceNr && d.timestamp == metadata.timestamp
  {
    SnapshotSelectionCriteria(metadata.sequenceNr, metadata.timestamp, metadata.sequenceNr, metadata.timestamp)
  }

  /**
   * A successful save keeps the store well keyed, and loading the saved
   * (entity, sequence number, time) afterwards gives the saved snapshot back,
   * when its sequence number is at least 1 and the serializer round-trips.
   */
  lemma SaveThenLoad(ser: SnapshotSerialization, c: Collections, snapshots: map<string, SnapshotDoc>, mode: SaveChangesMode,
                     metadata: SnapshotMetadata, snapshot: Payload, nodeCount: nat, saveReply: Option<string>)
    requires WellKeyedSnapshots(c, snapshots) && '/' !in metadata.persistenceId
    requires metadata.sequenceNr >= 1
    requires ser.serializerFor(snapshot).identifier == RawSerializerId || FaithfulSnapshotSerializer(ser)
    requires SaveEffect(mode, snapshots, GetSnapshotId(c, metadata.persistenceId, metadata.sequenceNr),
                        SerializedDoc(ser, metadata, snapshot), nodeCount, saveReply).0.Success?
    ensures var after := SaveEffect(mode, snapshots, GetSnapshotId(c, metadata.persistenceId, metadata.sequenceNr),
                                    SerializedDoc(ser, metadata, snapshot), nodeCount, saveReply).1;
            && WellKeyedSnapshots(c, after)
            && LoadAnswer(ser, c, after, metadata.persistenceId, Exactly(metadata)) == Success(Some(SelectedSnapshot(metadata, snapshot)))
  {
    var pid := metadata.persistenceId;
    var id := GetSnapshotId(c, pid, metadata.sequenceNr);
    var entity := SerializedDoc(ser, metadata, snapshot);
    var after := snapshots[id := entity];
    assert WellKeyedSnapshots(c, after);
    var criteria := Exactly(metadata);
    var keys := CriteriaScan(c, after, pid, criteria);
    LoadWindow(c, after, pid, criteria, id);
    LastAdmissibleIsLast(after, criteria, keys);
    var r := LastAdmissible(after, criteria, keys);
    assert r.Some?;
    LoadWindow(c, after, pid, criteria, r.value);
    SnapshotIdInjective(c, pid, pid, after[r.value].sequenceNr, metadata.sequenceNr);
    assert r.value == id;
    SnapshotRoundTrip(ser, snapshot);
  }

  // ---- DeleteAsync -----------------------------------------------------------------

  /** The ids among `keys` whose snapshot passes the delete filter. */
  function Doomed(snapshots: map<string, SnapshotDoc>, criteria: SnapshotSelectionCriteria, keys: seq<string>)
    : (d: set<string>)
    requires forall k :: k in keys ==> k in snapshots
    ensures forall k :: k in d <==> k in keys && ShouldDelete(criteria, snapshots[k])
  {
    if keys == [] then {}
    else
      var last := keys[|keys| - 1];
      var init := keys[..|keys| - 1];
      assert keys == init + [last];
      Doomed(snapshots, criteria, init) + (if ShouldDelete(criteria, snapshots[last]) then {last} else {})
  }

  /**
   * In a well-keyed store, deleting by criteria removes exactly the entity's
   * snapshots whose clamped sequence number is above that of
   * `MinSequenceNr - 1` and that are within both upper bounds; the lower
   * timestamp bound plays no part.
   */
  lemma DeleteMatchingRemoves(c: Collections, snapshots: map<string, SnapshotDoc>, pid: string,
                              criteria: SnapshotSelectionCriteria, k: string)
    requires WellKeyedSnapshots(c, snapshots) && '/' !in pid && k in snapshots
    ensures k in Doomed(snapshots, criteria, CriteriaScan(c, snapshots, pid, criteria)) <==>
              && snapshots[k].persistenceId == pid
              && Clamp(snapshots[k].sequenceNr) > Clamp(Decrement(criteria.minSequenceNr))
              && snapshots[k].sequenceNr <= criteria.maxSequenceNr
              && snapshots[k].timestamp <= criteria.maxTimeStamp
  {
    SnapshotScanCovers(c, snapshots, pid, Decrement(criteria.minSequenceNr), k);
  }

  /** After deleting one snapshot's id, no load of any entity with any criteria returns that document. */
  lemma DeletedNeverLoaded(c: Collections, snapshots: map<string, SnapshotDoc>, id: string,
                           pid: string, criteria: SnapshotSelectionCriteria)
    ensures var after := snapshots - {id};
            LastAdmissible(after, criteria, CriteriaScan(c, after, pid, criteria)) != Some(id)
  {
    var after := snapshots - {id};
    var r := LastAdmissible(after, criteria, CriteriaScan(c, after, pid, criteria));
    if r.Some? {
      assert r.value in after;
    }
  }

  /** The scan loop of `LoadAsync`: remembers the last snapshot that passes the load filter. */
  method LastValid(snapshots: map<string, SnapshotDoc>, criteria: SnapshotSelectionCriteria, keys: seq<string>)
    returns (lastValid: Option<string>)
    requires forall k :: k in keys ==> k in snapshots
    ensures lastValid == LastAdmissible(snapshots, criteria, keys)
  {
    lastValid := None;
    for i := 0 to |keys|
      invariant lastValid == LastAdmissible(snapshots, criteria, keys[..i])
    {
      assert keys[..i + 1][..i] == keys[..i];
      var current := snapshots[keys[i]];
      var validTime := criteria.minTimestamp <= current.timestamp && criteria.maxTimeStamp >= current.timestamp;
      var validSequence := criteria.minSequenceNr <= current.sequenceNr && criteria.maxSequenceNr >= current.sequenceNr;
      if validSequence && validTime {
        lastValid := Some(keys[i]);
      }
    }
    assert keys[..|keys|] == keys;
  }

  /** The scan loop of `DeleteAsync(persistenceId, criteria)`: marks every snapshot that passes the delete filter. */
  method Deletes(snapshots: map<string, SnapshotDoc>, criteria: SnapshotSelectionCriteria, keys: seq<string>)
    returns (deletes: set<string>)
    requires forall k :: k in keys ==> k in snapshots
    ensures deletes == Doomed(snapshots, criteria, keys)
  {
    deletes := {};
    for i := 0 to |keys|
      invariant deletes == Doomed(snapshots, criteria, keys[..i])
    {
      assert keys[..i + 1][..i] == keys[..i];
      var current := snapshots[keys[i]];
      var shouldDelete := criteria.maxSequenceNr >= current.sequenceNr && criteria.maxTimeStamp >= current.timestamp;
      if shouldDelete {
        deletes := deletes + {keys[i]};
      }
    }
    assert keys[..|keys|] == keys;
  }

  // ---- The snapshot store ----------------------------------------------------------

  class RavenDbSnapshotStore {
    const db: DocumentStore
    const ser: SnapshotSerialization
    const mode: SaveChangesMode

    constructor (db: DocumentStore, ser: SnapshotSerialization, mode: SaveChangesMode)
      ensures this.db == db && this.ser == ser && this.mode == mode
    {
      this.db, this.ser, this.mode := db, ser, mode;
    }

    /** `LoadAsync`: scan the entity's snapshots, keep the last one inside the criteria, restore it. */
    method LoadAsync(persistenceId: string, criteria: SnapshotSelectionCriteria)
      returns (r: Result<Option<SelectedSnapshot>, CodecError>)
      ensures r == LoadAnswer(ser, db.collections, db.snapshots, persistenceId, criteria)
    {
      var c := db.collections;
      var keys := Stream(db.snapshots, GetSnapshotPrefix(c, persistenceId), Some(ScanStart(c, persistenceId, criteria)));
      var lastValid := LastValid(db.snapshots, criteria, keys);
      if lastValid.None? {
        return Success(None);
      }
      var entity := new Snapshot.FromDoc(db.snapshots[lastValid.value]);
      var selected := entity.ToSelectedSnapshot(ser);
      if selected.Failure? {
        return Failure(selected.error);
      }
      r := Success(Some(selected.value));
    }

    /**
     * `SaveAsync`: ClusterWide inserts when the id is free and otherwise
     * copies onto the stored document; Majority (after choosing its replica
     * count) and Single store under the id; any other mode raises. The
     * session's changes reach the store only when the commit succeeds.
     */
    method SaveAsync(metadata: SnapshotMetadata, snapshot: Payload, nodeCount: nat, saveReply: Option<string>)
      returns (r: Result<Option<nat>, SaveError>)
      modifies db
      ensures (r, db.snapshots) == SaveEffect(mode, old(db.snapshots),
                                              GetSnapshotId(db.collections, metadata.persistenceId, metadata.sequenceNr),
                                              SerializedDoc(ser, metadata, snapshot), nodeCount, saveReply)
      ensures db.events == old(db.events) && db.metadata == old(db.metadata) && db.actors == old(db.actors)
    {
      var id := GetSnapshotId(db.collections, metadata.persistenceId, metadata.sequenceNr);
      var snapshotEntity := new Snapshot.Serialize(ser, metadata, snapshot);
      var session: map<string, SnapshotDoc>;
      var replicas: Option<nat> := None;
      if mode.ClusterWide? {
        if id !in db.snapshots {
          session := db.snapshots[id := snapshotEntity.Doc()];
        } else {
          var current := new Snapshot.FromDoc(db.snapshots[id]);
          var copied := snapshotEntity.CopyTo(current);
          if copied.Failure? {
            return Failure(CopyFailed(copied.error));
          }
          session := db.snapshots[id := current.Doc()];
        }
      } else if mode.Majority? {
        replicas := Some(nodeCount / 2);
        session := db.snapshots[id := snapshotEntity.Doc()];
      } else if mode.Single? {
        session := db.snapshots[id := snapshotEntity.Doc()];
      } else {
        return Failure(ArgumentOutOfRange(mode.value));
      }
      if saveReply.Some? {
        return Failure(SaveChangesFailed(saveReply.value));
      }
      db.snapshots := session;
      r := Success(replicas);
    }

    /**
     * `DeleteAsync(metadata)`: removes the id of (entity, sequence number),
     * and nothing else, when the commit succeeds; `saveReply` is the
     * exception the commit raises, if any.
     */
    method DeleteAsync(metadata: SnapshotMetadata, saveReply: Option<string>) returns (error: Option<string>)
      modifies db
      ensures error == saveReply
      ensures saveReply.Some? ==> db.snapshots == old(db.snapshots)
      ensures saveReply.None? ==>
                db.snapshots == old(db.snapshots) - {GetSnapshotId(db.collections, metadata.persistenceId, metadata.sequenceNr)}
      ensures db.events == old(db.events) && db.metadata == old(db.metadata) && db.actors == old(db.actors)
    {
      var id := GetSnapshotId(db.collections, metadata.persistenceId, metadata.sequenceNr);
      var session := db.snapshots - {id};
      if saveReply.Some? {
        return saveReply;
      }
      db.snapshots := session;
      error := None;
    }

    /**
     * `DeleteAsync(persistenceId, criteria)`: every scanned snapshot within
     * both upper bounds is marked for deletion; the deletions are committed
     * together, or not at all when the commit raises.
     */
    method DeleteMatchingAsync(persistenceId: string, criteria: SnapshotSelectionCriteria, saveReply: Option<string>)
      returns (error: Option<string>)
      modifies db
      ensures error == saveReply
      ensures saveReply.Some? ==> db.snapshots == old(db.snapshots)
      ensures saveReply.None? ==>
                db.snapshots == old(db.snapshots) -
                  Doomed(old(db.snapshots), criteria, CriteriaScan(db.collections, old(db.snapshots), persistenceId, criteria))
      ensures db.events == old(db.events) && db.metadata == old(db.metadata) && db.actors == old(db.actors)
    {
      var c := db.collections;
      var keys := Stream(db.snapshots, GetSnapshotPrefix(c, persistenceId), Some(ScanStart(c, persistenceId, criteria)));
      var deletes := Deletes(db.snapshots, criteria, keys);
      if saveReply.Some? {
        return saveReply;
      }
      db.snapshots := db.snapshots - deletes;
      error := None;
    }
  }
}
