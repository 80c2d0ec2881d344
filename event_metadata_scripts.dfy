/**
 * `EventMetadata.CreateNewScript` and `EventMetadata.UpdateScript`, run by the
 * server as patches of a metadata document.
 */
module EventMetadataScripts {
  import opened Wrappers
  import opened StorageFormat
  import opened EventCodec
  import opened Database
  import opened MetadataPatch

  /**
   * The script arguments. The scripts also read `MaxSequenceNr` and
   * `PersistenceId` from the arguments; the check is the value the caller
   * expects, None when it is null or not a number.
   */
  datatype ScriptArgs = ScriptArgs(
    metadataCollection: string,
    uniqueActorCollection: string,
    metadataType: string,
    uniqueActorType: string,
    concurrencyCheck: Option<int>,
    maxSequenceNr: int64,
    persistenceId: string)

  datatype PatchStatus = Patched | DocumentDoesNotExist | ScriptFailed(error: PatchError)

  /**
   * `CreateNewScript` on document `id`: sets MaxSequenceNr and PersistenceId
   * from the arguments and puts the `UniqueActors/{pid}` marker if it is absent.
   */
  method CreateNewScript(db: DocumentStore, id: string, args: ScriptArgs, now: Ticks, cv: ChangeVector)
    modifies db
    ensures id in db.metadata
    ensures db.metadata == old(db.metadata)[id := EventMetadataDoc(args.persistenceId, args.maxSequenceNr,
              if id in old(db.metadata) then old(db.metadata[id].timestamp) else None)]
    ensures db.actors == PutIfAbsent(old(db.actors), UniqueActorId(args.persistenceId),
                                     Stored(UniqueActorDoc(args.persistenceId, now), cv))
    ensures db.events == old(db.events) && db.snapshots == old(db.snapshots)
  {
    var timestamp := if id in db.metadata then db.metadata[id].timestamp else None;
    db.metadata := db.metadata[id := EventMetadataDoc(args.persistenceId, args.maxSequenceNr, timestamp)];
    var uid := UniqueActorsPrefix + args.persistenceId;
    if uid !in db.actors {
      db.actors := db.actors[uid := Stored(UniqueActorDoc(args.persistenceId, now), cv)];
    }
  }

  /**
   * `UpdateScript` on document `id`: throws unless the stored MaxSequenceNr
   * equals the check, and otherwise raises it to the argument if larger.
   */
  method UpdateScript(db: DocumentStore, id: string, args: ScriptArgs) returns (status: PatchStatus)
    modifies db
    ensures id !in old(db.metadata) ==> status == DocumentDoesNotExist && db.metadata == old(db.metadata)
    ensures id in old(db.metadata) ==>
              var r := UpdatedMaxSequenceNr(old(db.metadata[id].maxSequenceNr), args.concurrencyCheck, args.maxSequenceNr);
              && (r.Failure? ==> status == ScriptFailed(r.error) && db.metadata == old(db.metadata))
              && (r.Success? ==>
                    status == Patched &&
                    db.metadata == old(db.metadata)[id := old(db.metadata[id]).(maxSequenceNr := r.value)])
    ensures db.events == old(db.events) && db.actors == old(db.actors) && db.snapshots == old(db.snapshots)
  {
    if id !in db.metadata {
      return DocumentDoesNotExist;
    }
    var x := db.metadata[id].maxSequenceNr;
    if args.concurrencyCheck != Some(x as int) {
      return ScriptFailed(ConcurrencyCheckFailed(args.concurrencyCheck, x));
    }
    var m := if x >= args.maxSequenceNr then x else args.maxSequenceNr;
    db.metadata := db.metadata[id := db.metadata[id].(maxSequenceNr := m)];
    status := Patched;
  }
}
