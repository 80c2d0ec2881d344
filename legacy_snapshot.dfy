/**
 * The older snapshot entity (`Snapshot.Snapshot`): the same stored form as the
 * current one, without `CopyTo`.
 */
module LegacySnapshot {
  import opened Wrappers
  import opened StorageFormat
  import opened EventCodec
  import opened SnapshotTypes

  class LegacySnapshotEntity {
    var timestamp: Ticks
    var sequenceNr: int64
    var persistenceId: string
    var manifest: string
    var serializationId: int
    var payload: Payload

    /** `Snapshot.Serialize`. */
    constructor Serialize(ser: SnapshotSerialization, metadata: SnapshotMetadata, snapshot: Payload)
      ensures persistenceId == metadata.persistenceId && sequenceNr == metadata.sequenceNr
      ensures timestamp == metadata.timestamp
      ensures (payload, serializationId) == StoredForm(ser, snapshot)
      ensures manifest == ManifestFor(ser, snapshot)
    {
      persistenceId := metadata.persistenceId;
      sequenceNr := metadata.sequenceNr;
      timestamp := metadata.timestamp;
      var serializer := ser.serializerFor(snapshot);
      if serializer.identifier == RawSerializerId {
        payload := snapshot;
        serializationId := RawSerializerId;
      } else {
        payload := ByteArray(ser.toBinary(snapshot));
        serializationId := ser.serializerFor(snapshot).identifier;
      }
      manifest := ManifestFor(ser, snapshot);
    }

    /** `ToSelectedSnapshot`: the metadata is kept and a non-raw payload is deserialized in place. */
    method ToSelectedSnapshot(ser: SnapshotSerialization) returns (r: Result<SelectedSnapshot, CodecError>)
      modifies this
      ensures timestamp == old(timestamp) && sequenceNr == old(sequenceNr) && persistenceId == old(persistenceId)
      ensures manifest == old(manifest) && serializationId == old(serializationId)
      ensures r.Success? ==> r.value == SelectedSnapshot(SnapshotMetadata(persistenceId, sequenceNr, timestamp), payload)
      ensures r.Success? <==> Restore(ser, old(payload), serializationId, manifest).Success?
      ensures r.Success? ==> payload == Restore(ser, old(payload), serializationId, manifest).value
      ensures r.Failure? ==> payload == old(payload) && r.error == Restore(ser, old(payload), serializationId, manifest).error
    {
      if serializationId != RawSerializerId {
        if !payload.ByteArray? {
          return Failure(InvalidCast);
        }
        var restored := ser.fromBinary(payload.bytes, serializationId, manifest);
        if restored.Failure? {
          return Failure(restored.error);
        }
        payload := restored.value;
      }
      r := Success(SelectedSnapshot(SnapshotMetadata(persistenceId, sequenceNr, timestamp), payload));
    }
  }
}
