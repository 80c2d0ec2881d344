/**
 * The snapshot document (`Snapshot.Types.Snapshot`): how a snapshot object is
 * stored, copied over an existing document, and turned back into a
 * SelectedSnapshot.
 */
module SnapshotTypes {
  import opened Wrappers
  import opened StorageFormat
  import opened EventCodec

  datatype SnapshotMetadata = SnapshotMetadata(persistenceId: string, sequenceNr: int64, timestamp: Ticks)

  datatype SelectedSnapshot = SelectedSnapshot(metadata: SnapshotMetadata, snapshot: Payload)

  /** A stored snapshot document, as a value. */
  datatype SnapshotDoc = SnapshotDoc(
    timestamp: Ticks,
    sequenceNr: int64,
    persistenceId: string,
    manifest: string,
    serializationId: int,
    payload: Payload)

  /** What `FindSerializerFor(payload)` tells about the serializer it picks. */
  datatype SerializerInfo = SerializerInfo(identifier: int, withStringManifest: bool, includeManifest: bool)

  /** Akka serialization as the snapshot codec uses it. */
  datatype SnapshotSerialization = SnapshotSerialization(
    serializerFor: Payload -> SerializerInfo,
    toBinary: Payload -> seq<bv8>,
    stringManifest: Payload -> string,           // SerializerWithStringManifest.Manifest
    typeQualifiedName: Payload -> string,
    fromBinary: (seq<bv8>, int, string) -> Result<Payload, CodecError>)

  datatype SnapshotError = InvalidOperation(persistenceId: string, sequenceNr: int64, existingSequenceNr: int64)

  /** The manifest switch: a string manifest first, then the type name when asked for, else empty. */
  function ManifestFor(ser: SnapshotSerialization, payload: Payload): (m: string)
    ensures ser.serializerFor(payload).withStringManifest ==> m == ser.stringManifest(payload)
    ensures !ser.serializerFor(payload).withStringManifest && ser.serializerFor(payload).includeManifest ==>
              m == ser.typeQualifiedName(payload)
    ensures !ser.serializerFor(payload).withStringManifest && !ser.serializerFor(payload).includeManifest ==> m == []
  {
    var s := ser.serializerFor(payload);
    if s.withStringManifest then ser.stringManifest(payload)
    else if s.includeManifest then ser.typeQualifiedName(payload)
    else ""
  }

  /** The stored payload and serialization id: raw under serializer 1, bytes otherwise. */
  function StoredForm(ser: SnapshotSerialization, payload: Payload): (r: (Payload, int))
    ensures r.1 == ser.serializerFor(payload).identifier
    ensures r.1 == RawSerializerId ==> r.0 == payload
    ensures r.1 != RawSerializerId ==> r.0 == ByteArray(ser.toBinary(payload))
  {
    var s := ser.serializerFor(payload);
    if s.identifier == RawSerializerId then (payload, RawSerializerId)
    else (ByteArray(ser.toBinary(payload)), s.identifier)
  }

  /** The payload `ToSelectedSnapshot` hands back for a stored payload. */
  function Restore(ser: SnapshotSerialization, stored: Payload, serializationId: int, manifest: string)
    : (r: Result<Payload, CodecError>)
    ensures serializationId == RawSerializerId ==> r == Success(stored)
    ensures serializationId != RawSerializerId && !stored.ByteArray? ==> r == Failure(InvalidCast)
  {
    if serializationId == RawSerializerId then Success(stored)
    else if stored.ByteArray? then ser.fromBinary(stored.bytes, serializationId, manifest)
    else Failure(InvalidCast)
  }

  ghost predicate FaithfulSnapshotSerializer(ser: SnapshotSerialization) {
    forall p :: ser.fromBinary(ser.toBinary(p), ser.serializerFor(p).identifier, ManifestFor(ser, p)) == Success(p)
  }

  /** Restoring what was stored gives the snapshot back: always under id 1, and through a faithful serializer otherwise. */
  lemma SnapshotRoundTrip(ser: SnapshotSerialization, payload: Payload)
    requires ser.serializerFor(payload).identifier == RawSerializerId || FaithfulSnapshotSerializer(ser)
    ensures Restore(ser, StoredForm(ser, payload).0, StoredForm(ser, payload).1, ManifestFor(ser, payload)) == Success(payload)
  {
    var (stored, id) := StoredForm(ser, payload);
    if id != RawSerializerId {
      assert ser.fromBinary(ser.toBinary(payload), id, ManifestFor(ser, payload)) == Success(payload);
    }
  }

  /** The session entity of a snapshot document. */
  class Snapshot {
    var timestamp: Ticks
    var sequenceNr: int64
    var persistenceId: string
    var manifest: string
    var serializationId: int
    var payload: Payload

    /** The stored document: the entity's fields, nothing added or dropped. */
    function Doc(): (d: SnapshotDoc)
      reads this
      ensures d.persistenceId == persistenceId && d.sequenceNr == sequenceNr && d.timestamp == timestamp
      ensures d.payload == payload && d.serializationId == serializationId && d.manifest == manifest
    {
      SnapshotDoc(timestamp, sequenceNr, persistenceId, manifest, serializationId, payload)
    }

    /** The entity a session load materialises from a stored document. */
    constructor FromDoc(d: SnapshotDoc)
      ensures Doc() == d
    {
      timestamp, sequenceNr, persistenceId := d.timestamp, d.sequenceNr, d.persistenceId;
      manifest, serializationId, payload := d.manifest, d.serializationId, d.payload;
    }

    /** `Snapshot.Serialize`. */
    constructor Serialize(ser: SnapshotSerialization, metadata: SnapshotMetadata, snapshot: Payload)
      ensures persistenceId == metadata.persistenceId && sequenceNr == metadata.sequenceNr
      ensures timestamp == metadata.timestamp
      ensures (payload, serializationId) == StoredForm(ser, snapshot)
      ensures manifest == ManifestFor(ser, snapshot)
    {
      persistenceId := metadata.persistenceId;
      sequenceNr := metadata.sequenceNr;
      timestamp := metadata.timestamp;
      var serializer := ser.serializerFor(snapshot);
      if serializer.identifier == RawSerializerId {
        payload := snapshot;
        serializationId := RawSerializerId;
      } else {
        payload := ByteArray(ser.toBinary(snapshot));
        serializationId := ser.serializerFor(snapshot).identifier;
      }
      manifest := ManifestFor(ser, snapshot);
    }

    /**
     * `CopyTo`: refuses a target with another sequence number; otherwise the
     * target ends up with this snapshot's contents.
     */
    method CopyTo(copy: Snapshot) returns (r: Result<(), SnapshotError>)
      modifies copy
      ensures copy.sequenceNr != sequenceNr ==>
                r == Failure(InvalidOperation(old(copy.persistenceId), old(copy.sequenceNr), sequenceNr))
      ensures old(copy.sequenceNr) != old(sequenceNr) ==> unchanged(copy)
      ensures old(copy.sequenceNr) == old(sequenceNr) ==> r.Success? && copy.Doc() == old(Doc())
    {
      if copy.sequenceNr != sequenceNr {
        return Failure(InvalidOperation(copy.persistenceId, copy.sequenceNr, sequenceNr));
      }
      copy.timestamp := timestamp;
      copy.persistenceId := persistenceId;
      copy.manifest := manifest;
      copy.serializationId := serializationId;
      copy.payload := payload;
      r := Success(());
    }

    /**
     * `ToSelectedSnapshot`: a payload not stored raw is replaced in place by
     * its deserialized form; the metadata is kept.
     */
    method ToSelectedSnapshot(ser: SnapshotSerialization) returns (r: Result<SelectedSnapshot, CodecError>)
      modifies this
      ensures timestamp == old(timestamp) && sequenceNr == old(sequenceNr) && persistenceId == old(persistenceId)
      ensures manifest == old(manifest) && serializationId == old(serializationId)
      ensures r.Success? ==> r.value == SelectedSnapshot(SnapshotMetadata(persistenceId, sequenceNr, timestamp), payload)
      ensures r.Success? <==> Restore(ser, old(payload), serializationId, manifest).Success?
      ensures r.Success? ==> payload == Restore(ser, old(payload), serializationId, manifest).value
      ensures r.Failure? ==> payload == old(payload) && r.error == Restore(ser, old(payload), serializationId, manifest).error
    {
      if serializationId != RawSerializerId {
        if !payload.ByteArray? {
          return Failure(InvalidCast);
        }
        var restored := ser.fromBinary(payload.bytes, serializationId, manifest);
        if restored.Failure? {
          return Failure(restored.error);
        }
        payload := restored.value;
      }
      r := Success(SelectedSnapshot(SnapshotMetadata(persistenceId, sequenceNr, timestamp), payload));
    }
  }
}
