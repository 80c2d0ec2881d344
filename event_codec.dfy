/**
 * The stored form of a journal event: `Event.Serialize`, the message
 * adjustments it makes first, and `Event.Deserialize`.
 */
module EventCodec {
  import opened Wrappers
  import opened StorageFormat

  /** The largest tick count a DateTime holds (9999-12-31 23:59:59.9999999). */
  const MaxTicks: int := 3155378975999999999

  /** A DateTime, as its tick count. */
  type Ticks = t: int | 0 <= t <= MaxTicks

  /** An actor reference, by path; `None` stands for ActorRefs.NoSender. */
  type ActorRef = string

  /** An event object as the journal sees it: opaque user data, a Tagged wrapper, or raw bytes. */
  datatype Payload =
    | UserObject(typeName: string, content: string)
    | Tagged(inner: Payload, tags: seq<string>)
    | ByteArray(bytes: seq<bv8>)

  /** Akka's `Persistent` representation. */
  datatype Persistent = Persistent(
    payload: Payload,
    sequenceNr: int64,
    persistenceId: string,
    manifest: string,
    isDeleted: bool,
    sender: Option<ActorRef>,
    writerGuid: string,
    timestamp: int64)

  /** The `Event` document; its id is the key it is stored under. */
  datatype Event = Event(
    persistenceId: string,
    sequenceNr: int64,
    payload: Payload,
    serializationId: int,
    timestamp: Ticks,        // UTC
    writerGuid: string,
    isDeleted: bool,
    manifest: string,
    tags: Option<seq<string>>)

  datatype CodecError =
    | TimestampOutOfRange     // ArgumentOutOfRangeException from new DateTime(ticks)
    | InvalidCast             // a non-byte[] payload under a serializer other than 1
    | SerializerError(message: string)

  /** Akka serialization, as the four lookups the codec makes. */
  datatype Serialization = Serialization(
    serializerIdFor: Payload -> int,                    // FindSerializerFor(payload).Identifier
    representationSerializerId: Persistent -> int,      // FindSerializerFor(message).Identifier
    toBinary: Persistent -> seq<bv8>,                   // Serialize(message)
    fromBinary: (seq<bv8>, int, string) -> Result<Persistent, CodecError>)

  /** The serializer the plugin replaces by storing the object itself. */
  const RawSerializerId: int := 1

  function Untagged(p: Payload): Payload {
    if p.Tagged? then p.inner else p
  }

  function TagsOf(p: Payload): Option<seq<string>> {
    if p.Tagged? then Some(p.tags) else None
  }

  /**
   * `EventSerializeModifications.Get`: clear the sender, fill in a zero
   * timestamp with `now`, and unwrap a Tagged payload into its tags.
   */
  function Modify(m: Persistent, now: int64): (r: (Persistent, Option<seq<string>>))
    ensures r.0.sender.None?
    ensures r.0.timestamp == (if m.timestamp == 0 then now else m.timestamp)
    ensures m.payload.Tagged? ==> r.1 == Some(m.payload.tags) && r.0.payload == m.payload.inner
    ensures !m.payload.Tagged? ==> r.1.None? && r.0.payload == m.payload
    ensures r.0.(sender := m.sender, timestamp := m.timestamp, payload := m.payload) == m
  {
    var withoutSender := if m.sender.Some? then m.(sender := None) else m;
    var stamped := if m.timestamp == 0 then withoutSender.(timestamp := now) else withoutSender;
    if m.payload.Tagged? then
      (stamped.(payload := m.payload.inner), Some(m.payload.tags))
    else
      (stamped, None)
  }

  /** `Event.Deserialize`: serializer 1 means the payload is the object itself; otherwise it must be bytes. */
  function Deserialize(ser: Serialization, e: Event, sender: Option<ActorRef>): (r: Result<Persistent, CodecError>)
    ensures e.serializationId == RawSerializerId ==>
              && r.Success? && r.value.payload == e.payload && r.value.sender == sender
              && r.value.sequenceNr == e.sequenceNr && r.value.persistenceId == e.persistenceId
    ensures e.serializationId != RawSerializerId && !e.payload.ByteArray? ==> r == Failure(InvalidCast)
  {
    if e.serializationId == RawSerializerId then
      Success(Persistent(e.payload, e.sequenceNr, e.persistenceId, e.manifest, e.isDeleted,
                         sender, e.writerGuid, e.timestamp))
    else if e.payload.ByteArray? then
      ser.fromBinary(e.payload.bytes, e.serializationId, e.manifest)
    else
      Failure(InvalidCast)
  }

  /** The serializer round-trips every representation. */
  ghost predicate FaithfulSerializer(ser: Serialization) {
    forall x :: ser.fromBinary(ser.toBinary(x), ser.representationSerializerId(x), x.manifest) == Success(x)
  }

  /**
   * `Event.Serialize`: it fails exactly when the adjusted timestamp is not a
   * valid DateTime.
   */
  function Serialize(ser: Serialization, message: Persistent, now: int64): (r: Result<Event, CodecError>)
    requires now <= MaxTicks && now >= 0
    ensures var ts := if message.timestamp == 0 then now else message.timestamp;
            r.Failure? <==> ts < 0 || ts > MaxTicks
  {
    var (m, tags) := Modify(message, now);
    if m.timestamp < 0 || m.timestamp > MaxTicks then Failure(TimestampOutOfRange)
    else
      var e := Event(message.persistenceId, message.sequenceNr, message.payload, 0, m.timestamp,
                     message.writerGuid, message.isDeleted, message.manifest, tags);
      if ser.serializerIdFor(m.payload) == RawSerializerId then
        Success(e.(payload := m.payload, serializationId := RawSerializerId))
      else
        Success(e.(payload := ByteArray(ser.toBinary(m)), serializationId := ser.representationSerializerId(m)))
  }

  /**
   * The identifying fields are copied, the tags and the timestamp come from
   * the adjusted message, and the payload is kept as is under serializer 1
   * and turned into bytes otherwise.
   */
  lemma SerializeFields(ser: Serialization, message: Persistent, now: Ticks)
    requires Serialize(ser, message, now).Success?
    ensures var e := Serialize(ser, message, now).value;
            && e.persistenceId == message.persistenceId
            && e.sequenceNr == message.sequenceNr
            && e.writerGuid == message.writerGuid
            && e.isDeleted == message.isDeleted
            && e.manifest == message.manifest
            && e.tags == TagsOf(message.payload)
            && e.timestamp == (if message.timestamp == 0 then now else message.timestamp)
            && (ser.serializerIdFor(Untagged(message.payload)) == RawSerializerId ==>
                  e.payload == Untagged(message.payload) && e.serializationId == RawSerializerId)
            && (ser.serializerIdFor(Untagged(message.payload)) != RawSerializerId ==>
                  && e.payload == ByteArray(ser.toBinary(Modify(message, now).0))
                  && e.serializationId == ser.representationSerializerId(Modify(message, now).0))
  {
  }

  /** Under serializer 1 the stored object reads back as the adjusted message, with the replaying sender. */
  lemma RawRoundTrip(ser: Serialization, message: Persistent, now: Ticks, sender: Option<ActorRef>)
    requires Serialize(ser, message, now).Success?
    requires ser.serializerIdFor(Untagged(message.payload)) == RawSerializerId
    ensures Deserialize(ser, Serialize(ser, message, now).value, sender) ==
            Success(Modify(message, now).0.(sender := sender))
  {
  }

  /** Through a faithful serializer whose own id is not 1, the bytes read back as the adjusted message. */
  lemma FaithfulRoundTrip(ser: Serialization, message: Persistent, now: Ticks, sender: Option<ActorRef>)
    requires Serialize(ser, message, now).Success?
    requires FaithfulSerializer(ser)
    requires ser.serializerIdFor(Untagged(message.payload)) != RawSerializerId
    requires ser.representationSerializerId(Modify(message, now).0) != RawSerializerId
    ensures Deserialize(ser, Serialize(ser, message, now).value, sender) == Success(Modify(message, now).0)
  {
  }
}
