/**
 * The continuous queries behind `EventsByPersistenceId`, `EventsByTag`,
 * `AllEvents` and `PersistenceIds`: each keeps a cursor or an offset between
 * passes and writes what a pass finds to its channel. `Query` is one pass;
 * `Fault` is what `Run` does when a pass raises.
 */
module ContinuousQueries {
  import opened Wrappers
  import opened StorageFormat
  import opened KeyOrder
  import opened EventCodec
  import opened RavenDbPersistence
  import opened Database
  import opened JournalSpec
  import opened ChangeVectorOffsets
  import opened QueryTypes
  import opened IndexQueries
  import opened QueryPasses

  /** The `catch` of `Run`: a pass that raised completes the channel with the exception and ends the loop. */
  method Fault<T>(channel: Channel<T>, error: Option<QueryError>) returns (running: bool)
    modifies channel
    ensures running <==> error.None?
    ensures channel.items == old(channel.items)
    ensures channel.completion == (if error.Some? && old(channel.completion).Open? then Faulted(error.value)
                                   else old(channel.completion))
  {
    if error.Some? {
      var _ := channel.TryComplete(Faulted(error.value));
      return false;
    }
    return true;
  }

  /** The index query of a pass: the tag filter, if any, and the offset's clauses after it. */
  method OffsetQuery(tag: Option<string>, offset: ChangeVectorOffset) returns (q: IndexQuery)
    ensures q == IndexQuery(tag, OffsetClauses(offset.elements))
  {
    var clauses := ApplyOffset(offset, []);
    assert [] + OffsetClauses(offset.elements) == OffsetClauses(offset.elements);
    q := IndexQuery(tag, clauses);
  }

  /** The stream loop of a by-id pass: returns the exception that ended it, if any, and the new cursor. */
  method StreamById(ser: Serialization, channel: Channel<EventEnvelope>, docs: seq<Event>, cursor: int64, toSequenceNr: int64)
    returns (error: Option<QueryError>, position: int64)
    modifies channel
    ensures var pass := ByIdOver(ser, docs, cursor, toSequenceNr, old(channel.completion).Open?);
            && channel.items == old(channel.items) + pass.emitted
            && position == pass.position
            && error == pass.error
            && channel.completion == old(channel.completion)
  {
    ghost var open := channel.completion.Open?;
    ghost var whole := ByIdOver(ser, docs, cursor, toSequenceNr, open);
    ghost var written := [];
    position := cursor;
    var i := 0;
    while i < |docs|
      invariant 0 <= i <= |docs|
      invariant channel.completion == old(channel.completion)
      invariant channel.items == old(channel.items) + written
      invariant whole == Resume(written, ByIdOver(ser, docs[i..], position, toSequenceNr, open))
    {
      assert docs[i..][0] == docs[i] && docs[i..][1..] == docs[i + 1..];
      var e := docs[i];
      if e.sequenceNr > toSequenceNr {
        break;
      }
      var p := Deserialize(ser, e, None);
      if p.Failure? {
        return Some(CodecFailed(p.error)), position;
      }
      var envelope := ByIdEnvelope(e, p.value);
      error := channel.Write(envelope);
      if error.Some? {
        return;
      }
      ResumeStep(written, envelope, ByIdOver(ser, docs[i + 1..], e.sequenceNr, toSequenceNr, open));
      written := written + [envelope];
      position := envelope.sequenceNr;
      i := i + 1;
    }
    error := None;
  }

  /**
   * The stream loop of a by-tag (or current all-events) pass: returns the
   * exception that ended it, if any, and the offset of the last result.
   */
  method StreamByTag(ser: Serialization, channel: Channel<EventEnvelope>, results: seq<StreamResult<Event>>,
                     offset: ChangeVectorOffset)
    returns (error: Option<QueryError>, position: ChangeVectorOffset)
    modifies channel
    ensures var pass := ByTagOver(ser, results, offset, old(channel.completion).Open?);
            && channel.items == old(channel.items) + pass.emitted
            && position == pass.position
            && error == pass.error
            && channel.completion == old(channel.completion)
  {
    ghost var open := channel.completion.Open?;
    ghost var whole := ByTagOver(ser, results, offset, open);
    ghost var written := [];
    position := offset;
    var i := 0;
    while i < |results|
      invariant 0 <= i <= |results|
      invariant channel.completion == old(channel.completion)
      invariant channel.items == old(channel.items) + written
      invariant whole == Resume(written, ByTagOver(ser, results[i..], position, open))
    {
      ByTagAt(ser, results, i, position, open);
      var event := results[i].document;
      var p := Deserialize(ser, event, None);
      if p.Failure? {
        return Some(CodecFailed(p.error)), position;
      }
      var next := Create(results[i].changeVector);
      if next.Failure? {
        return Some(ChangeVectorFailed(next.error)), position;
      }
      position := next.value;
      var envelope := Envelope(VectorOffset(position), event, p.value);
      error := channel.Write(envelope);
      if error.Some? {
        return;
      }
      ResumeStep(written, envelope, ByTagOver(ser, results[i + 1..], position, open));
      written := written + [envelope];
      i := i + 1;
    }
    error := None;
  }

  /** The stream loop of an all-events pass: the offset is only read. */
  method StreamMerged(ser: Serialization, channel: Channel<EventEnvelope>, results: seq<StreamResult<Event>>,
                      offset: ChangeVectorOffset, merge: (ChangeVectorOffset, ChangeVector) -> ChangeVectorOffset)
    returns (error: Option<QueryError>)
    modifies channel
    ensures var pass := MergeOver(ser, results, offset, merge, old(channel.completion).Open?);
            && channel.items == old(channel.items) + pass.emitted
            && error == pass.error
            && channel.completion == old(channel.completion)
  {
    ghost var open := channel.completion.Open?;
    ghost var whole := MergeOver(ser, results, offset, merge, open);
    ghost var written := [];
    var i := 0;
    while i < |results|
      invariant 0 <= i <= |results|
      invariant channel.completion == old(channel.completion)
      invariant channel.items == old(channel.items) + written
      invariant whole == Resume(written, MergeOver(ser, results[i..], offset, merge, open))
    {
      assert results[i..][0] == results[i] && results[i..][1..] == results[i + 1..];
      var event := results[i].document;
      var p := Deserialize(ser, event, None);
      if p.Failure? {
        return Some(CodecFailed(p.error));
      }
      var merged := merge(offset, results[i].changeVector);
      var envelope := Envelope(VectorOffset(merged), event, p.value);
      error := channel.Write(envelope);
      if error.Some? {
        return;
      }
      ResumeStep(written, envelope, MergeOver(ser, results[i + 1..], offset, merge, open));
      written := written + [envelope];
      i := i + 1;
    }
    error := None;
  }

  /** The stream loop of a persistence-ids pass: write each id, then move the offset. */
  method StreamIds(channel: Channel<string>, results: seq<StreamResult<UniqueActorDoc>>, offset: ChangeVectorOffset)
    returns (error: Option<QueryError>, position: ChangeVectorOffset)
    modifies channel
    ensures var pass := IdsOver(results, offset, old(channel.completion).Open?);
            && channel.items == old(channel.items) + pass.emitted
            && position == pass.position
            && error == pass.error
            && channel.completion == old(channel.completion)
  {
    ghost var open := channel.completion.Open?;
    ghost var whole := IdsOver(results, offset, open);
    ghost var written := [];
    position := offset;
    var i := 0;
    while i < |results|
      invariant 0 <= i <= |results|
      invariant channel.completion == old(channel.completion)
      invariant channel.items == old(channel.items) + written
      invariant whole == Resume(written, IdsOver(results[i..], position, open))
    {
      IdsAt(results, i, position, open);
      var id := results[i].document.persistenceId;
      error := channel.Write(id);
      if error.Some? {
        return;
      }
      var next := Create(results[i].changeVector);
      if next.Failure? {
        return Some(ChangeVectorFailed(next.error)), position;
      }
      ResumeStep(written, id, IdsOver(results[i + 1..], next.value, open));
      written := written + [id];
      position := next.value;
      i := i + 1;
    }
    error := None;
  }

  class EventsByPersistenceId {
    const db: DocumentStore
    const ser: Serialization
    const channel: Channel<EventEnvelope>
    const persistenceId: string
    var fromSequenceNr: int64
    const toSequenceNr: int64

    /** The cursor starts one below `from`, with C#'s unchecked wrap-around. */
    constructor (persistenceId: string, fromSequenceNr: int64, toSequenceNr: int64, channel: Channel<EventEnvelope>,
                 db: DocumentStore, ser: Serialization)
      ensures this.persistenceId == persistenceId && this.toSequenceNr == toSequenceNr
      ensures this.fromSequenceNr == Decrement(fromSequenceNr)
      ensures this.channel == channel && this.db == db && this.ser == ser
    {
      this.persistenceId := persistenceId;
      this.fromSequenceNr := Decrement(fromSequenceNr);
      this.toSequenceNr := toSequenceNr;
      this.channel := channel;
      this.db := db;
      this.ser := ser;
    }

    /**
     * One pass: stream the entity's events after the cursor's id, write each
     * up to `to` and move the cursor to it; then complete the channel once
     * the cursor has reached `to`.
     */
    method Query() returns (error: Option<QueryError>)
      modifies this, channel
      ensures var pass := ByIdOver(ser, ByIdDocs(db.collections, db.events, persistenceId, old(fromSequenceNr)),
                                   old(fromSequenceNr), toSequenceNr, old(channel.completion).Open?);
              && channel.items == old(channel.items) + pass.emitted
              && fromSequenceNr == pass.position
              && error == pass.error
              && channel.completion == (if error.None? && fromSequenceNr >= toSequenceNr && old(channel.completion).Open?
                                        then Completed else old(channel.completion))
    {
      var c := db.collections;
      var keys := Stream(db.events, GetEventPrefix(c, persistenceId), Some(GetSequenceId(c, persistenceId, fromSequenceNr)));
      var docs := DocsAt(db.events, keys);
      error, fromSequenceNr := StreamById(ser, channel, docs, fromSequenceNr, toSequenceNr);
      if error.Some? {
        return;
      }
      if fromSequenceNr >= toSequenceNr {
        var _ := channel.TryComplete(Completed);
      }
    }
  }

  class EventsByTag {
    const db: DocumentStore
    const ser: Serialization
    const channel: Channel<EventEnvelope>
    const tag: string
    var offset: ChangeVectorOffset

    constructor (tag: string, offset: ChangeVectorOffset, db: DocumentStore, ser: Serialization, channel: Channel<EventEnvelope>)
      ensures this.tag == tag && this.offset == offset
      ensures this.channel == channel && this.db == db && this.ser == ser
    {
      this.tag := tag;
      this.offset := offset;
      this.db := db;
      this.ser := ser;
      this.channel := channel;
    }

    /**
     * One pass: stream the tagged events past the offset; for each, replace
     * the offset by the event's change vector and write the envelope
     * carrying it.
     */
    method Query() returns (error: Option<QueryError>)
      modifies this, channel
      ensures var pass := ByTagOver(ser, EventAnswer(db.events, Some(tag), old(offset)), old(offset), old(channel.completion).Open?);
              && channel.items == old(channel.items) + pass.emitted
              && offset == pass.position
              && error == pass.error
              && channel.completion == old(channel.completion)
    {
      var q := OffsetQuery(Some(tag), offset);
      var results := StreamQuery(db.events, EventTags, q);
      error, offset := StreamByTag(ser, channel, results, offset);
    }
  }

  class AllEvents {
    const db: DocumentStore
    const ser: Serialization
    const channel: Channel<EventEnvelope>
    var offset: ChangeVectorOffset
    /** `ChangeVectorOffset.Merge`, which is not part of this model. */
    const merge: (ChangeVectorOffset, ChangeVector) -> ChangeVectorOffset

    constructor (db: DocumentStore, ser: Serialization, channel: Channel<EventEnvelope>, offset: ChangeVectorOffset,
                 merge: (ChangeVectorOffset, ChangeVector) -> ChangeVectorOffset)
      ensures this.offset == offset && this.merge == merge
      ensures this.channel == channel && this.db == db && this.ser == ser
    {
      this.db := db;
      this.ser := ser;
      this.channel := channel;
      this.offset := offset;
      this.merge := merge;
    }

    /**
     * One pass: stream every event past the offset and write each with the
     * offset merged with its change vector. The offset itself is left as it
     * was, so every pass starts from the same lower bound.
     */
    method Query() returns (error: Option<QueryError>)
      modifies channel
      ensures var pass := MergeOver(ser, EventAnswer(db.events, None, offset), offset, merge, old(channel.completion).Open?);
              && channel.items == old(channel.items) + pass.emitted
              && error == pass.error
              && channel.completion == old(channel.completion)
    {
      var q := OffsetQuery(None, offset);
      var results := StreamQuery(db.events, EventTags, q);
      error := StreamMerged(ser, channel, results, offset, merge);
    }
  }

  class PersistenceIds {
    const db: DocumentStore
    const channel: Channel<string>
    var offset: ChangeVectorOffset

    /** The query starts from the offset of the empty change vector: no lower bound. */
    constructor (db: DocumentStore, channel: Channel<string>)
      ensures offset == EmptyChangeVectorOffset && offset.elements == []
      ensures this.channel == channel && this.db == db
    {
      this.db := db;
      this.channel := channel;
      var start := Create("");
      EmptyOffset();
      offset := start.value;
    }

    /**
     * One pass: stream the actor markers past the offset; write each
     * marker's entity id, then take its change vector as the offset.
     */
    method Query() returns (error: Option<QueryError>)
      modifies this, channel
      ensures var pass := IdsOver(ActorAnswer(db.actors, old(offset)), old(offset), old(channel.completion).Open?);
              && channel.items == old(channel.items) + pass.emitted
              && offset == pass.position
              && error == pass.error
              && channel.completion == old(channel.completion)
    {
      var q := OffsetQuery(None, offset);
      var results := StreamQuery(db.actors, NoTags, q);
      error, offset := StreamIds(channel, results, offset);
    }
  }
}
