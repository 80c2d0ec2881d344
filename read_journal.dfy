/**
 * `RavenDbReadJournal`: the continuous queries are started on a fresh
 * channel; the `Current*` queries make one pass over the store, write what
 * they find to a fresh channel and complete it, normally or with the
 * exception the pass raised.
 */
module ReadJournal {
  import opened Wrappers
  import opened StorageFormat
  import opened KeyOrder
  import opened EventCodec
  import opened RavenDbPersistence
  import opened Database
  import opened JournalSpec
  import opened ChangeVectorOffsets
  import opened QueryTypes
  import opened IndexQueries
  import opened QueryPasses
  import opened ContinuousQueries

  class RavenDbReadJournal {
    const db: DocumentStore
    const ser: Serialization

    constructor (db: DocumentStore, ser: Serialization)
      ensures this.db == db && this.ser == ser
    {
      this.db := db;
      this.ser := ser;
    }

    /** `PersistenceIds`: a continuous query over the actor markers, from no lower bound. */
    method PersistenceIds() returns (q: ContinuousQueries.PersistenceIds)
      ensures fresh(q) && fresh(q.channel)
      ensures q.db == db && q.channel.items == [] && q.channel.completion == Open
      ensures q.offset == EmptyChangeVectorOffset
    {
      var channel := new Channel<string>();
      q := new ContinuousQueries.PersistenceIds(db, channel);
    }

    /** `EventsByPersistenceId`: a continuous query whose cursor starts at `from - 1`. */
    method EventsByPersistenceId(persistenceId: string, fromSequenceNr: int64, toSequenceNr: int64)
      returns (q: ContinuousQueries.EventsByPersistenceId)
      ensures fresh(q) && fresh(q.channel)
      ensures q.db == db && q.ser == ser && q.channel.items == [] && q.channel.completion == Open
      ensures q.persistenceId == persistenceId && q.fromSequenceNr == Decrement(fromSequenceNr)
      ensures q.toSequenceNr == toSequenceNr
    {
      var channel := new Channel<EventEnvelope>();
      q := new ContinuousQueries.EventsByPersistenceId(persistenceId, fromSequenceNr, toSequenceNr, channel, db, ser);
    }

    /** `EventsByTag`: a continuous query from the given offset. */
    method EventsByTag(tag: string, offset: ChangeVectorOffset) returns (q: ContinuousQueries.EventsByTag)
      ensures fresh(q) && fresh(q.channel)
      ensures q.db == db && q.ser == ser && q.channel.items == [] && q.channel.completion == Open
      ensures q.tag == tag && q.offset == offset
    {
      var channel := new Channel<EventEnvelope>();
      q := new ContinuousQueries.EventsByTag(tag, offset, db, ser, channel);
    }

    /** `AllEvents`: a continuous query from the given offset. */
    method AllEvents(offset: ChangeVectorOffset, merge: (ChangeVectorOffset, ChangeVector) -> ChangeVectorOffset)
      returns (q: ContinuousQueries.AllEvents)
      ensures fresh(q) && fresh(q.channel)
      ensures q.db == db && q.ser == ser && q.channel.items == [] && q.channel.completion == Open
      ensures q.offset == offset && q.merge == merge
    {
      var channel := new Channel<EventEnvelope>();
      q := new ContinuousQueries.AllEvents(db, ser, channel, offset, merge);
    }

    /** `CurrentPersistenceIds`: the entity id of every stored marker, then completion. */
    method CurrentPersistenceIds() returns (channel: Channel<string>)
      ensures fresh(channel)
      ensures channel.items == MarkerIds(AllMarkers(db.actors))
      ensures channel.completion == Completed
    {
      channel := new Channel<string>();
      var results := StreamQuery(db.actors, NoTags, IndexQuery(None, []));
      var error := channel.WriteAll(MarkerIds(results));
      var _ := channel.TryComplete(Outcome(error));
    }

    /**
     * `CurrentEventsByPersistenceId`: the entity's events after the id of
     * `from - 1`, up to the first above `to`, then completion.
     */
    method CurrentEventsByPersistenceId(persistenceId: string, fromSequenceNr: int64, toSequenceNr: int64)
      returns (channel: Channel<EventEnvelope>)
      ensures fresh(channel)
      ensures var pass := ByIdOver(ser, ByIdDocs(db.collections, db.events, persistenceId, Decrement(fromSequenceNr)),
                                   Decrement(fromSequenceNr), toSequenceNr, true);
              channel.items == pass.emitted && channel.completion == Outcome(pass.error)
    {
      channel := new Channel<EventEnvelope>();
      var c := db.collections;
      var after := Decrement(fromSequenceNr);
      var keys := Stream(db.events, GetEventPrefix(c, persistenceId), Some(GetSequenceId(c, persistenceId, after)));
      var docs := DocsAt(db.events, keys);
      var error, _ := StreamById(ser, channel, docs, after, toSequenceNr);
      var _ := channel.TryComplete(Outcome(error));
    }

    /**
     * `CurrentEventsByTag`: the tagged events past the offset, each with its
     * own change vector as offset, then completion.
     */
    method CurrentEventsByTag(tag: string, offset: ChangeVectorOffset) returns (channel: Channel<EventEnvelope>)
      ensures fresh(channel)
      ensures var pass := ByTagOver(ser, EventAnswer(db.events, Some(tag), offset), offset, true);
              channel.items == pass.emitted && channel.completion == Outcome(pass.error)
    {
      channel := new Channel<EventEnvelope>();
      var q := OffsetQuery(Some(tag), offset);
      var results := StreamQuery(db.events, EventTags, q);
      var error, _ := StreamByTag(ser, channel, results, offset);
      var _ := channel.TryComplete(Outcome(error));
    }

    /** `CurrentAllEvents`: as `CurrentEventsByTag`, with no tag filter. */
    method CurrentAllEvents(offset: ChangeVectorOffset) returns (channel: Channel<EventEnvelope>)
      ensures fresh(channel)
      ensures var pass := ByTagOver(ser, EventAnswer(db.events, None, offset), offset, true);
              channel.items == pass.emitted && channel.completion == Outcome(pass.error)
    {
      channel := new Channel<EventEnvelope>();
      var q := OffsetQuery(None, offset);
      var results := StreamQuery(db.events, EventTags, q);
      var error, _ := StreamByTag(ser, channel, results, offset);
      var _ := channel.TryComplete(Outcome(error));
    }
  }
}
