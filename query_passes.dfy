/**
 * One pass of each read-side query, as a value: the items a pass writes to
 * its channel, the cursor or offset it leaves behind, and the exception that
 * cut it short, if any. The continuous queries and the `Current*` queries
 * of the read journal are proved against these.
 */
module QueryPasses {
  import opened Wrappers
  import opened StorageFormat
  import opened KeyOrder
  import opened EventCodec
  import opened RavenDbPersistence
  import opened Database
  import opened JournalSpec
  import opened ChangeVectorAnalyzer
  import opened ChangeVectorOffsets
  import opened QueryTypes
  import opened IndexQueries

  /** What a pass wrote, the position it left, and the exception that ended it early. */
  datatype QueryPass<T, P> = QueryPass(emitted: seq<T>, position: P, error: Option<QueryError>)

  function Prepend<T, P>(x: T, r: QueryPass<T, P>): QueryPass<T, P> {
    r.(emitted := [x] + r.emitted)
  }

  /** A pass resumed after `written` was already written. */
  function Resume<T, P>(written: seq<T>, r: QueryPass<T, P>): QueryPass<T, P> {
    r.(emitted := written + r.emitted)
  }

  lemma ResumeStep<T, P>(written: seq<T>, x: T, r: QueryPass<T, P>)
    ensures Resume(written, Prepend(x, r)) == Resume(written + [x], r)
  {
    assert written + ([x] + r.emitted) == (written + [x]) + r.emitted;
  }

  // ---- by persistence id ------------------------------------------------------

  /** The envelope of a by-id pass: the event's own timestamp is its `Sequence` offset. */
  function ByIdEnvelope(e: Event, p: Persistent): EventEnvelope {
    Envelope(Sequence(e.timestamp), e, p)
  }

  /**
   * The stream loop of a by-id pass over the entity's documents: stop at the
   * first sequence number above `to`; deserialize, write, and move the cursor
   * to the written event.
   */
  function ByIdOver(ser: Serialization, docs: seq<Event>, cursor: int64, toSequenceNr: int64, open: bool)
    : QueryPass<EventEnvelope, int64>
    decreases |docs|
  {
    if docs == [] || docs[0].sequenceNr > toSequenceNr then QueryPass([], cursor, None)
    else
      match Deserialize(ser, docs[0], None)
      case Failure(e) => QueryPass([], cursor, Some(CodecFailed(e)))
      case Success(p) =>
        if !open then QueryPass([], cursor, Some(ChannelClosed))
        else Prepend(ByIdEnvelope(docs[0], p), ByIdOver(ser, docs[1..], docs[0].sequenceNr, toSequenceNr, open))
  }

  /** The entity's documents a by-id pass streams: those after the id of `cursor`. */
  ghost function ByIdDocs(c: Collections, events: map<string, Stored<Event>>, pid: string, cursor: int64): seq<Event> {
    DocsAt(events, Scan(events, GetEventPrefix(c, pid), Some(GetSequenceId(c, pid, cursor))))
  }

  /**
   * A by-id pass writes a leading run of the documents, each as the envelope
   * of its deserialized event, all at or below `to`. Without an exception it
   * stops only at the end or at a document above `to`, and leaves the cursor
   * at the last written event (or where it was).
   */
  lemma {:induction false} ByIdWrites(ser: Serialization, docs: seq<Event>, cursor: int64, toSequenceNr: int64, open: bool)
    ensures var r := ByIdOver(ser, docs, cursor, toSequenceNr, open);
            && |r.emitted| <= |docs|
            && (forall i :: 0 <= i < |r.emitted| ==>
                  && docs[i].sequenceNr <= toSequenceNr
                  && Deserialize(ser, docs[i], None).Success?
                  && r.emitted[i] == ByIdEnvelope(docs[i], Deserialize(ser, docs[i], None).value))
            && (r.error.None? ==> |r.emitted| == |docs| || docs[|r.emitted|].sequenceNr > toSequenceNr)
            && r.position == (if r.emitted == [] then cursor else docs[|r.emitted| - 1].sequenceNr)
            && (!open ==> r.emitted == [])
    decreases |docs|
  {
    if docs != [] && docs[0].sequenceNr <= toSequenceNr && Deserialize(ser, docs[0], None).Success? && open {
      ByIdWrites(ser, docs[1..], docs[0].sequenceNr, toSequenceNr, open);
    }
  }

  /**
   * Over a store whose events sit under their own ids, the documents a by-id
   * pass streams are the entity's, above the cursor, in strictly ascending
   * sequence order.
   */
  lemma ByIdDocsAscend(c: Collections, events: map<string, Stored<Event>>, pid: string, cursor: int64)
    requires WellKeyed(c, events) && SlashFreeIds(events) && '/' !in pid
    ensures var docs := ByIdDocs(c, events, pid, cursor);
            && (forall i :: 0 <= i < |docs| ==> docs[i].persistenceId == pid && cursor < docs[i].sequenceNr)
            && (forall i, j :: 0 <= i < j < |docs| ==> docs[i].sequenceNr < docs[j].sequenceNr)
  {
    var keys := Scan(events, GetEventPrefix(c, pid), Some(GetSequenceId(c, pid, cursor)));
    var docs := ByIdDocs(c, events, pid, cursor);
    ScanAfterCovers(c, events, pid, cursor);
    WellKeyedAscending(c, events, pid);
    forall i | 0 <= i < |docs|
      ensures docs[i].persistenceId == pid && cursor < docs[i].sequenceNr
    {
      assert keys[i] in keys && docs[i] == events[keys[i]].doc;
    }
    forall i, j | 0 <= i < j < |docs|
      ensures docs[i].sequenceNr < docs[j].sequenceNr
    {
      assert keys[i] in keys && docs[i] == events[keys[i]].doc;
      assert keys[j] in keys && docs[j] == events[keys[j]].doc;
    }
  }

  /**
   * Over a store whose events sit under their own ids, a by-id pass writes
   * only the entity's events, in strictly ascending order, each above the
   * cursor and at or below `to`; the cursor never moves back.
   */
  lemma ByIdAdvances(c: Collections, ser: Serialization, events: map<string, Stored<Event>>, pid: string,
                     cursor: int64, toSequenceNr: int64, open: bool)
    requires WellKeyed(c, events) && SlashFreeIds(events) && '/' !in pid
    ensures var r := ByIdOver(ser, ByIdDocs(c, events, pid, cursor), cursor, toSequenceNr, open);
            && (forall i :: 0 <= i < |r.emitted| ==>
                  r.emitted[i].persistenceId == pid && cursor < r.emitted[i].sequenceNr <= toSequenceNr)
            && (forall i, j :: 0 <= i < j < |r.emitted| ==> r.emitted[i].sequenceNr < r.emitted[j].sequenceNr)
            && cursor <= r.position
            && (r.emitted != [] ==> r.position == r.emitted[|r.emitted| - 1].sequenceNr)
  {
    var docs := ByIdDocs(c, events, pid, cursor);
    ByIdWrites(ser, docs, cursor, toSequenceNr, open);
    ByIdDocsAscend(c, events, pid, cursor);
  }

  /**
   * Successive passes never write the same event twice: whatever the store
   * gained in between, every event of the second pass lies above every event
   * of the first.
   */
  lemma ByIdNoRepeats(c: Collections, ser: Serialization, events1: map<string, Stored<Event>>,
                      events2: map<string, Stored<Event>>, pid: string, cursor: int64, toSequenceNr: int64, open: bool)
    requires WellKeyed(c, events1) && SlashFreeIds(events1)
    requires WellKeyed(c, events2) && SlashFreeIds(events2)
    requires '/' !in pid
    ensures var first := ByIdOver(ser, ByIdDocs(c, events1, pid, cursor), cursor, toSequenceNr, open);
            var second := ByIdOver(ser, ByIdDocs(c, events2, pid, first.position), first.position, toSequenceNr, open);
            forall i, j :: 0 <= i < |first.emitted| && 0 <= j < |second.emitted| ==>
              first.emitted[i].sequenceNr < second.emitted[j].sequenceNr
  {
    var first := ByIdOver(ser, ByIdDocs(c, events1, pid, cursor), cursor, toSequenceNr, open);
    ByIdAdvances(c, ser, events1, pid, cursor, toSequenceNr, open);
    ByIdAdvances(c, ser, events2, pid, first.position, toSequenceNr, open);
    forall i | 0 <= i < |first.emitted| ensures first.emitted[i].sequenceNr <= first.position {
      if i < |first.emitted| - 1 {
        assert first.emitted[i].sequenceNr < first.emitted[|first.emitted| - 1].sequenceNr;
      }
    }
  }

  /**
   * Once the cursor has reached `to`, a pass writes nothing and raises
   * nothing: a completed query stays quiet however it is re-run.
   */
  lemma ByIdDoneStaysQuiet(c: Collections, ser: Serialization, events: map<string, Stored<Event>>, pid: string,
                           cursor: int64, toSequenceNr: int64, open: bool)
    requires WellKeyed(c, events) && SlashFreeIds(events) && '/' !in pid
    requires cursor >= toSequenceNr
    ensures ByIdOver(ser, ByIdDocs(c, events, pid, cursor), cursor, toSequenceNr, open) == QueryPass([], cursor, None)
  {
    var docs := ByIdDocs(c, events, pid, cursor);
    var keys := Scan(events, GetEventPrefix(c, pid), Some(GetSequenceId(c, pid, cursor)));
    if docs != [] {
      ScanAfterCovers(c, events, pid, cursor);
      assert keys[0] in keys && docs[0] == events[keys[0]].doc;
    }
  }

  /**
   * Over ascending documents, a by-id pass that raised nothing wrote every
   * document at or below `to`.
   */
  lemma ByIdWritesUpTo(ser: Serialization, docs: seq<Event>, cursor: int64, toSequenceNr: int64, open: bool, j: nat)
    requires forall i, j :: 0 <= i < j < |docs| ==> docs[i].sequenceNr < docs[j].sequenceNr
    requires ByIdOver(ser, docs, cursor, toSequenceNr, open).error.None?
    requires j < |docs| && docs[j].sequenceNr <= toSequenceNr
    ensures var r := ByIdOver(ser, docs, cursor, toSequenceNr, open);
            j < |r.emitted| && r.emitted[j].sequenceNr == docs[j].sequenceNr
  {
    ByIdWrites(ser, docs, cursor, toSequenceNr, open);
  }

  /**
   * A by-id pass that raised nothing wrote every event of the entity above
   * the cursor and at or below `to`.
   */
  lemma ByIdComplete(c: Collections, ser: Serialization, events: map<string, Stored<Event>>, pid: string,
                     cursor: int64, toSequenceNr: int64, open: bool, k: string)
    requires WellKeyed(c, events) && SlashFreeIds(events) && '/' !in pid
    requires ByIdOver(ser, ByIdDocs(c, events, pid, cursor), cursor, toSequenceNr, open).error.None?
    requires k in events && events[k].doc.persistenceId == pid
    requires Clamp(events[k].doc.sequenceNr) > Clamp(cursor) && events[k].doc.sequenceNr <= toSequenceNr
    ensures var r := ByIdOver(ser, ByIdDocs(c, events, pid, cursor), cursor, toSequenceNr, open);
            exists i :: 0 <= i < |r.emitted| && r.emitted[i].sequenceNr == events[k].doc.sequenceNr
  {
    var keys := Scan(events, GetEventPrefix(c, pid), Some(GetSequenceId(c, pid, cursor)));
    var docs := ByIdDocs(c, events, pid, cursor);
    ScanAfterCovers(c, events, pid, cursor);
    assert k in keys;
    var j :| 0 <= j < |keys| && keys[j] == k;
    assert docs[j] == events[k].doc;
    ByIdDocsAscend(c, events, pid, cursor);
    ByIdWritesUpTo(ser, docs, cursor, toSequenceNr, open, j);
  }

  // ---- by tag, and over all events ------------------------------------------

  /** The tags the event index holds for an event. */
  function EventTags(e: Event): Option<seq<string>> {
    e.tags
  }

  /** The actor index holds no tags. */
  function NoTags(a: UniqueActorDoc): Option<seq<string>> {
    None
  }

  /** What the event index returns for a tag (or for every event) past an offset. */
  ghost function EventAnswer(events: map<string, Stored<Event>>, tag: Option<string>, offset: ChangeVectorOffset)
    : seq<StreamResult<Event>>
  {
    Answer(events, EventTags, IndexQuery(tag, OffsetClauses(offset.elements)))
  }

  /**
   * A result is in the event index's answer exactly when it is a stored
   * event, carries the tag (when there is one), and has some change-vector
   * element above the offset's etag for the same database.
   */
  lemma EventAnswerMembers(events: map<string, Stored<Event>>, tag: Option<string>, offset: ChangeVectorOffset,
                           x: StreamResult<Event>)
    ensures x in EventAnswer(events, tag, offset) <==>
      && x.id in events && x == ResultAt(events, x.id)
      && (tag.Some? ==> x.document.tags.Some? && tag.value in x.document.tags.value)
      && PastOffset(IndexFields(x.changeVector), offset.elements)
  {
    AnswerMembers(events, EventTags, IndexQuery(tag, OffsetClauses(offset.elements)), x);
    OffsetMeaning(IndexFields(x.changeVector), offset.elements);
  }

  /**
   * The stream loop of an events-by-tag pass: deserialize, take the result's
   * change vector as the new offset, write the envelope carrying it.
   */
  function ByTagOver(ser: Serialization, results: seq<StreamResult<Event>>, offset: ChangeVectorOffset, open: bool)
    : QueryPass<EventEnvelope, ChangeVectorOffset>
    decreases |results|
  {
    if results == [] then QueryPass([], offset, None)
    else
      match Deserialize(ser, results[0].document, None)
      case Failure(e) => QueryPass([], offset, Some(CodecFailed(e)))
      case Success(p) =>
        match Create(results[0].changeVector)
        case Failure(e) => QueryPass([], offset, Some(ChangeVectorFailed(e)))
        case Success(next) =>
          if !open then QueryPass([], next, Some(ChannelClosed))
          else Prepend(Envelope(VectorOffset(next), results[0].document, p), ByTagOver(ser, results[1..], next, open))
  }

  /** One step of a by-tag pass from position `i`, in each of its cases. */
  lemma ByTagAt(ser: Serialization, results: seq<StreamResult<Event>>, i: nat, offset: ChangeVectorOffset, open: bool)
    requires i < |results|
    ensures var p := Deserialize(ser, results[i].document, None);
            var next := Create(results[i].changeVector);
            ByTagOver(ser, results[i..], offset, open) ==
              if p.Failure? then QueryPass([], offset, Some(CodecFailed(p.error)))
              else if next.Failure? then QueryPass([], offset, Some(ChangeVectorFailed(next.error)))
              else if !open then QueryPass([], next.value, Some(ChannelClosed))
              else Prepend(Envelope(VectorOffset(next.value), results[i].document, p.value),
                           ByTagOver(ser, results[i + 1..], next.value, open))
  {
    assert results[i..][0] == results[i] && results[i..][1..] == results[i + 1..];
  }

  /**
   * An events-by-tag pass writes a leading run of the results, each with its
   * own change vector as offset; it writes them all when it raises nothing,
   * and the offset it leaves is that of the last result written — replaced,
   * never merged.
   */
  lemma {:induction false} ByTagWrites(ser: Serialization, results: seq<StreamResult<Event>>, offset: ChangeVectorOffset, open: bool)
    ensures var r := ByTagOver(ser, results, offset, open);
            && |r.emitted| <= |results|
            && (forall i :: 0 <= i < |r.emitted| ==>
                  && Deserialize(ser, results[i].document, None).Success?
                  && Create(results[i].changeVector).Success?
                  && r.emitted[i] == Envelope(VectorOffset(Create(results[i].changeVector).value), results[i].document,
                                              Deserialize(ser, results[i].document, None).value))
            && (r.error.None? ==> (|r.emitted| == |results| && open) || results == [])
            && (r.error.None? ==> r.position == (if results == [] then offset
                                                 else Create(results[|results| - 1].changeVector).value))
            && (r.error.None? && r.emitted != [] ==> r.emitted[|r.emitted| - 1].offset == VectorOffset(r.position))
  {
    ByTagEmitted(ser, results, offset, open);
    ByTagSettles(ser, results, offset, open);
  }

  /** `e` is the envelope an events-by-tag pass writes for result `x`: its event, offset at its own change vector. */
  predicate EnvelopeFor(ser: Serialization, x: StreamResult<Event>, e: EventEnvelope) {
    && Deserialize(ser, x.document, None).Success?
    && Create(x.changeVector).Success?
    && e == Envelope(VectorOffset(Create(x.changeVector).value), x.document, Deserialize(ser, x.document, None).value)
  }

  /** The envelopes an events-by-tag pass writes, one per leading result. */
  lemma {:induction false} ByTagEmitted(ser: Serialization, results: seq<StreamResult<Event>>, offset: ChangeVectorOffset, open: bool)
    ensures var r := ByTagOver(ser, results, offset, open);
            && |r.emitted| <= |results|
            && (forall i :: 0 <= i < |r.emitted| ==> EnvelopeFor(ser, results[i], r.emitted[i]))
    decreases |results|
  {
    if results != [] && Deserialize(ser, results[0].document, None).Success?
       && Create(results[0].changeVector).Success? && open {
      var next := Create(results[0].changeVector).value;
      var head := Envelope(VectorOffset(next), results[0].document, Deserialize(ser, results[0].document, None).value);
      ByTagEmitted(ser, results[1..], next, open);
      var tail := ByTagOver(ser, results[1..], next, open);
      var r := ByTagOver(ser, results, offset, open);
      assert r.emitted == [head] + tail.emitted;
      assert EnvelopeFor(ser, results[0], head);
      forall i | 0 < i < |r.emitted|
        ensures EnvelopeFor(ser, results[i], r.emitted[i])
      {
        assert results[i] == results[1..][i - 1] && r.emitted[i] == tail.emitted[i - 1];
      }
    }
  }

  /** An events-by-tag pass that raises nothing writes every result and ends at the last one's change vector. */
  lemma {:induction false} ByTagSettles(ser: Serialization, results: seq<StreamResult<Event>>, offset: ChangeVectorOffset, open: bool)
    ensures var r := ByTagOver(ser, results, offset, open);
            && (r.error.None? ==> (|r.emitted| == |results| && open) || results == [])
            && (r.error.None? ==> forall i :: 0 <= i < |results| ==> Create(results[i].changeVector).Success?)
            && (r.error.None? ==> r.position == (if results == [] then offset
                                                 else Create(results[|results| - 1].changeVector).value))
    decreases |results|
  {
    if results != [] && Deserialize(ser, results[0].document, None).Success?
       && Create(results[0].changeVector).Success? && open {
      ByTagSettles(ser, results[1..], Create(results[0].changeVector).value, open);
    }
  }

  /**
   * Every envelope an events-by-tag pass writes is that of a stored event
   * carrying the tag (when there is one), past the starting offset, and has
   * that event's own change vector as its offset.
   */
  lemma ByTagEmitsAdmitted(ser: Serialization, events: map<string, Stored<Event>>, tag: Option<string>,
                           offset: ChangeVectorOffset, open: bool, i: nat)
    requires i < |EventAnswer(events, tag, offset)|
    requires i < |ByTagOver(ser, EventAnswer(events, tag, offset), offset, open).emitted|
    ensures var x := EventAnswer(events, tag, offset)[i];
            var envelope := ByTagOver(ser, EventAnswer(events, tag, offset), offset, open).emitted[i];
            && x.id in events
            && envelope.persistenceId == events[x.id].doc.persistenceId
            && envelope.sequenceNr == events[x.id].doc.sequenceNr
            && (tag.Some? ==> envelope.tags.Some? && tag.value in envelope.tags.value)
            && PastOffset(IndexFields(events[x.id].changeVector), offset.elements)
            && Create(events[x.id].changeVector).Success?
            && envelope.offset == VectorOffset(Create(events[x.id].changeVector).value)
  {
    var results := EventAnswer(events, tag, offset);
    ByTagWrites(ser, results, offset, open);
    assert results[i] in results;
    EventAnswerMembers(events, tag, offset, results[i]);
  }

  /**
   * An events-by-tag pass that raised nothing wrote every stored event that
   * carries the tag (when there is one) and lies past the starting offset.
   */
  lemma ByTagEmitsAll(ser: Serialization, events: map<string, Stored<Event>>, tag: Option<string>,
                      offset: ChangeVectorOffset, open: bool, k: string)
    requires ByTagOver(ser, EventAnswer(events, tag, offset), offset, open).error.None?
    requires k in events
    requires tag.Some? ==> events[k].doc.tags.Some? && tag.value in events[k].doc.tags.value
    requires PastOffset(IndexFields(events[k].changeVector), offset.elements)
    ensures var r := ByTagOver(ser, EventAnswer(events, tag, offset), offset, open);
            exists i :: 0 <= i < |r.emitted| && r.emitted[i].persistenceId == events[k].doc.persistenceId
                                            && r.emitted[i].sequenceNr == events[k].doc.sequenceNr
  {
    var results := EventAnswer(events, tag, offset);
    var x := ResultAt(events, k);
    EventAnswerMembers(events, tag, offset, x);
    var i :| 0 <= i < |results| && results[i] == x;
    var r := ByTagOver(ser, results, offset, open);
    ByTagWrites(ser, results, offset, open);
    assert i < |r.emitted|;
    assert r.emitted[i].persistenceId == x.document.persistenceId;
  }

  /**
   * The stream loop of an all-events pass: every envelope's offset is the
   * pass's offset merged with the result's change vector, and the pass's
   * offset itself stays as it was.
   */
  function MergeOver(ser: Serialization, results: seq<StreamResult<Event>>, offset: ChangeVectorOffset,
                     merge: (ChangeVectorOffset, ChangeVector) -> ChangeVectorOffset, open: bool)
    : QueryPass<EventEnvelope, ChangeVectorOffset>
    decreases |results|
  {
    if results == [] then QueryPass([], offset, None)
    else
      match Deserialize(ser, results[0].document, None)
      case Failure(e) => QueryPass([], offset, Some(CodecFailed(e)))
      case Success(p) =>
        var merged := merge(offset, results[0].changeVector);
        if !open then QueryPass([], offset, Some(ChannelClosed))
        else Prepend(Envelope(VectorOffset(merged), results[0].document, p), MergeOver(ser, results[1..], offset, merge, open))
  }

  /**
   * An all-events pass writes a leading run of the results, each with the
   * merged offset, all of them when it raises nothing; it never moves the
   * offset, so the next pass starts from the same lower bound.
   */
  lemma {:induction false} MergeWrites(ser: Serialization, results: seq<StreamResult<Event>>, offset: ChangeVectorOffset,
                                       merge: (ChangeVectorOffset, ChangeVector) -> ChangeVectorOffset, open: bool)
    ensures var r := MergeOver(ser, results, offset, merge, open);
            && r.position == offset
            && |r.emitted| <= |results|
            && (forall i :: 0 <= i < |r.emitted| ==>
                  && Deserialize(ser, results[i].document, None).Success?
                  && r.emitted[i] == Envelope(VectorOffset(merge(offset, results[i].changeVector)), results[i].document,
                                              Deserialize(ser, results[i].document, None).value))
            && (r.error.None? ==> |r.emitted| == |results|)
            && (r.error == Some(ChannelClosed) ==> !open)
    decreases |results|
  {
    if results != [] && Deserialize(ser, results[0].document, None).Success? && open {
      MergeWrites(ser, results[1..], offset, merge, open);
    }
  }

  // ---- persistence ids --------------------------------------------------------

  /** What the actor index returns past an offset. */
  ghost function ActorAnswer(actors: map<string, Stored<UniqueActorDoc>>, offset: ChangeVectorOffset)
    : seq<StreamResult<UniqueActorDoc>>
  {
    Answer(actors, NoTags, IndexQuery(None, OffsetClauses(offset.elements)))
  }

  /** A marker is in the actor index's answer exactly when it is stored and lies past the offset. */
  lemma ActorAnswerMembers(actors: map<string, Stored<UniqueActorDoc>>, offset: ChangeVectorOffset,
                           x: StreamResult<UniqueActorDoc>)
    ensures x in ActorAnswer(actors, offset) <==>
      x.id in actors && x == ResultAt(actors, x.id) && PastOffset(IndexFields(x.changeVector), offset.elements)
  {
    AnswerMembers(actors, NoTags, IndexQuery(None, OffsetClauses(offset.elements)), x);
    OffsetMeaning(IndexFields(x.changeVector), offset.elements);
  }

  /** Every stored marker: what a plain query over the collection returns. */
  ghost function AllMarkers(actors: map<string, Stored<UniqueActorDoc>>): seq<StreamResult<UniqueActorDoc>> {
    Answer(actors, NoTags, IndexQuery(None, []))
  }

  /** The entity ids the markers name, in order. */
  function MarkerIds(results: seq<StreamResult<UniqueActorDoc>>): (ids: seq<string>)
    ensures |ids| == |results|
  {
    seq(|results|, i requires 0 <= i < |results| => results[i].document.persistenceId)
  }

  /** The ids of all markers are exactly the entity ids some stored marker names. */
  lemma AllMarkerIds(actors: map<string, Stored<UniqueActorDoc>>, id: string)
    ensures id in MarkerIds(AllMarkers(actors)) <==> exists k :: k in actors && actors[k].doc.persistenceId == id
  {
    var all := AllMarkers(actors);
    var ids := MarkerIds(all);
    if id in ids {
      var i :| 0 <= i < |ids| && ids[i] == id;
      assert all[i] in all;
      AnswerMembers(actors, NoTags, IndexQuery(None, []), all[i]);
    }
    if k :| k in actors && actors[k].doc.persistenceId == id {
      var x := ResultAt(actors, k);
      AnswerMembers(actors, NoTags, IndexQuery(None, []), x);
      var i :| 0 <= i < |all| && all[i] == x;
      assert ids[i] == id;
    }
  }

  /** The offset a persistence-ids query starts from: that of the empty change vector. */
  const EmptyChangeVectorOffset: ChangeVectorOffset := ChangeVectorOffset("", [])

  /** Starting from the empty change vector, the actor index returns every stored marker. */
  lemma PersistenceIdsStartUnbounded(actors: map<string, Stored<UniqueActorDoc>>, x: StreamResult<UniqueActorDoc>)
    ensures Create("") == Success(EmptyChangeVectorOffset)
    ensures x in ActorAnswer(actors, EmptyChangeVectorOffset) <==> x.id in actors && x == ResultAt(actors, x.id)
  {
    EmptyOffset();
    ActorAnswerMembers(actors, EmptyChangeVectorOffset, x);
  }

  /**
   * The stream loop of a persistence-ids pass: write the marker's entity id,
   * then take the marker's change vector as the new offset.
   */
  function IdsOver(results: seq<StreamResult<UniqueActorDoc>>, offset: ChangeVectorOffset, open: bool)
    : QueryPass<string, ChangeVectorOffset>
    decreases |results|
  {
    if results == [] then QueryPass([], offset, None)
    else if !open then QueryPass([], offset, Some(ChannelClosed))
    else
      match Create(results[0].changeVector)
      case Failure(e) => QueryPass([results[0].document.persistenceId], offset, Some(ChangeVectorFailed(e)))
      case Success(next) => Prepend(results[0].document.persistenceId, IdsOver(results[1..], next, open))
  }

  /** One step of a persistence-ids pass, read at position `i` of the results. */
  lemma IdsAt(results: seq<StreamResult<UniqueActorDoc>>, i: nat, offset: ChangeVectorOffset, open: bool)
    requires i < |results|
    ensures var next := Create(results[i].changeVector);
            var id := results[i].document.persistenceId;
            IdsOver(results[i..], offset, open) ==
              if !open then QueryPass([], offset, Some(ChannelClosed))
              else if next.Failure? then QueryPass([id], offset, Some(ChangeVectorFailed(next.error)))
              else Prepend(id, IdsOver(results[i + 1..], next.value, open))
  {
    assert results[i..][0] == results[i] && results[i..][1..] == results[i + 1..];
  }

  /**
   * A persistence-ids pass writes the results' entity ids in stream order,
   * all of them when it raises nothing, and leaves the offset at the change
   * vector of the last one.
   */
  lemma IdsWrites(results: seq<StreamResult<UniqueActorDoc>>, offset: ChangeVectorOffset, open: bool)
    ensures var r := IdsOver(results, offset, open);
            && |r.emitted| <= |results|
            && (forall i :: 0 <= i < |r.emitted| ==> r.emitted[i] == results[i].document.persistenceId)
            && (r.error.None? ==> |r.emitted| == |results| && (results == [] || open))
            && (r.error.None? ==> forall i :: 0 <= i < |results| ==> Create(results[i].changeVector).Success?)
            && (r.error.None? ==> r.position == (if results == [] then offset
                                                 else Create(results[|results| - 1].changeVector).value))
  {
    IdsEmitted(results, offset, open);
    IdsSettles(results, offset, open);
  }

  /** The ids a persistence-ids pass writes: those of a leading run of the results, in order. */
  lemma {:induction false} IdsEmitted(results: seq<StreamResult<UniqueActorDoc>>, offset: ChangeVectorOffset, open: bool)
    ensures var r := IdsOver(results, offset, open);
            && |r.emitted| <= |results|
            && (forall i :: 0 <= i < |r.emitted| ==> r.emitted[i] == results[i].document.persistenceId)
    decreases |results|
  {
    if results != [] && open && Create(results[0].changeVector).Success? {
      IdsEmitted(results[1..], Create(results[0].changeVector).value, open);
    }
  }

  /** A persistence-ids pass that raises nothing writes every result and ends at the last one's change vector. */
  lemma {:induction false} IdsSettles(results: seq<StreamResult<UniqueActorDoc>>, offset: ChangeVectorOffset, open: bool)
    ensures var r := IdsOver(results, offset, open);
            && (r.error.None? ==> |r.emitted| == |results| && (results == [] || open))
            && (r.error.None? ==> forall i :: 0 <= i < |results| ==> Create(results[i].changeVector).Success?)
            && (r.error.None? ==> r.position == (if results == [] then offset
                                                 else Create(results[|results| - 1].changeVector).value))
    decreases |results|
  {
    if results != [] && open && Create(results[0].changeVector).Success? {
      var next := Create(results[0].changeVector).value;
      IdsSettles(results[1..], next, open);
      assert IdsOver(results, offset, open) == Prepend(results[0].document.persistenceId, IdsOver(results[1..], next, open));
      if |results| > 1 {
        assert results[|results| - 1] == results[1..][|results| - 2];
      }
    }
    if IdsOver(results, offset, open).error.None? {
      IdsParsed(results, offset, open);
    }
  }

  /** A persistence-ids pass that raises nothing has parsed every result's change vector. */
  lemma {:induction false} IdsParsed(results: seq<StreamResult<UniqueActorDoc>>, offset: ChangeVectorOffset, open: bool)
    requires IdsOver(results, offset, open).error.None?
    ensures forall i :: 0 <= i < |results| ==> Create(results[i].changeVector).Success?
    decreases |results|
  {
    if results != [] {
      var next := Create(results[0].changeVector).value;
      IdsParsed(results[1..], next, open);
      forall i | 0 < i < |results|
        ensures Create(results[i].changeVector).Success?
      {
        assert results[i] == results[1..][i - 1];
      }
    }
  }
}
