/**
 * What the read side hands to its consumers: event envelopes and the
 * channels they are written to.
 */
module QueryTypes {
  import opened Wrappers
  import opened StorageFormat
  import opened ChangeVectorAnalyzer
  import opened ChangeVectorOffsets
  import opened EventCodec

  /** An envelope's offset: `Sequence(ticks)` or a change-vector offset. */
  datatype Offset = Sequence(value: int) | VectorOffset(offset: ChangeVectorOffset)

  datatype EventEnvelope = EventEnvelope(
    offset: Offset,
    persistenceId: string,
    sequenceNr: int64,
    event: Payload,
    timestamp: int,
    tags: Option<seq<string>>)

  /** The exceptions a query pass can raise. */
  datatype QueryError =
    | CodecFailed(codecError: CodecError)        // Event.Deserialize
    | ChangeVectorFailed(parseError: ParseError) // new ChangeVectorOffset(...)
    | ChannelClosed                             // WriteAsync on a completed channel

  datatype Completion = Open | Completed | Faulted(error: QueryError)

  /** How a one-shot query completes its channel: normally, or with the exception it caught. */
  function Outcome(error: Option<QueryError>): (c: Completion)
    ensures !c.Open?
    ensures c.Completed? <==> error.None?
    ensures error.Some? ==> c == Faulted(error.value)
  {
    match error
    case None => Completed
    case Some(e) => Faulted(e)
  }

  /** The envelope of an event and its deserialized representation, with the given offset. */
  function Envelope(offset: Offset, e: Event, p: Persistent): (r: EventEnvelope)
    ensures r.persistenceId == e.persistenceId && r.sequenceNr == e.sequenceNr
    ensures r.event == p.payload && r.timestamp == e.timestamp && r.tags == e.tags
  {
    EventEnvelope(offset, e.persistenceId, e.sequenceNr, p.payload, e.timestamp, e.tags)
  }

  /** A `Channel<T>`: what was written, and whether the writer completed it. */
  class Channel<T> {
    var items: seq<T>
    var completion: Completion

    constructor ()
      ensures items == [] && completion == Open
    {
      items, completion := [], Open;
    }

    /** `Writer.WriteAsync`: a completed channel refuses further items. */
    method Write(x: T) returns (error: Option<QueryError>)
      modifies this
      ensures old(completion).Open? ==> items == old(items) + [x] && error.None?
      ensures !old(completion).Open? ==> items == old(items) && error == Some(ChannelClosed)
      ensures completion == old(completion)
    {
      if completion.Open? {
        items := items + [x];
        error := None;
      } else {
        error := Some(ChannelClosed);
      }
    }

    /** Writes every item in order; on a completed channel the first write raises. */
    method WriteAll(xs: seq<T>) returns (error: Option<QueryError>)
      modifies this
      ensures old(completion).Open? || xs == [] ==> items == old(items) + xs && error.None?
      ensures !old(completion).Open? && xs != [] ==> items == old(items) && error == Some(ChannelClosed)
      ensures completion == old(completion)
    {
      for i := 0 to |xs|
        invariant completion == old(completion)
        invariant items == old(items) + xs[..i]
        invariant old(completion).Open? || i == 0
      {
        error := Write(xs[i]);
        if error.Some? {
          return;
        }
        assert xs[..i + 1] == xs[..i] + [xs[i]];
      }
      assert xs[..|xs|] == xs;
      error := None;
    }

    /** `Writer.TryComplete`: only the first completion takes effect. */
    method TryComplete(c: Completion) returns (done: bool)
      requires !c.Open?
      modifies this
      ensures done == old(completion).Open?
      ensures completion == (if done then c else old(completion))
      ensures items == old(items)
    {
      done := completion.Open?;
      if done {
        completion := c;
      }
    }
  }
}
