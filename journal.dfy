/**
 * `RavenDbJournal`: the write path (one commit per entity in a batch), the
 * highest-sequence read, one replay pass and its stop rule, the batched
 * delete, and the stash that holds requests until the database is ready.
 */
module RavenDbJournal {
  import opened Wrappers
  import opened StorageFormat
  import opened KeyOrder
  import opened EventCodec
  import opened RavenDbPersistence
  import opened Database
  import opened JournalSpec
  import opened StashGate

  /** What the replay loop does after one pass. */
  datatype ReplayStatus =
    | Finished                                          // the task returns
    | AwaitChanges(fromSequenceNr: int64, max: int64)   // wait for a change under the prefix, then pass again

  /** The stop rule: a pass that ran out of documents ends replay once the metadata max read at the start reaches `to`. */
  function ReplayStep(pass: Pass, currentMax: int64, toSequenceNr: int64): (r: Result<ReplayStatus, JournalError>)
    ensures r.Failure? <==> pass.end.Failed?
    ensures r == Success(Finished) <==> pass.end.Returned? || (pass.end.Exhausted? && currentMax >= toSequenceNr)
    ensures r.Success? && r.value.AwaitChanges? ==>
              r.value.fromSequenceNr == pass.fromSequenceNr && r.value.max == pass.max
  {
    match pass.end
    case Failed(e) => Failure(SerializationFailed(e))
    case Returned => Success(Finished)
    case Exhausted =>
      if currentMax >= toSequenceNr then Success(Finished) else Success(AwaitChanges(pass.fromSequenceNr, pass.max))
  }

  /**
   * `Initialize`: with auto-initialize the database-creation procedure runs,
   * otherwise the journal is ready at once.
   */
  method Initialize(autoInitialize: bool, outcome: nat -> AttemptOutcome) returns (status: Status, attempts: nat)
    ensures !autoInitialize ==> status == StatusSuccess && attempts == 0
    ensures autoInitialize ==> 1 <= attempts <= CreateDatabaseTries
    ensures autoInitialize ==> forall i :: 0 <= i < attempts - 1 ==> outcome(i).DatabaseDisabled?
    ensures autoInitialize && attempts < CreateDatabaseTries ==> !outcome(attempts - 1).DatabaseDisabled?
    ensures autoInitialize && AttemptStatus(outcome(attempts - 1)).Some? ==>
              status == AttemptStatus(outcome(attempts - 1)).value
    ensures autoInitialize && outcome(attempts - 1).DatabaseDisabled? ==>
              attempts == CreateDatabaseTries && status == StatusFailure(ErrorCause(GaveUpMessage))
  {
    if autoInitialize {
      status, attempts := CreateDatabase(outcome);
    } else {
      status, attempts := StatusSuccess, 0;
    }
  }

  class Journal {
    const db: DocumentStore
    const ser: Serialization

    // The actor's behaviour stack and stash while it waits for `Initialize`.
    var waiting: bool
    var stopped: bool
    var stash: seq<Message>
    var handled: seq<Message>

    /** The actor as `PreStart` leaves it: waiting for the initialization status. */
    constructor (db: DocumentStore, ser: Serialization)
      ensures this.db == db && this.ser == ser
      ensures State() == Initial
    {
      this.db := db;
      this.ser := ser;
      waiting := true;
      stopped := false;
      stash := [];
      handled := [];
    }

    function State(): Gate
      reads this
    {
      Gate(waiting, stopped, stash, handled)
    }

    /**
     * One delivered message: `WaitingForInitialization` while waiting (the
     * status unbecomes and unstashes, or stops; anything else is stashed),
     * the normal behaviour afterwards.
     */
    method Receive(m: Message)
      modifies this
      ensures State() == GateStep(old(State()), m)
    {
      if stopped {
        return;
      }
      if !waiting {
        handled := handled + [m];
        return;
      }
      match m {
        case StatusMessage(StatusSuccess) =>
          waiting := false;
          handled := handled + stash;
          stash := [];
        case StatusMessage(StatusFailure(_)) =>
          stopped := true;
        case Request(_) =>
          stash := stash + [m];
      }
    }

    function Docs(): JournalDocs
      reads db
    {
      JournalDocs(db.events, db.metadata, db.actors)
    }

    /**
     * The inner loop of `AtomicWriteForActor`: stores one write's events in a
     * session that already holds `done`; the first store that throws ends it.
     */
    method StoreEvents(ghost done: seq<Persistent>, payload: seq<Persistent>, session: map<string, Event>, now: Ticks)
      returns (r: Result<map<string, Event>, JournalError>)
      requires PendingEvents(db.collections, ser, done, now) == Success(session)
      ensures r == PendingEvents(db.collections, ser, done + payload, now)
    {
      var c := db.collections;
      var held := session;
      ghost var seen := done;
      var j := 0;
      while j < |payload|
        invariant 0 <= j <= |payload|
        invariant seen == done + payload[..j]
        invariant PendingEvents(c, ser, seen, now) == Success(held)
      {
        var rep := payload[j];
        var id := GetSequenceId(c, rep.persistenceId, rep.sequenceNr);
        var e := Serialize(ser, rep, now);
        PendingStep(c, ser, seen, rep, now);
        AppendTakeStep(done, payload, j);
        if e.Failure? || id in held {
          FailureStays(c, ser, done, payload, j, now);
          return if e.Failure? then Failure(SerializationFailed(e.error)) else Failure(NonUniqueObject(id));
        }
        held := held[id := e.value];
        seen := seen + [rep];
        j := j + 1;
      }
      assert payload[..|payload|] == payload;
      r := Success(held);
    }

    /**
     * The session part of `AtomicWriteForActor`: folds the group's bounds and
     * stores each write's events; a store can throw, and then the rest of the
     * group is not visited.
     */
    method StoreGroup(group: seq<AtomicWrite>, now: Ticks)
      returns (pending: Result<map<string, Event>, JournalError>, lowest: int64, highest: int64)
      ensures pending == PendingEvents(db.collections, ser, Flatten(group), now)
      ensures pending.Success? ==> lowest == MinLowest(group) && highest == MaxHighest(group)
    {
      var c := db.collections;
      highest := INT64_MIN;
      lowest := INT64_MAX;
      var session: map<string, Event> := map[];
      var i := 0;
      while i < |group|
        invariant 0 <= i <= |group|
        invariant lowest == MinLowest(group[..i]) && highest == MaxHighest(group[..i])
        invariant PendingEvents(c, ser, Flatten(group[..i]), now) == Success(session)
      {
        BoundsStep(group, i);
        lowest, highest := Widen(lowest, highest, group[i]);
        PendingWriteStep(c, ser, group, i, now);
        var stored := StoreEvents(Flatten(group[..i]), group[i].payload, session, now);
        if stored.Failure? {
          FailureSpreads(c, ser, group, i + 1, now);
          return stored, lowest, highest;
        }
        session := stored.value;
        i := i + 1;
      }
      assert group[..|group|] == group;
      pending := Success(session);
    }

    /** `Math.Min` and `Math.Max` with one write's bounds. */
    static method Widen(lowest: int64, highest: int64, w: AtomicWrite) returns (l: int64, h: int64)
      ensures l == (if w.lowestSequenceNr < lowest then w.lowestSequenceNr else lowest)
      ensures h == (if w.highestSequenceNr > highest then w.highestSequenceNr else highest)
    {
      l := if w.lowestSequenceNr < lowest then w.lowestSequenceNr else lowest;
      h := if w.highestSequenceNr > highest then w.highestSequenceNr else highest;
    }

    /**
     * `AtomicWriteForActor`: stores every event of the group in one session,
     * then creates or updates the metadata record and commits. `lowest` is
     * computed as the source does, and not used.
     */
    method AtomicWriteForActor(group: seq<AtomicWrite>, pid: string, now: Ticks,
                               saveReply: string -> Option<string>, cvOf: string -> ChangeVector)
      returns (outcome: Option<JournalError>, lowest: int64, highest: int64)
      modifies db
      ensures outcome == GroupOutcome(db.collections, ser, group, now, saveReply, pid)
      ensures PendingEvents(db.collections, ser, Flatten(group), now).Success? ==>
                lowest == MinLowest(group) && highest == MaxHighest(group)
      ensures Docs() == AfterGroup(db.collections, ser, old(Docs()), group, pid, now, saveReply, cvOf)
      ensures db.snapshots == old(db.snapshots)
    {
      var pending;
      pending, lowest, highest := StoreGroup(group, now);
      if pending.Failure? {
        return Some(pending.error), lowest, highest;
      }
      var mid := GetMetadataId(db.collections, pid);
      if saveReply(pid).Some? {
        return Some(SaveChangesFailed(saveReply(pid).value)), lowest, highest;
      }
      db.events := db.events + WithChangeVectors(pending.value, cvOf);
      if mid !in db.metadata {
        var uid := UniqueActorId(pid);
        db.actors := db.actors[uid := Stored(UniqueActorDoc(pid, now), cvOf(uid))];
        db.metadata := db.metadata[mid := EventMetadataDoc(pid, highest, Some(now))];
      } else {
        db.metadata := db.metadata[mid := db.metadata[mid].(maxSequenceNr := highest, timestamp := Some(now))];
      }
      outcome := None;
    }

    /**
     * The first loop of `WriteMessagesAsync`: one `AtomicWriteForActor` per
     * persistence id, in order of first appearance, each outcome kept under
     * its id.
     */
    method WriteGroups(messages: seq<AtomicWrite>, now: Ticks,
                       saveReply: string -> Option<string>, cvOf: string -> ChangeVector)
      returns (writes: map<string, Option<JournalError>>)
      modifies db
      ensures writes == Outcomes(db.collections, ser, messages, GroupKeys(messages), now, saveReply)
      ensures Docs() == AfterGroups(db.collections, ser, old(Docs()), messages, GroupKeys(messages), now, saveReply, cvOf)
      ensures db.snapshots == old(db.snapshots)
    {
      var c := db.collections;
      var keys := GroupKeys(messages);
      writes := map[];
      for i := 0 to |keys|
        invariant writes == Outcomes(c, ser, messages, keys[..i], now, saveReply)
        invariant Docs() == AfterGroups(c, ser, old(Docs()), messages, keys[..i], now, saveReply, cvOf)
        invariant db.snapshots == old(db.snapshots)
      {
        var outcome, _, _ := AtomicWriteForActor(Group(messages, keys[i]), keys[i], now, saveReply, cvOf);
        OutcomesStep(c, ser, messages, keys, i, now, saveReply);
        AfterGroupsStep(c, ser, old(Docs()), messages, keys, i, now, saveReply, cvOf);
        writes := writes[keys[i] := outcome];
      }
      assert keys[..|keys|] == keys;
    }

    /**
     * `WriteMessagesAsync`: one commit per persistence id, then one result per
     * atomic write, in input order: the outcome recorded for its persistence
     * id, which `OutcomesMeaning` shows is its group's outcome.
     */
    method WriteMessages(messages: seq<AtomicWrite>, now: Ticks,
                         saveReply: string -> Option<string>, cvOf: string -> ChangeVector)
      returns (results: seq<Option<JournalError>>)
      modifies db
      ensures |results| == |messages|
      ensures forall i :: 0 <= i < |messages| ==>
                var outcomes := Outcomes(db.collections, ser, messages, GroupKeys(messages), now, saveReply);
                messages[i].persistenceId in outcomes && results[i] == outcomes[messages[i].persistenceId]
      ensures forall i, j :: 0 <= i < |messages| && 0 <= j < |messages| && messages[i].persistenceId == messages[j].persistenceId ==>
                results[i] == results[j]
      ensures Docs() == AfterGroups(db.collections, ser, old(Docs()), messages, GroupKeys(messages), now, saveReply, cvOf)
      ensures db.snapshots == old(db.snapshots)
    {
      var writes := WriteGroups(messages, now, saveReply, cvOf);
      OutcomesKeys(db.collections, ser, messages, GroupKeys(messages), now, saveReply);
      results := CollectResults(messages, writes);
    }

    /** The second loop of `WriteMessagesAsync`: each write's result is the one stored under its persistence id. */
    static method CollectResults(messages: seq<AtomicWrite>, writes: map<string, Option<JournalError>>)
      returns (results: seq<Option<JournalError>>)
      requires forall k :: Writes(messages, k) ==> k in writes
      ensures |results| == |messages|
      ensures forall i :: 0 <= i < |messages| ==> messages[i].persistenceId in writes && results[i] == writes[messages[i].persistenceId]
    {
      results := [];
      for i := 0 to |messages|
        invariant |results| == i
        invariant forall j :: 0 <= j < i ==> messages[j].persistenceId in writes && results[j] == writes[messages[j].persistenceId]
      {
        assert Writes(messages, messages[i].persistenceId);
        results := results + [writes[messages[i].persistenceId]];
      }
    }

    /** `ReadHighestSequenceNrAsync`: the stored MaxSequenceNr, or 0 without a metadata record. */
    method ReadHighestSequenceNr(pid: string) returns (r: int64)
      ensures r == HighestSequenceNr(db.collections, db.metadata, pid)
    {
      var mid := GetMetadataId(db.collections, pid);
      if mid in db.metadata {
        r := db.metadata[mid].maxSequenceNr;
      } else {
        r := 0;
      }
    }

    /**
     * One pass of `ReplayMessagesAsync` and the stop rule after it: the
     * metadata record is read first (and dereferenced), then the entity's
     * events after the id of `from - 1` are streamed.
     */
    method ReplayMessages(pid: string, fromSequenceNr: int64, toSequenceNr: int64, max: int64, sender: Option<ActorRef>)
      returns (r: Result<ReplayStatus, JournalError>, delivered: seq<Persistent>)
      ensures GetMetadataId(db.collections, pid) !in db.metadata ==> r == Failure(MetadataNotFound) && delivered == []
      ensures GetMetadataId(db.collections, pid) in db.metadata ==>
                var docs := ReplayDocs(db.collections, db.events, pid, fromSequenceNr);
                var pass := PassOver(ser, sender, docs, fromSequenceNr, toSequenceNr, max, AtDelivered);
                && delivered == pass.delivered
                && r == ReplayStep(pass, db.metadata[GetMetadataId(db.collections, pid)].maxSequenceNr, toSequenceNr)
    {
      var c := db.collections;
      var mid := GetMetadataId(c, pid);
      if mid !in db.metadata {
        return Failure(MetadataNotFound), [];
      }
      var currentMax := db.metadata[mid].maxSequenceNr;
      var keys := Stream(db.events, GetEventPrefix(c, pid), Some(GetSequenceId(c, pid, Decrement(fromSequenceNr))));
      var docs := DocsAt(db.events, keys);
      var pass := RunPass(docs, fromSequenceNr, toSequenceNr, max, sender);
      delivered := pass.delivered;
      r := ReplayStep(pass, currentMax, toSequenceNr);
    }

    /**
     * The streaming loop of `ReplayMessagesAsync`: deliver documents in order
     * until the budget is spent, a sequence number passes `to`, a document
     * fails to deserialize, `to` itself is delivered, or the stream ends.
     */
    method RunPass(docs: seq<Event>, fromSequenceNr: int64, toSequenceNr: int64, max: int64, sender: Option<ActorRef>)
      returns (pass: Pass)
      ensures pass == PassOver(ser, sender, docs, fromSequenceNr, toSequenceNr, max, AtDelivered)
    {
      ghost var whole := PassOver(ser, sender, docs, fromSequenceNr, toSequenceNr, max, AtDelivered);
      var from: int64, budget: int64 := fromSequenceNr, max;
      var delivered := [];
      var results := docs;
      while results != []
        invariant var rest := PassOver(ser, sender, results, from, toSequenceNr, budget, AtDelivered);
                  whole == rest.(delivered := delivered + rest.delivered)
      {
        var message := results[0];
        if budget <= 0 || message.sequenceNr > toSequenceNr {
          return Pass(delivered, Returned, from, budget);
        }
        var p := Deserialize(ser, message, sender);
        if p.Failure? {
          return Pass(delivered, Failed(p.error), from, budget);
        }
        delivered := delivered + [p.value];
        budget := budget - 1;
        if message.sequenceNr == toSequenceNr {
          return Pass(delivered, Returned, from, budget);
        }
        from := message.sequenceNr;
        results := results[1..];
      }
      pass := Pass(delivered, Exhausted, from, budget);
    }
  
    /**
     * One pass of the do-while in `DeleteMessagesToAsync`: stream one page
     * under the prefix, delete ids until the first event above `to`, commit.
     * `saveReply` is the exception the commit raises, if any; a refused
     * commit deletes nothing.
     */
    method DeletePass(prefix: string, toSequenceNr: int64, saveReply: Option<string>) returns (deleted: nat, error: Option<string>)
      modifies db
      ensures error == saveReply
      ensures saveReply.None? ==> PassDeletes(old(db.events), db.events, prefix, toSequenceNr, deleted)
      ensures saveReply.Some? ==> db.events == old(db.events)
      ensures db.metadata == old(db.metadata) && db.actors == old(db.actors) && db.snapshots == old(db.snapshots)
    {
      var keys := Stream(db.events, prefix, None);
      var page := keys[..if |keys| < Batch then |keys| else Batch];
      assert page == DeletePage(db.events, prefix);
      var doomed: set<string> := {};
      deleted := 0;
      while deleted < |page|
        invariant deleted <= |page|
        invariant forall i :: 0 <= i < deleted ==> db.events[page[i]].doc.sequenceNr <= toSequenceNr
        invariant doomed == set i | 0 <= i < deleted :: page[i]
      {
        if db.events[page[deleted]].doc.sequenceNr > toSequenceNr {
          break;
        }
        doomed := doomed + {page[deleted]};
        deleted := deleted + 1;
      }
      if saveReply.Some? {
        return deleted, saveReply;
      }
      db.events := db.events - doomed;
      error := None;
    }

    /**
     * `DeleteMessagesToAsync`: passes repeat while a pass deleted a full
     * batch; `saveReply(i)` is what the commit of pass `i` raises, if
     * anything, and the first refused commit ends the loop with its
     * exception, keeping the passes committed before it. Only events under
     * the entity's prefix at or below `to` go; when every commit is accepted
     * and ids under the prefix ascend with sequence numbers (which
     * `WellKeyedAscending` gives for ids without '/'), none of those is left.
     */
    method DeleteMessagesTo(pid: string, toSequenceNr: int64, saveReply: nat -> Option<string>)
      returns (error: Option<string>, passes: nat)
      modifies db
      ensures 1 <= passes && error == saveReply(passes - 1)
      ensures forall i :: 0 <= i < passes - 1 ==> saveReply(i).None?
      ensures forall k :: k in db.events ==> k in old(db.events) && db.events[k] == old(db.events)[k]
      ensures forall k :: k in old(db.events) && k !in db.events ==>
                GetEventPrefix(db.collections, pid) <= k && old(db.events)[k].doc.sequenceNr <= toSequenceNr
      ensures error.None? && AscendingUnder(old(db.events), GetEventPrefix(db.collections, pid)) ==>
                forall k :: k in db.events && GetEventPrefix(db.collections, pid) <= k ==>
                  db.events[k].doc.sequenceNr > toSequenceNr
      ensures db.metadata == old(db.metadata) && db.actors == old(db.actors) && db.snapshots == old(db.snapshots)
    {
      var prefix := GetEventPrefix(db.collections, pid);
      ghost var orig := db.events;
      var more := true;
      error, passes := None, 0;
      while more
        invariant error.None? && (!more ==> 1 <= passes)
        invariant forall i :: 0 <= i < passes ==> saveReply(i).None?
        invariant DeletedOnly(orig, db.events, prefix, toSequenceNr)
        invariant !more ==> Cleared(orig, db.events, prefix, toSequenceNr)
        invariant db.metadata == old(db.metadata) && db.actors == old(db.actors) && db.snapshots == old(db.snapshots)
        decreases |db.events| + (if more then 1 else 0)
      {
        ghost var before := db.events;
        var deleted;
        deleted, error := DeletePass(prefix, toSequenceNr, saveReply(passes));
        passes := passes + 1;
        if error.Some? {
          assert db.events == before;
          return;
        }
        PassKeepsDeletedOnly(orig, before, db.events, prefix, toSequenceNr, deleted);
        more := deleted == Batch;
      }
    }
  }
}
