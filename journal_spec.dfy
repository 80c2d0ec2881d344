/**
 * The values the journal's operations are specified by: the grouping of a
 * batch of atomic writes, the events one group stores, one replay pass over
 * an entity's events, and the order facts that make prefix scans meaningful.
 */
module JournalSpec {
  import opened Wrappers
  import opened StorageFormat
  import opened KeyOrder
  import opened EventCodec
  import opened RavenDbPersistence
  import opened Database

  /** Akka's `AtomicWrite`: the events one persist call writes together. */
  datatype AtomicWrite = AtomicWrite(
    persistenceId: string,
    payload: seq<Persistent>,
    lowestSequenceNr: int64,
    highestSequenceNr: int64)

  datatype JournalError =
    | SerializationFailed(error: CodecError)
    | NonUniqueObject(id: string)          // two events stored under one id in one session
    | SaveChangesFailed(message: string)   // the commit was refused
    | MetadataNotFound                     // a null metadata document was dereferenced

  // ---- GroupBy -------------------------------------------------------------

  predicate Writes(ws: seq<AtomicWrite>, pid: string) {
    exists i :: 0 <= i < |ws| && ws[i].persistenceId == pid
  }

  /** The group keys of `GroupBy(m => m.PersistenceId)`, each once. */
  function GroupKeys(ws: seq<AtomicWrite>): (keys: seq<string>)
    ensures forall i, j :: 0 <= i < j < |keys| ==> keys[i] != keys[j]
    ensures forall k :: k in keys <==> Writes(ws, k)
  {
    if ws == [] then []
    else
      var prefix := ws[..|ws| - 1];
      var keys := GroupKeys(prefix);
      assert forall k :: Writes(ws, k) <==> Writes(prefix, k) || ws[|ws| - 1].persistenceId == k by {
        forall k ensures Writes(ws, k) <==> Writes(prefix, k) || ws[|ws| - 1].persistenceId == k {
          if Writes(ws, k) {
            var i :| 0 <= i < |ws| && ws[i].persistenceId == k;
            if i < |ws| - 1 { assert prefix[i] == ws[i]; }
          }
          if Writes(prefix, k) {
            var i :| 0 <= i < |prefix| && prefix[i].persistenceId == k;
            assert ws[i] == prefix[i];
          }
        }
      }
      if ws[|ws| - 1].persistenceId in keys then keys else keys + [ws[|ws| - 1].persistenceId]
  }

  /** The group of one key: its writes, in their original order. */
  function Group(ws: seq<AtomicWrite>, pid: string): (g: seq<AtomicWrite>)
    ensures forall i :: 0 <= i < |g| ==> g[i].persistenceId == pid
    ensures |g| <= |ws|
    ensures Writes(ws, pid) ==> g != []
  {
    if ws == [] then []
    else
      var g := Group(ws[..|ws| - 1], pid);
      assert Writes(ws, pid) && ws[|ws| - 1].persistenceId != pid ==> Writes(ws[..|ws| - 1], pid) by {
        if Writes(ws, pid) && ws[|ws| - 1].persistenceId != pid {
          var i :| 0 <= i < |ws| && ws[i].persistenceId == pid;
          assert ws[..|ws| - 1][i] == ws[i];
        }
      }
      if ws[|ws| - 1].persistenceId == pid then g + [ws[|ws| - 1]] else g
  }

  /** Every event of a group, write after write. */
  function Flatten(ws: seq<AtomicWrite>): seq<Persistent> {
    if ws == [] then [] else Flatten(ws[..|ws| - 1]) + ws[|ws| - 1].payload
  }

  lemma FlattenStep(ws: seq<AtomicWrite>, i: nat)
    requires i < |ws|
    ensures Flatten(ws[..i + 1]) == Flatten(ws[..i]) + ws[i].payload
  {
    assert ws[..i + 1][..i] == ws[..i];
  }

  lemma {:induction false} FlattenAppend(a: seq<AtomicWrite>, b: seq<AtomicWrite>)
    ensures Flatten(a + b) == Flatten(a) + Flatten(b)
    decreases |b|
  {
    if b == [] {
      assert a + b == a;
    } else {
      var init := b[..|b| - 1];
      FlattenAppend(a, init);
      assert (a + b)[..|a + b| - 1] == a + init;
      assert (a + b)[|a + b| - 1] == b[|b| - 1];
    }
  }

  /** When storing the events up to `payload[j]` fails, storing all of `payload` fails the same way. */
  lemma FailureStays(c: Collections, ser: Serialization, done: seq<Persistent>, payload: seq<Persistent>, j: nat, now: Ticks)
    requires j < |payload|
    requires PendingEvents(c, ser, done + payload[..j + 1], now).Failure?
    ensures PendingEvents(c, ser, done + payload, now) == PendingEvents(c, ser, done + payload[..j + 1], now)
  {
    SplitAfter(done, payload, j + 1);
    PendingFailurePersists(c, ser, done + payload[..j + 1], payload[j + 1..], now);
  }

  lemma AppendTakeStep<T>(a: seq<T>, s: seq<T>, j: nat)
    requires j < |s|
    ensures (a + s[..j]) + [s[j]] == a + s[..j + 1]
  {
    assert s[..j + 1] == s[..j] + [s[j]];
  }

  lemma LastSplit<T>(s: seq<T>)
    requires s != []
    ensures s == s[..|s| - 1] + [s[|s| - 1]]
  {
  }

  lemma AppendDropLast<T>(a: seq<T>, b: seq<T>)
    requires b != []
    ensures (a + b)[..|a + b| - 1] == a + b[..|b| - 1]
  {
  }

  lemma SplitAfter<T>(a: seq<T>, b: seq<T>, n: nat)
    requires n <= |b|
    ensures a + b == (a + b[..n]) + b[n..]
  {
    assert b == b[..n] + b[n..];
  }

  /** When storing the first `i` writes of a group fails, the whole group fails with that error. */
  lemma FailureSpreads(c: Collections, ser: Serialization, group: seq<AtomicWrite>, i: nat, now: Ticks)
    requires i <= |group|
    requires PendingEvents(c, ser, Flatten(group[..i]), now).Failure?
    ensures PendingEvents(c, ser, Flatten(group), now) == PendingEvents(c, ser, Flatten(group[..i]), now)
  {
    assert group == group[..i] + group[i..];
    FlattenAppend(group[..i], group[i..]);
    PendingFailurePersists(c, ser, Flatten(group[..i]), Flatten(group[i..]), now);
  }

  /** `lowest = Math.Min(lowest, w.LowestSequenceNr)` over the group, from long.MaxValue. */
  function MinLowest(ws: seq<AtomicWrite>): int64 {
    if ws == [] then INT64_MAX
    else
      var m := MinLowest(ws[..|ws| - 1]);
      if ws[|ws| - 1].lowestSequenceNr < m then ws[|ws| - 1].lowestSequenceNr else m
  }

  /** `highest = Math.Max(highest, w.HighestSequenceNr)` over the group, from long.MinValue. */
  function MaxHighest(ws: seq<AtomicWrite>): int64 {
    if ws == [] then INT64_MIN
    else
      var m := MaxHighest(ws[..|ws| - 1]);
      if ws[|ws| - 1].highestSequenceNr > m then ws[|ws| - 1].highestSequenceNr else m
  }

  /**
   * `lowest` is the smallest LowestSequenceNr of the group and `highest` the
   * largest HighestSequenceNr, each attained by some write; an empty group
   * keeps the start values.
   */
  lemma {:induction false} BoundsMeaning(ws: seq<AtomicWrite>)
    ensures forall i :: 0 <= i < |ws| ==> MinLowest(ws) <= ws[i].lowestSequenceNr && MaxHighest(ws) >= ws[i].highestSequenceNr
    ensures ws != [] ==> exists i :: 0 <= i < |ws| && MinLowest(ws) == ws[i].lowestSequenceNr
    ensures ws != [] ==> exists i :: 0 <= i < |ws| && MaxHighest(ws) == ws[i].highestSequenceNr
    ensures ws == [] ==> MinLowest(ws) == INT64_MAX && MaxHighest(ws) == INT64_MIN
    decreases |ws|
  {
    if ws != [] {
      var prefix := ws[..|ws| - 1];
      BoundsMeaning(prefix);
      assert forall i :: 0 <= i < |prefix| ==> prefix[i] == ws[i];
      if prefix != [] {
        var j :| 0 <= j < |prefix| && MinLowest(prefix) == prefix[j].lowestSequenceNr;
        var k :| 0 <= k < |prefix| && MaxHighest(prefix) == prefix[k].highestSequenceNr;
        assert MinLowest(ws) == ws[j].lowestSequenceNr || MinLowest(ws) == ws[|ws| - 1].lowestSequenceNr;
        assert MaxHighest(ws) == ws[k].highestSequenceNr || MaxHighest(ws) == ws[|ws| - 1].highestSequenceNr;
      }
    }
  }

  /** The events of one more write follow those of the writes before it. */
  lemma PendingWriteStep(c: Collections, ser: Serialization, group: seq<AtomicWrite>, i: nat, now: Ticks)
    requires i < |group|
    ensures PendingEvents(c, ser, Flatten(group[..i + 1]), now) ==
            PendingEvents(c, ser, Flatten(group[..i]) + group[i].payload, now)
  {
    FlattenStep(group, i);
  }

  /** One more write folds its bounds into the running minimum and maximum. */
  lemma BoundsStep(ws: seq<AtomicWrite>, i: nat)
    requires i < |ws|
    ensures MinLowest(ws[..i + 1]) ==
            (if ws[i].lowestSequenceNr < MinLowest(ws[..i]) then ws[i].lowestSequenceNr else MinLowest(ws[..i]))
    ensures MaxHighest(ws[..i + 1]) ==
            (if ws[i].highestSequenceNr > MaxHighest(ws[..i]) then ws[i].highestSequenceNr else MaxHighest(ws[..i]))
  {
    PrefixStep(ws, i);
  }

  // ---- the events one group stores ----------------------------------------

  function EventId(c: Collections, p: Persistent): string {
    GetSequenceId(c, p.persistenceId, p.sequenceNr)
  }

  /** The ids of a run of events, in order. */
  function Ids(c: Collections, reps: seq<Persistent>): (ids: seq<string>)
    ensures |ids| == |reps| && forall i :: 0 <= i < |reps| ==> ids[i] == EventId(c, reps[i])
  {
    if reps == [] then [] else Ids(c, reps[..|reps| - 1]) + [EventId(c, reps[|reps| - 1])]
  }

  predicate SerializesAll(ser: Serialization, reps: seq<Persistent>, now: Ticks) {
    forall i :: 0 <= i < |reps| ==> Serialize(ser, reps[i], now).Success?
  }

  predicate DistinctIds(c: Collections, reps: seq<Persistent>) {
    forall i, j :: 0 <= i < j < |reps| ==> EventId(c, reps[i]) != EventId(c, reps[j])
  }

  /**
   * The events a session holds after storing each representation in turn:
   * serialization can throw, and so can a second store under one id.
   */
  function PendingEvents(c: Collections, ser: Serialization, reps: seq<Persistent>, now: Ticks)
    : Result<map<string, Event>, JournalError>
  {
    if reps == [] then Success(map[])
    else
      var before := PendingEvents(c, ser, reps[..|reps| - 1], now);
      var rep := reps[|reps| - 1];
      if before.Failure? then before
      else
        var e := Serialize(ser, rep, now);
        if e.Failure? then Failure(SerializationFailed(e.error))
        else if EventId(c, rep) in before.value then Failure(NonUniqueObject(EventId(c, rep)))
        else Success(before.value[EventId(c, rep) := e.value])
  }

  lemma PendingStep(c: Collections, ser: Serialization, reps: seq<Persistent>, rep: Persistent, now: Ticks)
    ensures PendingEvents(c, ser, reps + [rep], now) ==
      match PendingEvents(c, ser, reps, now)
      case Failure(e) => Failure(e)
      case Success(m) =>
        if Serialize(ser, rep, now).Failure? then Failure(SerializationFailed(Serialize(ser, rep, now).error))
        else if EventId(c, rep) in m then Failure(NonUniqueObject(EventId(c, rep)))
        else Success(m[EventId(c, rep) := Serialize(ser, rep, now).value])
  {
    assert (reps + [rep])[..|reps|] == reps;
  }

  /** An accepted group holds each event, as serialized, under its id, and nothing else. */
  lemma {:induction false} PendingEventsContents(c: Collections, ser: Serialization, reps: seq<Persistent>, now: Ticks)
    requires PendingEvents(c, ser, reps, now).Success?
    ensures forall i :: 0 <= i < |reps| ==>
              && EventId(c, reps[i]) in PendingEvents(c, ser, reps, now).value
              && Serialize(ser, reps[i], now) == Success(PendingEvents(c, ser, reps, now).value[EventId(c, reps[i])])
    ensures forall k :: k in PendingEvents(c, ser, reps, now).value <==> k in Ids(c, reps)
    decreases |reps|
  {
    if reps != [] {
      var prefix := reps[..|reps| - 1];
      var rep := reps[|reps| - 1];
      LastSplit(reps);
      PendingStep(c, ser, prefix, rep, now);
      var before := PendingEvents(c, ser, prefix, now);
      assert before.Success?;
      PendingEventsContents(c, ser, prefix, now);
      var m := PendingEvents(c, ser, reps, now).value;
      assert m == before.value[EventId(c, rep) := Serialize(ser, rep, now).value];
      forall i | 0 <= i < |reps|
        ensures EventId(c, reps[i]) in m && Serialize(ser, reps[i], now) == Success(m[EventId(c, reps[i])])
      {
        if i < |prefix| {
          assert reps[i] == prefix[i];
          assert EventId(c, prefix[i]) in before.value;
        }
      }
      assert Ids(c, reps) == Ids(c, prefix) + [EventId(c, rep)];
    }
  }

  /** A group whose events all serialize under distinct ids is accepted. */
  lemma {:induction false} PendingEventsSucceedIf(c: Collections, ser: Serialization, reps: seq<Persistent>, now: Ticks)
    requires SerializesAll(ser, reps, now) && DistinctIds(c, reps)
    ensures PendingEvents(c, ser, reps, now).Success?
    decreases |reps|
  {
    if reps != [] {
      var prefix := reps[..|reps| - 1];
      var rep := reps[|reps| - 1];
      LastSplit(reps);
      PendingStep(c, ser, prefix, rep, now);
      assert forall i :: 0 <= i < |prefix| ==> prefix[i] == reps[i];
      PendingEventsSucceedIf(c, ser, prefix, now);
      var before := PendingEvents(c, ser, prefix, now);
      PendingEventsContents(c, ser, prefix, now);
    }
  }

  /** An accepted group had every event serialize, under distinct ids. */
  lemma {:induction false} PendingEventsSucceedOnlyIf(c: Collections, ser: Serialization, reps: seq<Persistent>, now: Ticks)
    requires PendingEvents(c, ser, reps, now).Success?
    ensures SerializesAll(ser, reps, now) && DistinctIds(c, reps)
    decreases |reps|
  {
    if reps != [] {
      var prefix := reps[..|reps| - 1];
      var rep := reps[|reps| - 1];
      LastSplit(reps);
      PendingStep(c, ser, prefix, rep, now);
      assert PendingEvents(c, ser, prefix, now).Success?;
      PendingEventsSucceedOnlyIf(c, ser, prefix, now);
      PendingEventsContents(c, ser, prefix, now);
      ExtendAccepted(c, ser, prefix, rep, now);
    }
  }

  /** A run that serializes under distinct ids stays so with an event that serializes under a fresh id. */
  lemma ExtendAccepted(c: Collections, ser: Serialization, reps: seq<Persistent>, rep: Persistent, now: Ticks)
    requires SerializesAll(ser, reps, now) && DistinctIds(c, reps)
    requires Serialize(ser, rep, now).Success? && EventId(c, rep) !in Ids(c, reps)
    ensures SerializesAll(ser, reps + [rep], now) && DistinctIds(c, reps + [rep])
  {
    var all := reps + [rep];
    forall i, j | 0 <= i < j < |all| ensures EventId(c, all[i]) != EventId(c, all[j]) {
      if j == |reps| {
        assert Ids(c, reps)[i] == EventId(c, reps[i]);
      } else {
        assert all[i] == reps[i] && all[j] == reps[j];
      }
    }
  }

  /**
   * The session accepts a group exactly when every event serializes and no
   * two events share an id.
   */
  lemma PendingEventsSucceed(c: Collections, ser: Serialization, reps: seq<Persistent>, now: Ticks)
    ensures PendingEvents(c, ser, reps, now).Success? <==> SerializesAll(ser, reps, now) && DistinctIds(c, reps)
  {
    if PendingEvents(c, ser, reps, now).Success? {
      PendingEventsSucceedOnlyIf(c, ser, reps, now);
    }
    if SerializesAll(ser, reps, now) && DistinctIds(c, reps) {
      PendingEventsSucceedIf(c, ser, reps, now);
    }
  }

  /** A failure stays the failure whatever is stored after it. */
  lemma {:induction false} PendingFailurePersists(c: Collections, ser: Serialization, reps: seq<Persistent>,
                                                  more: seq<Persistent>, now: Ticks)
    requires PendingEvents(c, ser, reps, now).Failure?
    ensures PendingEvents(c, ser, reps + more, now) == PendingEvents(c, ser, reps, now)
    decreases |more|
  {
    if more == [] {
      assert reps + more == reps;
    } else {
      var init := more[..|more| - 1];
      PendingFailurePersists(c, ser, reps, init, now);
      AppendDropLast(reps, more);
    }
  }

  function WithChangeVectors(pending: map<string, Event>, cvOf: string -> ChangeVector): (r: map<string, Stored<Event>>)
    ensures r.Keys == pending.Keys
    ensures forall k :: k in r ==> r[k] == Stored(pending[k], cvOf(k))
  {
    map k | k in pending :: Stored(pending[k], cvOf(k))
  }

  /**
   * What `AtomicWriteForActor` reports for a group: the first exception while
   * storing its events, else the commit's own reply.
   */
  function GroupOutcome(c: Collections, ser: Serialization, group: seq<AtomicWrite>, now: Ticks,
                        saveReply: string -> Option<string>, pid: string): (r: Option<JournalError>)
    ensures PendingEvents(c, ser, Flatten(group), now).Failure? ==> r == Some(PendingEvents(c, ser, Flatten(group), now).error)
    ensures r.None? <==> PendingEvents(c, ser, Flatten(group), now).Success? && saveReply(pid).None?
  {
    var pending := PendingEvents(c, ser, Flatten(group), now);
    if pending.Failure? then Some(pending.error)
    else if saveReply(pid).Some? then Some(SaveChangesFailed(saveReply(pid).value))
    else None
  }

  // ---- the documents one committed group changes -----------------------------

  /** The three collections the journal writes. */
  datatype JournalDocs = JournalDocs(
    events: map<string, Stored<Event>>,
    metadata: map<string, EventMetadataDoc>,
    actors: map<string, Stored<UniqueActorDoc>>)

  /**
   * The documents after `AtomicWriteForActor` for one group: nothing when the
   * session throws or the commit is refused; otherwise every event is stored
   * (overwriting), the metadata record gets MaxSequenceNr = highest and a
   * fresh Timestamp, and an absent record also brings the `UniqueActors/`
   * marker.
   */
  function AfterGroup(c: Collections, ser: Serialization, d: JournalDocs, group: seq<AtomicWrite>, pid: string,
                      now: Ticks, saveReply: string -> Option<string>, cvOf: string -> ChangeVector): JournalDocs
  {
    if GroupOutcome(c, ser, group, now, saveReply, pid).Some? then d
    else
      var pending := PendingEvents(c, ser, Flatten(group), now).value;
      var mid := GetMetadataId(c, pid);
      var highest := MaxHighest(group);
      var actors := if mid in d.metadata then d.actors
                    else d.actors[UniqueActorId(pid) := Stored(UniqueActorDoc(pid, now), cvOf(UniqueActorId(pid)))];
      var record := if mid in d.metadata then d.metadata[mid].(maxSequenceNr := highest, timestamp := Some(now))
                    else EventMetadataDoc(pid, highest, Some(now));
      JournalDocs(d.events + WithChangeVectors(pending, cvOf), d.metadata[mid := record], actors)
  }

  /** The documents after every group of a batch, in group-key order. */
  function AfterGroups(c: Collections, ser: Serialization, d: JournalDocs, ws: seq<AtomicWrite>, keys: seq<string>,
                       now: Ticks, saveReply: string -> Option<string>, cvOf: string -> ChangeVector): JournalDocs
  {
    if keys == [] then d
    else
      var pid := keys[|keys| - 1];
      AfterGroup(c, ser, AfterGroups(c, ser, d, ws, keys[..|keys| - 1], now, saveReply, cvOf), Group(ws, pid), pid,
                 now, saveReply, cvOf)
  }

  /** The outcome recorded for each group key of a batch, in group-key order. */
  function Outcomes(c: Collections, ser: Serialization, ws: seq<AtomicWrite>, keys: seq<string>,
                    now: Ticks, saveReply: string -> Option<string>): map<string, Option<JournalError>>
  {
    if keys == [] then map[]
    else
      var pid := keys[|keys| - 1];
      Outcomes(c, ser, ws, keys[..|keys| - 1], now, saveReply)[pid := GroupOutcome(c, ser, Group(ws, pid), now, saveReply, pid)]
  }

  /** Committing one more group key extends the outcomes by that group's outcome. */
  lemma OutcomesStep(c: Collections, ser: Serialization, ws: seq<AtomicWrite>, keys: seq<string>, i: nat,
                     now: Ticks, saveReply: string -> Option<string>)
    requires i < |keys|
    ensures Outcomes(c, ser, ws, keys[..i + 1], now, saveReply) ==
            Outcomes(c, ser, ws, keys[..i], now, saveReply)[keys[i] := GroupOutcome(c, ser, Group(ws, keys[i]), now, saveReply, keys[i])]
  {
    PrefixStep(keys, i);
  }

  /** Committing one more group key applies that group to the documents. */
  lemma AfterGroupsStep(c: Collections, ser: Serialization, d: JournalDocs, ws: seq<AtomicWrite>, keys: seq<string>, i: nat,
                        now: Ticks, saveReply: string -> Option<string>, cvOf: string -> ChangeVector)
    requires i < |keys|
    ensures AfterGroups(c, ser, d, ws, keys[..i + 1], now, saveReply, cvOf) ==
            AfterGroup(c, ser, AfterGroups(c, ser, d, ws, keys[..i], now, saveReply, cvOf), Group(ws, keys[i]), keys[i],
                       now, saveReply, cvOf)
  {
    PrefixStep(keys, i);
  }

  lemma PrefixStep<T>(s: seq<T>, i: nat)
    requires i < |s|
    ensures |s[..i + 1]| == i + 1 && s[..i + 1][..i] == s[..i] && s[..i + 1][i] == s[i]
  {
  }

  /** Exactly the group keys have an outcome. */
  lemma {:induction false} OutcomesKeys(c: Collections, ser: Serialization, ws: seq<AtomicWrite>, keys: seq<string>,
                                        now: Ticks, saveReply: string -> Option<string>)
    ensures forall k :: k in Outcomes(c, ser, ws, keys, now, saveReply) <==> k in keys
    decreases |keys|
  {
    if keys != [] {
      var init := keys[..|keys| - 1];
      OutcomesKeys(c, ser, ws, init, now, saveReply);
      LastSplit(keys);
    }
  }

  /** The outcome recorded for a group key is the outcome of that key's group. */
  lemma {:induction false} OutcomesMeaning(c: Collections, ser: Serialization, ws: seq<AtomicWrite>, keys: seq<string>,
                                           now: Ticks, saveReply: string -> Option<string>, k: string)
    requires k in keys
    ensures k in Outcomes(c, ser, ws, keys, now, saveReply)
    ensures Outcomes(c, ser, ws, keys, now, saveReply)[k] == GroupOutcome(c, ser, Group(ws, k), now, saveReply, k)
    decreases |keys|
  {
    var init := keys[..|keys| - 1];
    if k != keys[|keys| - 1] {
      LastSplit(keys);
      OutcomesMeaning(c, ser, ws, init, now, saveReply, k);
    }
  }

  /** What `ReadHighestSequenceNrAsync` reads: the record's MaxSequenceNr, 0 without one. */
  function HighestSequenceNr(c: Collections, metadata: map<string, EventMetadataDoc>, pid: string): int64 {
    var mid := GetMetadataId(c, pid);
    if mid in metadata then metadata[mid].maxSequenceNr else 0
  }

  /**
   * After a committed group the entity's highest sequence number is the
   * group's highest, whatever it was before; other entities keep theirs.
   */
  lemma CommittedGroupSetsHighest(c: Collections, ser: Serialization, d: JournalDocs, group: seq<AtomicWrite>, pid: string,
                                  now: Ticks, saveReply: string -> Option<string>, cvOf: string -> ChangeVector, other: string)
    requires GroupOutcome(c, ser, group, now, saveReply, pid).None?
    ensures HighestSequenceNr(c, AfterGroup(c, ser, d, group, pid, now, saveReply, cvOf).metadata, pid) == MaxHighest(group)
    ensures other != pid ==>
              HighestSequenceNr(c, AfterGroup(c, ser, d, group, pid, now, saveReply, cvOf).metadata, other) ==
              HighestSequenceNr(c, d.metadata, other)
  {
    MetadataIdInjective(c, pid, other);
  }

  /**
   * After a committed group every one of its events is stored, as serialized,
   * under its own id, with the change vector the server gave it.
   */
  lemma CommittedGroupStoresEvents(c: Collections, ser: Serialization, d: JournalDocs, group: seq<AtomicWrite>, pid: string,
                                   now: Ticks, saveReply: string -> Option<string>, cvOf: string -> ChangeVector)
    requires GroupOutcome(c, ser, group, now, saveReply, pid).None?
    ensures var after := AfterGroup(c, ser, d, group, pid, now, saveReply, cvOf);
            forall r :: r in Flatten(group) ==>
              && EventId(c, r) in after.events
              && Success(after.events[EventId(c, r)].doc) == Serialize(ser, r, now)
              && after.events[EventId(c, r)].changeVector == cvOf(EventId(c, r))
  {
    var reps := Flatten(group);
    PendingEventsContents(c, ser, reps, now);
    forall r | r in reps
      ensures EventId(c, r) in PendingEvents(c, ser, reps, now).value
      ensures Success(PendingEvents(c, ser, reps, now).value[EventId(c, r)]) == Serialize(ser, r, now)
    {
      var i :| 0 <= i < |reps| && reps[i] == r;
    }
  }

  /** Every event is stored under the id its own entity and sequence number give. */
  predicate WellKeyed(c: Collections, events: map<string, Stored<Event>>) {
    forall k :: k in events ==> k == GetSequenceId(c, events[k].doc.persistenceId, events[k].doc.sequenceNr)
  }

  /** No stored event belongs to an entity whose id contains '/'. */
  predicate SlashFreeIds(events: map<string, Stored<Event>>) {
    forall k :: k in events ==> '/' !in events[k].doc.persistenceId
  }

  /** An accepted group holds every event under the id its own entity and sequence number give. */
  lemma PendingWellKeyed(c: Collections, ser: Serialization, reps: seq<Persistent>, now: Ticks)
    requires PendingEvents(c, ser, reps, now).Success?
    ensures var pending := PendingEvents(c, ser, reps, now).value;
            forall k :: k in pending ==> k == GetSequenceId(c, pending[k].persistenceId, pending[k].sequenceNr)
  {
    var pending := PendingEvents(c, ser, reps, now).value;
    PendingEventsContents(c, ser, reps, now);
    forall k | k in pending
      ensures k == GetSequenceId(c, pending[k].persistenceId, pending[k].sequenceNr)
    {
      var i :| 0 <= i < |reps| && Ids(c, reps)[i] == k;
      SerializeFields(ser, reps[i], now);
    }
  }

  /** Committing a group keeps every event under its own id. */
  lemma CommitKeepsWellKeyed(c: Collections, ser: Serialization, d: JournalDocs, group: seq<AtomicWrite>, pid: string,
                             now: Ticks, saveReply: string -> Option<string>, cvOf: string -> ChangeVector)
    requires WellKeyed(c, d.events)
    ensures WellKeyed(c, AfterGroup(c, ser, d, group, pid, now, saveReply, cvOf).events)
  {
    if GroupOutcome(c, ser, group, now, saveReply, pid).None? {
      var pending := PendingEvents(c, ser, Flatten(group), now).value;
      PendingWellKeyed(c, ser, Flatten(group), now);
      var added := WithChangeVectors(pending, cvOf);
      assert AfterGroup(c, ser, d, group, pid, now, saveReply, cvOf).events == d.events + added;
      MergeWellKeyed(c, d.events, added);
    }
  }

  lemma MergeWellKeyed(c: Collections, base: map<string, Stored<Event>>, added: map<string, Stored<Event>>)
    requires WellKeyed(c, base) && WellKeyed(c, added)
    ensures WellKeyed(c, base + added)
  {
  }

  /**
   * Along an entity's ids, sequence numbers ascend: the order a prefix scan
   * returns is sequence order.
   */
  predicate AscendingUnder(events: map<string, Stored<Event>>, prefix: string) {
    forall k1, k2 :: k1 in events && k2 in events && prefix <= k1 && prefix <= k2 && Less(k1, k2) ==>
      events[k1].doc.sequenceNr < events[k2].doc.sequenceNr
  }

  /**
   * With every event under its own id and no '/' in entity ids, the events
   * under an entity's prefix are that entity's, in ascending sequence order.
   */
  lemma WellKeyedAscending(c: Collections, events: map<string, Stored<Event>>, pid: string)
    requires WellKeyed(c, events) && SlashFreeIds(events) && '/' !in pid
    ensures AscendingUnder(events, GetEventPrefix(c, pid))
    ensures forall k :: k in events && GetEventPrefix(c, pid) <= k ==> events[k].doc.persistenceId == pid
  {
    var prefix := GetEventPrefix(c, pid);
    forall k | k in events && prefix <= k ensures events[k].doc.persistenceId == pid {
      PrefixIsolation(c, pid, events[k].doc.persistenceId, events[k].doc.sequenceNr);
    }
    forall k1, k2 | k1 in events && k2 in events && prefix <= k1 && prefix <= k2 && Less(k1, k2)
      ensures events[k1].doc.sequenceNr < events[k2].doc.sequenceNr
    {
      SequenceIdOrder(c, pid, events[k1].doc.sequenceNr, events[k2].doc.sequenceNr);
    }
  }

  // ---- one replay pass -------------------------------------------------------

  datatype PassEnd =
    | Returned            // `return` inside the stream loop: max spent, past `to`, or `to` delivered
    | Exhausted           // the stream had no more documents
    | Failed(error: CodecError)

  /** What one pass delivered, how it ended, and the loop variables it left. */
  datatype Pass = Pass(delivered: seq<Persistent>, end: PassEnd, fromSequenceNr: int64, max: int64)

  /** The documents stored under a list of ids. */
  function DocsAt(events: map<string, Stored<Event>>, keys: seq<string>): (docs: seq<Event>)
    requires forall k :: k in keys ==> k in events
    ensures |docs| == |keys| && forall i :: 0 <= i < |keys| ==> docs[i] == events[keys[i]].doc
  {
    if keys == [] then [] else [events[keys[0]].doc] + DocsAt(events, keys[1..])
  }

  /**
   * Where the replay loop moves `from` after delivering a document: the
   * source moves it to the delivered sequence number itself (`AtDelivered`);
   * a next pass that should start past it needs the number after
   * (`AfterDelivered`).
   */
  datatype ResumeAt = AtDelivered | AfterDelivered

  /** The body of the replay loop over the streamed documents, one at a time. */
  function PassOver(ser: Serialization, sender: Option<ActorRef>, docs: seq<Event>,
                    fromSequenceNr: int64, toSequenceNr: int64, max: int64, resume: ResumeAt): Pass
  {
    if docs == [] then Pass([], Exhausted, fromSequenceNr, max)
    else if max <= 0 || docs[0].sequenceNr > toSequenceNr then Pass([], Returned, fromSequenceNr, max)
    else
      var p := Deserialize(ser, docs[0], sender);
      if p.Failure? then Pass([], Failed(p.error), fromSequenceNr, max)
      else if docs[0].sequenceNr == toSequenceNr then Pass([p.value], Returned, fromSequenceNr, max - 1)
      else
        var next := if resume == AtDelivered then docs[0].sequenceNr else docs[0].sequenceNr + 1;
        var rest := PassOver(ser, sender, docs[1..], next, toSequenceNr, max - 1, resume);
        rest.(delivered := [p.value] + rest.delivered)
  }

  /**
   * A pass delivers a leading run of the documents, each deserialized, all
   * with sequence numbers up to `to`, at most `max` of them; it runs out of
   * documents only when it delivered them all without reaching `to`.
   */
  lemma {:induction false} PassDelivers(ser: Serialization, sender: Option<ActorRef>, docs: seq<Event>,
                                        fromSequenceNr: int64, toSequenceNr: int64, max: int64, resume: ResumeAt)
    ensures var r := PassOver(ser, sender, docs, fromSequenceNr, toSequenceNr, max, resume);
            && |r.delivered| <= |docs|
            && (max >= 0 ==> |r.delivered| <= max && r.max == max - |r.delivered|)
            && (forall i :: 0 <= i < |r.delivered| ==>
                  docs[i].sequenceNr <= toSequenceNr && Deserialize(ser, docs[i], sender) == Success(r.delivered[i]))
            && (r.end == Exhausted ==>
                  |r.delivered| == |docs| && forall i :: 0 <= i < |docs| ==> docs[i].sequenceNr < toSequenceNr)
    decreases |docs|
  {
    if docs != [] && max > 0 && docs[0].sequenceNr < toSequenceNr
       && Deserialize(ser, docs[0], sender).Success? {
      var next := if resume == AtDelivered then docs[0].sequenceNr else docs[0].sequenceNr + 1;
      PassDelivers(ser, sender, docs[1..], next, toSequenceNr, max - 1, resume);
    }
  }

  /**
   * A pass that ran out of documents leaves `from` at the last one's sequence
   * number, or just past it.
   */
  lemma {:induction false} PassEndsAt(ser: Serialization, sender: Option<ActorRef>, docs: seq<Event>,
                                      fromSequenceNr: int64, toSequenceNr: int64, max: int64, resume: ResumeAt)
    ensures var r := PassOver(ser, sender, docs, fromSequenceNr, toSequenceNr, max, resume);
            r.end == Exhausted ==>
              r.fromSequenceNr == (if docs == [] then fromSequenceNr
                                   else if resume == AtDelivered then docs[|docs| - 1].sequenceNr
                                   else docs[|docs| - 1].sequenceNr + 1)
    decreases |docs|
  {
    if docs != [] && max > 0 && docs[0].sequenceNr < toSequenceNr
       && Deserialize(ser, docs[0], sender).Success? {
      var next := if resume == AtDelivered then docs[0].sequenceNr else docs[0].sequenceNr + 1;
      PassEndsAt(ser, sender, docs[1..], next, toSequenceNr, max - 1, resume);
    }
  }

  /**
   * A scan of the entity's prefix after the id of `cursor` returns exactly that
   * entity's events whose clamped sequence number is above the clamped cursor.
   */
  lemma ScanAfterCovers(c: Collections, events: map<string, Stored<Event>>, pid: string, cursor: int64)
    requires WellKeyed(c, events) && SlashFreeIds(events) && '/' !in pid
    ensures forall k :: k in events ==>
              (InRange(k, GetEventPrefix(c, pid), Some(GetSequenceId(c, pid, cursor))) <==>
               events[k].doc.persistenceId == pid && Clamp(events[k].doc.sequenceNr) > Clamp(cursor))
  {
    var prefix := GetEventPrefix(c, pid);
    var after := GetSequenceId(c, pid, cursor);
    WellKeyedAscending(c, events, pid);
    forall k | k in events
      ensures InRange(k, prefix, Some(after)) <==>
              events[k].doc.persistenceId == pid && Clamp(events[k].doc.sequenceNr) > Clamp(cursor)
    {
      SequenceIdLayout(c, events[k].doc.persistenceId, events[k].doc.sequenceNr);
      SequenceIdOrder(c, pid, cursor, events[k].doc.sequenceNr);
    }
  }

  /**
   * A pass that starts at `from` reads exactly the entity's events whose
   * clamped sequence number is above that of `from - 1`; for `from >= 1`,
   * those with sequence number `>= from`.
   */
  lemma ReplayScanCovers(c: Collections, events: map<string, Stored<Event>>, pid: string, fromSequenceNr: int64)
    requires WellKeyed(c, events) && SlashFreeIds(events) && '/' !in pid
    ensures forall k :: k in events ==>
              (InRange(k, GetEventPrefix(c, pid), Some(GetSequenceId(c, pid, Decrement(fromSequenceNr)))) <==>
               events[k].doc.persistenceId == pid && Clamp(events[k].doc.sequenceNr) > Clamp(Decrement(fromSequenceNr)))
    ensures fromSequenceNr >= 1 ==> forall k :: k in events ==>
              (InRange(k, GetEventPrefix(c, pid), Some(GetSequenceId(c, pid, Decrement(fromSequenceNr)))) <==>
               events[k].doc.persistenceId == pid && events[k].doc.sequenceNr >= fromSequenceNr)
  {
    ScanAfterCovers(c, events, pid, Decrement(fromSequenceNr));
  }

  /** The documents one replay pass from `from` streams: the entity's events after the id of `from - 1`. */
  ghost function ReplayDocs(c: Collections, events: map<string, Stored<Event>>, pid: string, fromSequenceNr: int64): seq<Event> {
    DocsAt(events, Scan(events, GetEventPrefix(c, pid), Some(GetSequenceId(c, pid, Decrement(fromSequenceNr)))))
  }

  /** A replay pass's documents belong to the entity and have sequence numbers above `from - 1`, ascending. */
  lemma ReplayDocsShape(c: Collections, events: map<string, Stored<Event>>, pid: string, fromSequenceNr: int64)
    requires WellKeyed(c, events) && SlashFreeIds(events) && '/' !in pid
    ensures var docs := ReplayDocs(c, events, pid, fromSequenceNr);
            && (forall i :: 0 <= i < |docs| ==>
                  docs[i].persistenceId == pid && Clamp(docs[i].sequenceNr) > Clamp(Decrement(fromSequenceNr)))
            && (forall i, j :: 0 <= i < j < |docs| ==> docs[i].sequenceNr < docs[j].sequenceNr)
            && (forall i :: 0 <= i < |docs| ==> docs[0].sequenceNr <= docs[i].sequenceNr)
  {
    var prefix := GetEventPrefix(c, pid);
    var keys := Scan(events, prefix, Some(GetSequenceId(c, pid, Decrement(fromSequenceNr))));
    var docs := DocsAt(events, keys);
    ScanAfterCovers(c, events, pid, Decrement(fromSequenceNr));
    WellKeyedAscending(c, events, pid);
    forall i | 0 <= i < |docs|
      ensures docs[i].persistenceId == pid && Clamp(docs[i].sequenceNr) > Clamp(Decrement(fromSequenceNr))
    {
      assert keys[i] in keys;
    }
    forall i, j | 0 <= i < j < |docs| ensures docs[i].sequenceNr < docs[j].sequenceNr {
      assert Less(keys[i], keys[j]);
      assert keys[i] in keys && keys[j] in keys;
    }
  }

  /**
   * As written, a pass that ran out of documents leaves `from` at the last
   * delivered sequence number; while budget remains, the next pass, which
   * starts after the id of `from - 1`, delivers that same event again first.
   */
  lemma ResumeRedelivers(c: Collections, events: map<string, Stored<Event>>, pid: string, ser: Serialization,
                         sender: Option<ActorRef>, fromSequenceNr: int64, toSequenceNr: int64, max: int64)
    requires WellKeyed(c, events) && SlashFreeIds(events) && '/' !in pid
    ensures var r := PassOver(ser, sender, ReplayDocs(c, events, pid, fromSequenceNr), fromSequenceNr, toSequenceNr, max, AtDelivered);
            r.end == Exhausted && r.delivered != [] && r.max > 0 ==>
              var again := PassOver(ser, sender, ReplayDocs(c, events, pid, r.fromSequenceNr), r.fromSequenceNr,
                                    toSequenceNr, r.max, AtDelivered);
              again.delivered != [] && again.delivered[0] == r.delivered[|r.delivered| - 1]
  {
    var docs := ReplayDocs(c, events, pid, fromSequenceNr);
    var r := PassOver(ser, sender, docs, fromSequenceNr, toSequenceNr, max, AtDelivered);
    if r.end == Exhausted && r.delivered != [] && r.max > 0 {
      var last := docs[|docs| - 1].sequenceNr;
      var next := ReplayDocs(c, events, pid, last);
      assert next != [] && next[0] == docs[|docs| - 1] by {
        LastReadFirst(c, events, pid, fromSequenceNr);
      }
      PassRedelivers(ser, sender, docs, next, fromSequenceNr, toSequenceNr, max);
    }
  }

  /**
   * As written, once a pass runs out of documents, a next pass whose
   * documents start with the last one read delivers it again.
   */
  lemma PassRedelivers(ser: Serialization, sender: Option<ActorRef>, docs: seq<Event>, next: seq<Event>,
                       fromSequenceNr: int64, toSequenceNr: int64, max: int64)
    requires var r := PassOver(ser, sender, docs, fromSequenceNr, toSequenceNr, max, AtDelivered);
             r.end == Exhausted && r.delivered != [] && r.max > 0
    requires docs != [] && next != [] && next[0] == docs[|docs| - 1]
    ensures var r := PassOver(ser, sender, docs, fromSequenceNr, toSequenceNr, max, AtDelivered);
            var again := PassOver(ser, sender, next, r.fromSequenceNr, toSequenceNr, r.max, AtDelivered);
            r.fromSequenceNr == docs[|docs| - 1].sequenceNr
            && again.delivered != [] && again.delivered[0] == r.delivered[|r.delivered| - 1]
  {
    var r := PassOver(ser, sender, docs, fromSequenceNr, toSequenceNr, max, AtDelivered);
    PassDelivers(ser, sender, docs, fromSequenceNr, toSequenceNr, max, AtDelivered);
    PassEndsAt(ser, sender, docs, fromSequenceNr, toSequenceNr, max, AtDelivered);
    PassFirst(ser, sender, next, r.fromSequenceNr, toSequenceNr, r.max, AtDelivered);
  }

  /** The next pass from the last document's sequence number reads that document first. */
  lemma LastReadFirst(c: Collections, events: map<string, Stored<Event>>, pid: string, fromSequenceNr: int64)
    requires WellKeyed(c, events) && SlashFreeIds(events) && '/' !in pid
    ensures var docs := ReplayDocs(c, events, pid, fromSequenceNr);
            docs != [] ==>
              var next := ReplayDocs(c, events, pid, docs[|docs| - 1].sequenceNr);
              next != [] && next[0] == docs[|docs| - 1]
  {
    var docs := ReplayDocs(c, events, pid, fromSequenceNr);
    if docs != [] {
      var n := |docs| - 1;
      var last := docs[n].sequenceNr;
      assert last >= 1 && GetSequenceId(c, pid, last) in events && events[GetSequenceId(c, pid, last)].doc == docs[n] by {
        var keys := Scan(events, GetEventPrefix(c, pid), Some(GetSequenceId(c, pid, Decrement(fromSequenceNr))));
        assert docs == DocsAt(events, keys);
        ReplayDocsShape(c, events, pid, fromSequenceNr);
        assert docs[n].persistenceId == pid && Clamp(last) > Clamp(Decrement(fromSequenceNr));
        assert keys[n] in keys && events[keys[n]].doc == docs[n];
      }
      ResumeReadsFirst(c, events, pid, last);
    }
  }

  /** A pass with budget left delivers its first document when that is at or below `to` and deserializes. */
  lemma PassFirst(ser: Serialization, sender: Option<ActorRef>, docs: seq<Event>,
                  fromSequenceNr: int64, toSequenceNr: int64, max: int64, resume: ResumeAt)
    requires docs != [] && max > 0 && docs[0].sequenceNr <= toSequenceNr && Deserialize(ser, docs[0], sender).Success?
    ensures var r := PassOver(ser, sender, docs, fromSequenceNr, toSequenceNr, max, resume);
            r.delivered != [] && r.delivered[0] == Deserialize(ser, docs[0], sender).value
  {
  }

  /**
   * A pass from a stored event's own sequence number reads that event first,
   * since the scan starts after the id of the number before it.
   */
  lemma ResumeReadsFirst(c: Collections, events: map<string, Stored<Event>>, pid: string, last: int64)
    requires WellKeyed(c, events) && SlashFreeIds(events) && '/' !in pid
    requires last >= 1 && GetSequenceId(c, pid, last) in events
    ensures var docs := ReplayDocs(c, events, pid, last);
            docs != [] && docs[0] == events[GetSequenceId(c, pid, last)].doc
  {
    var prefix := GetEventPrefix(c, pid);
    var k := GetSequenceId(c, pid, last);
    var next := Scan(events, prefix, Some(GetSequenceId(c, pid, Decrement(last))));
    var docs := DocsAt(events, next);
    var e := events[k].doc;
    SequenceIdInjective(c, pid, e.persistenceId, last, e.sequenceNr);
    assert e.persistenceId == pid && e.sequenceNr == last;
    ReplayScanCovers(c, events, pid, last);
    assert k in next;
    var j :| 0 <= j < |next| && next[j] == k;
    assert docs[j] == e;
    ReplayDocsShape(c, events, pid, last);
    assert docs == ReplayDocs(c, events, pid, last);
    assert docs[0].sequenceNr <= docs[j].sequenceNr;
    assert next[0] in next;
    SequenceIdInjective(c, pid, docs[0].persistenceId, last, docs[0].sequenceNr);
  }

  /**
   * With `from` moved past each delivered document, the next pass after a
   * pass that ran out of documents (and so delivered every document it read)
   * reads only events with higher sequence numbers than any it delivered: no
   * event is delivered twice.
   */
  lemma ResumeSkipsDelivered(c: Collections, events: map<string, Stored<Event>>, pid: string, ser: Serialization,
                             sender: Option<ActorRef>, fromSequenceNr: int64, toSequenceNr: int64, max: int64)
    requires WellKeyed(c, events) && SlashFreeIds(events) && '/' !in pid
    ensures var docs := ReplayDocs(c, events, pid, fromSequenceNr);
            var r := PassOver(ser, sender, docs, fromSequenceNr, toSequenceNr, max, AfterDelivered);
            r.end == Exhausted ==>
              var again := ReplayDocs(c, events, pid, r.fromSequenceNr);
              forall i, j :: 0 <= i < |docs| && 0 <= j < |again| ==> docs[i].sequenceNr < again[j].sequenceNr
  {
    var docs := ReplayDocs(c, events, pid, fromSequenceNr);
    var r := PassOver(ser, sender, docs, fromSequenceNr, toSequenceNr, max, AfterDelivered);
    if r.end == Exhausted && docs != [] {
      PassResumesAfter(ser, sender, docs, fromSequenceNr, toSequenceNr, max);
      var last := docs[|docs| - 1].sequenceNr;
      assert last >= 1 && forall i :: 0 <= i < |docs| ==> docs[i].sequenceNr <= last by {
        ReplayDocsBounds(c, events, pid, fromSequenceNr);
      }
      var again := ReplayDocs(c, events, pid, r.fromSequenceNr);
      assert forall j :: 0 <= j < |again| ==> again[j].sequenceNr > last by {
        ReplayDocsBounds(c, events, pid, r.fromSequenceNr);
      }
    }
  }

  /** A pass that ran out of documents leaves `from` just past the last one. */
  lemma PassResumesAfter(ser: Serialization, sender: Option<ActorRef>, docs: seq<Event>,
                         fromSequenceNr: int64, toSequenceNr: int64, max: int64)
    requires docs != [] && PassOver(ser, sender, docs, fromSequenceNr, toSequenceNr, max, AfterDelivered).end == Exhausted
    ensures PassOver(ser, sender, docs, fromSequenceNr, toSequenceNr, max, AfterDelivered).fromSequenceNr
            == docs[|docs| - 1].sequenceNr + 1
  {
    PassEndsAt(ser, sender, docs, fromSequenceNr, toSequenceNr, max, AfterDelivered);
  }

  /**
   * A replay pass's documents have positive sequence numbers, none above the
   * last one's, and from `from >= 1` none below `from`.
   */
  lemma ReplayDocsBounds(c: Collections, events: map<string, Stored<Event>>, pid: string, fromSequenceNr: int64)
    requires WellKeyed(c, events) && SlashFreeIds(events) && '/' !in pid
    ensures var docs := ReplayDocs(c, events, pid, fromSequenceNr);
            && (forall i :: 0 <= i < |docs| ==> 1 <= docs[i].sequenceNr <= docs[|docs| - 1].sequenceNr)
            && (fromSequenceNr >= 1 ==> forall i :: 0 <= i < |docs| ==> docs[i].sequenceNr >= fromSequenceNr)
  {
    var docs := ReplayDocs(c, events, pid, fromSequenceNr);
    ReplayDocsShape(c, events, pid, fromSequenceNr);
    forall i | 0 <= i < |docs| ensures 1 <= docs[i].sequenceNr <= docs[|docs| - 1].sequenceNr {
      if i < |docs| - 1 {
        assert docs[i].sequenceNr < docs[|docs| - 1].sequenceNr;
      }
    }
    if fromSequenceNr >= 1 {
      assert Clamp(Decrement(fromSequenceNr)) == fromSequenceNr - 1;
    }
  }

  // ---- DeleteMessagesToAsync --------------------------------------------------

  /** The page size of a delete pass's stream. */
  const Batch: nat := 1024

  /** The ids a delete pass streams: the first `Batch` ids under the prefix. */
  ghost function DeletePage(events: map<string, Stored<Event>>, prefix: string): (page: seq<string>)
    ensures |page| <= Batch
    ensures StrictlySorted(page)
    ensures forall k :: k in page ==> k in events && prefix <= k
  {
    var keys := Scan(events, prefix, None);
    keys[..if |keys| < Batch then |keys| else Batch]
  }

  /**
   * One delete pass: `deleted` ids are removed, the leading run of the page
   * whose events have sequence numbers up to `to`, stopping at the first
   * that is above it.
   */
  ghost predicate PassDeletes(before: map<string, Stored<Event>>, after: map<string, Stored<Event>>,
                              prefix: string, toSequenceNr: int64, deleted: nat)
  {
    var page := DeletePage(before, prefix);
    && deleted <= |page|
    && (forall i :: 0 <= i < deleted ==> before[page[i]].doc.sequenceNr <= toSequenceNr)
    && (deleted < |page| ==> before[page[deleted]].doc.sequenceNr > toSequenceNr)
    && after == before - (set i | 0 <= i < deleted :: page[i])
  }

  /**
   * A pass removes only ids under the prefix whose events are at or below
   * `to`, and leaves every other document as it was; a full batch shrinks
   * the collection.
   */
  lemma PassRemovesOnlyCovered(before: map<string, Stored<Event>>, after: map<string, Stored<Event>>,
                               prefix: string, toSequenceNr: int64, deleted: nat)
    requires PassDeletes(before, after, prefix, toSequenceNr, deleted)
    ensures forall k :: k in after ==> k in before && after[k] == before[k]
    ensures forall k :: k in before && k !in after ==> prefix <= k && before[k].doc.sequenceNr <= toSequenceNr
    ensures deleted > 0 ==> |after| < |before|
  {
    var page := DeletePage(before, prefix);
    var gone := set i | 0 <= i < deleted :: page[i];
    forall k | k in before && k !in after
      ensures prefix <= k && before[k].doc.sequenceNr <= toSequenceNr
    {
      assert k in gone;
      var i :| 0 <= i < deleted && page[i] == k;
    }
    if deleted > 0 {
      assert page[0] in gone && page[0] in before;
      assert after.Keys == before.Keys - gone;
      assert after.Keys < before.Keys;
    }
  }

  /**
   * What the delete passes so far have done to the original events: they
   * removed only ids under the prefix at or below `to`, and left the rest
   * as they were.
   */
  ghost predicate DeletedOnly(orig: map<string, Stored<Event>>, now: map<string, Stored<Event>>,
                              prefix: string, toSequenceNr: int64)
  {
    && (forall k :: k in now ==> k in orig && now[k] == orig[k])
    && (forall k :: k in orig && k !in now ==> prefix <= k && orig[k].doc.sequenceNr <= toSequenceNr)
  }

  /** When the original ids under the prefix ascended, no event at or below `to` is left under it. */
  ghost predicate Cleared(orig: map<string, Stored<Event>>, now: map<string, Stored<Event>>,
                          prefix: string, toSequenceNr: int64)
  {
    AscendingUnder(orig, prefix) ==>
      forall k :: k in now && prefix <= k ==> now[k].doc.sequenceNr > toSequenceNr
  }

  /**
   * A committed pass keeps `DeletedOnly`; a pass that deleted something
   * shrank the collection, and a short one cleared the prefix.
   */
  lemma PassKeepsDeletedOnly(orig: map<string, Stored<Event>>, before: map<string, Stored<Event>>,
                             after: map<string, Stored<Event>>, prefix: string, toSequenceNr: int64, deleted: nat)
    requires DeletedOnly(orig, before, prefix, toSequenceNr)
    requires PassDeletes(before, after, prefix, toSequenceNr, deleted)
    ensures DeletedOnly(orig, after, prefix, toSequenceNr)
    ensures deleted > 0 ==> |after| < |before|
    ensures deleted < Batch ==> Cleared(orig, after, prefix, toSequenceNr)
  {
    PassRemovesOnlyCovered(before, after, prefix, toSequenceNr, deleted);
    if deleted < Batch && AscendingUnder(orig, prefix) {
      SubmapAscending(orig, before, prefix);
      ShortPassCompletes(before, after, prefix, toSequenceNr, deleted);
    }
  }

  /** Ids that ascend with sequence numbers still do after some of them are removed. */
  lemma SubmapAscending(orig: map<string, Stored<Event>>, now: map<string, Stored<Event>>, prefix: string)
    requires forall k :: k in now ==> k in orig && now[k] == orig[k]
    requires AscendingUnder(orig, prefix)
    ensures AscendingUnder(now, prefix)
  {
  }

  /**
   * A pass that removes fewer than a full batch leaves, when the ids under
   * the prefix ascend with sequence numbers, no event at or below `to`.
   */
  lemma ShortPassCompletes(before: map<string, Stored<Event>>, after: map<string, Stored<Event>>,
                           prefix: string, toSequenceNr: int64, deleted: nat)
    requires PassDeletes(before, after, prefix, toSequenceNr, deleted)
    requires deleted < Batch
    requires AscendingUnder(before, prefix)
    ensures forall k :: k in after && prefix <= k ==> after[k].doc.sequenceNr > toSequenceNr
  {
    forall k | k in after && prefix <= k
      ensures after[k].doc.sequenceNr > toSequenceNr
    {
      ShortPassKeeps(before, after, prefix, toSequenceNr, deleted, k);
    }
  }

  /** An id outside the first `deleted` ids of the page is none of them. */
  lemma NotInPrefix(page: seq<string>, deleted: nat, k: string)
    requires deleted <= |page|
    requires k !in (set i | 0 <= i < deleted :: page[i])
    ensures forall j :: 0 <= j < deleted ==> page[j] != k
  {
    forall j | 0 <= j < deleted
      ensures page[j] != k
    {
      var removed := set i | 0 <= i < deleted :: page[i];
      assert page[j] in removed;
    }
  }

  /** One id left under the prefix by a short pass sorts after the page's stopping point, so its event is above `to`. */
  lemma ShortPassKeeps(before: map<string, Stored<Event>>, after: map<string, Stored<Event>>,
                       prefix: string, toSequenceNr: int64, deleted: nat, k: string)
    requires PassDeletes(before, after, prefix, toSequenceNr, deleted)
    requires deleted < Batch
    requires AscendingUnder(before, prefix)
    requires k in after && prefix <= k
    ensures after[k].doc.sequenceNr > toSequenceNr
  {
    var keys := Scan(before, prefix, None);
    var page := DeletePage(before, prefix);
    assert page == keys[..|page|];
    assert k in before && k !in (set i | 0 <= i < deleted :: page[i]);
    assert k in keys;
    var idx :| 0 <= idx < |keys| && keys[idx] == k;
    NotInPrefix(page, deleted, k);
    assert idx < |page| ==> page[idx] == k;
    assert deleted <= idx;
    assert deleted < |page| by {
      if deleted == |page| {
        assert false;
      }
    }
    if idx > deleted {
      assert Less(keys[deleted], k);
      assert keys[deleted] == page[deleted];
    }
  }
}
