# RavenDB persistence for Akka.NET, in Dafny

This project models the storage logic of the RavenDB plugin for Akka.Persistence. It covers the journal, the snapshot store and the read journal, and proves properties of that model in Dafny.

The plugin keeps four collections in one RavenDB database:

- **Events.** Event documents live under `{Events}/{persistenceId}/{sequenceNr:19 digits}`.
- **Metadata.** One record per entity lives under `{EventsMetadata}/{persistenceId}`. It holds the highest sequence number written.
- **Markers.** `UniqueActors/{persistenceId}` marks every entity that ever wrote an event.
- **Snapshots.** Snapshot documents live under `{Snapshots}/{persistenceId}/{sequenceNr:19 digits}`.

The database is a class `Database.DocumentStore` with one map per collection, from document id to document. Event and marker documents also carry the change vector the server assigned. Operations that write the store are methods with `modifies` clauses. Each method is proved against a specification function on the maps, and the properties of that function are proved as lemmas.

The modules follow the plugin's own layout:

- **Key scheme** (`StorageFormat`, `RavenDbPersistence`, `KeyOrder`):
  - the 19-digit format and the clamping of sequence numbers;
  - ordinal string order and prefix scans;
  - proofs that ids are injective, and that a prefix scan returns one entity's events in ascending sequence order. This holds when entity ids contain no `/`; the opposite case is shown as well.
- **Event codec** (`EventCodec`):
  - `Event.Serialize`, including the message adjustments it makes first: the sender is cleared, a zero timestamp becomes "now", and the tags are unwrapped;
  - `Event.Deserialize`, with round-trip lemmas for both serializer paths.
- **Journal** (`JournalSpec`, `RavenDbJournal`, `StashGate`, `EventMetadataScripts`, `MetadataScripts`, `MetadataPatch`):
  - the batched write path: one commit per entity, and one result per atomic write;
  - the highest-sequence read;
  - a replay pass and its stop rule;
  - the batched delete;
  - the stash that holds requests until initialization completes;
  - the database-creation retry;
  - the server-side metadata patch scripts.
- **Change vectors** (`ChangeVectorAnalyzer`, `ChangeVectorOffsets`, `IndexQueries`):
  - the regular-expression parser, proved to invert the change-vector format;
  - the offset's query clauses, whose meaning is proved: some element is above the offset's etag;
  - the two change-vector indexes.
- **Read journal** (`QueryTypes`, `QueryPasses`, `ContinuousQueries`, `ReadJournal`):
  - one pass of each continuous query, with its cursor or offset;
  - the `Current*` queries, each of which completes its channel.
- **Snapshots** (`SnapshotTypes`, `LegacySnapshot`, `SnapshotStore`):
  - the snapshot document and its codec;
  - load, save (in each `SaveChangesMode`) and the two deletes.
- **Configuration** (`Configuration`): the HOCON settings, `Version.Parse` and the certificate precedence.

Where the general design of the plugin and its code differ, the model follows the code:

- **Writing events.** The write path does not compare the stored maximum with `lowest - 1`. `lowest` is computed and never used. The metadata record's `MaxSequenceNr` is set to the batch's `highest` unconditionally, so it can go down. Events are stored without checking that the id is free. Whether the commit is refused is a parameter.
- **Snapshot ids and the load scan.** A snapshot with a sequence number of 0 or below shares the id of 0. Both snapshot scans start strictly after the id of `MinSequenceNr - 1`, so such a snapshot is never loaded. `MinSequenceNr == long.MinValue` wraps around and loads nothing (`SnapshotStore.LoadWindow`).
- **Deleting snapshots by criteria.** Only `MaxSequenceNr` and `MaxTimeStamp` are checked (`SnapshotStore.DeleteMatchingRemoves`). `MinTimestamp` plays no part.
- **The all-events query.** The offset is never moved between passes. Each envelope carries the merged offset.
- **Ordering offsets.** `CompareTo` always raises.

## Model

| member | source | states |
|---|---|---|
| StorageFormat.Decrement | src/Akka.Persistence.RavenDB/Query/ContinuousQuery/EventsByPersistenceId.cs:17 | C#'s unchecked `x - 1` on a `long`: the result equals x - 1 modulo 2^64, and is below x except at the minimum |
| StorageFormat.ToLeadingZerosFormat | src/Akka.Persistence.RavenDB/StorageFormatExtensions.cs:13-15 | a non-negative number gives 19 digits; a negative one gives 20 characters |
| StorageFormat.FormatLayout | src/Akka.Persistence.RavenDB/StorageFormatExtensions.cs:13-15 | a non-negative number formats as exactly 19 digits that read back as the number; a negative one formats as '-' followed by 19 digits of its magnitude |
| StorageFormat.FormatOrder | src/Akka.Persistence.RavenDB/StorageFormatExtensions.cs:13-15 | for non-negative numbers, the formatted strings compare in ordinal order as the numbers do, so distinct numbers give distinct strings |
| KeyOrder.Scan | src/Akka.Persistence.RavenDB/Journal/RavenDbJournal.cs:142-143 | a prefix scan with `startAfter` returns exactly the stored ids under the prefix that are above the start, strictly ascending |
| KeyOrder.Stream | src/Akka.Persistence.RavenDB/Journal/RavenDbJournal.cs:142-143 | the streaming read computes the scan |
| RavenDbPersistence.Clamp | src/Akka.Persistence.RavenDB/RavenDbPersistence.cs:132-133 | a sequence number of 0 or below becomes 0; positive ones are kept |
| RavenDbPersistence.GetMetadataId | src/Akka.Persistence.RavenDB/RavenDbPersistence.cs:126 | the metadata id is the metadata collection, '/', then the entity id |
| RavenDbPersistence.GetEventPrefix | src/Akka.Persistence.RavenDB/RavenDbPersistence.cs:128 | the event prefix is the events collection, '/', the entity id and a closing '/' |
| RavenDbPersistence.GetSequenceId | src/Akka.Persistence.RavenDB/RavenDbPersistence.cs:130-136 | an event id starts with the entity's prefix and is 19 characters longer |
| RavenDbPersistence.MetadataIdInjective | src/Akka.Persistence.RavenDB/RavenDbPersistence.cs:126 | two entities share a metadata id exactly when they are the same entity |
| RavenDbPersistence.SequenceIdLayout | src/Akka.Persistence.RavenDB/RavenDbPersistence.cs:128-136 | an event id is the entity prefix followed by 19 digits that read back as the clamped sequence number |
| RavenDbPersistence.SequenceIdInjective | src/Akka.Persistence.RavenDB/RavenDbPersistence.cs:130-136 | two event ids are equal exactly when the entities and the clamped sequence numbers are equal |
| RavenDbPersistence.SequenceIdOrder | src/Akka.Persistence.RavenDB/RavenDbPersistence.cs:130-136 | for one entity, id order is clamped sequence order, in both directions |
| RavenDbPersistence.PrefixIsolation | src/Akka.Persistence.RavenDB/RavenDbPersistence.cs:128-136 | when entity ids contain no '/', an entity's prefix covers only that entity's event ids |
| RavenDbPersistence.PrefixSeparator | src/Akka.Persistence.RavenDB/RavenDbPersistence.cs:128-136 | where one entity's prefix ends inside another entity's event id, the longer entity id has a '/' |
| RavenDbPersistence.SlashBreaksIsolation | src/Akka.Persistence.RavenDB/RavenDbPersistence.cs:128-136 | an entity id `p/r` has its event ids under the prefix of `p` |
| RavenDbPersistence.AttemptStatus | src/Akka.Persistence.RavenDB/RavenDbPersistence.cs:73-117 | only DatabaseDisabled retries; success comes from a found record, a creation, a cancellation or a concurrency error mentioning "exists"; other errors fail |
| RavenDbPersistence.CreateDatabase | src/Akka.Persistence.RavenDB/RavenDbPersistence.cs:67-124 | one to five attempts; every attempt before the last was DatabaseDisabled, and an attempt before the fifth that was DatabaseDisabled is always retried; the status is that of the last attempt unless all five were DatabaseDisabled, in which case it is the failure "Failed to create database after 5 tries" |
| Database.UniqueActorId | src/Akka.Persistence.RavenDB/Journal/RavenDbJournal.cs:254 | the marker id is `UniqueActors/` followed by the entity id |
| EventCodec.Modify | src/Akka.Persistence.RavenDB/Journal/Types/Event.cs:61-95 | the sender is cleared; a zero timestamp becomes now; a Tagged payload is unwrapped into its tags; every other field is kept |
| EventCodec.Serialize | src/Akka.Persistence.RavenDB/Journal/Types/Event.cs:19-49 | serialization fails exactly when the adjusted timestamp is not a valid DateTime |
| EventCodec.SerializeFields | src/Akka.Persistence.RavenDB/Journal/Types/Event.cs:19-49 | the stored event copies the identifying fields, takes the tags and the timestamp from the adjusted message, and keeps the payload raw under serializer 1 or as the serializer's bytes otherwise |
| EventCodec.Deserialize | src/Akka.Persistence.RavenDB/Journal/Types/Event.cs:51-59 | under serializer 1 the payload, sequence number and entity are kept and the replaying sender is attached; a non-raw payload that is not bytes fails the cast |
| EventCodec.RawRoundTrip | src/Akka.Persistence.RavenDB/Journal/Types/Event.cs:37-55 | under serializer 1, deserializing the stored event gives the adjusted message with the replaying sender |
| EventCodec.FaithfulRoundTrip | src/Akka.Persistence.RavenDB/Journal/Types/Event.cs:42-58 | through a faithful serializer, deserializing the stored bytes gives the adjusted message, without a sender |
| MetadataPatch.UpdatedMaxSequenceNr | src/Akka.Persistence.RavenDB/Journal/Types/EventMetadata.cs:40-47 | the update succeeds exactly when the stored value equals the check; it then becomes the larger of the stored and proposed values; otherwise the error names both |
| MetadataPatch.UpdateNotRepeatable | src/Akka.Persistence.RavenDB/Journal/Types/EventMetadata.cs:42-46 | repeating a successful update with the same check succeeds only if the first update changed nothing |
| MetadataPatch.ApplyUpdates | src/Akka.Persistence.RavenDB/Journal/Types/EventMetadata.cs:40-47 | a run of successful updates never lowers the value and ends at or above every proposed value |
| MetadataPatch.PutIfAbsent | src/Akka.Persistence.RavenDB/Journal/Types/EventMetadata.cs:28-37 | the marker is present afterwards; an existing one is kept, and a missing one is added |
| MetadataPatch.PutIfAbsentIdempotent | src/Akka.Persistence.RavenDB/Journal/Types/EventMetadata.cs:28-37 | a second put leaves what the first left |
| EventMetadataScripts.CreateNewScript | src/Akka.Persistence.RavenDB/Journal/Types/EventMetadata.cs:20-38 | the record gets the arguments' MaxSequenceNr and PersistenceId, keeping its Timestamp; the marker is put if absent; other collections are unchanged |
| EventMetadataScripts.UpdateScript | src/Akka.Persistence.RavenDB/Journal/Types/EventMetadata.cs:40-47 | a missing document is reported; otherwise the document changes exactly as the concurrency-checked max update says, or not at all when the check fails |
| MetadataScripts.CreateNewScript | src/Akka.Persistence.RavenDB/Journal/Types/Metadata.cs:10-28 | as the EventMetadata script, under this copy's argument names |
| MetadataScripts.UpdateScript | src/Akka.Persistence.RavenDB/Journal/Types/Metadata.cs:30-37 | as the EventMetadata script, under this copy's argument names |
| StashGate.GateStep | src/Akka.Persistence.RavenDB/Journal/RavenDbJournal.cs:64-88 | a stopped actor ignores messages; once open, every message is handled |
| StashGate.RunAppend | src/Akka.Persistence.RavenDB/Journal/RavenDbJournal.cs:64-88 | running two runs of messages one after the other is running their concatenation |
| StashGate.WaitingStashes | src/Akka.Persistence.RavenDB/Journal/RavenDbJournal.cs:81-85 | while waiting, requests only accumulate in the stash, in arrival order |
| StashGate.OpenPassesOn | src/Akka.Persistence.RavenDB/Journal/RavenDbJournal.cs:69-73 | after the gate opens, every message is handled in arrival order |
| StashGate.StoppedStays | src/Akka.Persistence.RavenDB/Journal/RavenDbJournal.cs:75-79 | once stopped, nothing changes |
| StashGate.SuccessReleasesInOrder | src/Akka.Persistence.RavenDB/Journal/RavenDbJournal.cs:69-73 | Status.Success releases the stashed requests before later ones, each in arrival order, and empties the stash |
| StashGate.FailureStops | src/Akka.Persistence.RavenDB/Journal/RavenDbJournal.cs:75-79 | Status.Failure stops the actor, and no request is ever handled |
| JournalSpec.GroupKeys | src/Akka.Persistence.RavenDB/Journal/RavenDbJournal.cs:196 | the group keys are distinct, and are exactly the entities that have a write |
| JournalSpec.Group | src/Akka.Persistence.RavenDB/Journal/RavenDbJournal.cs:196 | a group holds only its entity's writes, and is non-empty for an entity that has a write |
| JournalSpec.BoundsMeaning | src/Akka.Persistence.RavenDB/Journal/RavenDbJournal.cs:231-237 | `lowest` is the smallest LowestSequenceNr of the group and `highest` the largest HighestSequenceNr, each attained by some write; an empty group keeps long.MaxValue and long.MinValue |
| JournalSpec.FailureStays | src/Akka.Persistence.RavenDB/Journal/RavenDbJournal.cs:241-246 | once storing an event has thrown, storing more events leaves that failure |
| JournalSpec.FailureSpreads | src/Akka.Persistence.RavenDB/Journal/RavenDbJournal.cs:234-247 | a failure within the first writes of a group is the failure of the whole group |
| JournalSpec.PendingEventsContents | src/Akka.Persistence.RavenDB/Journal/RavenDbJournal.cs:241-246 | an accepted group holds every event, as serialized, under its id, and nothing else |
| JournalSpec.PendingEventsSucceedIf | src/Akka.Persistence.RavenDB/Journal/RavenDbJournal.cs:241-246 | a group whose events all serialize, under distinct ids, is accepted |
| JournalSpec.PendingEventsSucceedOnlyIf | src/Akka.Persistence.RavenDB/Journal/RavenDbJournal.cs:241-246 | an accepted group had every event serialize, under distinct ids |
| JournalSpec.PendingEventsSucceed | src/Akka.Persistence.RavenDB/Journal/RavenDbJournal.cs:241-246 | the session accepts a group exactly when every event serializes and no two share an id |
| JournalSpec.PendingFailurePersists | src/Akka.Persistence.RavenDB/Journal/RavenDbJournal.cs:241-246 | a failure stays the failure whatever is stored after it |
| JournalSpec.GroupOutcome | src/Akka.Persistence.RavenDB/Journal/RavenDbJournal.cs:219-269 | a group reports the first exception raised while storing its events; it reports nothing exactly when storing succeeded and the commit was accepted |
| JournalSpec.OutcomesKeys | src/Akka.Persistence.RavenDB/Journal/RavenDbJournal.cs:196-200 | exactly the group keys get an outcome |
| JournalSpec.OutcomesMeaning | src/Akka.Persistence.RavenDB/Journal/RavenDbJournal.cs:196-200 | the outcome recorded for a key is that key's group outcome |
| JournalSpec.CommittedGroupSetsHighest | src/Akka.Persistence.RavenDB/Journal/RavenDbJournal.cs:249-266 | after a committed group, the entity's highest sequence number is the group's highest, whatever it was before; other entities keep theirs |
| JournalSpec.CommittedGroupStoresEvents | src/Akka.Persistence.RavenDB/Journal/RavenDbJournal.cs:241-268 | after a committed group, every event is stored as serialized under its own id, with the change vector the server gave it |
| JournalSpec.PendingWellKeyed | src/Akka.Persistence.RavenDB/Journal/RavenDbJournal.cs:243-245 | every event a session holds is under the id of its own entity and sequence number |
| JournalSpec.CommitKeepsWellKeyed | src/Akka.Persistence.RavenDB/Journal/RavenDbJournal.cs:219-269 | committing a group keeps every stored event under its own id |
| JournalSpec.WellKeyedAscending | src/Akka.Persistence.RavenDB/Journal/RavenDbJournal.cs:142-143 | in a well-keyed store without '/' in entity ids, the events under an entity's prefix are that entity's, in ascending sequence order |
| JournalSpec.PassDelivers | src/Akka.Persistence.RavenDB/Journal/RavenDbJournal.cs:144-161 | a replay pass delivers a leading run of the documents, each deserialized, all at or below `to` and at most `max` of them; it runs out of documents only after delivering all of them below `to` |
| JournalSpec.ScanAfterCovers | src/Akka.Persistence.RavenDB/Journal/RavenDbJournal.cs:142-143 | a scan after the id of a cursor returns exactly the entity's events whose clamped sequence number is above the clamped cursor |
| JournalSpec.ReplayScanCovers | src/Akka.Persistence.RavenDB/Journal/RavenDbJournal.cs:142-143 | a replay pass from `from` reads the entity's events above `from - 1`; for `from >= 1` these are exactly the events at or above `from` |
| JournalSpec.PassEndsAt | src/Akka.Persistence.RavenDB/Journal/RavenDbJournal.cs:160 | a pass that ran out of documents leaves `from` at the last document's sequence number when `from` is set to the delivered number, as written, and one past it otherwise |
| JournalSpec.PassFirst | src/Akka.Persistence.RavenDB/Journal/RavenDbJournal.cs:146-157 | with budget left, a first document at or below `to` that deserializes is the first one delivered |
| JournalSpec.ReplayDocsShape | src/Akka.Persistence.RavenDB/Journal/RavenDbJournal.cs:142-143 | a pass's documents belong to the entity, lie above `from - 1` and ascend in sequence number |
| JournalSpec.ReplayDocsBounds | src/Akka.Persistence.RavenDB/Journal/RavenDbJournal.cs:142-143 | a pass's documents have positive sequence numbers, none above the last one's, and from `from >= 1` none below `from` |
| JournalSpec.ResumeReadsFirst | src/Akka.Persistence.RavenDB/Journal/RavenDbJournal.cs:142-143 | a pass from a stored event's own sequence number reads that event first |
| JournalSpec.LastReadFirst | src/Akka.Persistence.RavenDB/Journal/RavenDbJournal.cs:142-160 | a pass from the last document's sequence number reads that document first |
| JournalSpec.PassRedelivers | src/Akka.Persistence.RavenDB/Journal/RavenDbJournal.cs:146-160 | as written, after a pass runs out of documents, a next pass whose documents start with the last one delivers that one again |
| JournalSpec.ResumeRedelivers | src/Akka.Persistence.RavenDB/Journal/RavenDbJournal.cs:142-160 | as written, when a pass runs out of documents with budget left, the next pass over the same store delivers the last event again first |
| JournalSpec.PassResumesAfter | src/Akka.Persistence.RavenDB/Journal/RavenDbJournal.cs:160 | with `from` moved past each delivered document, a pass that ran out of documents leaves `from` one past the last one |
| JournalSpec.ResumeSkipsDelivered | src/Akka.Persistence.RavenDB/Journal/RavenDbJournal.cs:142-160 | with `from` moved past each delivered document, every document the next pass reads has a higher sequence number than every document the pass delivered, so no event is delivered twice |
| JournalSpec.DeletePage | src/Akka.Persistence.RavenDB/Journal/RavenDbJournal.cs:284-285 | a delete page holds at most 1024 stored ids under the prefix, in ascending order |
| JournalSpec.PassRemovesOnlyCovered | src/Akka.Persistence.RavenDB/Journal/RavenDbJournal.cs:284-297 | a delete pass removes only ids under the prefix whose events are at or below `to`, and leaves everything else unchanged; a pass that deletes something shrinks the collection |
| JournalSpec.PassKeepsDeletedOnly | src/Akka.Persistence.RavenDB/Journal/RavenDbJournal.cs:284-298 | each accepted pass keeps the deletions within the entity's events at or below `to`; a pass that deletes something shrinks the collection, and a short pass leaves none at or below `to` under an ascending prefix |
| JournalSpec.ShortPassCompletes | src/Akka.Persistence.RavenDB/Journal/RavenDbJournal.cs:298 | a pass that deletes less than a full batch leaves no event at or below `to` under an ascending prefix |
| RavenDbJournal.ReplayStep | src/Akka.Persistence.RavenDB/Journal/RavenDbJournal.cs:146-167 | replay fails exactly when a document failed to deserialize; it finishes when the pass returned early, or when it ran out of documents and the metadata max covers `to`; otherwise it waits and resumes from where the pass stopped |
| RavenDbJournal.Initialize | src/Akka.Persistence.RavenDB/Journal/RavenDbJournal.cs:39-47 | without auto-initialize the journal is ready at once; with it, one to five creation attempts run, a DatabaseDisabled attempt before the fifth is retried, the last attempt decides the status, and five DatabaseDisabled attempts give the "Failed to create database after 5 tries" failure |
| RavenDbJournal.Journal.constructor | src/Akka.Persistence.RavenDB/Journal/RavenDbJournal.cs:49-60 | the actor starts waiting for the initialization status, with an empty stash |
| RavenDbJournal.Journal.Receive | src/Akka.Persistence.RavenDB/Journal/RavenDbJournal.cs:64-88 | each delivered message changes the actor's state as the gate function says |
| RavenDbJournal.Journal.StoreEvents | src/Akka.Persistence.RavenDB/Journal/RavenDbJournal.cs:241-246 | storing one write's events extends the session as the specification of pending events says |
| RavenDbJournal.Journal.StoreGroup | src/Akka.Persistence.RavenDB/Journal/RavenDbJournal.cs:231-247 | the session holds the group's events as specified, and the loop's `lowest` and `highest` are the group's bounds |
| RavenDbJournal.Journal.Widen | src/Akka.Persistence.RavenDB/Journal/RavenDbJournal.cs:236-237 | `Math.Min` and `Math.Max` with one write's bounds |
| RavenDbJournal.Journal.AtomicWriteForActor | src/Akka.Persistence.RavenDB/Journal/RavenDbJournal.cs:219-269 | the reported outcome is the group outcome; the store after the write is the one AfterGroup specifies; snapshots are untouched |
| RavenDbJournal.Journal.WriteGroups | src/Akka.Persistence.RavenDB/Journal/RavenDbJournal.cs:196-200 | one write per group key, in key order; outcomes and documents as specified |
| RavenDbJournal.Journal.WriteMessages | src/Akka.Persistence.RavenDB/Journal/RavenDbJournal.cs:188-216 | one result per atomic write, in input order, equal to its entity's outcome, so writes of one entity share a result; the store is as specified |
| RavenDbJournal.Journal.CollectResults | src/Akka.Persistence.RavenDB/Journal/RavenDbJournal.cs:202-213 | each write's result is the one stored under its entity |
| RavenDbJournal.Journal.ReadHighestSequenceNr | src/Akka.Persistence.RavenDB/Journal/RavenDbJournal.cs:173-186 | the stored MaxSequenceNr, or 0 without a record |
| RavenDbJournal.Journal.ReplayMessages | src/Akka.Persistence.RavenDB/Journal/RavenDbJournal.cs:111-170 | a missing metadata record fails before anything is delivered; otherwise the pass over the entity's events after `from - 1` delivers as specified, setting `from` to each delivered event's own sequence number as the code does (see Findings), and the stop rule decides what follows |
| RavenDbJournal.Journal.RunPass | src/Akka.Persistence.RavenDB/Journal/RavenDbJournal.cs:144-161 | the streaming loop computes the specified pass, setting `from` to each delivered document's own sequence number as the code does |
| RavenDbJournal.Journal.DeletePass | src/Akka.Persistence.RavenDB/Journal/RavenDbJournal.cs:284-297 | with an accepted commit, one pass deletes the leading run of the page at or below `to`; a refused commit raises its message and deletes nothing; no other collection changes |
| RavenDbJournal.Journal.DeleteMessagesTo | src/Akka.Persistence.RavenDB/Journal/RavenDbJournal.cs:271-299 | passes repeat while a full batch was deleted; the first refused commit raises its message and ends the loop, every earlier commit having been accepted; only events under the entity's prefix at or below `to` are ever removed, and the rest are unchanged; when no commit is refused and the prefix ascends, none at or below `to` is left |
| ChangeVectorAnalyzer.WordRun | src/Akka.Persistence.RavenDB/ChangeVectorAnalyzer.cs:8 | the maximal run of word characters at the start |
| ChangeVectorAnalyzer.DigitRun | src/Akka.Persistence.RavenDB/ChangeVectorAnalyzer.cs:8 | the maximal run of digits at the start |
| ChangeVectorAnalyzer.MatchAt | src/Akka.Persistence.RavenDB/ChangeVectorAnalyzer.cs:8 | a match at the start has a non-empty digit group and ends with the 22-character database id |
| ChangeVectorAnalyzer.Matches | src/Akka.Persistence.RavenDB/ChangeVectorAnalyzer.cs:12 | every match found has a non-empty digit group and a 22-character id without a newline |
| ChangeVectorAnalyzer.ToList | src/Akka.Persistence.RavenDB/ChangeVectorAnalyzer.cs:9-24 | the loop adds one element per match, in match order, and fails at the first failing parse |
| ChangeVectorAnalyzer.ParseLong | src/Akka.Persistence.RavenDB/ChangeVectorAnalyzer.cs:18 | `long.Parse` of a digit group succeeds only on digits, with their decimal value; an empty or non-digit group is a format error, and a digit group beyond long.MaxValue an overflow |
| ChangeVectorAnalyzer.Parse | src/Akka.Persistence.RavenDB/ChangeVectorAnalyzer.cs:13-21 | on success, one element per match, in order, with the match's id and the parsed etag; a failure is the parse failure of some match |
| ChangeVectorAnalyzer.ParseMeaning | src/Akka.Persistence.RavenDB/ChangeVectorAnalyzer.cs:13-21 | on success, one element per match with its id and the decimal value of its digits; it fails with OverflowException exactly when some digit group exceeds long.MaxValue |
| ChangeVectorAnalyzer.NoMatchNoElements | src/Akka.Persistence.RavenDB/ChangeVectorAnalyzer.cs:12-23 | a string where no position starts a match, including the empty one, gives no elements |
| ChangeVectorAnalyzer.NoColonNoElements | src/Akka.Persistence.RavenDB/ChangeVectorAnalyzer.cs:8 | a change vector without ':' gives no elements |
| ChangeVectorAnalyzer.OverflowFails | src/Akka.Persistence.RavenDB/ChangeVectorAnalyzer.cs:18 | one digit group beyond long.MaxValue fails the whole parse |
| ChangeVectorAnalyzer.ParseLongDigits | src/Akka.Persistence.RavenDB/ChangeVectorAnalyzer.cs:18 | `long.Parse` reads back the digits of any non-negative long |
| ChangeVectorAnalyzer.MatchElement | src/Akka.Persistence.RavenDB/ChangeVectorAnalyzer.cs:8 | a written element `T:etag-dbid` is matched from its first character, whatever follows it |
| ChangeVectorAnalyzer.MatchesElement | src/Akka.Persistence.RavenDB/ChangeVectorAnalyzer.cs:12 | the scan over a written element yields its match, then continues after it |
| ChangeVectorAnalyzer.MatchesFormat | src/Akka.Persistence.RavenDB/ChangeVectorAnalyzer.cs:12 | a formatted change vector yields one match per element |
| ChangeVectorAnalyzer.ParseWritten | src/Akka.Persistence.RavenDB/ChangeVectorAnalyzer.cs:13-21 | the matches of written elements parse back to those elements |
| ChangeVectorAnalyzer.FormatRoundTrip | src/Akka.Persistence.RavenDB/ChangeVectorAnalyzer.cs:9-24 | parsing inverts formatting: a change vector written as `T:etag-dbid, ...` gives exactly its elements, in order |
| ChangeVectorOffsets.CompareTo | src/Akka.Persistence.RavenDB/Query/ChangeVectorOffset.cs:17-20 | comparing two change-vector offsets always fails with NotSupported |
| ChangeVectorOffsets.Create | src/Akka.Persistence.RavenDB/Query/ChangeVectorOffset.cs:12-16 | the offset keeps the change vector and has one element per match, with that match's database id |
| ChangeVectorOffsets.CreateFails | src/Akka.Persistence.RavenDB/Query/ChangeVectorOffset.cs:15 | creating an offset fails exactly when some match's etag does not parse as a long |
| ChangeVectorOffsets.ToString | src/Akka.Persistence.RavenDB/Query/ChangeVectorOffset.cs:27 | re-creating an offset from its text gives the same offset back |
| ChangeVectorOffsets.Clone | src/Akka.Persistence.RavenDB/Query/ChangeVectorOffset.cs:22-25 | a clone has the original's change vector, and equals the original |
| ChangeVectorOffsets.EmptyOffset | src/Akka.Persistence.RavenDB/Query/ChangeVectorOffset.cs:12-16 | the empty change vector gives an offset without elements |
| ChangeVectorOffsets.OrderClauses | src/Akka.Persistence.RavenDB/Query/ChangeVectorOffset.cs:51-54 | one OrderBy per element, in element order |
| ChangeVectorOffsets.OpenedAll | src/Akka.Persistence.RavenDB/Query/ChangeVectorOffset.cs:31-49 | the first loop appends the sub-clause of lower bounds, or nothing for an empty offset |
| ChangeVectorOffsets.ApplyOffset | src/Akka.Persistence.RavenDB/Query/ChangeVectorOffset.cs:29-56 | the query gains the lower-bound sub-clause and then the orderings |
| ChangeVectorOffsets.JoinedMeaning | src/Akka.Persistence.RavenDB/Query/ChangeVectorOffset.cs:31-49 | the OrElse chain holds exactly when some element's field is above its etag |
| ChangeVectorOffsets.FilteringOffset | src/Akka.Persistence.RavenDB/Query/ChangeVectorOffset.cs:29-56 | without the orderings, the appended clauses are the filter |
| ChangeVectorOffsets.OffsetMeaning | src/Akka.Persistence.RavenDB/Query/ChangeVectorOffset.cs:29-56 | a document passes exactly when, for some element of the offset, its index field is above that element's etag; an empty offset passes every document |
| IndexQueries.FieldsOf | src/Akka.Persistence.RavenDB/Journal/EventsByTagAndChangeVector.cs:20 | the index entry has a field exactly for each database id of the change vector |
| IndexQueries.Selected | src/Akka.Persistence.RavenDB/Journal/EventsByTagAndChangeVector.cs:11-21 | the selection has no more results than there are keys |
| IndexQueries.SelectedMembers | src/Akka.Persistence.RavenDB/Journal/EventsByTagAndChangeVector.cs:11-21 | a result is selected exactly when a key names it and the query admits it |
| IndexQueries.AnswerMembers | src/Akka.Persistence.RavenDB/Journal/EventsByTagAndChangeVector.cs:11-21 | a result is in the answer exactly when it is a stored document the query admits |
| IndexQueries.StreamQuery | src/Akka.Persistence.RavenDB/Query/RavenDbReadJournal.cs:157 | the stream returns the answer |
| IndexQueries.SelectAll | src/Akka.Persistence.RavenDB/Query/RavenDbReadJournal.cs:157 | the kept results are exactly the selection of admitted documents among the streamed ids, in their order |
| QueryTypes.Outcome | src/Akka.Persistence.RavenDB/Query/RavenDbReadJournal.cs:166-171 | a one-shot query completes normally exactly when nothing was raised, and otherwise faults with the exception |
| QueryTypes.Envelope | src/Akka.Persistence.RavenDB/Query/RavenDbReadJournal.cs:162 | the envelope carries the event's entity, sequence number, timestamp and tags, and the deserialized payload |
| QueryTypes.Channel.constructor | src/Akka.Persistence.RavenDB/Query/RavenDbReadJournal.cs:53 | a new channel is empty and open |
| QueryTypes.Channel.Write | src/Akka.Persistence.RavenDB/Query/RavenDbReadJournal.cs:73 | an open channel appends the item; a completed one refuses it with ChannelClosed |
| QueryTypes.Channel.WriteAll | src/Akka.Persistence.RavenDB/Query/RavenDbReadJournal.cs:70-74 | every item is appended in order, or nothing is when the channel is completed |
| QueryTypes.Channel.TryComplete | src/Akka.Persistence.RavenDB/Query/RavenDbReadJournal.cs:76-80 | only the first completion takes effect |
| QueryPasses.ByIdWrites | src/Akka.Persistence.RavenDB/Query/ContinuousQuery/EventsByPersistenceId.cs:35-46 | a by-id pass writes a leading run of the documents as envelopes, all at or below `to`; without an exception it stops only at the end or above `to`, leaving the cursor at the last event written |
| QueryPasses.ByIdDocsAscend | src/Akka.Persistence.RavenDB/Query/ContinuousQuery/EventsByPersistenceId.cs:33-34 | the documents a by-id pass streams are the entity's, above the cursor, in strictly ascending order |
| QueryPasses.ByIdAdvances | src/Akka.Persistence.RavenDB/Query/ContinuousQuery/EventsByPersistenceId.cs:27-46 | a by-id pass writes only the entity's events, strictly ascending, above the cursor and at or below `to`; the cursor never moves back |
| QueryPasses.ByIdNoRepeats | src/Akka.Persistence.RavenDB/Query/ContinuousQuery/EventsByPersistenceId.cs:45 | successive passes never write an event twice, whatever the store gained in between |
| QueryPasses.ByIdDoneStaysQuiet | src/Akka.Persistence.RavenDB/Query/ContinuousQuery/EventsByPersistenceId.cs:49-52 | once the cursor reaches `to`, a pass writes and raises nothing |
| QueryPasses.ByIdWritesUpTo | src/Akka.Persistence.RavenDB/Query/ContinuousQuery/EventsByPersistenceId.cs:35-46 | over ascending documents, a pass that raised nothing wrote every document at or below `to` |
| QueryPasses.ByIdComplete | src/Akka.Persistence.RavenDB/Query/ContinuousQuery/EventsByPersistenceId.cs:27-46 | a pass that raised nothing wrote every event of the entity above the cursor and at or below `to` |
| QueryPasses.EventAnswerMembers | src/Akka.Persistence.RavenDB/Query/ContinuousQuery/EventsByTag.cs:36-37 | the event index returns exactly the stored events with the tag, when there is one, that are past the offset |
| QueryPasses.ByTagWrites | src/Akka.Persistence.RavenDB/Query/ContinuousQuery/EventsByTag.cs:40-48 | a by-tag pass writes a leading run of results, each with its own change vector as offset; it writes all of them when nothing was raised, and the offset is replaced by the last one's, not merged |
| QueryPasses.ByTagEmitted | src/Akka.Persistence.RavenDB/Query/ContinuousQuery/EventsByTag.cs:40-48 | each envelope a by-tag pass writes is the deserialized result at the same position, carrying that result's own change vector as its offset |
| QueryPasses.ByTagSettles | src/Akka.Persistence.RavenDB/Query/ContinuousQuery/EventsByTag.cs:40-48 | a by-tag pass that raises nothing has written every result, parsed every result's change vector, and leaves the offset at the last result's change vector |
| QueryPasses.ByTagEmitsAdmitted | src/Akka.Persistence.RavenDB/Query/ContinuousQuery/EventsByTag.cs:36-48 | every envelope written is that of a stored, tagged event past the starting offset, with its own change vector as offset |
| QueryPasses.ByTagEmitsAll | src/Akka.Persistence.RavenDB/Query/ContinuousQuery/EventsByTag.cs:36-48 | a pass that raised nothing wrote every stored tagged event past the offset |
| QueryPasses.MergeWrites | src/Akka.Persistence.RavenDB/Query/ContinuousQuery/AllEvents.cs:29-36 | an all-events pass writes a leading run of results with merged offsets, all of them when nothing was raised, and never moves its offset |
| QueryPasses.ActorAnswerMembers | src/Akka.Persistence.RavenDB/Journal/ActorsByChangeVector.cs:12-19 | the actor index returns exactly the stored markers past the offset |
| QueryPasses.MarkerIds | src/Akka.Persistence.RavenDB/Query/RavenDbReadJournal.cs:72 | one entity id per marker |
| QueryPasses.AllMarkerIds | src/Akka.Persistence.RavenDB/Query/RavenDbReadJournal.cs:69-74 | the ids listed are exactly those some stored marker names |
| QueryPasses.PersistenceIdsStartUnbounded | src/Akka.Persistence.RavenDB/Query/ContinuousQuery/PersistenceIds.cs:12-15 | the empty change vector gives the empty offset, which admits every stored marker |
| QueryPasses.IdsWrites | src/Akka.Persistence.RavenDB/Query/ContinuousQuery/PersistenceIds.cs:28-33 | a persistence-ids pass writes the markers' entity ids in stream order, all of them when nothing was raised, and leaves the offset at the last marker's change vector |
| QueryPasses.IdsEmitted | src/Akka.Persistence.RavenDB/Query/ContinuousQuery/PersistenceIds.cs:28-33 | the ids a persistence-ids pass writes are the entity ids of a leading run of the markers, in stream order |
| QueryPasses.IdsSettles | src/Akka.Persistence.RavenDB/Query/ContinuousQuery/PersistenceIds.cs:28-33 | a persistence-ids pass that raises nothing has written every marker, every marker's change vector parsed, and the offset is the last marker's |
| ContinuousQueries.Fault | src/Akka.Persistence.RavenDB/Query/ContinuousQuery/ContinuousQuery.cs:44-47 | a raised exception faults an open channel and ends the loop; otherwise the loop goes on |
| ContinuousQueries.OffsetQuery | src/Akka.Persistence.RavenDB/Query/ContinuousQuery/EventsByTag.cs:36-37 | the query is the tag filter followed by the offset's clauses |
| ContinuousQueries.StreamById | src/Akka.Persistence.RavenDB/Query/ContinuousQuery/EventsByPersistenceId.cs:35-46 | the loop writes exactly the pass's envelopes and returns its exception and cursor |
| ContinuousQueries.StreamByTag | src/Akka.Persistence.RavenDB/Query/ContinuousQuery/EventsByTag.cs:40-48 | the loop writes exactly the pass's envelopes and returns its exception and offset |
| ContinuousQueries.StreamMerged | src/Akka.Persistence.RavenDB/Query/ContinuousQuery/AllEvents.cs:29-36 | the loop writes exactly the pass's envelopes and returns its exception |
| ContinuousQueries.StreamIds | src/Akka.Persistence.RavenDB/Query/ContinuousQuery/PersistenceIds.cs:28-33 | the loop writes exactly the pass's ids and returns its exception and offset |
| ContinuousQueries.EventsByPersistenceId.constructor | src/Akka.Persistence.RavenDB/Query/ContinuousQuery/EventsByPersistenceId.cs:14-19 | the cursor starts at `from - 1`, with wrap-around |
| ContinuousQueries.EventsByPersistenceId.Query | src/Akka.Persistence.RavenDB/Query/ContinuousQuery/EventsByPersistenceId.cs:27-53 | one pass appends the pass's envelopes and moves the cursor; when the pass raised nothing and the cursor has reached `to`, the channel completes |
| ContinuousQueries.EventsByTag.constructor | src/Akka.Persistence.RavenDB/Query/ContinuousQuery/EventsByTag.cs:16-20 | the query starts from the given tag and offset |
| ContinuousQueries.EventsByTag.Query | src/Akka.Persistence.RavenDB/Query/ContinuousQuery/EventsByTag.cs:27-49 | one pass appends the envelopes of the tagged events past the offset and replaces the offset |
| ContinuousQueries.AllEvents.constructor | src/Akka.Persistence.RavenDB/Query/ContinuousQuery/AllEvents.cs:12-15 | the query starts from the given offset |
| ContinuousQueries.AllEvents.Query | src/Akka.Persistence.RavenDB/Query/ContinuousQuery/AllEvents.cs:22-37 | one pass appends the envelopes of every event past the offset, and leaves the offset alone |
| ContinuousQueries.PersistenceIds.constructor | src/Akka.Persistence.RavenDB/Query/ContinuousQuery/PersistenceIds.cs:12-15 | the query starts from the empty offset |
| ContinuousQueries.PersistenceIds.Query | src/Akka.Persistence.RavenDB/Query/ContinuousQuery/PersistenceIds.cs:22-34 | one pass appends the ids of the markers past the offset and moves the offset |
| ReadJournal.RavenDbReadJournal.constructor | src/Akka.Persistence.RavenDB/Query/RavenDbReadJournal.cs:34-40 | the journal keeps its store and serialization |
| ReadJournal.RavenDbReadJournal.PersistenceIds | src/Akka.Persistence.RavenDB/Query/RavenDbReadJournal.cs:51-58 | a fresh open channel and a query from the empty offset |
| ReadJournal.RavenDbReadJournal.EventsByPersistenceId | src/Akka.Persistence.RavenDB/Query/RavenDbReadJournal.cs:87-94 | a fresh open channel and a query whose cursor is `from - 1` |
| ReadJournal.RavenDbReadJournal.EventsByTag | src/Akka.Persistence.RavenDB/Query/RavenDbReadJournal.cs:134-141 | a fresh open channel and a query from the offset |
| ReadJournal.RavenDbReadJournal.AllEvents | src/Akka.Persistence.RavenDB/Query/RavenDbReadJournal.cs:177-184 | a fresh open channel and a query from the offset |
| ReadJournal.RavenDbReadJournal.CurrentPersistenceIds | src/Akka.Persistence.RavenDB/Query/RavenDbReadJournal.cs:60-85 | the channel holds the entity id of every stored marker, and completes |
| ReadJournal.RavenDbReadJournal.CurrentEventsByPersistenceId | src/Akka.Persistence.RavenDB/Query/RavenDbReadJournal.cs:96-132 | the channel holds the by-id pass over the entity's events after `from - 1`; it completes normally, or faults with the exception raised |
| ReadJournal.RavenDbReadJournal.CurrentEventsByTag | src/Akka.Persistence.RavenDB/Query/RavenDbReadJournal.cs:143-175 | the channel holds the by-tag pass over the tagged events past the offset, then completes or faults |
| ReadJournal.RavenDbReadJournal.CurrentAllEvents | src/Akka.Persistence.RavenDB/Query/RavenDbReadJournal.cs:186-216 | the channel holds the pass over every event past the offset, then completes or faults |
| SnapshotTypes.ManifestFor | src/Akka.Persistence.RavenDB/Snapshot/Types/Snapshot.cs:49-54 | a string manifest wins, then the type name when the serializer includes a manifest, else empty |
| SnapshotTypes.StoredForm | src/Akka.Persistence.RavenDB/Snapshot/Types/Snapshot.cs:36-47 | the stored payload is the object under serializer 1 and its bytes otherwise, with the serializer's id |
| SnapshotTypes.Restore | src/Akka.Persistence.RavenDB/Snapshot/Types/Snapshot.cs:59-65 | a raw payload is returned as is; a non-raw payload that is not bytes fails the cast |
| SnapshotTypes.SnapshotRoundTrip | src/Akka.Persistence.RavenDB/Snapshot/Types/Snapshot.cs:27-65 | restoring what was stored gives the snapshot back, always under serializer 1 and through a faithful serializer otherwise |
| SnapshotTypes.Snapshot.Doc | src/Akka.Persistence.RavenDB/Snapshot/Types/Snapshot.cs:6-13 | the stored document holds exactly the entity's six fields |
| SnapshotTypes.Snapshot.FromDoc | src/Akka.Persistence.RavenDB/Snapshot/RavenDbSnapshotStore.cs:139-146 | the loaded entity holds the stored document |
| SnapshotTypes.Snapshot.Serialize | src/Akka.Persistence.RavenDB/Snapshot/Types/Snapshot.cs:27-57 | the entity copies the metadata, and holds the stored form and the manifest |
| SnapshotTypes.Snapshot.CopyTo | src/Akka.Persistence.RavenDB/Snapshot/Types/Snapshot.cs:16-26 | a target with another sequence number is refused and left unchanged; otherwise it gets this snapshot's contents |
| SnapshotTypes.Snapshot.ToSelectedSnapshot | src/Akka.Persistence.RavenDB/Snapshot/Types/Snapshot.cs:59-65 | the metadata is kept; the result succeeds exactly when restoring succeeds, and then the payload is replaced by the restored one |
| LegacySnapshot.LegacySnapshotEntity.Serialize | src/Akka.Persistence.RavenDB/Snapshot/Snapshot.cs:15-45 | as the current entity: the metadata, the stored form and the manifest |
| LegacySnapshot.LegacySnapshotEntity.ToSelectedSnapshot | src/Akka.Persistence.RavenDB/Snapshot/Snapshot.cs:47-53 | as the current entity: the metadata is kept and a non-raw payload is restored in place |
| SnapshotStore.GetSnapshotPrefix | src/Akka.Persistence.RavenDB/Snapshot/RavenDbSnapshotStore.cs:206 | the snapshot prefix is the event prefix built on the snapshots collection |
| SnapshotStore.GetSnapshotId | src/Akka.Persistence.RavenDB/Snapshot/RavenDbSnapshotStore.cs:207-214 | a snapshot id is the event id built on the snapshots collection: a negative sequence number becomes 0 |
| SnapshotStore.SnapshotIdLayout | src/Akka.Persistence.RavenDB/Snapshot/RavenDbSnapshotStore.cs:206-214 | a snapshot id is the entity prefix followed by 19 digits that read back as the sequence number, with 0 for anything below 1 |
| SnapshotStore.SnapshotIdInjective | src/Akka.Persistence.RavenDB/Snapshot/RavenDbSnapshotStore.cs:208-214 | two snapshot ids are equal exactly when entity and clamped sequence number are |
| SnapshotStore.SnapshotIdOrder | src/Akka.Persistence.RavenDB/Snapshot/RavenDbSnapshotStore.cs:208-214 | for one entity, snapshot id order is clamped sequence order |
| SnapshotStore.SnapshotPrefixIsolation | src/Akka.Persistence.RavenDB/Snapshot/RavenDbSnapshotStore.cs:206-214 | without '/' in entity ids, a snapshot prefix covers only its entity's ids |
| SnapshotStore.SnapshotScanCovers | src/Akka.Persistence.RavenDB/Snapshot/RavenDbSnapshotStore.cs:107 | a scan visits exactly the entity's snapshots whose clamped sequence number is above that of the start (the delete path at line 190 streams the same way) |
| SnapshotStore.LoadWindow | src/Akka.Persistence.RavenDB/Snapshot/RavenDbSnapshotStore.cs:107 | an admissible snapshot is visited exactly when it is the entity's, has sequence number at least 1, and MinSequenceNr is not long.MinValue |
| SnapshotStore.LastAdmissible | src/Akka.Persistence.RavenDB/Snapshot/RavenDbSnapshotStore.cs:112-118 | what is picked is one of the keys and passes the load filter |
| SnapshotStore.LastAdmissibleIsLast | src/Akka.Persistence.RavenDB/Snapshot/RavenDbSnapshotStore.cs:112-118 | over ascending ids, nothing is picked exactly when nothing passes, and what is picked comes after every other passing id |
| SnapshotStore.Selection | src/Akka.Persistence.RavenDB/Snapshot/RavenDbSnapshotStore.cs:124 | the selection succeeds exactly when restoring the payload does, and keeps the stored metadata |
| SnapshotStore.LoadPicksHighest | src/Akka.Persistence.RavenDB/Snapshot/RavenDbSnapshotStore.cs:93-125 | the load picks the entity's admissible snapshot with the highest sequence number among those at 1 or above, and finds none only when there is none or MinSequenceNr is long.MinValue |
| SnapshotStore.SaveEffect | src/Akka.Persistence.RavenDB/Snapshot/RavenDbSnapshotStore.cs:127-162 | success stores the document under its id and failure changes nothing; it fails exactly for an unsupported mode, under ClusterWide when the stored document has another sequence number, or when the commit is refused, and then with the commit's message; Majority with an accepted commit waits for nodeCount/2 replicas |
| SnapshotStore.Exactly | src/Akka.Persistence.RavenDB/Snapshot/RavenDbSnapshotStore.cs:112-118 | these criteria admit exactly one sequence number and timestamp |
| SnapshotStore.SaveThenLoad | src/Akka.Persistence.RavenDB/Snapshot/RavenDbSnapshotStore.cs:93-162 | after a successful save, whose commit was accepted, the store stays well keyed, and loading that sequence number and time gives the saved snapshot back |
| SnapshotStore.ShouldDelete | src/Akka.Persistence.RavenDB/Snapshot/RavenDbSnapshotStore.cs:194-196 | a snapshot is deleted exactly when it is within both upper bounds, whatever the lower bounds say; every snapshot the criteria admit is deleted |
| SnapshotStore.Doomed | src/Akka.Persistence.RavenDB/Snapshot/RavenDbSnapshotStore.cs:194-199 | exactly the keys whose snapshots are within both upper bounds |
| SnapshotStore.DeleteMatchingRemoves | src/Akka.Persistence.RavenDB/Snapshot/RavenDbSnapshotStore.cs:179-204 | deleting by criteria removes exactly the entity's snapshots above `MinSequenceNr - 1` and within both upper bounds |
| SnapshotStore.DeletedNeverLoaded | src/Akka.Persistence.RavenDB/Snapshot/RavenDbSnapshotStore.cs:164-177 | after deleting an id, no load returns it |
| SnapshotStore.LastValid | src/Akka.Persistence.RavenDB/Snapshot/RavenDbSnapshotStore.cs:108-119 | the load loop remembers the last passing snapshot |
| SnapshotStore.Deletes | src/Akka.Persistence.RavenDB/Snapshot/RavenDbSnapshotStore.cs:191-200 | the delete loop marks exactly the passing snapshots |
| SnapshotStore.RavenDbSnapshotStore.constructor | src/Akka.Persistence.RavenDB/Snapshot/RavenDbSnapshotStore.cs:27-33 | the store keeps its database, serialization and save mode |
| SnapshotStore.RavenDbSnapshotStore.LoadAsync | src/Akka.Persistence.RavenDB/Snapshot/RavenDbSnapshotStore.cs:93-125 | the answer is the specified load |
| SnapshotStore.RavenDbSnapshotStore.SaveAsync | src/Akka.Persistence.RavenDB/Snapshot/RavenDbSnapshotStore.cs:127-162 | given the commit's reply, the outcome and the new snapshot collection are those of the specified save: a refused commit stores nothing; the other collections are unchanged |
| SnapshotStore.RavenDbSnapshotStore.DeleteAsync | src/Akka.Persistence.RavenDB/Snapshot/RavenDbSnapshotStore.cs:164-177 | an accepted commit removes exactly the id of that entity and sequence number; a refused commit raises its message and removes nothing |
| SnapshotStore.RavenDbSnapshotStore.DeleteMatchingAsync | src/Akka.Persistence.RavenDB/Snapshot/RavenDbSnapshotStore.cs:179-204 | an accepted commit removes exactly the scanned snapshots within both upper bounds; a refused commit raises its message and removes nothing |
| Configuration.SplitOn | src/Akka.Persistence.RavenDB/RavenDbConfiguration.cs:36 | the pieces contain no separator and join back to the input |
| Configuration.SplitJoin | src/Akka.Persistence.RavenDB/RavenDbConfiguration.cs:36 | splitting inverts joining |
| Configuration.ParseInt32 | src/Akka.Persistence.RavenDB/RavenDbConfiguration.cs:36 | a parsed component lies within int; a failure is a format or an overflow error |
| Configuration.ParseInt32Text | src/Akka.Persistence.RavenDB/RavenDbConfiguration.cs:36 | white space around, an optional `+` or `-` and decimal digits parse to the signed value, or overflow when it is outside int |
| Configuration.ParseInt32Rejects | src/Akka.Persistence.RavenDB/RavenDbConfiguration.cs:36 | any character that is not white space, a sign or a digit is a format error |
| Configuration.ParseComponents | src/Akka.Persistence.RavenDB/RavenDbConfiguration.cs:36 | each piece is read as an int; a negative one is refused as out of range; on success there is one component per piece, each within int |
| Configuration.ParseComponentsCons | src/Akka.Persistence.RavenDB/RavenDbConfiguration.cs:36 | a piece that reads as a non-negative int is put in front of the components of the rest |
| Configuration.ParseVersion | src/Akka.Persistence.RavenDB/RavenDbConfiguration.cs:36 | a parsed version is valid; a string without two to four pieces is refused as too short or too long |
| Configuration.SplitAtFirst | src/Akka.Persistence.RavenDB/RavenDbConfiguration.cs:36 | splitting at a first separator gives the text before it, then the pieces of the text after it |
| Configuration.ParseVersionLenient | src/Akka.Persistence.RavenDB/RavenDbConfiguration.cs:36 | `" 2.+0 "` parses as 2.0: white space and a `+` sign are accepted inside a component |
| Configuration.ParseVersionNegative | src/Akka.Persistence.RavenDB/RavenDbConfiguration.cs:36 | `"-1.0"` is refused as out of range |
| Configuration.VersionRoundTrip | src/Akka.Persistence.RavenDB/RavenDbConfiguration.cs:36 | parsing inverts formatting for every valid version |
| Configuration.ParseVersionErrors | src/Akka.Persistence.RavenDB/RavenDbConfiguration.cs:36 | a version parse never fails with a null-argument error |
| Configuration.ParseComponentsErrors | src/Akka.Persistence.RavenDB/RavenDbConfiguration.cs:36 | a component fails only with a format, overflow or out-of-range error |
| Configuration.DefaultVersionParses | src/Akka.Persistence.RavenDB/RavenDbConfiguration.cs:34-36 | the default "2.0" parses to 2.0 |
| Configuration.GetCertificate | src/Akka.Persistence.RavenDB/RavenDbConfiguration.cs:47-63 | the setup's certificate wins, then a non-empty path, whose load can fail with the loader's message; with neither, an https url is an error and otherwise there is no certificate |
| Configuration.AnyContains | src/Akka.Persistence.RavenDB/RavenDbConfiguration.cs:57 | true exactly when some url contains the text |
| Configuration.Load | src/Akka.Persistence.RavenDB/RavenDbConfiguration.cs:27-45 | missing name and missing urls are refused, in that order; on success each setting is the configured value or its default, and the certificate is resolved as GetCertificate says, a failed certificate load included |
| Configuration.LoadNeverNullError | src/Akka.Persistence.RavenDB/RavenDbConfiguration.cs:27-45 | loading a section never raises the null-section error |
| Configuration.ToDocumentConventions | src/Akka.Persistence.RavenDB/RavenDbConfiguration.cs:67-79 | the plugin sets the http version, TCP compression and session-context load balancing; every convention the user's modifier assigns wins |
| Configuration.JournalConfigurationAsWritten | src/Akka.Persistence.RavenDB/RavenDbConfiguration.cs:85-90 | a missing section fails with a null reference inside the base constructor; a present section loads |
| Configuration.JournalNullCheckUnreachable | src/Akka.Persistence.RavenDB/RavenDbConfiguration.cs:87-89 | the as-written constructor never reaches its own ArgumentNullException |
| Configuration.JournalConfiguration | src/Akka.Persistence.RavenDB/RavenDbConfiguration.cs:85-90 | a missing section is refused with the ArgumentNullException, and only then; a present section loads |
| Configuration.QueryConfiguration | src/Akka.Persistence.RavenDB/RavenDbConfiguration.cs:139-148 | a missing section is refused with the ArgumentNullException, and only then; otherwise refresh 3 s, buffer 65536 and no wait for non-stale indexes are the defaults, and a configured refresh interval, buffer size or wait-for-non-stale flag wins |

## Left out

- Concurrency is not modelled: the reader/writer lock per entity, concurrent groups of one write batch, and the tasks that run the queries. Each operation runs alone and groups run in key order.
- Network and server calls are parameters: the reply to each commit (the journal's writes and deletes, and the snapshot store's save and deletes), the change vectors the server assigns, the database-creation attempt outcomes, and the cluster's node count.
- Session and transaction modes are not modelled. This covers cluster-wide transactions, `WaitForIndexesAfterSaveChanges` and session context.
- Timeouts, cancellation tokens, back-pressure of bounded channels and `Task.Delay` are not modelled.
- `DateTime.UtcNow` is a parameter `now`. The serializer lookup and Akka serialization are opaque functions.
- The continuous `Run` loop and its change subscription are not modelled. `Query` is one pass, and `ContinuousQueries.Fault` is the `catch` that ends the loop.
- Replay's wait for changes is not modelled. `RavenDbJournal.ReplayStep` returns AwaitChanges with the resume point instead. Replay keeps the resume rule as written (see Findings); the corrected rule is proved separately.
- `ChangeVectorOffset.Merge` and `ChangeVectorOffset.Convert` are not part of the source shown. Merge is a function parameter, and the queries take the converted offset.
- The indexes' result order (the `OrderBy` fields) is not modelled. Streamed index results come in ascending id order.
- An index change vector that does not parse gives no fields. When one database id appears twice in a change vector, the later element's field wins.
- `\w` and `\d` are modelled as their ASCII classes. Unicode letters and digits are not modelled.
- The `Current*` queries catch only the exceptions the model raises: deserialization, offset parsing and writing to a completed channel.
- Creating indexes (`EnsureIndexesCreatedAsync`), `PostStop`, and the logging in `CreateDatabaseAsync` are not modelled.
- The snapshot store's `Initialize` and `WaitingForInitialization` are the journal's code. `RavenDbJournal.Initialize`, `RavenDbJournal.Journal.Receive` and `StashGate` cover them.
- `SnapshotStore.LastValid` keeps the id of the last passing snapshot rather than the document. `LoadAsync` then materialises that document.
- `SnapshotStore.SaveEffect`: any `SaveChangesMode` other than the three named ones is `OtherMode`. The replica count for Majority is `nodeCount / 2` from a topology passed in.
- `EventMetadataScripts.UpdateScript`: the JavaScript loose comparison of the check with the stored number is modelled as equality with an optional integer.
- `RavenDbPersistence.CreateDatabase`: the 250 ms delay between attempts is not modelled.
- The snapshot settings constructor (src/Akka.Persistence.RavenDB/RavenDbConfiguration.cs:110-115) has the journal's shape and only its message differs, so it is not modelled separately. The finding below applies to it as well.
- Loading a certificate file is a parameter: `X509Certificate2` gives a certificate or an error message for the path and the password variable.
- Configuration.ParseInt32: `int.Parse` also accepts trailing NUL characters after the digits; the model accepts only white space around an optional `+` or `-` and the ASCII digits.
- RavenDbPersistence.MetadataIdInjective: RavenDB compares document ids case-insensitively, so two entities whose ids differ only in case share one record in the store; the lemma is about the id strings.
- RavenDbPersistence.SequenceIdInjective: ids are compared case-insensitively by the store; the lemma holds of the id strings, not of the store's identity of documents.
- RavenDbPersistence.PrefixIsolation: `startsWith` scans are case-insensitive in RavenDB, so an entity's prefix also covers ids of entities differing only in case; like the '/' condition, the model leaves that out.
- SnapshotStore.SnapshotIdInjective: as for event ids, the store compares snapshot ids case-insensitively; the lemma is about the strings.
- SnapshotStore.SnapshotPrefixIsolation: snapshot prefix scans are case-insensitive in RavenDB; the lemma is about ordinal prefixes.
- IndexQueries.SelectedMembers: the index's `ContainsAny` tag match is case-insensitive in RavenDB; the model compares tags exactly.
- `GetDocumentOperation`, the hosting extensions and the option classes are not part of this model.

## Findings

| source | as written | input that shows it | evidently intended | confidence | as-written member | corrected member |
|---|---|---|---|---|---|---|
| src/Akka.Persistence.RavenDB/Journal/RavenDbJournal.cs:160 | after delivering an event, `fromSequenceNr` is set to that event's own number, and the next pass starts after the id of `fromSequenceNr - 1`; `RavenDbJournal.Journal.ReplayMessages` and `RunPass` keep this rule | a replay whose first pass runs out of events below `to` while budget remains, so the journal waits and passes again: the last event is delivered a second time and `max` is spent on it | `fromSequenceNr = message.SequenceNr + 1`, so the next pass starts after the last delivered event | not executed | JournalSpec.ResumeRedelivers | JournalSpec.ResumeSkipsDelivered |
| src/Akka.Persistence.RavenDB/RavenDbConfiguration.cs:85-90 | the null check for the HOCON section comes after the base constructor, which already reads `name` from the section | a missing journal (or snapshot) section: `config == null` | refusing a missing section with the ArgumentNullException and its message | not executed | Configuration.JournalConfigurationAsWritten | Configuration.JournalConfiguration |
