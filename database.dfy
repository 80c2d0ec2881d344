/**
 * The document store the plugin talks to, reduced to one map per collection
 * from document id to document. Event and actor-marker documents carry the
 * change vector the server gave them when they were last written.
 */
module Database {
  import opened Wrappers
  import opened StorageFormat
  import opened EventCodec
  import opened SnapshotTypes
  import opened RavenDbPersistence

  /** A change vector, as the server formats it (`A:12-dbid, B:7-dbid`). */
  type ChangeVector = string

  datatype Stored<T> = Stored(doc: T, changeVector: ChangeVector)

  /** `EventMetadata`; documents created by a patch script have no Timestamp. */
  datatype EventMetadataDoc = EventMetadataDoc(persistenceId: string, maxSequenceNr: int64, timestamp: Option<Ticks>)

  /** `UniqueActor`: one marker per entity that ever wrote an event. */
  datatype UniqueActorDoc = UniqueActorDoc(persistenceId: string, createdAt: Ticks)

  const UniqueActorsPrefix: string := "UniqueActors/"

  function UniqueActorId(persistenceId: string): (id: string)
    ensures UniqueActorsPrefix <= id && id[|UniqueActorsPrefix|..] == persistenceId
  {
    UniqueActorsPrefix + persistenceId
  }

  class DocumentStore {
    const collections: Collections
    var events: map<string, Stored<Event>>
    var metadata: map<string, EventMetadataDoc>
    var actors: map<string, Stored<UniqueActorDoc>>
    var snapshots: map<string, SnapshotDoc>

    constructor (collections: Collections)
      ensures this.collections == collections
      ensures events == map[] && metadata == map[] && actors == map[] && snapshots == map[]
    {
      this.collections := collections;
      events, metadata, actors, snapshots := map[], map[], map[], map[];
    }
  }
}
