/**
 * RavenDbStore: the document ids of events and of per-entity metadata, and the
 * bounded retry that creates the database.
 */
module RavenDbPersistence {
  import opened Wrappers
  import opened Text
  import opened KeyOrder
  import opened StorageFormat

  /** Collection names that the client conventions assign to the stored types. */
  datatype Collections = Collections(events: string, eventsMetadata: string, snapshots: string)

  /** `sequenceNr <= 0` is replaced by 0 before formatting. */
  function Clamp(sequenceNr: int64): (r: int64)
    ensures r >= 0 && (sequenceNr > 0 ==> r == sequenceNr) && (sequenceNr <= 0 ==> r == 0)
  {
    if sequenceNr <= 0 then 0 else sequenceNr
  }

  /** `{EventsMetadataCollection}/{persistenceId}` */
  function GetMetadataId(c: Collections, persistenceId: string): (id: string)
    ensures c.eventsMetadata + "/" <= id && id[|c.eventsMetadata| + 1..] == persistenceId
  {
    c.eventsMetadata + "/" + persistenceId
  }

  /** Each entity has its own metadata document id. */
  lemma MetadataIdInjective(c: Collections, p: string, q: string)
    ensures GetMetadataId(c, p) == GetMetadataId(c, q) <==> p == q
  {
    if GetMetadataId(c, p) == GetMetadataId(c, q) {
      var n := |c.eventsMetadata| + 1;
      assert p == GetMetadataId(c, p)[n..] == GetMetadataId(c, q)[n..] == q;
    }
  }

  /** `{EventsCollection}/{persistenceId}/` */
  function GetEventPrefix(c: Collections, persistenceId: string): (prefix: string)
    ensures c.events + "/" <= prefix && prefix[|c.events| + 1..] == persistenceId + "/"
  {
    c.events + "/" + persistenceId + "/"
  }

  /** The event prefix followed by the 19-digit, clamped sequence number. */
  function GetSequenceId(c: Collections, persistenceId: string, sequenceNr: int64): (id: string)
    ensures GetEventPrefix(c, persistenceId) <= id && |id| == |GetEventPrefix(c, persistenceId)| + Width
  {
    GetEventPrefix(c, persistenceId) + ToLeadingZerosFormat(Clamp(sequenceNr))
  }

  /**
   * An event id is its entity's prefix followed by exactly 19 digits, which
   * read back as the clamped sequence number.
   */
  lemma SequenceIdLayout(c: Collections, persistenceId: string, sequenceNr: int64)
    ensures var prefix := GetEventPrefix(c, persistenceId);
            var id := GetSequenceId(c, persistenceId, sequenceNr);
            && prefix <= id
            && |id| == |prefix| + Width
            && AllDigits(id[|prefix|..])
            && DecimalValue(id[|prefix|..]) == Clamp(sequenceNr)
  {
    var prefix := GetEventPrefix(c, persistenceId);
    var digits := ToLeadingZerosFormat(Clamp(sequenceNr));
    FormatLayout(Clamp(sequenceNr));
    assert (prefix + digits)[|prefix|..] == digits;
  }

  /**
   * Two event ids are equal exactly when they name the same entity and the
   * same clamped sequence number: every n <= 0 shares the id of 0, and no
   * two entities share an id.
   */
  lemma SequenceIdInjective(c: Collections, p: string, q: string, a: int64, b: int64)
    ensures GetSequenceId(c, p, a) == GetSequenceId(c, q, b) <==> p == q && Clamp(a) == Clamp(b)
  {
    var ia, ib := GetSequenceId(c, p, a), GetSequenceId(c, q, b);
    SequenceIdLayout(c, p, a);
    SequenceIdLayout(c, q, b);
    if ia == ib {
      var pa, pb := GetEventPrefix(c, p), GetEventPrefix(c, q);
      assert |p| == |q|;
      assert pa == ia[..|pa|] && pb == ib[..|pb|];
      assert p == pa[|c.events| + 1..|pa| - 1];
      assert Clamp(a) == DecimalValue(ia[|pa|..]);
    }
  }

  /** For one entity, id order is clamped sequence order, in both directions. */
  lemma SequenceIdOrder(c: Collections, p: string, a: int64, b: int64)
    ensures Less(GetSequenceId(c, p, a), GetSequenceId(c, p, b)) <==> Clamp(a) < Clamp(b)
  {
    var prefix := GetEventPrefix(c, p);
    var fa, fb := ToLeadingZerosFormat(Clamp(a)), ToLeadingZerosFormat(Clamp(b));
    LessCommonPrefix(prefix, fa, fb);
    if Clamp(a) < Clamp(b) {
      FormatOrder(Clamp(a), Clamp(b));
    } else if Clamp(a) == Clamp(b) {
      LessIrreflexive(fa);
    } else {
      FormatOrder(Clamp(b), Clamp(a));
      LessAsymmetric(fb, fa);
    }
  }

  /** When ids contain no '/', an entity's prefix only covers that entity's event ids. */
  lemma PrefixIsolation(c: Collections, p: string, q: string, n: int64)
    requires '/' !in p && '/' !in q
    requires GetEventPrefix(c, p) <= GetSequenceId(c, q, n)
    ensures p == q
  {
    PrefixSeparator(c, p, q, n);
  }

  /** Where an entity's prefix ends inside another entity's event id there is a '/'. */
  lemma PrefixSeparator(c: Collections, p: string, q: string, n: int64)
    requires GetEventPrefix(c, p) <= GetSequenceId(c, q, n)
    ensures |p| < |q| ==> q[|p|] == '/'
    ensures |q| < |p| ==> p[|q|] == '/'
    ensures |p| == |q| ==> p == q
  {
    var pp, id := GetEventPrefix(c, p), GetSequenceId(c, q, n);
    var base := |c.events| + 1;
    assert pp == c.events + "/" + p + "/";
    assert id == c.events + "/" + q + "/" + ToLeadingZerosFormat(Clamp(n));
    if |p| < |q| {
      assert q[|p|] == id[base + |p|] == pp[base + |p|];
    } else if |q| < |p| {
      assert p[|q|] == pp[base + |q|] == id[base + |q|];
    } else {
      assert p == pp[base..base + |p|] == id[base..base + |q|] == q;
    }
  }

  /** An id that contains '/' can fall under another entity's prefix. */
  lemma SlashBreaksIsolation(c: Collections, p: string, r: string, n: int64)
    ensures GetEventPrefix(c, p) <= GetSequenceId(c, p + "/" + r, n)
  {
    var f := ToLeadingZerosFormat(Clamp(n));
    assert GetSequenceId(c, p + "/" + r, n) == GetEventPrefix(c, p) + (r + "/" + f);
  }

  // ---- CreateDatabaseAsync -------------------------------------------------

  /** What one attempt observes from the server; the server calls themselves are not modelled. */
  datatype AttemptOutcome =
    | RecordFound                         // GetDatabaseRecordOperation returned a record
    | Created                             // no record; creation and the raft wait completed
    | ConcurrencyError(message: string)   // ConcurrencyException
    | Cancelled                           // OperationCanceledException or TaskCanceledException
    | DatabaseDisabled                    // DatabaseDisabledException
    | OtherError(message: string)         // any other exception

  datatype Cause =
    | ConcurrencyCause(message: string)
    | ErrorCause(message: string)

  /** Akka's Status.Success / Status.Failure. */
  datatype Status = StatusSuccess | StatusFailure(cause: Cause)

  const CreateDatabaseTries: nat := 5
  const GaveUpMessage: string := "Failed to create database after 5 tries"

  /** The status an attempt ends the procedure with, or None when it is retried. */
  function AttemptStatus(o: AttemptOutcome): (r: Option<Status>)
    ensures r.None? <==> o.DatabaseDisabled?
    ensures r == Some(StatusSuccess) <==>
              (o.RecordFound? || o.Created? || o.Cancelled? || (o.ConcurrencyError? && Contains(o.message, "exists")))
  {
    match o
    case RecordFound => Some(StatusSuccess)
    case Created => Some(StatusSuccess)
    case ConcurrencyError(m) =>
      if Contains(m, "exists") then Some(StatusSuccess) else Some(StatusFailure(ConcurrencyCause(m)))
    case Cancelled => Some(StatusSuccess)
    case DatabaseDisabled => None
    case OtherError(m) => Some(StatusFailure(ErrorCause(m)))
  }

  /**
   * `CreateDatabaseAsync`: attempt `i` (from 0) observes `outcome(i)`. It stops at
   * the first attempt that is not a DatabaseDisabledException, and gives up after five.
   */
  method CreateDatabase(outcome: nat -> AttemptOutcome) returns (status: Status, attempts: nat)
    ensures 1 <= attempts <= CreateDatabaseTries
    ensures forall i :: 0 <= i < attempts - 1 ==> outcome(i).DatabaseDisabled?
    ensures attempts < CreateDatabaseTries ==> !outcome(attempts - 1).DatabaseDisabled?
    ensures AttemptStatus(outcome(attempts - 1)).Some? ==> status == AttemptStatus(outcome(attempts - 1)).value
    ensures outcome(attempts - 1).DatabaseDisabled? ==>
              attempts == CreateDatabaseTries && status == StatusFailure(ErrorCause(GaveUpMessage))
    ensures status == StatusFailure(ErrorCause(GaveUpMessage)) <==>
              (forall i :: 0 <= i < CreateDatabaseTries ==> outcome(i).DatabaseDisabled?) ||
              AttemptStatus(outcome(attempts - 1)) == Some(StatusFailure(ErrorCause(GaveUpMessage)))
  {
    var tries := CreateDatabaseTries;
    attempts := 0;
    while tries > 0
      invariant 0 <= tries <= CreateDatabaseTries && attempts == CreateDatabaseTries - tries
      invariant forall i :: 0 <= i < attempts ==> outcome(i).DatabaseDisabled?
    {
      var o := outcome(attempts);
      attempts := attempts + 1;
      match o {
        case RecordFound => return StatusSuccess, attempts;
        case Created => return StatusSuccess, attempts;
        case ConcurrencyError(m) =>
          if !Contains(m, "exists") {
            return StatusFailure(ConcurrencyCause(m)), attempts;
          }
          return StatusSuccess, attempts;
        case Cancelled => return StatusSuccess, attempts;
        case DatabaseDisabled =>
        case OtherError(m) => return StatusFailure(ErrorCause(m)), attempts;
      }
      tries := tries - 1;
    }
    status := StatusFailure(ErrorCause(GaveUpMessage));
  }
}
