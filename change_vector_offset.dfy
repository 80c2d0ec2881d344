/**
 * `ChangeVectorOffset`: a query offset made of a change vector, and the
 * lower bound it adds to an index query. The query is modelled as the list of
 * clauses appended to it, in the order the builder receives them.
 */
module ChangeVectorOffsets {
  import opened Wrappers
  import opened StorageFormat
  import opened ChangeVectorAnalyzer

  datatype ChangeVectorOffset = ChangeVectorOffset(changeVector: string, elements: seq<ChangeVectorElement>)

  datatype OffsetError = NotSupported(message: string)

  const CompareMessage: string := "you can't directly compare 2 change vectors"

  /** `new ChangeVectorOffset(changeVector)`: it fails where `ToList` fails. */
  function Create(changeVector: string): (r: Result<ChangeVectorOffset, ParseError>)
    ensures r.Success? ==>
              && r.value.changeVector == changeVector
              && |r.value.elements| == |Matches(changeVector)|
              && forall i :: 0 <= i < |r.value.elements| ==> r.value.elements[i].databaseId == Matches(changeVector)[i].databaseId
  {
    var elements :- Parse(Matches(changeVector));
    Success(ChangeVectorOffset(changeVector, elements))
  }

  /** Creating an offset fails exactly when one of the change vector's etags does not parse as a long. */
  lemma CreateFails(changeVector: string)
    ensures Create(changeVector).Failure? <==>
              exists i :: 0 <= i < |Matches(changeVector)| && ParseLong(Matches(changeVector)[i].digits).Failure?
  {
    var matches := Matches(changeVector);
    var r := Parse(matches);
    if r.Failure? {
      assert Create(changeVector).Failure?;
      var i :| 0 <= i < |matches| && ParseLong(matches[i].digits) == Failure(r.error);
    } else {
      assert Create(changeVector).Success?;
      forall i | 0 <= i < |matches|
        ensures ParseLong(matches[i].digits).Success?
      {
        assert ParseLong(matches[i].digits) == Success(r.value[i].etag);
      }
    }
  }

  /** `Clone`: a new offset built from the same change vector. */
  function Clone(offset: ChangeVectorOffset): (r: Result<ChangeVectorOffset, ParseError>)
    ensures r.Success? ==> r.value.changeVector == offset.changeVector
    ensures Create(offset.changeVector) == Success(offset) ==> r == Success(offset)
  {
    Create(offset.changeVector)
  }

  /** `ToString`: the change vector text. */
  function ToString(offset: ChangeVectorOffset): (r: string)
    ensures Create(offset.changeVector) == Success(offset) ==> Create(r) == Success(offset)
  {
    offset.changeVector
  }

  /** `CompareTo`: change-vector offsets refuse to be ordered. */
  function CompareTo(offset: ChangeVectorOffset, other: ChangeVectorOffset): (r: Result<int, OffsetError>)
    ensures r.Failure? && r.error == NotSupported(CompareMessage)
  {
    Failure(NotSupported(CompareMessage))
  }

  /** The offset of the empty change vector has no elements. */
  lemma EmptyOffset()
    ensures Create("") == Success(ChangeVectorOffset("", []))
  {
    NoMatchNoElements("");
  }

  // The query clauses.

  datatype Clause =
    | AndAlso
    | OrElse
    | OpenSubclause
    | CloseSubclause
    | WhereGreaterThan(field: string, value: int64)
    | OrderBy(field: string)

  function Where(e: ChangeVectorElement): Clause {
    WhereGreaterThan(e.databaseId, e.etag)
  }

  /** One `WhereGreaterThan` per element, joined by `OrElse`. */
  function Joined(elements: seq<ChangeVectorElement>): seq<Clause>
    requires elements != []
  {
    if |elements| == 1 then [Where(elements[0])]
    else Joined(elements[..|elements| - 1]) + [OrElse, Where(elements[|elements| - 1])]
  }

  /** The filtering part of the offset: nothing, or the disjunction in a sub-clause. */
  function WhereClauses(elements: seq<ChangeVectorElement>): seq<Clause> {
    if elements == [] then [] else [AndAlso, OpenSubclause] + Joined(elements) + [CloseSubclause]
  }

  /** One `OrderBy` per element, in element order. */
  function OrderClauses(elements: seq<ChangeVectorElement>): (r: seq<Clause>)
    ensures |r| == |elements| && forall i :: 0 <= i < |r| ==> r[i] == OrderBy(elements[i].databaseId)
  {
    if elements == [] then [] else OrderClauses(elements[..|elements| - 1]) + [OrderBy(elements[|elements| - 1].databaseId)]
  }

  /** Everything `ApplyOffset` appends to a query. */
  function OffsetClauses(elements: seq<ChangeVectorElement>): seq<Clause> {
    WhereClauses(elements) + OrderClauses(elements)
  }

  /** The clauses the first loop of `ApplyOffset` has appended after `index` elements. */
  function Opened(elements: seq<ChangeVectorElement>, index: nat): seq<Clause>
    requires index <= |elements|
  {
    if index == 0 then [] else
      var close := if index == |elements| then [CloseSubclause] else [];
      [AndAlso, OpenSubclause] + Joined(elements[..index]) + close
  }

  lemma OpenedStep(elements: seq<ChangeVectorElement>, index: nat)
    requires index < |elements|
    ensures Opened(elements, index + 1) ==
      Opened(elements, index)
        + (if index == 0 then [AndAlso, OpenSubclause] else [OrElse])
        + [Where(elements[index])]
        + (if index == |elements| - 1 then [CloseSubclause] else [])
  {
    var next := elements[..index + 1];
    if index == 0 {
      assert Joined(next) == [Where(elements[0])];
    } else {
      assert next[..index] == elements[..index];
      assert Joined(next) == Joined(elements[..index]) + [OrElse, Where(elements[index])];
    }
  }

  lemma OpenedAll(elements: seq<ChangeVectorElement>)
    ensures Opened(elements, |elements|) == WhereClauses(elements)
  {
    assert elements[..|elements|] == elements;
  }

  lemma OrderStep(elements: seq<ChangeVectorElement>, i: nat)
    requires i < |elements|
    ensures OrderClauses(elements[..i + 1]) == OrderClauses(elements[..i]) + [OrderBy(elements[i].databaseId)]
  {
    assert elements[..i + 1][..i] == elements[..i];
  }

  lemma AppendOne<T>(a: seq<T>, b: seq<T>, x: T)
    ensures (a + b) + [x] == a + (b + [x])
  {
  }

  /**
   * `ApplyOffset`: the sub-clause of lower bounds, then the ordering. With no
   * elements the query is left as it was.
   */
  method ApplyOffset(offset: ChangeVectorOffset, q: seq<Clause>) returns (r: seq<Clause>)
    ensures r == q + OffsetClauses(offset.elements)
  {
    var elements := offset.elements;
    r := q;
    for index := 0 to |elements|
      invariant r == q + Opened(elements, index)
    {
      OpenedStep(elements, index);
      if index == 0 {
        r := r + [AndAlso, OpenSubclause];
      } else {
        r := r + [OrElse];
      }
      var element := elements[index];
      r := r + [WhereGreaterThan(element.databaseId, element.etag)];
      if index == |elements| - 1 {
        r := r + [CloseSubclause];
      }
    }
    OpenedAll(elements);
    ghost var filtered := r;
    for i := 0 to |elements|
      invariant r == filtered + OrderClauses(elements[..i])
    {
      OrderStep(elements, i);
      AppendOne(filtered, OrderClauses(elements[..i]), OrderBy(elements[i].databaseId));
      r := r + [OrderBy(elements[i].databaseId)];
    }
    assert elements[..|elements|] == elements;
  }

  // What the clauses mean to the index.

  /**
   * The document's index entry: one numeric field per database id of its change
   * vector. `WhereGreaterThan` holds only when the field exists and is larger.
   */
  predicate Greater(fields: map<string, int64>, field: string, value: int64) {
    field in fields && fields[field] > value
  }

  /** The bound an offset states: none for the empty offset, else some element is passed. */
  predicate PastOffset(fields: map<string, int64>, elements: seq<ChangeVectorElement>) {
    elements == [] || exists i :: 0 <= i < |elements| && Greater(fields, elements[i].databaseId, elements[i].etag)
  }

  /** A chain `W (OrElse W)*`, evaluated; `None` when the clauses have another shape. */
  function EvalJoined(fields: map<string, int64>, cs: seq<Clause>): Option<bool>
    decreases |cs|
  {
    if |cs| == 1 && cs[0].WhereGreaterThan? then Some(Greater(fields, cs[0].field, cs[0].value))
    else if |cs| >= 3 && cs[|cs| - 1].WhereGreaterThan? && cs[|cs| - 2] == OrElse then
      match EvalJoined(fields, cs[..|cs| - 2])
      case None => None
      case Some(b) => Some(b || Greater(fields, cs[|cs| - 1].field, cs[|cs| - 1].value))
    else None
  }

  /** The clauses other than orderings, in order. */
  function Filtering(cs: seq<Clause>): seq<Clause> {
    if cs == [] then []
    else Filtering(cs[..|cs| - 1]) + (if cs[|cs| - 1].OrderBy? then [] else [cs[|cs| - 1]])
  }

  /** The filter of appended clauses: none at all, or `AndAlso ( chain )`. */
  function EvalOffset(fields: map<string, int64>, cs: seq<Clause>): Option<bool> {
    var f := Filtering(cs);
    if f == [] then Some(true)
    else if |f| >= 3 && f[0] == AndAlso && f[1] == OpenSubclause && f[|f| - 1] == CloseSubclause then
      EvalJoined(fields, f[2..|f| - 1])
    else None
  }

  lemma {:induction false} JoinedMeaning(fields: map<string, int64>, elements: seq<ChangeVectorElement>)
    requires elements != []
    ensures EvalJoined(fields, Joined(elements)) ==
      Some(exists i :: 0 <= i < |elements| && Greater(fields, elements[i].databaseId, elements[i].etag))
    decreases |elements|
  {
    var n := |elements|;
    if n > 1 {
      var init := elements[..n - 1];
      var last := elements[n - 1];
      JoinedMeaning(fields, init);
      var cs := Joined(elements);
      assert cs == Joined(init) + [OrElse, Where(last)];
      assert cs[..|cs| - 2] == Joined(init);
      assert EvalJoined(fields, cs) ==
        Some(PastSome(fields, init) || Greater(fields, last.databaseId, last.etag));
      PastSomeSplit(fields, elements);
    }
  }

  /** Some element's field is above its etag. */
  predicate PastSome(fields: map<string, int64>, elements: seq<ChangeVectorElement>) {
    exists i :: 0 <= i < |elements| && Greater(fields, elements[i].databaseId, elements[i].etag)
  }

  lemma PastSomeSplit(fields: map<string, int64>, elements: seq<ChangeVectorElement>)
    requires elements != []
    ensures PastSome(fields, elements) <==>
      PastSome(fields, elements[..|elements| - 1]) ||
      Greater(fields, elements[|elements| - 1].databaseId, elements[|elements| - 1].etag)
  {
    var n := |elements|;
    var init := elements[..n - 1];
    if PastSome(fields, init) {
      var i :| 0 <= i < n - 1 && Greater(fields, init[i].databaseId, init[i].etag);
      assert elements[i] == init[i];
    }
    if PastSome(fields, elements) {
      var i :| 0 <= i < n && Greater(fields, elements[i].databaseId, elements[i].etag);
      if i < n - 1 { assert elements[i] == init[i]; }
    }
  }

  lemma {:induction false} FilteringAppend(a: seq<Clause>, b: seq<Clause>)
    ensures Filtering(a + b) == Filtering(a) + Filtering(b)
    decreases |b|
  {
    if b == [] {
      assert a + b == a;
    } else {
      var n := |b|;
      assert (a + b)[..|a + b| - 1] == a + b[..n - 1];
      FilteringAppend(a, b[..n - 1]);
    }
  }

  lemma {:induction false} FilteringKeeps(cs: seq<Clause>)
    requires forall i :: 0 <= i < |cs| ==> !cs[i].OrderBy?
    ensures Filtering(cs) == cs
    decreases |cs|
  {
    if cs != [] {
      FilteringKeeps(cs[..|cs| - 1]);
    }
  }

  lemma {:induction false} FilteringDrops(cs: seq<Clause>)
    requires forall i :: 0 <= i < |cs| ==> cs[i].OrderBy?
    ensures Filtering(cs) == []
    decreases |cs|
  {
    if cs != [] {
      FilteringDrops(cs[..|cs| - 1]);
    }
  }

  lemma {:induction false} JoinedHasNoOrdering(elements: seq<ChangeVectorElement>)
    requires elements != []
    ensures forall i :: 0 <= i < |Joined(elements)| ==> Joined(elements)[i].WhereGreaterThan? || Joined(elements)[i] == OrElse
    decreases |elements|
  {
    if |elements| > 1 {
      JoinedHasNoOrdering(elements[..|elements| - 1]);
    }
  }

  /** Dropping the orderings from the appended clauses leaves the filtering part. */
  lemma FilteringOffset(elements: seq<ChangeVectorElement>)
    ensures Filtering(OffsetClauses(elements)) == WhereClauses(elements)
  {
    var w := WhereClauses(elements);
    FilteringAppend(w, OrderClauses(elements));
    FilteringDrops(OrderClauses(elements));
    if elements != [] {
      JoinedHasNoOrdering(elements);
      FilteringKeeps(w);
    }
    assert Filtering(w) + [] == w;
  }

  /**
   * The lower bound `ApplyOffset` adds: a document passes exactly when its
   * index entry has, for some element of the offset, a field larger than that
   * element's etag; an empty offset lets every document through.
   */
  lemma OffsetMeaning(fields: map<string, int64>, elements: seq<ChangeVectorElement>)
    ensures EvalOffset(fields, OffsetClauses(elements)) == Some(PastOffset(fields, elements))
  {
    if elements == [] {
      FilteringOffset(elements);
    } else {
      OffsetIsChain(fields, elements);
      JoinedMeaning(fields, elements);
    }
  }

  /** A non-empty offset filters by its `OrElse` chain. */
  lemma OffsetIsChain(fields: map<string, int64>, elements: seq<ChangeVectorElement>)
    requires elements != []
    ensures EvalOffset(fields, OffsetClauses(elements)) == EvalJoined(fields, Joined(elements))
  {
    FilteringOffset(elements);
    var w := WhereClauses(elements);
    assert w[2..|w| - 1] == Joined(elements);
  }
}
