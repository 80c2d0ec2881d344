/**
 * The two change-vector indexes (`EventsByTagAndChangeVector` over events,
 * `ActorsByChangeVector` over actor markers) as the queries see them: each
 * document is indexed with one numeric field per element of its change vector,
 * and a streamed query returns the documents the query admits.
 */
module IndexQueries {
  import opened Wrappers
  import opened StorageFormat
  import opened KeyOrder
  import opened ChangeVectorAnalyzer
  import opened ChangeVectorOffsets
  import opened Database

  /** `results.Current`: the document id, the document and its change vector. */
  datatype StreamResult<T> = StreamResult(id: string, document: T, changeVector: ChangeVector)

  /** An index query: an optional `ContainsAny(Tags, [tag])` and the clauses appended after it. */
  datatype IndexQuery = IndexQuery(tag: Option<string>, clauses: seq<Clause>)

  /** One field per element, named by its database id; a later element replaces an earlier one. */
  function FieldsOf(elements: seq<ChangeVectorElement>): (fields: map<string, int64>)
    ensures forall id :: id in fields <==> exists i :: 0 <= i < |elements| && elements[i].databaseId == id
  {
    if elements == [] then map[]
    else
      var last := elements[|elements| - 1];
      var init := FieldsOf(elements[..|elements| - 1]);
      assert forall i :: 0 <= i < |elements| - 1 ==> elements[..|elements| - 1][i] == elements[i];
      init[last.databaseId := last.etag]
  }

  /** The index entry of a document; a change vector that does not parse gives no fields. */
  function IndexFields(changeVector: ChangeVector): map<string, int64> {
    match Create(changeVector)
    case Success(o) => FieldsOf(o.elements)
    case Failure(_) => map[]
  }

  /** Whether the index query returns a document with these tags and this change vector. */
  predicate Admits(q: IndexQuery, tags: Option<seq<string>>, changeVector: ChangeVector) {
    (q.tag.Some? ==> tags.Some? && q.tag.value in tags.value) &&
    EvalOffset(IndexFields(changeVector), q.clauses) == Some(true)
  }

  function ResultAt<T>(docs: map<string, Stored<T>>, k: string): StreamResult<T>
    requires k in docs
  {
    StreamResult(k, docs[k].doc, docs[k].changeVector)
  }

  /** The admitted documents among `keys`, in the order of `keys`. */
  function Selected<T(!new)>(docs: map<string, Stored<T>>, tagsOf: T -> Option<seq<string>>, q: IndexQuery, keys: seq<string>)
    : (r: seq<StreamResult<T>>)
    requires forall k :: k in keys ==> k in docs
    ensures |r| <= |keys|
  {
    if keys == [] then []
    else
      var k := keys[|keys| - 1];
      var rest := Selected(docs, tagsOf, q, keys[..|keys| - 1]);
      rest + (if Admits(q, tagsOf(docs[k].doc), docs[k].changeVector) then [ResultAt(docs, k)] else [])
  }

  /** A result is selected exactly when one of the keys names it and the query admits it. */
  lemma {:induction false} SelectedMembers<T(!new)>(docs: map<string, Stored<T>>, tagsOf: T -> Option<seq<string>>, q: IndexQuery, keys: seq<string>, x: StreamResult<T>)
    requires forall k :: k in keys ==> k in docs
    ensures x in Selected(docs, tagsOf, q, keys) <==>
      x.id in keys && x.id in docs && x == ResultAt(docs, x.id) && Admits(q, tagsOf(x.document), x.changeVector)
  {
    if keys != [] {
      var init := keys[..|keys| - 1];
      SelectedMembers(docs, tagsOf, q, init, x);
      assert keys == init + [keys[|keys| - 1]];
    }
  }

  /**
   * What the server streams back: the admitted documents, by ascending id.
   * The index's own result order (by the `OrderBy` fields) is not modelled.
   */
  ghost function Answer<T(!new)>(docs: map<string, Stored<T>>, tagsOf: T -> Option<seq<string>>, q: IndexQuery)
    : seq<StreamResult<T>>
  {
    Selected(docs, tagsOf, q, Scan(docs, "", None))
  }

  /** A result is in the answer exactly when it is a stored document the query admits. */
  lemma AnswerMembers<T(!new)>(docs: map<string, Stored<T>>, tagsOf: T -> Option<seq<string>>, q: IndexQuery, x: StreamResult<T>)
    ensures x in Answer(docs, tagsOf, q) <==>
      x.id in docs && x == ResultAt(docs, x.id) && Admits(q, tagsOf(x.document), x.changeVector)
  {
    var keys := Scan(docs, "", None);
    SelectedMembers(docs, tagsOf, q, keys, x);
    if x.id in docs {
      assert InRange(x.id, "", None);
    }
  }

  /** `session.Advanced.StreamAsync(query)`. */
  method StreamQuery<T(!new)>(docs: map<string, Stored<T>>, tagsOf: T -> Option<seq<string>>, q: IndexQuery)
    returns (results: seq<StreamResult<T>>)
    ensures results == Answer(docs, tagsOf, q)
  {
    var keys := Stream(docs, "", None);
    results := SelectAll(docs, tagsOf, q, keys);
  }

  /** The filtering half of the stream: keeps the admitted documents among `keys`, in order. */
  method SelectAll<T(!new)>(docs: map<string, Stored<T>>, tagsOf: T -> Option<seq<string>>, q: IndexQuery, keys: seq<string>)
    returns (results: seq<StreamResult<T>>)
    requires forall k :: k in keys ==> k in docs
    ensures results == Selected(docs, tagsOf, q, keys)
  {
    results := [];
    for i := 0 to |keys|
      invariant results == Selected(docs, tagsOf, q, keys[..i])
    {
      SelectedStep(docs, tagsOf, q, keys, i);
      var k := keys[i];
      if Admits(q, tagsOf(docs[k].doc), docs[k].changeVector) {
        results := results + [ResultAt(docs, k)];
      }
    }
    assert keys[..|keys|] == keys;
  }

  lemma SelectedStep<T(!new)>(docs: map<string, Stored<T>>, tagsOf: T -> Option<seq<string>>, q: IndexQuery,
                              keys: seq<string>, i: nat)
    requires forall k :: k in keys ==> k in docs
    requires i < |keys|
    ensures keys[i] in docs
    ensures Selected(docs, tagsOf, q, keys[..i + 1]) ==
            Selected(docs, tagsOf, q, keys[..i]) +
            (if Admits(q, tagsOf(docs[keys[i]].doc), docs[keys[i]].changeVector) then [ResultAt(docs, keys[i])] else [])
  {
    assert keys[..i + 1][..i] == keys[..i];
  }
}
