/**
 * The aggregation inside the `/generate` request handler: the ids every
 * syntax element retrieves are pooled into one set, the pool is resolved to
 * documentation records, the records' sources become the references, and
 * any exception on the way becomes an error response of a fixed shape.
 */
module GenerateHandler {
  import opened Wrappers
  import opened Exceptions
  import opened DocumentRetrieval
  import opened QueryParser

  /** Each syntax element asks the retriever for `k = 2` ids. */
  const ElementWidth: nat := 2

  /** `retriever.retrieve(element, k=2)`, as a function of the element. */
  type Retriever = string -> Result<seq<int>, Error>

  /** The retriever over the loaded records and the two indexes' search. */
  function RetrieverOf(docs: seq<Doc>, search: Search): (r: Retriever)
    ensures Sound(docs, r)
  {
    e => RetrieveFor(docs, search, e, ElementWidth)
  }

  /**
   * What the handler relies on from `retrieve`: at most two ids, all of
   * them in range, and IndexError whenever it raises.
   */
  ghost predicate Sound(docs: seq<Doc>, retrieve: Retriever) {
    forall e :: match retrieve(e)
      case Success(ids) => |ids| <= ElementWidth && forall j :: 0 <= j < |ids| ==> InRange(docs, ids[j])
      case Failure(err) => err == IndexError
  }

  /** Every element's retrieval succeeds. */
  predicate Retrievable(retrieve: Retriever, elements: seq<string>) {
    forall j :: 0 <= j < |elements| ==> retrieve(elements[j]).Success?
  }

  /** Element `j` retrieves id `i`. */
  predicate Contributes(retrieve: Retriever, elements: seq<string>, j: int, i: int) {
    && 0 <= j < |elements|
    && retrieve(elements[j]).Success?
    && i in retrieve(elements[j]).value
  }

  /** Element `j` is the first whose retrieval raises, and it raises `err`. */
  predicate FirstFailure(retrieve: Retriever, elements: seq<string>, j: int, err: Error) {
    && 0 <= j < |elements|
    && retrieve(elements[j]) == Failure(err)
    && forall k :: 0 <= k < j ==> retrieve(elements[k]).Success?
  }

  /**
   * `doc_indices` after the loop over the elements: the union of what each
   * element retrieves; the first retrieval that raises ends the loop with
   * its exception.
   */
  function CollectIds(retrieve: Retriever, elements: seq<string>): (r: Result<set<int>, Error>)
    ensures r.Success? <==> Retrievable(retrieve, elements)
    ensures r.Failure? ==> exists j :: FirstFailure(retrieve, elements, j, r.error)
  {
    if |elements| == 0 then Success({})
    else
      var tail := elements[1..];
      assert forall j :: 0 <= j < |tail| ==> tail[j] == elements[j + 1];
      match retrieve(elements[0])
      case Failure(e) =>
        assert FirstFailure(retrieve, elements, 0, e);
        Failure(e)
      case Success(ids) =>
        match CollectIds(retrieve, tail)
        case Failure(e) =>
          var j :| FirstFailure(retrieve, tail, j, e);
          assert FirstFailure(retrieve, elements, j + 1, e);
          Failure(e)
        case Success(rest) => Success((set i | i in ids) + rest)
  }

  /** The pooled set holds exactly the ids some element retrieves. */
  lemma {:induction false} CollectIdsMembers(retrieve: Retriever, elements: seq<string>, i: int)
    requires Retrievable(retrieve, elements)
    ensures i in CollectIds(retrieve, elements).value <==> exists j :: Contributes(retrieve, elements, j, i)
  {
    if |elements| > 0 {
      var tail := elements[1..];
      assert forall j :: 0 <= j < |tail| ==> tail[j] == elements[j + 1];
      assert Retrievable(retrieve, tail);
      CollectIdsMembers(retrieve, tail, i);
      var ids := retrieve(elements[0]).value;
      assert CollectIds(retrieve, elements).value == (set x | x in ids) + CollectIds(retrieve, tail).value;
      if i in CollectIds(retrieve, elements).value {
        if i in (set x | x in ids) {
          assert Contributes(retrieve, elements, 0, i);
        } else {
          var j :| Contributes(retrieve, tail, j, i);
          assert Contributes(retrieve, elements, j + 1, i);
        }
      }
      if exists j :: Contributes(retrieve, elements, j, i) {
        var j :| Contributes(retrieve, elements, j, i);
        if j > 0 {
          assert Contributes(retrieve, tail, j - 1, i);
        } else {
          assert i in (set x | x in ids);
        }
      }
    }
  }

  /** With a sound retriever, every pooled id is in range and a failure is IndexError. */
  lemma CollectIdsInRange(docs: seq<Doc>, retrieve: Retriever, elements: seq<string>)
    requires Sound(docs, retrieve)
    ensures CollectIds(retrieve, elements).Failure? ==> CollectIds(retrieve, elements).error == IndexError
    ensures CollectIds(retrieve, elements).Success? ==> forall i :: i in CollectIds(retrieve, elements).value ==> InRange(docs, i)
  {
    var r := CollectIds(retrieve, elements);
    if r.Success? {
      forall i | i in r.value
        ensures InRange(docs, i)
      {
        CollectIdsMembers(retrieve, elements, i);
        var j :| Contributes(retrieve, elements, j, i);
        var ids := retrieve(elements[j]).value;
        var k :| 0 <= k < |ids| && ids[k] == i;
      }
    } else {
      var j :| FirstFailure(retrieve, elements, j, r.error);
    }
  }

  /** No elements, no ids. */
  lemma CollectIdsEmpty(retrieve: Retriever, elements: seq<string>)
    requires |elements| == 0
    ensures CollectIds(retrieve, elements) == Success({})
  {
  }

  /** An id retrieved twice for one element is pooled once. */
  lemma CollectIdsCollapsesRepeats(retrieve: Retriever, element: string, i: int)
    requires retrieve(element) == Success([i, i])
    ensures CollectIds(retrieve, [element]) == Success({i})
  {
    var tail := [element][1..];
    assert [element][0] == element;
    assert |tail| == 0;
    assert CollectIds(retrieve, tail) == Success({});
    assert CollectIds(retrieve, [element]) == Success((set x | x in [i, i]) + {});
    assert (set x | x in [i, i]) + {} == {i};
  }

  /** Retrieval succeeds for every element of one list when it does for every element of another with the same members. */
  lemma SameElementsRetrievable(retrieve: Retriever, e1: seq<string>, e2: seq<string>)
    requires forall e :: e in e1 <==> e in e2
    requires Retrievable(retrieve, e1)
    ensures Retrievable(retrieve, e2)
  {
    forall k | 0 <= k < |e2|
      ensures retrieve(e2[k]).Success?
    {
      assert e2[k] in e1;
      var j :| 0 <= j < |e1| && e1[j] == e2[k];
    }
  }

  /**
   * Only which elements occur matters, for any retriever: reordering or
   * repeating elements changes neither whether the loop raises nor the
   * pooled set.
   */
  lemma CollectIdsSameSet(retrieve: Retriever, e1: seq<string>, e2: seq<string>)
    requires forall e :: e in e1 <==> e in e2
    ensures CollectIds(retrieve, e1).Success? <==> CollectIds(retrieve, e2).Success?
    ensures CollectIds(retrieve, e1).Success? ==> CollectIds(retrieve, e1).value == CollectIds(retrieve, e2).value
  {
    if Retrievable(retrieve, e1) {
      SameElementsRetrievable(retrieve, e1, e2);
      var s1 := CollectIds(retrieve, e1).value;
      var s2 := CollectIds(retrieve, e2).value;
      forall i
        ensures i in s1 <==> i in s2
      {
        CollectIdsMembers(retrieve, e1, i);
        CollectIdsMembers(retrieve, e2, i);
        if exists j :: Contributes(retrieve, e1, j, i) {
          var j :| Contributes(retrieve, e1, j, i);
          assert e1[j] in e2;
          var k :| 0 <= k < |e2| && e2[k] == e1[j];
          assert Contributes(retrieve, e2, k, i);
        }
        if exists k :: Contributes(retrieve, e2, k, i) {
          var k :| Contributes(retrieve, e2, k, i);
          assert e2[k] in e1;
          var j :| 0 <= j < |e1| && e1[j] == e2[k];
          assert Contributes(retrieve, e1, j, i);
        }
      }
      assert s1 == s2;
    } else if Retrievable(retrieve, e2) {
      SameElementsRetrievable(retrieve, e2, e1);
    }
  }

  /**
   * With a sound retriever the exception raised is the same too: reordering
   * or repeating elements leaves the whole outcome of the loop unchanged.
   */
  lemma CollectIdsOrderFree(docs: seq<Doc>, retrieve: Retriever, e1: seq<string>, e2: seq<string>)
    requires Sound(docs, retrieve)
    requires forall e :: e in e1 <==> e in e2
    ensures CollectIds(retrieve, e1) == CollectIds(retrieve, e2)
  {
    CollectIdsInRange(docs, retrieve, e1);
    CollectIdsInRange(docs, retrieve, e2);
    CollectIdsSameSet(retrieve, e1, e2);
  }

  /** No id occurs twice. */
  predicate Distinct(s: seq<int>) {
    forall a, b :: 0 <= a < b < |s| ==> s[a] != s[b]
  }

  /** `s` lists the members of `ids`, each exactly once: what `list(doc_indices)` produces, in some order. */
  predicate Enumerates(s: seq<int>, ids: set<int>) {
    && (forall i :: i in ids ==> i in s)
    && (forall j :: 0 <= j < |s| ==> s[j] in ids)
    && Distinct(s)
  }

  /** Taking the head off a list without repeats leaves one without repeats, and without the head. */
  lemma DistinctTail(s: seq<int>)
    requires |s| > 0 && Distinct(s)
    ensures Distinct(s[1..]) && s[0] !in s[1..]
  {
    var tail := s[1..];
    forall a, b | 0 <= a < b < |tail|
      ensures tail[a] != tail[b]
    {
      assert tail[a] == s[a + 1] && tail[b] == s[b + 1];
    }
    forall b | 0 <= b < |tail|
      ensures tail[b] != s[0]
    {
      assert tail[b] == s[b + 1];
    }
  }

  /** A list without repeats holds each of its members once. */
  lemma {:induction false} DistinctCount(s: seq<int>, x: int)
    requires Distinct(s)
    ensures multiset(s)[x] == if x in s then 1 else 0
  {
    if |s| > 0 {
      var tail := s[1..];
      DistinctTail(s);
      DistinctCount(tail, x);
      assert s == [s[0]] + tail;
      assert multiset(s) == multiset{s[0]} + multiset(tail);
    }
  }

  /** A list without repeats has as many members as entries. */
  lemma {:induction false} DistinctCardinality(s: seq<int>)
    requires Distinct(s)
    ensures |set i | i in s| == |s|
  {
    if |s| > 0 {
      var tail := s[1..];
      DistinctTail(s);
      DistinctCardinality(tail);
      assert s == [s[0]] + tail;
      assert (set i | i in s) == (set i | i in tail) + {s[0]};
    }
  }

  /** Any two enumerations of one set are permutations of each other. */
  lemma EnumerationsPermute(a: seq<int>, b: seq<int>, ids: set<int>)
    requires Enumerates(a, ids) && Enumerates(b, ids)
    ensures multiset(a) == multiset(b)
  {
    forall x
      ensures multiset(a)[x] == multiset(b)[x]
    {
      DistinctCount(a, x);
      DistinctCount(b, x);
    }
  }

  /** An enumeration has one entry per member. */
  lemma EnumerationLength(s: seq<int>, ids: set<int>)
    requires Enumerates(s, ids)
    ensures |s| == |ids|
  {
    DistinctCardinality(s);
    forall x
      ensures x in (set i | i in s) <==> x in ids
    {
      if x in s {
        var j :| 0 <= j < |s| && s[j] == x;
      }
    }
    assert (set i | i in s) == ids;
  }

  /**
   * `fetch_docs(list(doc_indices))` on a pooled set: every id in it is in
   * range, so the lookup never raises and the bounds guard drops nothing;
   * the snippets are the records at the listed ids, one per id.
   */
  lemma SnippetsExact(docs: seq<Doc>, ids: set<int>, listing: seq<int>)
    requires forall i :: i in ids ==> InRange(docs, i)
    requires Enumerates(listing, ids)
    ensures FetchDocs(docs, listing).Success?
    ensures |FetchDocs(docs, listing).value| == |listing| == |ids|
    ensures forall j :: 0 <= j < |listing| ==> FetchDocs(docs, listing).value[j] == docs[Position(docs, listing[j])]
  {
    FetchDocsAllInRange(docs, listing);
    EnumerationLength(listing, ids);
  }

  /** The snippets do not depend on the order `list()` happens to produce, up to their own order. */
  lemma SnippetsOrderFree(docs: seq<Doc>, ids: set<int>, a: seq<int>, b: seq<int>)
    requires Enumerates(a, ids) && Enumerates(b, ids)
    ensures FetchDocs(docs, a).Success? <==> FetchDocs(docs, b).Success?
    ensures FetchDocs(docs, a).Success? ==> multiset(FetchDocs(docs, a).value) == multiset(FetchDocs(docs, b).value)
  {
    EnumerationsPermute(a, b, ids);
    FetchDocsPermutation(docs, a, b);
  }

  /**
   * `{s['source'] for s in snippets}`: the set of the records' sources.
   * The first record without a `source` key raises KeyError('source').
   */
  function Sources(snippets: seq<Doc>): (r: Result<set<string>, Error>)
    ensures r.Success? <==> forall j :: 0 <= j < |snippets| ==> snippets[j].source.Some?
    ensures r.Failure? ==> r.error == KeyError("source")
  {
    if |snippets| == 0 then Success({})
    else
      match snippets[0].source
      case None => Failure(KeyError("source"))
      case Some(src) =>
        match Sources(snippets[1..])
        case Failure(e) => Failure(e)
        case Success(rest) =>
          assert forall j :: 1 <= j < |snippets| ==> snippets[1..][j - 1] == snippets[j];
          Success({src} + rest)
  }

  /** Some record among the snippets has source `src`. */
  predicate SourceOf(snippets: seq<Doc>, src: string) {
    exists d :: d in snippets && d.source == Some(src)
  }

  /** The references are exactly the sources of the snippets, each once. */
  lemma {:induction false} SourcesMembers(snippets: seq<Doc>, src: string)
    requires Sources(snippets).Success?
    ensures src in Sources(snippets).value <==> SourceOf(snippets, src)
  {
    if |snippets| > 0 {
      var tail := snippets[1..];
      assert forall d :: d in tail ==> d in snippets;
      SourcesMembers(tail, src);
      if SourceOf(snippets, src) {
        var d :| d in snippets && d.source == Some(src);
        if d != snippets[0] {
          assert snippets == [snippets[0]] + tail;
          assert d in tail;
        }
      }
    }
  }

  /** Every record of `b` has a source when every record of `a` does and `b` holds only records of `a`. */
  lemma SourcesPresent(a: seq<Doc>, b: seq<Doc>)
    requires forall d :: d in b ==> d in a
    requires Sources(a).Success?
    ensures Sources(b).Success?
  {
    forall j | 0 <= j < |b|
      ensures b[j].source.Some?
    {
      assert b[j] in a;
      var k :| 0 <= k < |a| && a[k] == b[j];
    }
  }

  /** Only which records are present matters to the references: not their order, nor repeats. */
  lemma SourcesOrderFree(a: seq<Doc>, b: seq<Doc>)
    requires forall d :: d in a <==> d in b
    ensures Sources(a) == Sources(b)
  {
    if Sources(a).Success? {
      SourcesPresent(a, b);
    }
    if Sources(b).Success? {
      SourcesPresent(b, a);
    }
    if Sources(a).Success? {
      forall src
        ensures src in Sources(a).value <==> src in Sources(b).value
      {
        SourcesMembers(a, src);
        SourcesMembers(b, src);
      }
      assert Sources(a).value == Sources(b).value;
    }
  }

  /** The response record: generated code, its explanation and the references. */
  datatype CodeResponse = CodeResponse(generatedCode: string, explanation: string, references: set<string>)

  /** The prefix of every error explanation. */
  const ErrorPrefix: string := "An error occurred: "

  /** The response every exception becomes: no code, no references, and the message after a fixed prefix. */
  function ErrorResponse(e: Error): (r: CodeResponse)
    ensures r.generatedCode == [] && r.references == {}
    ensures |r.explanation| == |ErrorPrefix| + |Message(e)|
    ensures r.explanation[..|ErrorPrefix|] == ErrorPrefix && r.explanation[|ErrorPrefix|..] == Message(e)
  {
    CodeResponse("", ErrorPrefix + Message(e), {})
  }

  /** The syntax elements of a parsed completion; iterating a decoded JSON value is external. */
  function Elements<J>(parsed: Cleaned<J>, iterate: J -> seq<string>): seq<string> {
    match parsed
    case Decoded(v) => iterate(v)
    case Fallback(lines) => lines
  }

  /**
   * The body of the `try` in `generate_code`: parse, pool the ids, resolve
   * them, merge the snippets into code and explanation, collect the
   * references. `listing` is the order `list()` gives a set; `merge` stands
   * for the code merger and its completion calls.
   */
  function Handle<J>(docs: seq<Doc>, retrieve: Retriever, parsed: Result<Cleaned<J>, Error>, iterate: J -> seq<string>,
                     listing: set<int> -> seq<int>, merge: seq<Doc> -> Result<(string, string), Error>): (r: Result<CodeResponse, Error>)
    ensures parsed.Failure? ==> r == Failure(parsed.error)
    ensures parsed.Success? && CollectIds(retrieve, Elements(parsed.value, iterate)).Failure? ==>
      r == Failure(CollectIds(retrieve, Elements(parsed.value, iterate)).error)
    ensures r.Success? ==>
      && parsed.Success?
      && CollectIds(retrieve, Elements(parsed.value, iterate)).Success?
      && var snippets := FetchDocs(docs, listing(CollectIds(retrieve, Elements(parsed.value, iterate)).value));
      && snippets.Success?
      && merge(snippets.value).Success?
      && Sources(snippets.value).Success?
      && r.value.references == Sources(snippets.value).value
  {
    match parsed
    case Failure(e) => Failure(e)
    case Success(cleaned) =>
      match CollectIds(retrieve, Elements(cleaned, iterate))
      case Failure(e) => Failure(e)
      case Success(ids) =>
        match FetchDocs(docs, listing(ids))
        case Failure(e) => Failure(e)
        case Success(snippets) =>
          match merge(snippets)
          case Failure(e) => Failure(e)
          case Success(generated) =>
            match Sources(snippets)
            case Failure(e) => Failure(e)
            case Success(references) => Success(CodeResponse(generated.0, generated.1, references))
  }

  /** `generate_code`: the handler's response, with every exception turned into the error response. */
  function GenerateCode<J>(docs: seq<Doc>, retrieve: Retriever, parsed: Result<Cleaned<J>, Error>, iterate: J -> seq<string>,
                           listing: set<int> -> seq<int>, merge: seq<Doc> -> Result<(string, string), Error>): (r: CodeResponse)
    ensures Handle(docs, retrieve, parsed, iterate, listing, merge).Failure? ==>
      r == ErrorResponse(Handle(docs, retrieve, parsed, iterate, listing, merge).error)
    ensures Handle(docs, retrieve, parsed, iterate, listing, merge).Success? ==>
      r == Handle(docs, retrieve, parsed, iterate, listing, merge).value
  {
    match Handle(docs, retrieve, parsed, iterate, listing, merge)
    case Failure(e) => ErrorResponse(e)
    case Success(response) => response
  }

  /** The records the pooled ids point at. */
  function RecordsAt(docs: seq<Doc>, ids: set<int>): (r: set<Doc>)
    requires forall i :: i in ids ==> InRange(docs, i)
    ensures forall d :: d in r <==> exists i :: i in ids && d == docs[Position(docs, i)]
  {
    set i | i in ids :: docs[Position(docs, i)]
  }

  /** The snippets resolved from an enumeration of the pool are exactly the records at the pooled ids. */
  lemma SnippetsAreRecords(docs: seq<Doc>, ids: set<int>, order: seq<int>)
    requires forall i :: i in ids ==> InRange(docs, i)
    requires Enumerates(order, ids)
    ensures FetchDocs(docs, order).Success?
    ensures forall d :: d in FetchDocs(docs, order).value <==> d in RecordsAt(docs, ids)
  {
    SnippetsExact(docs, ids, order);
    var snippets := FetchDocs(docs, order).value;
    var records := RecordsAt(docs, ids);
    forall d | d in snippets
      ensures d in records
    {
      var j :| 0 <= j < |snippets| && snippets[j] == d;
      assert order[j] in ids;
    }
    forall d | d in records
      ensures d in snippets
    {
      var i :| i in ids && d == docs[Position(docs, i)];
      var j :| 0 <= j < |order| && order[j] == i;
      assert snippets[j] == d;
    }
  }

  /** Once the snippets are resolved, the response depends only on the merge and on their sources. */
  lemma GenerateCodeAfterFetch<J>(docs: seq<Doc>, retrieve: Retriever, cleaned: Cleaned<J>, iterate: J -> seq<string>,
                                  listing: set<int> -> seq<int>, merge: seq<Doc> -> Result<(string, string), Error>,
                                  ids: set<int>, snippets: seq<Doc>)
    requires CollectIds(retrieve, Elements(cleaned, iterate)) == Success(ids)
    requires FetchDocs(docs, listing(ids)) == Success(snippets)
    ensures
      var r := GenerateCode(docs, retrieve, Success(cleaned), iterate, listing, merge);
      && (merge(snippets).Failure? ==> r == ErrorResponse(merge(snippets).error))
      && (merge(snippets).Success? && Sources(snippets).Failure? ==> r == ErrorResponse(Sources(snippets).error))
      && (merge(snippets).Success? && Sources(snippets).Success? ==>
            r == CodeResponse(merge(snippets).value.0, merge(snippets).value.1, Sources(snippets).value))
  {
  }

  /** Snippets holding exactly the given records have references exactly when every record has a source. */
  lemma SourcesOfRecords(snippets: seq<Doc>, records: set<Doc>)
    requires forall d :: d in snippets <==> d in records
    ensures Sources(snippets).Success? <==> forall d :: d in records ==> d.source.Some?
    ensures Sources(snippets).Success? ==>
      forall src :: src in Sources(snippets).value <==> exists d :: d in records && d.source == Some(src)
  {
    if forall d :: d in records ==> d.source.Some? {
      assert forall j :: 0 <= j < |snippets| ==> snippets[j] in records;
      forall src
        ensures src in Sources(snippets).value <==> exists d :: d in records && d.source == Some(src)
      {
        SourcesMembers(snippets, src);
      }
    } else {
      var d :| d in records && d.source.None?;
      assert d in snippets;
      var j :| 0 <= j < |snippets| && snippets[j] == d;
    }
  }

  /**
   * End to end, for a sound retriever: when parsing, every retrieval and the
   * merge succeed and `list()` enumerates the pooled set, the response
   * carries the merged code and explanation and its references are exactly
   * the sources of the records at the pooled ids; a record without a
   * source gives the KeyError response instead.
   */
  lemma GenerateCodeReferences<J>(docs: seq<Doc>, retrieve: Retriever, cleaned: Cleaned<J>, iterate: J -> seq<string>,
                                  listing: set<int> -> seq<int>, merge: seq<Doc> -> Result<(string, string), Error>,
                                  ids: set<int>)
    requires Sound(docs, retrieve)
    requires CollectIds(retrieve, Elements(cleaned, iterate)) == Success(ids)
    requires Enumerates(listing(ids), ids)
    ensures forall i :: i in ids ==> InRange(docs, i)
    ensures FetchDocs(docs, listing(ids)).Success?
    ensures
      var generated := merge(FetchDocs(docs, listing(ids)).value);
      var r := GenerateCode(docs, retrieve, Success(cleaned), iterate, listing, merge);
      && (generated.Failure? ==> r == ErrorResponse(generated.error))
      && (generated.Success? && (forall d :: d in RecordsAt(docs, ids) ==> d.source.Some?) ==>
            && r.generatedCode == generated.value.0
            && r.explanation == generated.value.1
            && forall src :: src in r.references <==> exists d :: d in RecordsAt(docs, ids) && d.source == Some(src))
      && (generated.Success? && (exists d :: d in RecordsAt(docs, ids) && d.source.None?) ==>
            r == ErrorResponse(KeyError("source")))
  {
    CollectIdsInRange(docs, retrieve, Elements(cleaned, iterate));
    SnippetsAreRecords(docs, ids, listing(ids));
    var snippets := FetchDocs(docs, listing(ids)).value;
    SourcesOfRecords(snippets, RecordsAt(docs, ids));
    GenerateCodeAfterFetch(docs, retrieve, cleaned, iterate, listing, merge, ids, snippets);
  }

  /** With a sound retriever, any retrieval that raises gives the IndexError response ("list index out of range"). */
  lemma GenerateCodeRetrievalError<J>(docs: seq<Doc>, retrieve: Retriever, cleaned: Cleaned<J>, iterate: J -> seq<string>,
                                      listing: set<int> -> seq<int>, merge: seq<Doc> -> Result<(string, string), Error>,
                                      j: nat)
    requires Sound(docs, retrieve)
    requires j < |Elements(cleaned, iterate)|
    requires retrieve(Elements(cleaned, iterate)[j]).Failure?
    ensures GenerateCode(docs, retrieve, Success(cleaned), iterate, listing, merge) == ErrorResponse(IndexError)
  {
    var elements := Elements(cleaned, iterate);
    CollectIdsInRange(docs, retrieve, elements);
    assert CollectIds(retrieve, elements) == Failure(IndexError);
  }

  /** No syntax elements: nothing is retrieved, the merger sees no snippets, and there are no references. */
  lemma GenerateCodeNoElements<J>(docs: seq<Doc>, retrieve: Retriever, cleaned: Cleaned<J>, iterate: J -> seq<string>,
                                  listing: set<int> -> seq<int>, merge: seq<Doc> -> Result<(string, string), Error>)
    requires |Elements(cleaned, iterate)| == 0
    requires Enumerates(listing({}), {})
    requires merge([]).Success?
    ensures GenerateCode(docs, retrieve, Success(cleaned), iterate, listing, merge)
         == CodeResponse(merge([]).value.0, merge([]).value.1, {})
  {
    EnumerationLength(listing({}), {});
  }
}
