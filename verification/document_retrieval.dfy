/**
 * DocumentRetriever: threshold filtering and ranking of the hits of one
 * similarity index, fusion of the summary and use-case indexes, and the
 * bounds-guarded lookup of documentation records by position.
 *
 * The embedding model and the nearest-neighbour search are external: the
 * hits of a search are given as a sequence of candidates.
 */
module DocumentRetrieval {
  import opened Wrappers
  import opened Exceptions
  import opened Ranking

  /** A documentation record; `source` is None when the record has no such key. */
  datatype Doc = Doc(
    chunkTitle: string,
    summary: string,
    useCase: string,
    codeSnippet: string,
    chunk: string,
    source: Option<string>)

  /** The two similarity indexes the retriever queries. */
  datatype IndexKind = SummaryIndex | UseCaseIndex

  /** The external search: the hits of an index for a query text and a width. */
  type Search = (IndexKind, string, nat) -> seq<Candidate>

  /** A hit survives when its score is strictly above this. */
  const Threshold: real := 0.6

  /** Python accepts `s[i]` for `-len(s) <= i < len(s)`; anything else raises IndexError. */
  predicate InRange<T>(s: seq<T>, i: int) {
    -|s| <= i < |s|
  }

  /** Python list indexing: negative positions count from the end. */
  function PyIndex<T>(s: seq<T>, i: int): (r: Result<T, Error>)
    ensures r.Success? <==> InRange(s, i)
    ensures r.Failure? ==> r.error == IndexError
    ensures 0 <= i < |s| ==> r == Success(s[i])
    ensures -|s| <= i < 0 ==> r == Success(s[|s| + i])
  {
    if 0 <= i < |s| then Success(s[i])
    else if -|s| <= i < 0 then Success(s[|s| + i])
    else Failure(IndexError)
  }

  function Min(a: int, b: int): int {
    if a <= b then a else b
  }

  /** The document positions of a list of candidates, in order. */
  function Ids(cs: seq<Candidate>): (r: seq<int>)
    ensures |r| == |cs|
    ensures forall i :: 0 <= i < |cs| ==> r[i] == cs[i].id
  {
    seq(|cs|, i requires 0 <= i < |cs| => cs[i].id)
  }

  /** The hits whose score is strictly above the threshold, in search order. */
  function Survivors(hits: seq<Candidate>): (r: seq<Candidate>)
    ensures |r| <= |hits|
    ensures forall c :: c in r <==> c in hits && c.score > Threshold
    ensures forall x :: WithScore(r, x) == (if x > Threshold then WithScore(hits, x) else [])
    ensures IsSubsequence(r, hits)
  {
    if |hits| == 0 then []
    else
      var rest := Survivors(hits[1..]);
      assert hits == [hits[0]] + hits[1..];
      if hits[0].score > Threshold then
        assert ([hits[0]] + rest)[1..] == rest;
        [hits[0]] + rest
      else
        rest
  }

  /**
   * Resolves every candidate to its record, as the retriever does before
   * returning (the records themselves are only printed).
   */
  function LookupAll(docs: seq<Doc>, cs: seq<Candidate>): (r: Result<seq<Doc>, Error>)
    ensures r.Success? <==> forall c :: c in cs ==> InRange(docs, c.id)
    ensures r.Failure? ==> r.error == IndexError
    ensures r.Success? ==> |r.value| == |cs|
  {
    if |cs| == 0 then Success([])
    else
      assert cs == [cs[0]] + cs[1..];
      var d :- PyIndex(docs, cs[0].id);
      var rest :- LookupAll(docs, cs[1..]);
      Success([d] + rest)
  }

  /** Every hit scoring above the threshold names a record Python can index. */
  predicate SurvivorsInRange(docs: seq<Doc>, hits: seq<Candidate>) {
    forall c :: c in hits && c.score > Threshold ==> InRange(docs, c.id)
  }

  /**
   * `retrieve_from_index`: keep the hits scoring above the threshold, sort
   * them stably by score, highest first, and look each one up in `docs`; a
   * surviving id outside the records aborts with IndexError. The console
   * print of the looked-up records is taken never to raise.
   */
  function RetrieveFromIndex(docs: seq<Doc>, hits: seq<Candidate>): (r: Result<seq<Candidate>, Error>)
    ensures r.Success? <==> SurvivorsInRange(docs, hits)
    ensures r.Failure? ==> r.error == IndexError
    ensures r.Success? ==> SortedDesc(r.value)
    ensures r.Success? ==> forall x :: WithScore(r.value, x) == (if x > Threshold then WithScore(hits, x) else [])
    ensures r.Success? ==> |r.value| <= |hits|
    ensures r.Success? ==> forall c :: c in r.value ==> c in hits && c.score > Threshold && InRange(docs, c.id)
  {
    var ranked := SortDesc(Survivors(hits));
    assert forall c :: c in ranked <==> c in Survivors(hits) by {
      assert multiset(ranked) == multiset(Survivors(hits));
      forall c
        ensures c in ranked <==> c in Survivors(hits)
      {
        assert c in ranked <==> c in multiset(ranked);
        assert c in Survivors(hits) <==> c in multiset(Survivors(hits));
      }
    }
    var _ :- LookupAll(docs, ranked);
    Success(ranked)
  }

  /**
   * The candidates of score `x` that fusion keeps: none at or below the
   * threshold, otherwise the summary ones followed by the use-case ones.
   */
  function FusedSlice(summaryHits: seq<Candidate>, useCaseHits: seq<Candidate>, x: real): seq<Candidate> {
    if x > Threshold then WithScore(summaryHits, x) + WithScore(useCaseHits, x) else []
  }

  /**
   * The fused ranking as a single stable sort: the survivors of the summary
   * hits followed by the survivors of the use-case hits, highest score first.
   */
  function FusedRanking(summaryHits: seq<Candidate>, useCaseHits: seq<Candidate>): (r: seq<Candidate>)
    ensures SortedDesc(r)
    ensures |r| <= |summaryHits| + |useCaseHits|
    ensures multiset(r) == multiset(Survivors(summaryHits)) + multiset(Survivors(useCaseHits))
    ensures forall x :: WithScore(r, x) == FusedSlice(summaryHits, useCaseHits, x)
  {
    var both := Survivors(summaryHits) + Survivors(useCaseHits);
    assert forall x :: WithScore(both, x) == FusedSlice(summaryHits, useCaseHits, x) by {
      forall x
        ensures WithScore(both, x) == FusedSlice(summaryHits, useCaseHits, x)
      {
        WithScoreAppend(Survivors(summaryHits), Survivors(useCaseHits), x);
      }
    }
    SortDesc(both)
  }

  /** The fused ranking is the only sorted list with those per-score slices. */
  lemma FusedRankingUnique(summaryHits: seq<Candidate>, useCaseHits: seq<Candidate>, r: seq<Candidate>)
    requires SortedDesc(r)
    requires forall x :: WithScore(r, x) == FusedSlice(summaryHits, useCaseHits, x)
    ensures r == FusedRanking(summaryHits, useCaseHits)
  {
    SortedSlicesDetermine(r, FusedRanking(summaryHits, useCaseHits));
  }

  /** Re-sorting the two ranked lists yields the fused ranking, whose ids are all in range. */
  lemma RankedConcat(docs: seq<Doc>, summaryHits: seq<Candidate>, useCaseHits: seq<Candidate>,
                     summary: seq<Candidate>, useCase: seq<Candidate>)
    requires RetrieveFromIndex(docs, summaryHits) == Success(summary)
    requires RetrieveFromIndex(docs, useCaseHits) == Success(useCase)
    ensures SortDesc(summary + useCase) == FusedRanking(summaryHits, useCaseHits)
    ensures forall c :: c in SortDesc(summary + useCase) ==> InRange(docs, c.id)
  {
    var combined := SortDesc(summary + useCase);
    forall x
      ensures WithScore(combined, x) == FusedSlice(summaryHits, useCaseHits, x)
    {
      WithScoreAppend(summary, useCase, x);
    }
    FusedRankingUnique(summaryHits, useCaseHits, combined);
    forall c | c in combined
      ensures InRange(docs, c.id)
    {
      assert c in multiset(combined);
      assert c in multiset(summary + useCase);
    }
  }

  /** The first `k` of a ranking, projected to ids, keep the ranking's bounds. */
  lemma TopIds(docs: seq<Doc>, ranking: seq<Candidate>, k: nat)
    requires forall c :: c in ranking ==> InRange(docs, c.id)
    ensures |Ids(ranking[..Min(k, |ranking|)])| <= k
    ensures forall i :: i in Ids(ranking[..Min(k, |ranking|)]) ==> InRange(docs, i)
  {
    var top := ranking[..Min(k, |ranking|)];
    forall i | i in Ids(top)
      ensures InRange(docs, i)
    {
      var j :| 0 <= j < |top| && Ids(top)[j] == i;
      assert top[j] in ranking;
    }
  }

  /** The top `k` of the re-sorted ranked lists: the top of the fused ranking, within bounds. */
  lemma RankedTop(docs: seq<Doc>, summaryHits: seq<Candidate>, useCaseHits: seq<Candidate>,
                  summary: seq<Candidate>, useCase: seq<Candidate>, k: nat)
    requires RetrieveFromIndex(docs, summaryHits) == Success(summary)
    requires RetrieveFromIndex(docs, useCaseHits) == Success(useCase)
    ensures
      var combined := SortDesc(summary + useCase);
      var fused := FusedRanking(summaryHits, useCaseHits);
      var top := Ids(combined[..Min(k, |combined|)]);
      && top == Ids(fused[..Min(k, |fused|)])
      && |top| <= k && |top| <= |summaryHits| + |useCaseHits|
      && forall i :: i in top ==> InRange(docs, i)
  {
    var combined := SortDesc(summary + useCase);
    RankedConcat(docs, summaryHits, useCaseHits, summary, useCase);
    TopIds(docs, combined, k);
  }

  /**
   * The tail of `retrieve` once both indexes are ranked: re-sort the
   * concatenation, keep the first `k`, project to ids. This is the top of
   * the fused ranking, within bounds.
   */
  function TopOfRanked(docs: seq<Doc>, summaryHits: seq<Candidate>, useCaseHits: seq<Candidate>,
                       summary: seq<Candidate>, useCase: seq<Candidate>, k: nat): (top: seq<int>)
    requires RetrieveFromIndex(docs, summaryHits) == Success(summary)
    requires RetrieveFromIndex(docs, useCaseHits) == Success(useCase)
    ensures
      var fused := FusedRanking(summaryHits, useCaseHits);
      top == Ids(fused[..Min(k, |fused|)])
    ensures |top| <= k && |top| <= |summaryHits| + |useCaseHits|
    ensures forall i :: i in top ==> InRange(docs, i)
  {
    var combined := SortDesc(summary + useCase);
    RankedTop(docs, summaryHits, useCaseHits, summary, useCase, k);
    Ids(combined[..Min(k, |combined|)])
  }

  /**
   * `retrieve`: the ranked survivors of both indexes, concatenated summary
   * first, sorted stably by score, cut to the first `k`, projected to ids.
   */
  function Retrieve(docs: seq<Doc>, summaryHits: seq<Candidate>, useCaseHits: seq<Candidate>, k: nat): (r: Result<seq<int>, Error>)
    ensures r.Success? <==>
      SurvivorsInRange(docs, summaryHits) && SurvivorsInRange(docs, useCaseHits)
    ensures r.Failure? ==> r.error == IndexError
    ensures r.Success? ==> |r.value| <= k && |r.value| <= |summaryHits| + |useCaseHits|
    ensures r.Success? ==>
      var fused := FusedRanking(summaryHits, useCaseHits);
      r.value == Ids(fused[..Min(k, |fused|)])
    ensures r.Success? ==> forall i :: i in r.value ==> InRange(docs, i)
  {
    match RetrieveFromIndex(docs, summaryHits)
    case Failure(e) => Failure(e)
    case Success(summary) =>
      match RetrieveFromIndex(docs, useCaseHits)
      case Failure(e) => Failure(e)
      case Success(useCase) =>
        Success(TopOfRanked(docs, summaryHits, useCaseHits, summary, useCase, k))
  }

  /** When every surviving id is in range, `retrieve` yields the ids of the top `k` of the fused ranking. */
  lemma RetrieveInRange(docs: seq<Doc>, summaryHits: seq<Candidate>, useCaseHits: seq<Candidate>, k: nat)
    requires forall j :: 0 <= j < |summaryHits| && summaryHits[j].score > Threshold ==> InRange(docs, summaryHits[j].id)
    requires forall j :: 0 <= j < |useCaseHits| && useCaseHits[j].score > Threshold ==> InRange(docs, useCaseHits[j].id)
    ensures
      var fused := FusedRanking(summaryHits, useCaseHits);
      Retrieve(docs, summaryHits, useCaseHits, k) == Success(Ids(fused[..Min(k, |fused|)]))
  {
  }

  /** `retrieve(task, k)`: both indexes are searched with width `k`. */
  function RetrieveFor(docs: seq<Doc>, search: Search, task: string, k: nat): (r: Result<seq<int>, Error>)
    ensures r.Success? ==> |r.value| <= k
    ensures r.Success? ==> forall i :: i in r.value ==> InRange(docs, i)
  {
    Retrieve(docs, search(SummaryIndex, task, k), search(UseCaseIndex, task, k), k)
  }

  /**
   * `fetch_docs`: the record at each id below `len(docs)`, in input order;
   * larger ids are skipped. The guard lets negative ids through to Python
   * indexing, so one below `-len(docs)` raises IndexError.
   */
  function FetchDocs(docs: seq<Doc>, ids: seq<int>): (r: Result<seq<Doc>, Error>)
    ensures r.Success? <==> forall j :: 0 <= j < |ids| ==> -|docs| <= ids[j]
    ensures r.Failure? ==> r.error == IndexError
    ensures r.Success? ==> |r.value| <= |ids|
    ensures r.Success? ==> forall d :: d in r.value ==> d in docs
    ensures r.Success? ==> forall i :: i in ids && 0 <= i < |docs| ==> docs[i] in r.value
  {
    if |ids| == 0 then Success([])
    else
      assert ids == [ids[0]] + ids[1..];
      if ids[0] < |docs| then
        match PyIndex(docs, ids[0])
        case Failure(e) => Failure(e)
        case Success(d) =>
          match FetchDocs(docs, ids[1..])
          case Failure(e) => Failure(e)
          case Success(rest) => Success([d] + rest)
      else
        FetchDocs(docs, ids[1..])
  }

  lemma {:induction false} SurvivorsNoneAbove(hits: seq<Candidate>)
    requires forall c :: c in hits ==> c.score <= Threshold
    ensures Survivors(hits) == []
  {
    if |hits| > 0 {
      assert hits[0] in hits;
      assert forall c :: c in hits[1..] ==> c in hits;
      SurvivorsNoneAbove(hits[1..]);
    }
  }

  /** The threshold is strict: a hit scoring exactly 0.6 is dropped, one just above it kept. */
  lemma ThresholdIsStrict(id: int, above: real)
    requires above > 0.6
    ensures Survivors([Candidate(id, 0.6)]) == []
    ensures Survivors([Candidate(id, above)]) == [Candidate(id, above)]
  {
    assert Candidate(id, 0.6) in [Candidate(id, 0.6)];
    assert Candidate(id, above) in [Candidate(id, above)];
  }

  /** With nothing scoring above the threshold in either index, the result is empty, not an error. */
  lemma RetrieveNothingAbove(docs: seq<Doc>, summaryHits: seq<Candidate>, useCaseHits: seq<Candidate>, k: nat)
    requires forall c :: c in summaryHits + useCaseHits ==> c.score <= Threshold
    ensures Retrieve(docs, summaryHits, useCaseHits, k) == Success([])
  {
    SurvivorsNoneAbove(summaryHits);
    SurvivorsNoneAbove(useCaseHits);
    assert Survivors(summaryHits) + Survivors(useCaseHits) == [];
  }

  /** One summary hit and one use-case hit of the same score: the summary hit ranks first. */
  lemma TieFused(a: Candidate, b: Candidate)
    requires a.score == b.score > Threshold
    ensures FusedRanking([a], [b]) == [a, b]
  {
    var fused := FusedRanking([a], [b]);
    forall x
      ensures WithScore(fused, x) == WithScore([a, b], x)
    {
      assert WithScore([a], x) == (if x == a.score then [a] else []);
      assert WithScore([b], x) == (if x == a.score then [b] else []);
      assert [a, b][1..] == [b];
      assert WithScore([a, b], x) == (if x == a.score then [a, b] else []);
    }
    SortedSlicesDetermine(fused, [a, b]);
  }

  /**
   * Tie-break: given summary hit `a` and use-case hit `b` with the same score
   * above the threshold (0.75 and 0.75, say), `retrieve` returns `[a, b]`.
   */
  lemma RetrieveTieBreak(docs: seq<Doc>, a: Candidate, b: Candidate)
    requires a.score == b.score > Threshold
    requires InRange(docs, a.id) && InRange(docs, b.id)
    ensures Retrieve(docs, [a], [b], 2) == Success([a.id, b.id])
  {
    TieFused(a, b);
    assert [a, b][..Min(2, |[a, b]|)] == [a, b];
    assert Ids([a, b]) == [a.id, b.id];
    RetrieveInRange(docs, [a], [b], 2);
  }

  lemma FusionExampleSlice(a: Candidate, b: Candidate, c: Candidate, x: real)
    requires a.score > c.score > b.score > Threshold
    ensures FusedSlice([a, b], [c], x) == WithScore([a, c, b], x)
  {
    WithScoreCons(b, [], x);
    WithScoreCons(c, [], x);
    WithScoreCons(a, [b], x);
    WithScoreCons(c, [b], x);
    WithScoreCons(a, [c, b], x);
    assert [a] + [b] == [a, b];
    assert [c] + [b] == [c, b];
    assert [a] + [c, b] == [a, c, b];
    assert [b] + [] == [b];
    assert [c] + [] == [c];
  }

  /** The fused ranking of summary hits `a`, `b` and use-case hit `c` with a > c > b > 0.6. */
  lemma FusionExampleRanking(a: Candidate, b: Candidate, c: Candidate)
    requires a.score > c.score > b.score > Threshold
    ensures FusedRanking([a, b], [c]) == [a, c, b]
  {
    var fused := FusedRanking([a, b], [c]);
    forall x
      ensures WithScore(fused, x) == WithScore([a, c, b], x)
    {
      FusionExampleSlice(a, b, c, x);
    }
    SortedSlicesDetermine(fused, [a, c, b]);
  }

  /**
   * Fusion example: summary hits `a`, `b` and use-case hit `c` scoring
   * a > c > b > 0.6 (0.9, 0.8, 0.7) give `[a, c]` for `k = 2`; `b` is cut.
   */
  lemma RetrieveFusionExample(docs: seq<Doc>, summaryHits: seq<Candidate>, useCaseHits: seq<Candidate>,
                              a: Candidate, b: Candidate, c: Candidate)
    requires summaryHits == [a, b] && useCaseHits == [c]
    requires a.score > c.score > b.score > Threshold
    requires InRange(docs, a.id) && InRange(docs, b.id) && InRange(docs, c.id)
    ensures Retrieve(docs, summaryHits, useCaseHits, 2) == Success([a.id, c.id])
  {
    FusionExampleRanking(a, b, c);
    var fused: seq<Candidate> := [a, c, b];
    assert fused[..Min(2, |fused|)] == [a, c];
    assert Ids([a, c]) == [a.id, c.id];
    assert forall j :: 0 <= j < |summaryHits| ==> InRange(docs, summaryHits[j].id);
    assert forall j :: 0 <= j < |useCaseHits| ==> InRange(docs, useCaseHits[j].id);
    RetrieveInRange(docs, summaryHits, useCaseHits, 2);
  }

  /** No deduplication: an id surviving in both indexes is returned twice. */
  lemma RetrieveKeepsDuplicates(docs: seq<Doc>, id: int, s1: real, s2: real)
    requires s1 > Threshold && s2 > Threshold
    requires InRange(docs, id)
    ensures Retrieve(docs, [Candidate(id, s1)], [Candidate(id, s2)], 2) == Success([id, id])
  {
    var a, b := Candidate(id, s1), Candidate(id, s2);
    assert Survivors([a]) == [a];
    assert Survivors([b]) == [b];
    var fused := FusedRanking([a], [b]);
    assert multiset(fused) == multiset{a, b};
    assert fused[0] in multiset(fused) && fused[1] in multiset(fused);
    assert fused[..Min(2, |fused|)] == fused;
    assert Ids(fused) == [id, id];
    RetrieveInRange(docs, [a], [b], 2);
  }

  /** The position Python reads for an in-range index: negative ones count from the end. */
  function Position<T>(s: seq<T>, i: int): (p: nat)
    requires InRange(s, i)
    ensures p < |s|
    ensures p == i || p == |s| + i
  {
    if i < 0 then |s| + i else i
  }

  /** `fetch_docs` distributes over concatenation of its id list. */
  lemma {:induction false} FetchDocsAppend(docs: seq<Doc>, a: seq<int>, b: seq<int>)
    ensures FetchDocs(docs, a + b).Success? <==> FetchDocs(docs, a).Success? && FetchDocs(docs, b).Success?
    ensures FetchDocs(docs, a + b).Success? ==>
      FetchDocs(docs, a + b).value == FetchDocs(docs, a).value + FetchDocs(docs, b).value
    decreases |a|
  {
    if |a| == 0 {
      assert a + b == b;
    } else {
      assert (a + b)[0] == a[0];
      assert (a + b)[1..] == a[1..] + b;
      FetchDocsAppend(docs, a[1..], b);
    }
  }

  /**
   * One id on its own: skipped at or past the end, the record Python reads
   * when indexable, IndexError below `-len(docs)`. With FetchDocsAppend this
   * determines `fetch_docs` on every list.
   */
  lemma FetchDocsOne(docs: seq<Doc>, i: int)
    ensures FetchDocs(docs, [i]) ==
      if i >= |docs| then Success([])
      else if InRange(docs, i) then Success([docs[Position(docs, i)]])
      else Failure(IndexError)
  {
    assert [i][1..] == [];
    assert FetchDocs(docs, [i][1..]) == Success([]);
    if i < |docs| && InRange(docs, i) {
      var d := docs[Position(docs, i)];
      assert PyIndex(docs, i) == Success(d);
      assert FetchDocs(docs, [i]) == Success([d] + []);
      assert [d] + [] == [d];
    }
  }

  /** Bounds guard: an id at or above `len(docs)` is skipped without raising. */
  lemma FetchDocsSkipsBeyondEnd(docs: seq<Doc>, i: int, ids: seq<int>)
    requires i >= |docs|
    ensures FetchDocs(docs, [i] + ids) == FetchDocs(docs, ids)
  {
    assert ([i] + ids)[1..] == ids;
  }

  /** Ids that Python can index are all resolved, one record each, in order. */
  lemma {:induction false} FetchDocsAllInRange(docs: seq<Doc>, ids: seq<int>)
    requires forall j :: 0 <= j < |ids| ==> InRange(docs, ids[j])
    ensures FetchDocs(docs, ids).Success?
    ensures |FetchDocs(docs, ids).value| == |ids|
    ensures forall j :: 0 <= j < |ids| ==> FetchDocs(docs, ids).value[j] == docs[Position(docs, ids[j])]
    decreases |ids|
  {
    if |ids| > 0 {
      assert InRange(docs, ids[0]);
      FetchDocsAllInRange(docs, ids[1..]);
      var rest := FetchDocs(docs, ids[1..]).value;
      assert FetchDocs(docs, ids).value == [docs[Position(docs, ids[0])]] + rest;
    }
  }

  /** Taking one id out of the middle of the list takes its records out of the result. */
  lemma FetchDocsMiddle(docs: seq<Doc>, l: seq<int>, x: int, r: seq<int>)
    ensures FetchDocs(docs, l + [x] + r).Success? <==>
      FetchDocs(docs, [x]).Success? && FetchDocs(docs, l + r).Success?
    ensures FetchDocs(docs, l + [x] + r).Success? ==>
      multiset(FetchDocs(docs, l + [x] + r).value) ==
      multiset(FetchDocs(docs, [x]).value) + multiset(FetchDocs(docs, l + r).value)
  {
    FetchDocsAppend(docs, l + [x], r);
    FetchDocsAppend(docs, l, [x]);
    FetchDocsAppend(docs, l, r);
  }

  lemma RemoveAt(b: seq<int>, p: int)
    requires 0 <= p < |b|
    ensures b == b[..p] + [b[p]] + b[p + 1..]
    ensures multiset(b[..p] + b[p + 1..]) == multiset(b) - multiset{b[p]}
  {
    assert b == b[..p] + [b[p]] + b[p + 1..];
    assert multiset(b) == multiset(b[..p]) + multiset{b[p]} + multiset(b[p + 1..]);
  }

  /** Resolving `b` is resolving its entry at `p` alongside the rest of `b`. */
  lemma FetchDocsPick(docs: seq<Doc>, b: seq<int>, p: int)
    requires 0 <= p < |b|
    ensures FetchDocs(docs, b).Success? <==>
      FetchDocs(docs, [b[p]]).Success? && FetchDocs(docs, b[..p] + b[p + 1..]).Success?
    ensures FetchDocs(docs, b).Success? ==>
      multiset(FetchDocs(docs, b).value) ==
      multiset(FetchDocs(docs, [b[p]]).value) + multiset(FetchDocs(docs, b[..p] + b[p + 1..]).value)
  {
    RemoveAt(b, p);
    FetchDocsMiddle(docs, b[..p], b[p], b[p + 1..]);
  }

  /** Reordering the ids permutes the resolved records and nothing else. */
  lemma {:induction false} FetchDocsPermutation(docs: seq<Doc>, a: seq<int>, b: seq<int>)
    requires multiset(a) == multiset(b)
    ensures FetchDocs(docs, a).Success? <==> FetchDocs(docs, b).Success?
    ensures FetchDocs(docs, a).Success? ==>
      multiset(FetchDocs(docs, a).value) == multiset(FetchDocs(docs, b).value)
    decreases |a|
  {
    if |a| == 0 {
      assert |b| == |multiset(b)| == 0;
    } else {
      var x := a[0];
      assert x in multiset(b);
      var p :| 0 <= p < |b| && b[p] == x;
      var tailA, tailB := a[1..], b[..p] + b[p + 1..];
      assert multiset(tailA) == multiset(tailB) by {
        RemoveAt(b, p);
        RemoveAt(a, 0);
        assert a[..0] + a[1..] == tailA;
      }
      FetchDocsPermutation(docs, tailA, tailB);
      assert a == [x] + tailA;
      FetchDocsAppend(docs, [x], tailA);
      FetchDocsPick(docs, b, p);
    }
  }
}
