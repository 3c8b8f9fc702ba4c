# Syntax-aware code generation backend: retrieval and request pipeline

This project models the deterministic core of a code-generation backend in
Dafny and proves properties of the model. The backend answers a
`/generate` request in four steps:

1. A language model breaks the programming query into "syntax elements". The
   backend cleans the completion into a list: decoded JSON, or else its
   non-blank lines, each with every leading and trailing `-` and space
   removed and then the surrounding whitespace trimmed.
2. For every element, the `DocumentRetriever` searches two similarity indexes
   over documentation records: one over summaries, one over use cases. It
   keeps the hits scoring strictly above 0.6 and ranks them by score with a
   stable sort. It then fuses the two ranked lists, summary hits first on
   ties, and keeps the first `k = 2` record positions.
3. The positions of all elements are pooled into a set. The set is resolved
   to records by `fetch_docs`, which skips positions at or past the end of
   the record list.
4. The records go to the code merger. The response carries the merged code,
   the explanation and the set of the records' `source` fields. Any
   exception on the way becomes an error response whose explanation is
   `"An error occurred: "` followed by the exception's message.

Modules, one per file:

- `Wrappers` and `Exceptions` (`wrappers.dfy`): `Option`, `Result`, and the
  Python exceptions with their `str(e)` text.
- `Ranking` (`ranking.dfy`): candidates, and the stable descending sort
  with its uniqueness and re-sort laws.
- `DocumentRetrieval` (`document_retrieval.dfy`): `retrieve_from_index`,
  `retrieve` and `fetch_docs`, with Python list-indexing semantics.
- `PyStr` (`py_str.dfy`): the Python string operations used by the
  cleaner: `isspace`, `strip(chars)` and `split`.
- `QueryParser` (`query_parser.dfy`): `_clean_response` and `parse`.
- `GenerateHandler` (`generate_handler.dfy`): the body of `generate_code`.

External collaborators are function parameters, so every property holds for
any behaviour the parameter types allow. The exceptions these types cannot
express are listed under "## Left out":

| collaborator | parameter |
|---|---|
| the embedding model and FAISS search | `search` / the candidate lists |
| the completion call | `complete`, returning the call's exception as a failure |
| `json.loads` | `decode`, returning `None` for `JSONDecodeError`; its other exceptions are not modelled |
| `len` on a decoded JSON value | `lenFailure` |
| iterating a decoded JSON value | `iterate` |
| the order `list()` gives a set | `listing` |
| the code merger | `merge` |

## Model

| member | source | states |
|---|---|---|
| DocumentRetrieval.PyIndex | app/services/document_retrieval.py:49 | Python list indexing. Succeeds exactly for `-len <= i < len`; negative positions count from the end; anything else is IndexError. |
| DocumentRetrieval.Survivors | app/services/document_retrieval.py:39 | Keeps exactly the hits scoring strictly above 0.6, as a subsequence of the search order. Each score's slice is unchanged above the threshold and empty at or below it. |
| DocumentRetrieval.LookupAll | app/services/document_retrieval.py:49 | Resolving the ranked hits raises IndexError exactly when some hit's id cannot be indexed. Otherwise it gives one record per hit. |
| DocumentRetrieval.RetrieveFromIndex | app/services/document_retrieval.py:25-62 | With the console print of line 59 modelled as never raising, it succeeds exactly when every surviving id is indexable, and fails only with IndexError. The result is sorted by descending score and holds only surviving hits. Each score's candidates keep their search order (a stable sort). |
| DocumentRetrieval.FusedRanking | app/services/document_retrieval.py:64-72 | The fused ranking is sorted and a permutation of both indexes' survivors. At each score it lists the summary hits, then the use-case hits, each group in search order. |
| DocumentRetrieval.FusedRankingUnique | app/services/document_retrieval.py:69-72 | Any sorted list with the same per-score slices is exactly the fused ranking. |
| DocumentRetrieval.RankedConcat | app/services/document_retrieval.py:69-72 | Re-sorting the concatenation of the two ranked lists gives the fused ranking, and all its ids are indexable. |
| DocumentRetrieval.RankedTop | app/services/document_retrieval.py:72-78 | The first `k` ids of the re-sorted lists are the first `k` of the fused ranking: at most `k` of them, all indexable. |
| DocumentRetrieval.TopOfRanked | app/services/document_retrieval.py:72-78 | The sort, cut and projection after both indexes are ranked give the ids of the top `k` of the fused ranking, within bounds. |
| DocumentRetrieval.Retrieve | app/services/document_retrieval.py:64-84 | With the console print of line 59 modelled as never raising, it succeeds exactly when every surviving id of both searches is indexable, and otherwise raises IndexError. On success it returns the ids of the first `k` of the fused ranking: at most `k` of them, all indexable. |
| DocumentRetrieval.RetrieveInRange | app/services/document_retrieval.py:64-84 | With the console print of line 59 modelled as never raising: when every surviving hit of both searches is indexable, `retrieve` succeeds with exactly the ids of the top `k` of the fused ranking. Hits at or below the threshold may be out of range. |
| DocumentRetrieval.RetrieveFor | app/services/document_retrieval.py:64-66 | With both indexes searched at width `k`, the result holds at most `k` ids and all of them are indexable. |
| DocumentRetrieval.ThresholdIsStrict | app/services/document_retrieval.py:39 | With scores as exact reals, a hit scoring exactly 0.6 is dropped and one scoring above it is kept. |
| DocumentRetrieval.SurvivorsNoneAbove | app/services/document_retrieval.py:39 | When no hit scores above 0.6, nothing survives. |
| DocumentRetrieval.RetrieveNothingAbove | app/services/document_retrieval.py:39-84 | When nothing scores above the threshold, the result is the empty list and not an error, even with out-of-range ids among the hits. |
| DocumentRetrieval.TieFused | app/services/document_retrieval.py:69-72 | A summary hit and a use-case hit of equal score fuse in that order. |
| DocumentRetrieval.RetrieveTieBreak | app/services/document_retrieval.py:64-84 | On equal scores `retrieve` returns the summary hit's id before the use-case hit's. |
| DocumentRetrieval.FusionExampleRanking | app/services/document_retrieval.py:69-72 | Summary hits `a`, `b` and use-case hit `c` with scores a > c > b > 0.6 fuse to `[a, c, b]`. |
| DocumentRetrieval.RetrieveFusionExample | app/services/document_retrieval.py:64-84 | The same hits at `k = 2` give `[a, c]`: the third-best hit is cut even though it came from the summary index. |
| DocumentRetrieval.RetrieveKeepsDuplicates | app/services/document_retrieval.py:69-78 | An id surviving in both indexes is returned twice; `retrieve` does not deduplicate. |
| DocumentRetrieval.FetchDocs | app/services/document_retrieval.py:86-90 | Succeeds exactly when no id is below `-len(docs)`, and fails only with IndexError. On success it holds at most one record per id, only records of `docs`, and the record of every id in `0 <= i < len`. |
| DocumentRetrieval.FetchDocsAppend | app/services/document_retrieval.py:87 | The lookup works id by id: on a concatenation of id lists it succeeds exactly when both parts do, and gives the concatenation of their results. |
| DocumentRetrieval.FetchDocsOne | app/services/document_retrieval.py:87 | A single id is skipped at or past the end, resolves to the record Python reads when indexable, and raises IndexError below `-len(docs)`. Together with FetchDocsAppend this fixes the result on every list. |
| DocumentRetrieval.FetchDocsSkipsBeyondEnd | app/services/document_retrieval.py:87 | An id at or past the end is skipped without raising. |
| DocumentRetrieval.FetchDocsAllInRange | app/services/document_retrieval.py:87 | Indexable ids are all resolved, one record each, in order. Negative ids read from the end. |
| DocumentRetrieval.FetchDocsPermutation | app/services/document_retrieval.py:87 | Permuting the ids permutes the records: whether it raises, and the multiset of records, do not change. |
| Ranking.WithScoreMembers | app/services/document_retrieval.py:47 | The slice of a score holds exactly the candidates of that score. |
| Ranking.SortDesc | app/services/document_retrieval.py:47 | The stable descending sort is a permutation of its input and sorted by score. Equal scores keep their input order. |
| Ranking.SortedSlicesDetermine | app/services/document_retrieval.py:47 | Two sorted lists whose candidates agree score by score, in order, are equal. |
| Ranking.SortDescUnique | app/services/document_retrieval.py:47 | The stable sort is the only sorted arrangement that keeps every score's input order. |
| Ranking.ResortConcat | app/services/document_retrieval.py:69-72 | Sorting two sorted lists after concatenating them is the stable sort of the raw concatenation. |
| PyStr.IsSpace | app/services/query_parser.py:60 | The characters `str.isspace` accepts and `strip()` removes: tab through carriage return, the separators 0x1C-0x1F, space, 0x85, no-break space, and the Unicode space separators and line/paragraph separators. |
| PyStr.Strip | app/services/query_parser.py:60 | `s.strip(chars)` is empty exactly when every character is stripped. Otherwise both of its ends are kept characters, and it holds only characters of `s`. |
| PyStr.StripCharacterised | app/services/query_parser.py:60 | Any slice `s[i..j]` whose outside is all stripped characters and whose ends are kept ones is exactly `s.strip(chars)`. |
| PyStr.Split | app/services/query_parser.py:60 | `s.split(sep)` gives at least one piece, and no piece contains the separator. |
| PyStr.SplitCount | app/services/query_parser.py:60 | A split gives one piece more than there are separators. |
| PyStr.JoinSplit | app/services/query_parser.py:60 | Joining the pieces of a split gives back the string. |
| PyStr.SplitJoin | app/services/query_parser.py:60 | Splitting a join of separator-free pieces gives back the pieces. |
| QueryParser.BlankIffStripEmpty | app/services/query_parser.py:60 | The filter `if r.strip()` drops a line exactly when the line is all whitespace. |
| QueryParser.CleanLine | app/services/query_parser.py:60 | `r.strip("- ").strip()` has no whitespace at either end and holds only characters of the line. |
| QueryParser.KeepLines | app/services/query_parser.py:60 | The comprehension keeps at most one string per line, and keeps none exactly when every line is blank. |
| QueryParser.KeepLinesAppend | app/services/query_parser.py:60 | The comprehension distributes over concatenation of the line list. |
| QueryParser.KeepLinesKeeps | app/services/query_parser.py:60 | The cleaned form of every non-blank line is kept. |
| QueryParser.KeepLinesOnlyCleaned | app/services/query_parser.py:60 | Every kept string is the cleaned form of some non-blank line. |
| QueryParser.KeepLinesClean | app/services/query_parser.py:60 | Every kept string is trimmed, and free of newlines when the lines are. |
| QueryParser.FallbackLines | app/services/query_parser.py:58-62 | The fallback gives at most one item per line of the completion. Each item is trimmed and contains no newline. |
| QueryParser.FallbackEmptyIffBlank | app/services/query_parser.py:58-62 | The fallback is empty exactly when the completion is empty or all whitespace. |
| QueryParser.FallbackOfJoin | app/services/query_parser.py:60 | Newline-free lines joined with newlines come back as exactly the kept forms of those lines. |
| QueryParser.CleanResponse | app/services/query_parser.py:52-62 | With `json.loads` raising nothing but JSONDecodeError, a completion that decodes as JSON is returned decoded and unchecked. Otherwise it gives exactly the fallback lines of the completion, which are bounded, trimmed and newline-free. |
| QueryParser.Parse | app/services/query_parser.py:43-50 | An exception of the completion call ends `parse` with that exception. Given a completion, and with `json.loads` raising nothing but JSONDecodeError, `parse` raises exactly when it decodes to a value without a length, and then with that TypeError. Otherwise it returns the cleaned completion. |
| QueryParser.ParseFallbackNeverFails | app/services/query_parser.py:58-62 | With `json.loads` raising nothing but JSONDecodeError, a completion that arrives and is not JSON never makes `parse` raise: it parses to exactly its fallback lines. |
| QueryParser.DashLineYieldsEmpty | app/services/query_parser.py:60 | A line of dashes and spaces holding a dash is kept, as the empty string. |
| QueryParser.DashesExample | app/services/query_parser.py:60 | The completion `"---"` yields `[""]`. |
| QueryParser.BulletLine | app/services/query_parser.py:60 | A `"- "` bullet before text with plain ends is removed, and the text is kept intact. |
| QueryParser.BulletedAt | app/services/query_parser.py:60 | Line `j` of a bullet list is item `j` behind `"- "`. |
| QueryParser.KeepBulleted | app/services/query_parser.py:60 | Bullet lines of plain items clean back to exactly the items. |
| QueryParser.BulletListRoundTrip | app/services/query_parser.py:58-62 | A completion that is a newline-terminated bullet list of plain items parses back to exactly the items. |
| QueryParser.BulletListExample | app/services/query_parser.py:58-62 | The completion `"- file handling\n- CSV parsing\n"` yields `["file handling", "CSV parsing"]`. |
| QueryParser.TabIndentedBulletKeepsDash | app/services/query_parser.py:60 | A tab before the bullet stops the bullet strip, so the line keeps its dash: `"\t- x"` yields `"- x"`. |
| GenerateHandler.RetrieverOf | app/main.py:49 | With the embedding, the search and the console print of `app/services/document_retrieval.py:59` modelled as never raising, the per-element retrieval at `k = 2` returns at most two ids, all indexable, and raises only IndexError. |
| GenerateHandler.CollectIds | app/main.py:45-51 | The pooling loop succeeds exactly when every element's retrieval succeeds. Otherwise it raises the exception of the first element that fails. |
| GenerateHandler.CollectIdsEmpty | app/main.py:45-51 | With no syntax elements the pooled set is empty and nothing raises. |
| GenerateHandler.CollectIdsMembers | app/main.py:45-51 | The pooled set holds exactly the ids some element retrieves. |
| GenerateHandler.CollectIdsInRange | app/main.py:45-51 | With a retriever that raises only IndexError and returns indexable ids (the real one, with search and the console print modelled as never raising), every pooled id is indexable and the loop raises only IndexError. |
| GenerateHandler.CollectIdsCollapsesRepeats | app/main.py:50 | An id retrieved twice is pooled once. |
| GenerateHandler.SameElementsRetrievable | app/main.py:48-49 | Whether every retrieval succeeds depends only on which elements occur. |
| GenerateHandler.CollectIdsSameSet | app/main.py:45-51 | For any retriever, reordering or repeating the elements changes neither the pooled set nor whether the loop raises. |
| GenerateHandler.CollectIdsOrderFree | app/main.py:45-51 | For a retriever that returns indexable ids and raises only IndexError (`Sound`), reordering or repeating the elements changes neither the pooled set nor the exception raised. |
| GenerateHandler.DistinctCount | app/main.py:53 | A list without repeats holds each member once. |
| GenerateHandler.DistinctCardinality | app/main.py:53 | A list without repeats has as many entries as members. |
| GenerateHandler.EnumerationsPermute | app/main.py:53 | Any two orders `list()` may give the pooled set are permutations of each other. |
| GenerateHandler.EnumerationLength | app/main.py:53 | `list(doc_indices)` has one entry per pooled id. |
| GenerateHandler.SnippetsExact | app/main.py:53 | On the pooled set, `fetch_docs` never raises and the bounds guard drops nothing: the snippets are the records at the listed ids, one per id. |
| GenerateHandler.SnippetsOrderFree | app/main.py:53 | The snippets do not depend on the order of `list()`, up to their own order. |
| GenerateHandler.Sources | app/main.py:63 | The references succeed exactly when every snippet has a source. Otherwise they raise `KeyError('source')`. |
| GenerateHandler.SourcesMembers | app/main.py:63 | The references are exactly the sources of the snippets. |
| GenerateHandler.SourcesPresent | app/main.py:63 | Taking records from snippets that all have sources keeps the references defined. |
| GenerateHandler.SourcesOrderFree | app/main.py:63 | The references depend only on which records are present, not on their order or repeats. |
| Exceptions.Message | app/main.py:76 | Python's `str(e)` for the exceptions of the pipeline: "list index out of range" for the IndexError of `app/services/document_retrieval.py:49`, the quoted key `'source'` for the KeyError of `app/main.py:63`, and a collaborator's own message otherwise. |
| GenerateHandler.ErrorResponse | app/main.py:72-77 | Every exception becomes a response with no code and no references. Its explanation is the fixed prefix followed by exactly the exception's message. |
| GenerateHandler.Elements | app/main.py:48 | The elements the loop visits: the fallback lines, or the iteration of the decoded JSON value. |
| GenerateHandler.Handle | app/main.py:38-70 | The stages run in order and the first exception is the result. A successful response had every stage succeed, and its references are the sources of the fetched snippets. |
| GenerateHandler.GenerateCode | app/main.py:36-77 | The response is the handled result, or the error response of the exception raised. |
| GenerateHandler.RecordsAt | app/main.py:53 | The records the pooled ids point at, read with Python indexing. |
| GenerateHandler.SnippetsAreRecords | app/main.py:53 | The snippets hold exactly the records at the pooled ids. |
| GenerateHandler.GenerateCodeAfterFetch | app/main.py:53-70 | Once the snippets are fetched, the response depends only on the merge and on the snippets' sources. |
| GenerateHandler.SourcesOfRecords | app/main.py:63 | Snippets holding exactly the given records have references exactly when every record has a source. The references are then exactly those sources. |
| GenerateHandler.GenerateCodeReferences | app/main.py:45-77 | End to end with the real retriever: a merge failure gives its error response. Otherwise the code and explanation are the merger's and the references are exactly the sources of the records at the pooled ids. A record without a source gives the `KeyError('source')` response. |
| GenerateHandler.GenerateCodeRetrievalError | app/main.py:48-77 | With search and the console print modelled as never raising, any retrieval that raises gives the IndexError response, "An error occurred: list index out of range". |
| GenerateHandler.GenerateCodeNoElements | app/main.py:45-63 | With no syntax elements nothing is retrieved, the merger sees no snippets, and there are no references. |

### Where the model follows the code over the documentation

- **Threshold.** The filter keeps scores strictly above 0.6
  (`app/services/document_retrieval.py:39`). The docstring at line 26 and
  the comment at line 38 say 0.53. The model uses 0.6.
- **Return types.** `retrieve_from_index` and `retrieve` are annotated
  `List[Dict]`. They return `(position, score)` pairs and positions
  respectively, which is what the model returns.
- **Out-of-range positions.** `retrieve_from_index` looks up every survivor
  without a bounds check (line 49). An out-of-range position therefore
  raises IndexError there. It is not silently dropped later by `fetch_docs`.
  `GenerateHandler.SnippetsExact` shows that on the pooled set the guard of
  `fetch_docs` never drops anything.
- **The guard in `fetch_docs`.** It only checks `i < len(docs)`. A position
  below `-len(docs)` raises IndexError.
- **`parse` can raise.** It calls `len()` on whatever JSON decoded (line 47).
  A number, say, raises TypeError and ends the request with an error
  response. The completion call itself (`generate_response`,
  `app/models/llama_handler.py:37-58`) has no exception handler, unlike
  `generate`, so a failed chat call also ends `parse`.

## Left out

- The embedding model, FAISS search, the completion calls and the code merger: external; they are parameters (`search`, `complete`, `merge`). Prompt texts are not modelled.
- `search`: modelled as never raising, although `model.encode` and `index.search` (`app/services/document_retrieval.py:29-32`) can raise. Every claim that retrieval raises only IndexError (`RetrieverOf`, `CollectIdsInRange`, `GenerateCodeRetrievalError`) holds under this assumption only. `complete` and `merge` do return failures, and `Handle` passes them on.
- FAISS padding of short result lists with position `-1`: scores are arbitrary reals, so a padded hit is covered only as an ordinary candidate.
- Scores as float32: modelled as exact reals; NaN and rounding are out of scope. `k` is a natural number.
- `json.loads` and iteration of a decoded value: parameters `decode` and `iterate`; an element that is not a string is not modelled.
- The text of the TypeError that `len()` raises: supplied by the parameter `lenFailure`.
- The order `list()` gives a set: parameter `listing`; properties about it hold for every enumeration.
- Order of `references`: the code builds a list from a set, whose order Python leaves unspecified; the model returns the set.
- DocumentRetrieval.RetrieveFromIndex, DocumentRetrieval.Retrieve, DocumentRetrieval.RetrieveInRange, GenerateHandler.RetrieverOf, GenerateHandler.CollectIdsInRange, GenerateHandler.GenerateCodeRetrievalError: the console `print` at `app/services/document_retrieval.py:59` comes from `rich` and parses console markup. It raises `MarkupError` when a record's text holds a closing tag that matches no open tag (a snippet containing `[/\\]`, say). That ends the retrieval with an exception other than IndexError, even when every survivor is in range. These members' success-iff and IndexError-only claims hold only when that print does not raise.
- QueryParser.CleanResponse, QueryParser.Parse, QueryParser.ParseFallbackNeverFails: `_clean_response` catches only JSONDecodeError (`app/services/query_parser.py:58`). Other exceptions of `json.loads` are not modelled: RecursionError on deeply nested text such as 20000 `[`, and ValueError on an integer literal of more than 4300 digits. Either one ends `parse`. The claims that the fallback is returned and that `parse` never raises on text that is not JSON assume them away.
- Logging, the plain `print` calls, and the writes of `output_code.md` and `output_explanation.md` (`app/main.py:65-68`, which can also raise): I/O.
- FastAPI routing, CORS and pydantic request/response validation: framework code.
- Loading the indexes and the record file, `scripts/preprocess_docs.py`, the completion client and the code merger's prompt logic: outside the request core.
- The handler lemmas that need range facts take any retriever satisfying the predicate `Sound`; `GenerateHandler.RetrieverOf` shows the real retriever does.
