# sentiment_api in Dafny

A model of the request handlers of `sentiment_api`, a small FastAPI service.
The service loads a corpus of citizen comments on public proposals from a JSON
file and classifies each comment's text with a pretrained sentiment model. It
answers four questions about the corpus:

- `GET /comentarios/?page=&limit=`: one page of the comments, newest first.
  Each comment with text is classified as Positivo, Negativo or Neutro. The
  answer also gives the size of the whole corpus.
- `listar_propostas()`: the distinct proposals the comments belong to, in
  ascending order of id, each titled "Proposta <id>". It has no route.
- `GET /sentimentos/?id=`: the classified and scored comments of one
  proposal. It answers 404 with one of two messages when there is nothing to
  show.
- `GET /debug/keys/` and `GET /debug/`: the field names of the first record,
  and the number of records.

The corpus is a parameter: a sequence of records. Each record is the
insertion-ordered key/value list of a JSON object, read with `dict.get`. The
sentiment model is a parameter too: a `Classifier`, an arbitrary total
function from text to its top prediction (an optional label and an optional
score). Everything is proved for every corpus and every classifier.

Modules, one per file:

| module | file | what it holds |
|---|---|---|
| `Wrappers` | wrappers.dfy | `Option` and `Result` |
| `Strings` | strings.dfy | `str.strip()`, `str.lower()` and `<=` on `str` |
| `Seqs` | seqs.dfy | filtering a sequence, as a list comprehension with `if` does |
| `Corpus` | corpus.dfy | records, `dict.get`, the text and date of a comment, `str()` of the root id |
| `Sentiment` | sentiment.dfy | the classifier and the label-to-category mapping |
| `Ordering` | ordering.dfy | `sorted(..., key=data_criacao, reverse=True)` as a stable insertion sort |
| `Listing` | listing.dfy | `listar_comentarios` |
| `Proposals` | proposals.dfy | `listar_propostas` |
| `Analysis` | analysis.dfy | `analisar_sentimentos` |
| `Debug` | debug.dfy | `debug_keys` and `debug` |
| `Scenarios` | scenarios.dfy | worked requests: a two-comment corpus and an empty corpus |

The source builds the two result lists by `append` in a `for` loop that
skips blank texts with `continue`. Those loops become methods with loop
invariants: `Listing.ListComments` and `Analysis.AnalyzeSentiments`.
- `Listing.ListComments` states its result directly.
- `Analysis.AnalyzeSentiments` is proved to return `Analysis.Outcome`. That
  function carries what the endpoint promises.

Everything else in the source is comprehensions and calls, so it becomes
functions and lemmas.

Two details of the code that the model keeps:
- The corpus stays in file order. `listar_comentarios` sorts a copy on every
  request, so `analisar_sentimentos` filters in file order.
- `/debug/keys/` is also `[]` when the first record has no fields
  (`Debug.DebugKeys`).

## Model

| member | source | states |
|---|---|---|
| `Sentiment.Categorize` | app/main.py:61-67 | The category is Positivo exactly when the raw label spells "positive" in any mix of ASCII cases. It is Negativo exactly when the label spells "negative". It is Neutro exactly when the label spells neither. So the mapping is total and every label lands in exactly one category. |
| `Sentiment.LowerMatchesWord` | app/main.py:61-62 | Lower-casing a label yields a given lower-case word exactly when the label spells that word, each letter in either case. |
| `Sentiment.CategorizeIgnoresCase` | app/main.py:61 | Lower-casing the label before mapping it changes no category. |
| `Sentiment.CategoryOf` | app/main.py:111-119 | A prediction without a label is Neutro (the `""` default). Otherwise it gets its label's category. This is the same mapping the listing applies at lines 61-67. |
| `Sentiment.ScoreOf` | app/main.py:112 | A prediction without a score scores 0.0. Otherwise it keeps the model's score. |
| `Strings.Lower` | app/main.py:61 | The result has the input's length. Each character is the input's character lower-cased. |
| `Strings.Strip` | app/main.py:56 | The result is no longer than the input. When not empty, it neither starts nor ends with whitespace. |
| `Strings.StripEmptyIffBlank` | app/main.py:56-58 | The stripped text is empty exactly when the input is empty or made only of whitespace. That is the condition under which a comment is skipped. |
| `Strings.StripIsSlice` | app/main.py:56 | The stripped text is a contiguous slice of the input. Only whitespace lies before and after it. |
| `Strings.StripIdempotent` | app/main.py:105 | A property of `strip()` itself: stripping an already stripped text changes nothing. The code strips each text once, so no call site depends on it. |
| `Strings.LessEq` | app/main.py:47-51 | Defined as Python's `<=` on `str`: the empty string comes first, and otherwise the first characters decide, or the rests when they are equal. Its properties are the `LessEq` lemmas below. |
| `Strings.LessEqIsLexicographic` | app/main.py:47-51 | The string comparison the sort uses holds exactly when the first string is a prefix of the second, or is smaller at the first position where they differ. |
| `Strings.LessEqReflexive` | app/main.py:47-51 | Every date compares as not greater than itself. |
| `Strings.LessEqTotal` | app/main.py:47-51 | Any two dates are comparable. |
| `Strings.LessEqAntisymmetric` | app/main.py:47-51 | Two dates that are each at most the other are equal. |
| `Strings.LessEqTransitive` | app/main.py:47-51 | The comparison is transitive. So the sort key is a total order. |
| `Seqs.Filter` | app/main.py:93-96 | An element is in the filtered list exactly when it is in the input and satisfies the condition. The list is no longer than the input and has no more copies of anything. |
| `Seqs.FilterEmpty` | app/main.py:97 | The filtered list is empty exactly when no element satisfies the condition. |
| `Seqs.FilterFilterEmpty` | app/main.py:130 | Filtering twice leaves nothing exactly when no element satisfies both conditions. |
| `Seqs.FilterKeepsOrder` | app/main.py:55-58 | Skipping elements keeps any order the input was in. |
| `Seqs.FilterConcat` | app/main.py:93-96 | Filtering distributes over concatenation. |
| `Seqs.Map` | app/main.py:68-74 | The mapped list has the input's length, and each of its elements is the function applied to the input's element at that position. |
| `Seqs.MapFilterSnoc` | app/main.py:55-74 | One loop step of both endpoints: one element further, the appended-to list grows by that element's entry exactly when the element passes the test, and is unchanged otherwise. |
| `Corpus.Lookup` | app/main.py:56 | Defined as the value of the first entry under the key, or none; see `Corpus.LookupFinds`. |
| `Corpus.Get` | app/main.py:69-72 | `c.get(key)`, defined as `Corpus.Lookup` on the record's entries; see `Corpus.LookupFinds`. |
| `Corpus.LookupFinds` | app/main.py:56 | `dict.get` finds nothing exactly when no entry has the key. What it finds is the value of an entry with the key. |
| `Corpus.Keys` | app/main.py:42 | The record's keys, in its own order, one per entry. |
| `Corpus.KeysAgreeWithGet` | app/main.py:42 | A key is listed exactly when `get` finds a value for it. |
| `Corpus.Body` | app/main.py:56 | `c.get("corpo", "")`, defined as the value under `corpo` or "" when missing; see `Corpus.HasTextIffNotBlank`. |
| `Corpus.Text` | app/main.py:56 | Defined as `c.get("corpo", "").strip()`; see `Strings.Strip` and `Strings.StripIsSlice`. |
| `Corpus.HasText` | app/main.py:57 | Defined as the stripped text being non-empty, the test `if not texto: continue` passes; see `Corpus.HasTextIffNotBlank`. |
| `Corpus.HasTextIffNotBlank` | app/main.py:56-58 | A record has no text to classify exactly when its `corpo` is missing, empty or whitespace only. |
| `Corpus.Created` | app/main.py:49 | The sort key `c.get("data_criacao", "")`, defined as the date or "" when missing; see `Ordering.SortByDateDesc`. |
| `Corpus.RootIdText` | app/main.py:95 | `str()` of a missing root id is "None". A present one is its own text. |
| `Ordering.SortByDateDesc` | app/main.py:47-51 | The sorted list has the corpus's length and is a permutation of it. It is ordered newest first by `data_criacao`, with a missing date read as "". Records of equal date keep their corpus order (stability). |
| `Ordering.InsertByDatePermutes` | app/main.py:47-51 | Inserting a record adds exactly that record. |
| `Ordering.InsertByDateDescending` | app/main.py:47-51 | Inserting into a newest-first list keeps it newest first. |
| `Ordering.InsertByDateOfDate` | app/main.py:47-51 | The inserted record goes before every record of its own date and leaves the other dates' records in order. |
| `Ordering.ArrangementIsUnique` | app/main.py:47-51 | Two lists that are both newest first and agree on the order of each date's records are equal. |
| `Ordering.SortByDateDescIsPythonSort` | app/main.py:47-51 | Any newest-first, tie-preserving arrangement of the corpus is the sorted list. So the sort is Python's stable reverse sort and no other. |
| `Listing.PageStart` | app/main.py:52 | Defined as `(page - 1) * limit`, the page's first position; see `Listing.ListComments`. |
| `Listing.Window` | app/main.py:52-55 | The slice `[start:start + limit]` holds at most `limit` records. Its records are those at positions `start, start + 1, ...` It is empty, not an error, when `start` is past the end. It reaches `start + limit` or the end of the list. |
| `Listing.Listed` | app/main.py:68-74 | Defined as the entry `{id, id_autor, comentario, data_criacao, sentimento}` of a record: its stripped text, classified by `Sentiment.CategoryOf`; see `Listing.EmittedFromWindow`. |
| `Listing.Emitted` | app/main.py:54-74 | Defined as the entries of the window's records that have text, in window order; see `Listing.EmittedFromWindow`, `Listing.EmittedCoversWindow` and `Listing.EmittedNewestFirst`. |
| `Listing.ListComments` | app/main.py:46-78 | `total` is the size of the whole corpus, whatever the page or the blank texts. At most `limit` comments come back, and a page past the end yields none. Each comment has non-empty text and is the entry of a record with text at the page's positions of the sorted corpus. Every such record is emitted. Comments come newest first. The result is exactly the emitted entries of the page's window. |
| `Listing.EmittedFromWindow` | app/main.py:55-74 | Every emitted comment has non-empty text and comes from a record with text in the page's window. |
| `Listing.EmittedCoversWindow` | app/main.py:55-74 | Every record with text in the page's window is emitted. |
| `Listing.EmittedNewestFirst` | app/main.py:47-55 | Comments taken from a newest-first list come out newest first. |
| `Proposals.RootIds` | app/main.py:86 | Defined as the set of values under `id_comentavel_raiz` across the corpus; see `Proposals.DistinctRootIds` and `Proposals.RootIdsCons`. |
| `Proposals.InsertDistinctMembers` | app/main.py:86 | Adding an id to the list gives the old ids plus that one. |
| `Proposals.InsertDistinctAscending` | app/main.py:86 | Adding an id keeps the list ascending with no repeats. |
| `Proposals.DistinctRootIds` | app/main.py:86 | The call fails with `KeyError` exactly when some record lacks `id_comentavel_raiz`. Otherwise the ids are strictly ascending, with no repeats, and are exactly the corpus's root ids. |
| `Proposals.RootIdsCons` | app/main.py:86 | The root ids of a corpus are its first record's id plus those of the rest. |
| `Proposals.AscendingIsUnique` | app/main.py:86 | Two strictly ascending lists holding the same ids are equal. So the sorted listing of a set is determined by the set. |
| `Proposals.Title` | app/main.py:88 | The title is "Proposta " followed by the id. |
| `Proposals.ListProposals` | app/main.py:84-88 | The call fails with `KeyError` exactly when some record lacks `id_comentavel_raiz`. Otherwise the ids are strictly ascending with no repeats. Every proposal's id is a root id of the corpus, and its title is "Proposta " + id. Every root id has its proposal. |
| `Analysis.NoMatchDetail` | app/main.py:100 | Defined as "Nenhum comentário encontrado para id " followed by the id; see `Analysis.DetailsDiffer`. |
| `Analysis.NoTextDetail` | app/main.py:133 | Defined as "Nenhum comentário para id " followed by the id; see `Analysis.DetailsDiffer`. |
| `Analysis.Matching` | app/main.py:93-96 | Defined as the records whose root id, as text, is the id, in corpus order; see `Analysis.MatchingEmpty` and `Analysis.MissingRootMatchesNone`. |
| `Analysis.DetailsDiffer` | app/main.py:130-134 | The second 404's message differs from the first's for every id. |
| `Analysis.MissingRootMatchesNone` | app/main.py:93-96 | A record without a root id belongs to the id "None". |
| `Analysis.MatchingEmpty` | app/main.py:93-101 | Nothing matches exactly when no record's root id, as text, is the id. Nothing with text matches exactly when no such record has text. |
| `Analysis.Scored` | app/main.py:109-128 | Defined as the entry `{id, id_autor, comentario, data_criacao, score, sentimento}` of a record: its stripped text, classified, with the prediction's score; see `Analysis.ResultsOfProposal`. |
| `Analysis.Outcome` | app/main.py:92-140 | With no matching record, the call gives the first 404. With matches but none with text, it gives the second 404. It succeeds exactly when some matching record has text. Then `id_proposta` echoes the id and `quantidade == len(comentarios) >= 1`. `quantidade` is the number of matching records with text. `comentarios` is the scored entry of each matching record with text, one per record, repeated records included, in corpus order. Every entry has non-empty text and is the scored entry of a corpus record of that proposal with text. Every such record is present. |
| `Analysis.AnalyzeSentiments` | app/main.py:92-140 | The filter, the first 404, the loop with its `continue`, the second 404 and the answer return exactly `Analysis.Outcome`. |
| `Analysis.ResultsOfProposal` | app/main.py:103-128 | The kept entries are exactly those of the proposal's records with text. |
| `Debug.DebugKeys` | app/main.py:40-42 | The result is empty exactly when the corpus is empty or its first record has no fields. Otherwise it is that record's keys in order, and a key is listed exactly when the record has a value for it. |
| `Debug.DebugCount` | app/main.py:80-81 | `total_comentarios` is the number of records, with and without text alike. |
| `Scenarios.PageOfTwo` | app/main.py:46-78 | Take a comment with text and an older one without. Page 1 with any limit of at least two lists just the first. |
| `Scenarios.SampleListing` | app/main.py:46-78 | On the two-comment sample, page 1 of 10 lists only comment "1", with text "bom". |
| `Scenarios.OneProposal` | app/main.py:84-88 | Two comments of one proposal give that proposal alone. |
| `Scenarios.SampleProposals` | app/main.py:84-88 | The sample gives `[{id: "p1", titulo: "Proposta p1"}]`. |
| `Scenarios.AnalysisOfTwo` | app/main.py:92-140 | Two comments of one proposal, only the first with text: the analysis scores that one and counts 1. |
| `Scenarios.UnknownProposal` | app/main.py:97-101 | An id that no record has gives the first 404. |
| `Scenarios.SampleAnalysis` | app/main.py:92-140 | Proposal "p1" of the sample gives one scored comment. |
| `Scenarios.SampleUnknown` | app/main.py:97-101 | The id "nonexistent" gives the first 404 on the sample. |
| `Scenarios.EmptyCorpus` | app/main.py:40-81 | On an empty corpus, both debug endpoints report nothing and there are no proposals. Any id gives the first 404 and every page is empty. |

## Left out

- FastAPI routing, the CORS middleware and `Query` validation are not modelled. The `page >= 1` and `1 <= limit <= 100` bounds are the precondition of `Listing.ListComments`. The 404 is a `Failure` value carrying the status and the detail.
- Listing.ListComments: takes `page` and `limit` as arguments and has no defaults. A request that omits them gets `page=1` and `limit=30` from `Query` (app/main.py:46); the model names these as `Listing.DefaultPage` and `Listing.DefaultLimit` and nothing more.
- Sentiment.Classifier: a total function, so the model has no request that fails inside the classifier. A pipeline call that raises, or an output list that is empty at `analysis[0]` (app/main.py:59-60, 109-110), aborts the request in the code; neither is modelled.
- Reading `comentarios_organizados.json`, and the fallback to an empty corpus when the file is missing, are not modelled. The corpus is a parameter, possibly empty.
- The `transformers` pipeline, its weights and its truncation of long inputs are not modelled. The classifier is an arbitrary function parameter returning the first prediction of the model's output.
- `print` diagnostics and module-level initialisation are not modelled.
- Concurrency, the sharing of one model instance, and JSON serialisation of the responses are not modelled.
- Sentiment.ScoreOf: the score is not rounded to three decimals (`round(score, 3)`), because that is floating-point arithmetic. The model's score is carried as a real.
- Analysis.Outcome: scores are carried unrounded, as for `Sentiment.ScoreOf`.
- Strings.Lower: lower-cases ASCII letters only. Python's `str.lower()` maps only two non-ASCII characters to text containing ASCII letters: U+212A becomes "k" and U+0130 becomes "i" plus a combining dot. Neither can produce "positive" or "negative", so the category of every label is the same as in Python.
- Corpus.Record: JSON values are carried as text. Numbers and other non-string values, and the `str()` of them, are not modelled. `sorted` on numeric root ids would order them by value, not as text.
- Corpus.Record: a record is taken to have distinct keys, as a Python dictionary does. With a repeated key `Corpus.Get` reads the first entry, whereas `json.load` keeps the last.
