# Mini search engine: a verified model

The repository is an in-memory TF-IDF search engine in two versions of one
class, `MiniSearchEngine`:

- The earlier engine (`mini_search.py`) keeps each term's postings as a list.
  It re-sorts and de-duplicates that list after every insertion. It ranks by
  sorting every score and slicing off the first `k`.
- The phase-3 engine (`mini_search_phase3.py`) keeps postings as sets. It
  caches idf values until the next addition, and it ranks with
  `heapq.nlargest`.

The model has one Dafny module per concern:

| module | models |
|---|---|
| `Tokenizer` | `_tokenize`, which both versions share: letters and digits are lower-cased, every other character becomes a separator, and the text is split on runs of separators |
| `TermCounts` | what `Counter(tokens)` provides to `add_doc`: the distinct terms in order of first occurrence, with their counts |
| `Ranking` | Python's `(score, doc_id)` tuple order, `list.sort(reverse=True)`, the slice `[:k]`, and `heapq.nlargest` as a bounded-selection loop |
| `InvertedIndex` | the engine's tables as a value (documents, postings, term frequencies, document frequencies, N); what `add_doc` does to them; what a query's candidates and scores are; the invariants of the tables |
| `MiniSearchPhase3` | the phase-3 class, with the same fields and the `idf_cache` |
| `MiniSearch` | the earlier class, with list postings |

Each class method that changes state is proved against `InvertedIndex`:

- `AddDoc` leaves `State()` equal to `InvertedIndex.AddDoc(old(State()), id, text)`.
- `Search` returns a top list (`Ranking.IsTop`) over the scored candidates.
- `Ranking.TopUnique` shows that such a list is determined by its length.
  So the result does not depend on the order in which the candidate set is
  visited. For `k >= 0` both versions return the same list on the same
  tables.

Scores are abstract. Each engine takes two functions:

- `idfOf(N, 1 + df)` stands for `log(1 + N / (1 + df))`.
- `weightOf(tf, idf)` stands for `(1 + log(tf)) * idf`.

A document's score is the sum of the weights of the query terms it contains,
added in query order.

Two behaviours are modelled as the code has them, although neither is what a
caller of `add_doc` ("Add a new document") or of a top-k search would expect:

- The earlier version slices `scores[:k]`, so a negative `k` drops entries
  from the end. The phase-3 version returns nothing for `k <= 0`. Both are
  modelled as written.
- `add_doc` under an id that is already indexed stores the new text and
  records the terms of the new text, but removes nothing for the old text.
  The df of each term of the new text goes up by one, so a term the old and
  the new text share is counted twice. A term only the old text had keeps
  its tf entry for the id and keeps the id in its postings, so `search`
  still returns the document for that term. This is modelled as written
  (`AddDoc`) and reported under Findings. The corrected operation
  (`AddNew`, `AddNewDoc`) refuses the id with a `DuplicateId` error.

## Model

| member | source | states |
|---|---|---|
| Tokenizer.Tokenize | mini_search_phase3.py:40-43 | every term produced is non-empty and made only of lower-case letters and digits |
| Tokenizer.TokenizeEmptyIff | mini_search_phase3.py:40-43 | a text gives no term exactly when it has no letter or digit, which is when `search` takes its early `return []` |
| Tokenizer.TokenizeSeparator | mini_search_phase3.py:42-43 | any character that is not a letter or digit separates: the terms of `a + p + b` are those of `a` followed by those of `b` |
| Tokenizer.TokenizeTerm | mini_search.py:25-28 | a normalised term tokenizes to itself alone |
| Tokenizer.TokenizeJoin | mini_search.py:25-28 | round trip: normalised terms joined by spaces tokenize back to the same list |
| Tokenizer.TokenizeIgnoresCase | mini_search_phase3.py:42 | lower-casing a text first changes none of its terms |
| Tokenizer.TokenizeCatsExample | mini_search_phase3.py:40-43 | "CATS!" and "cats" both give exactly the term "cats" |
| TermCounts.Count | mini_search_phase3.py:54 | a term's count is positive exactly when the term occurs, and never exceeds the number of tokens |
| TermCounts.Distinct | mini_search_phase3.py:54-56 | the terms the counter visits: no repeats, and exactly the terms of the token list |
| Ranking.SortDesc | mini_search.py:65 | `sort(reverse=True)`: a permutation of the scores, ordered largest first in tuple order |
| Ranking.SortDescDescending | mini_search.py:65 | on entries without repeats, the sort is strictly descending |
| Ranking.Insert | mini_search_phase3.py:94 | placing one entry into a list ordered largest first adds exactly that entry: the length grows by one and the multiset gains that entry (the capped buffer of `NLargest` then keeps only its first `k`) |
| Ranking.InsertSorted | mini_search_phase3.py:94 | inserting into a buffer ordered largest first keeps it ordered |
| Ranking.Take | mini_search.py:66 | Python's `s[:k]`: length `min(k, n)` for `k >= 0`, `max(0, n + k)` for `k < 0`, always a prefix |
| Ranking.NLargestSpec | mini_search_phase3.py:94 | what `heapq.nlargest(k, s)` returns: nothing for `k <= 0`, else the first `min(k, n)` entries of the full descending sort; its shape is stated by `NLargestSpecSorted` |
| Ranking.NLargestSpecSorted | mini_search_phase3.py:94 | the `nlargest` result has `min(k, n)` entries (none for `k <= 0`), all taken from the input, ordered largest first |
| Ranking.NLargestIsSortThenTake | mini_search_phase3.py:94 | for `k >= 0`, `nlargest(k, s)` equals `sorted(s, reverse=True)[:k]`, so the two versions rank alike |
| Ranking.NLargest | mini_search_phase3.py:94 | the bounded selection returns exactly the first `min(k, n)` entries of the full descending sort, and nothing for `k <= 0` |
| Ranking.OfferStep | mini_search_phase3.py:94 | one offered entry keeps the buffer equal to the first `k` of the sorted entries seen so far |
| Ranking.NLargestIsTop | mini_search_phase3.py:94 | the `nlargest` result has length `min(k, n)`, is a top list of the entries, and is the only top list of that length |
| Ranking.TopUnique | mini_search_phase3.py:88-94 | two top lists of the same set with the same length are equal, whatever order the entries arrived in |
| Ranking.SortThenTakeIsTop | mini_search.py:65-66 | sort then `[:k]` gives a top list whose length is the slice's length, also for a negative `k` |
| InvertedIndex.RecordStep | mini_search_phase3.py:56-59 | recording one more distinct term is one pass of the `add_doc` loop: its tf is set, its df incremented, and the id added to its postings |
| InvertedIndex.AddDoc | mini_search_phase3.py:50-59 | `add_doc` on the tables as a value: the text is stored under the id and N is the number of stored documents; the other tables are stated by the lemmas below |
| InvertedIndex.AddDocCountsDocs | mini_search_phase3.py:50-51 | N grows by one for a new id and stays the same for an id already stored |
| InvertedIndex.AddDocPostings | mini_search_phase3.py:59 | after `add_doc`, a term's postings gain the id exactly when the term occurs in the text |
| InvertedIndex.AddDocDf | mini_search_phase3.py:58 | after `add_doc`, a term's df grows by one exactly when the term occurs in the text |
| InvertedIndex.AddDocTf | mini_search_phase3.py:57 | after `add_doc`, the tf entries of the new document are the counts of its terms, and every other entry is unchanged |
| InvertedIndex.AddDocWellFormed | mini_search_phase3.py:45-59 | every `add_doc`, under any id, keeps N equal to the number of documents and keeps tf and postings in step |
| InvertedIndex.AddDocRecordsTerms | mini_search_phase3.py:50-59 | after `add_doc(id, text)` the text is stored under the id, N counts the documents, and each term of the text has its count as tf and the id in its postings |
| InvertedIndex.AddDocLeavesOtherTerms | mini_search_phase3.py:56-59 | a term absent from the text keeps its postings and df, and tf entries of other documents are untouched |
| InvertedIndex.AddFreshFaithful | mini_search_phase3.py:45-59 | with an id not indexed before, `add_doc` keeps each df equal to its postings size and the tf equal to the counts in the stored texts |
| InvertedIndex.ReAddDoubleCountsDf | mini_search.py:38-42 | re-adding an indexed id whose text shares a term increments that term's df again while its postings stay the same |
| InvertedIndex.DuplicateIdBreaksFaithful | mini_search_phase3.py:50-59 | re-adding an indexed id with a shared term leaves that term's df one above its postings size, so the index no longer describes its documents |
| InvertedIndex.ReAddKeepsStaleTerms | mini_search.py:32-42 | re-adding an indexed id with a text that lacks a term of its old text keeps that term's tf entry and the id in its postings, so the id is still a candidate for the term although its stored text no longer contains it |
| InvertedIndex.AddNew | mini_search_phase3.py:45-59 | the corrected addition refuses exactly the ids already indexed, with a `DuplicateId` error; otherwise it stores the text and N grows by one |
| InvertedIndex.AddNewKeepsInvariants | mini_search_phase3.py:45-59 | the corrected addition keeps the index well formed and faithful |
| InvertedIndex.BuildWellFormed | mini_search_phase3.py:45-59 | after any sequence of additions the index is well formed, holds exactly the ids added, and N is the number of distinct ids |
| InvertedIndex.BuildFaithful | mini_search_phase3.py:45-59 | after additions with distinct ids every df equals its postings size and every tf equals the count in the stored text |
| InvertedIndex.Candidates | mini_search_phase3.py:84-86 | the candidate set of a query, built term by term; its meaning is stated by `CandidatesUnion` and `CandidatesIff` |
| InvertedIndex.CandidatesUnion | mini_search_phase3.py:84-86 | a document is a candidate exactly when it is in the postings of some query term |
| InvertedIndex.CandidatesIff | mini_search_phase3.py:84-86 | a document is a candidate exactly when some query term has a tf entry for it, so a document sharing no term with the query is never scored |
| InvertedIndex.IdfDenominator | mini_search_phase3.py:67 | the idf denominator `1 + df` is at least one and exceeds df, also for a term never seen |
| InvertedIndex.TermWeight | mini_search_phase3.py:70-73 | `_tfidf`: the weight of a pair from its tf and the idf of N and `1 + df`; what it depends on is stated by `TermWeightLocal` |
| InvertedIndex.TermWeightLocal | mini_search.py:44-48 | a pair's weight depends only on its tf, N and the term's df: indexes agreeing on those give the same weight |
| InvertedIndex.DocScore | mini_search_phase3.py:90 | a document's score sums, in query order, the weights of the query terms it has a tf entry for; a document with no query term scores 0 |
| MiniSearchPhase3.MiniSearchEngine.constructor | mini_search_phase3.py:32-38 | a new engine has empty tables, N = 0 and an empty idf cache |
| MiniSearchPhase3.MiniSearchEngine.AddDoc | mini_search_phase3.py:45-62 | the tables become `InvertedIndex.AddDoc` of the old ones, the cache is emptied, and the invariants are kept |
| MiniSearchPhase3.MiniSearchEngine.CountTerm | mini_search_phase3.py:56-59 | one pass of the loop sets the term's tf, increments its df and adds the id to its postings |
| MiniSearchPhase3.MiniSearchEngine.AddNewDoc | mini_search_phase3.py:45-62 | the corrected `add_doc`: an indexed id is refused with `DuplicateId(id)` and nothing changes; otherwise the addition is made, the idf cache is emptied and the index stays faithful |
| MiniSearchPhase3.MiniSearchEngine.Idf | mini_search_phase3.py:65-68 | the idf returned is the one of the current N and df, whether it was cached or not, and the cache gains only that entry |
| MiniSearchPhase3.MiniSearchEngine.TfIdf | mini_search_phase3.py:70-73 | the weight of an indexed (term, document) pair, computed from its tf and the term's current idf |
| MiniSearchPhase3.MiniSearchEngine.Score | mini_search_phase3.py:90 | a candidate's score is the sum of the weights of the query terms it contains, in query order; the cache stays consistent |
| MiniSearchPhase3.MiniSearchEngine.CollectCandidates | mini_search_phase3.py:84-86 | the candidates are the union of the postings of the query terms |
| MiniSearchPhase3.MiniSearchEngine.ScoreCandidates | mini_search_phase3.py:88-91 | one (score, id) entry per candidate, without repeats, whatever order the set is visited in |
| MiniSearchPhase3.MiniSearchEngine.Search | mini_search_phase3.py:75-94 | no result for a query without terms or for `k <= 0`; otherwise `min(k, candidates)` entries forming the top list of the scored candidates; the tables are unchanged |
| MiniSearch.InsertAscending | mini_search.py:42 | one ordered-insertion step of `sorted(set(...))`: the list's elements gain exactly the inserted id |
| MiniSearch.InsertAscendingSorted | mini_search.py:42 | inserting into a strictly increasing list keeps it strictly increasing, with the smaller of the id and the old head first |
| MiniSearch.SortedSet | mini_search.py:42 | `sorted(set(xs))`: strictly increasing, with exactly the elements of `xs` |
| MiniSearch.AscendingUnique | mini_search.py:42 | a strictly increasing list is determined by its elements, so the re-sorted postings list depends only on the set of ids |
| MiniSearch.AppendPosting | mini_search.py:41-42 | appending the id and re-sorting adds exactly that id to the term's postings set |
| MiniSearch.MiniSearchEngine.constructor | mini_search.py:18-23 | a new engine has empty tables and N = 0 |
| MiniSearch.MiniSearchEngine.AddDoc | mini_search.py:30-42 | the tables, postings read as sets, become `InvertedIndex.AddDoc` of the old ones; every postings list stays strictly increasing; lists of terms not in the text are unchanged |
| MiniSearch.MiniSearchEngine.CountTerm | mini_search.py:38-42 | one pass of the loop sets tf, increments df, and replaces the term's list by the sorted de-duplicated list with the id added |
| MiniSearch.MiniSearchEngine.TfIdf | mini_search.py:44-48 | the weight of an indexed pair from its tf and an idf recomputed from N and df |
| MiniSearch.MiniSearchEngine.Score | mini_search.py:62 | a candidate's score is the sum of the weights of the query terms it contains, in query order |
| MiniSearch.MiniSearchEngine.CollectCandidates | mini_search.py:56-58 | the candidates are the union of the postings lists of the query terms |
| MiniSearch.MiniSearchEngine.ScoreCandidates | mini_search.py:60-63 | one (score, id) entry per candidate, without repeats |
| MiniSearch.MiniSearchEngine.Search | mini_search.py:50-66 | no result for a query without terms; otherwise as many entries as the slice `[:k]` of all candidates keeps, forming the top list of the scored candidates |

## Left out

- TF-IDF arithmetic: `math.log`, float division and float summation are abstracted by `idfOf` and `weightOf` over integers. Rounding, and any tie or order effect of floating point, is not modelled.
- Unicode: `str.isalnum` and `str.lower` are modelled for ASCII letters and digits only. Every other character is treated as a separator.
- `heapq.nlargest` internals: the heap is modelled as a sorted bounded buffer with the same result. Its `key` argument and its tie-breaking between equal tuples are not needed, because document ids make every entry distinct.
- `list.sort` and `sorted(set(...))` are modelled by specification functions (`SortDesc`, `SortedSet`), not by Timsort.
- Set iteration order in `search` is arbitrary: the model picks candidates with `:|`. The contracts hold for every order.
- `_tfidf` on a pair with no tf entry would call `log(0)` in the source and raise an error. The model requires the pair to be indexed, which is the only way `search` calls it.
- The default `k = 5` of `search` is not modelled: both `Search` methods take `k` from the caller.
- `build_engine`, `time_queries`, the document generators and the demo code do benchmarking and console output, not engine logic, and are not part of this model.

## Findings

| source | as written | input that shows it | evidently intended | confidence | as-written member | corrected member |
|---|---|---|---|---|---|---|
| mini_search_phase3.py:50-59 (also mini_search.py:32-42) | `add_doc` stores the text under an id already indexed and keeps N at the number of distinct ids, but it removes nothing for the old text: the df of every term of the new text goes up by one, so terms shared with the old text are counted twice, and terms only in the old text keep their tf entry and the id in their postings (`ReAddKeepsStaleTerms`) | `add_doc(0, "cats")` twice: `df["cats"]` is 2 while `postings["cats"]` is `{0}` and N is 1; `add_doc(0, "cats")` then `add_doc(0, "dogs")`: `search("cats")` still returns document 0 | an id already indexed is refused with a distinguishable duplicate error, so df stays equal to the postings size | not executed | InvertedIndex.DuplicateIdBreaksFaithful | InvertedIndex.AddNewKeepsInvariants |
