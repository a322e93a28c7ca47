# Cascaded hybrid book recommendation, modelled in Dafny

This project models the ranking core of a book-recommendation service. The
core has three parts.

- **Cascaded hybrid ranking** (`top_n_hibrida_cascata`):
  1. Collect the catalog books the user has not rated.
  2. Keep those that have a row in the content corpus and that the
     collaborative-filtering (CF) model knows.
  3. Stable-sort them by the CF model's estimate and keep the first `n_cf`.
  4. Exclude the rated books and the CF picks.
  5. Score every remaining corpus book by its greatest cosine similarity to
     a CF pick (the "seeds").
  6. Stable-sort by that score and keep the first `n_cb`.
  7. Return the titles of the CF picks followed by the titles of the
     content-based (CB) picks.
  8. With no seed, return the CF titles alone.
- **Popularity report** (`Recomenda.top_n`): the number of rows per user in
  the ratings table left-joined with the catalog, most active users first,
  cut to `n` entries.
- **Single-pair lookup** (`recomenda_livro_cf`): a book's title, and the
  user's earlier rating of it or the "not rated" answer.

The model's shape:

- The CF estimate and the cosine similarity are uninterpreted real-valued
  score functions, passed in as parameters.
- The modules follow the program's data flow:
  - `Seqs`: sequence helpers and Python's head slice `[:n]`.
  - `StableTopK`: Python's stable `sort(reverse=True)` and the `[:n]`
    selection.
  - `Catalog`: the tables, the `query('book_id in @ids')` selection and the
    left merge.
  - `Cascade`: the stages and the whole cascade.
  - `CascadeProperties`: properties relating the stages to each other and to
    the tables.
  - `Popularity` and `PairLookup`: the two helpers.
  - `Scenarios`: worked cascades on a three-book catalog.

On these points the model follows the code:

- CB ties keep corpus row order. They are not broken by ascending book id.
- Each title block lists its titles in catalog order, not rank order. See
  "Findings".
- `n_cf`, `n_cb` and `n` are not checked to be non-negative. A negative
  count drops elements from the end, as a Python slice does.
- A book the CF model does not know is filtered out of the CF candidates.
  It does not get a fallback estimate.

## Model

| member | source | states |
|---|---|---|
| Catalog.UnratedIds | src/main.py:209-211 | The unrated set holds exactly the catalog ids with no rating row by the user. |
| Catalog.Select | src/main.py:234 | `query('book_id in @ids')` yields exactly the catalog rows whose id is requested. It never yields more rows than the catalog has. |
| Catalog.SelectNothing | src/main.py:234 | An empty id list selects no rows. |
| Catalog.SelectIgnoresIdOrder | src/main.py:268 | Two id lists with the same elements select the same rows. The rank order of the ids cannot show in a selection. |
| Catalog.SelectConcat | src/main.py:234 | Selecting from a concatenated catalog selects from each part in turn, so selected rows keep catalog order. |
| Catalog.SelectUniqueIds | src/main.py:234 | A catalog with unique ids yields selections with unique ids. |
| Catalog.SelectCount | src/main.py:268 | With unique catalog ids, a selection has at most one row per requested id. It has exactly one per id when the ids are distinct catalog ids. |
| Catalog.SelectDisjointUnique | src/main.py:271 | Selections for disjoint id lists, concatenated, still list each book once. |
| Catalog.SelectFirst | src/main.py:102 | The first row of a non-empty selection is the first catalog row with a requested id. |
| Catalog.Joined | src/main.py:118 | The left merge holds exactly the rating rows, each repeated once per matching catalog row and kept once when none matches. |
| Catalog.JoinedConcat | src/main.py:118 | The merge works row by row: merging concatenated rating tables merges each part in turn, so merged rows keep the ratings' order. |
| Catalog.JoinedSingle | src/main.py:118 | One rating row appears once per catalog row with its book id, and once when no catalog row has it. |
| Catalog.MatchCountAbsent | src/main.py:118 | An id missing from the catalog matches no catalog row. |
| Catalog.MatchCountUnique | src/main.py:118 | With unique catalog ids, an id matches at most one catalog row. |
| Catalog.JoinedUniqueIsRatings | src/main.py:118 | With unique catalog ids, the merge is the ratings table row for row. |
| Catalog.PairRows | src/main.py:104 | The pair query yields exactly the rows of that user for that book. |
| Catalog.PairRowsFirst | src/main.py:107 | `.values[0]` of a non-empty pair query is the first rating row for the pair. |
| Catalog.TitleOf | src/main.py:102 | `.values[0]` of the title query gives the title of the first catalog row with the book's id. |
| Catalog.TitleOfUnique | src/main.py:102 | With unique catalog ids, a book's title is the title of its one row. |
| Catalog.SelectSingle | src/main.py:102 | With unique catalog ids, selecting one present id yields exactly that book's row. |
| Catalog.RankedRows | src/main.py:234 | The rank-ordered rows contain exactly the catalog rows of the requested ids. |
| Catalog.RankedRowsFollowIds | src/main.py:268 | With unique catalog ids, the i-th rank-ordered row is the row of the i-th id. |
| Catalog.RankedRowsReorderSelect | src/main.py:234 | For distinct catalog ids, the rank-ordered rows are a permutation of the rows the query returns. |
| Catalog.RankedTitlesPositions | src/main.py:271 | Concatenated rank-ordered blocks put the i-th pick's title at position i of its block. |
| Catalog.TitlesConcat | src/main.py:271 | The titles of two concatenated row blocks are the first block's titles followed by the second's. |
| Seqs.Head | src/main.py:231 | `[:n]` is a prefix of the list: `min(n, len)` elements for `n >= 0`, and the list without its last `-n` elements (at least none) for negative `n`. |
| StableTopK.Insert | src/main.py:230 | Inserting into a sorted list keeps it sorted and adds exactly the one element. |
| StableTopK.SortDesc | src/main.py:230 | The sort orders by non-increasing key and is a permutation of its input. |
| StableTopK.SortDescStable | src/main.py:230 | Elements with equal keys keep their input order. |
| StableTopK.SortDescIsStableSort | src/main.py:265 | The sort meets the declarative definition of a stable descending sort. |
| StableTopK.StableSortUnique | src/main.py:230 | Any stable descending sort of a list equals this one, so the result is determined. |
| StableTopK.TopK | src/main.py:230-231 | Keeps `min(n, len)` elements for `n >= 0`, or `len + n` (at least 0) for negative `n`. They are sorted, drawn from the input without extra copies, and no dropped element has a higher key than a kept one. |
| StableTopK.TopKTiesKeepInputOrder | src/main.py:265-266 | Among equal keys, the kept elements are the earliest ones of the input, in input order. |
| StableTopK.TopKOrderIndependent | src/main.py:230-231 | With distinct keys, two orderings of the same distinct elements give the same top-k. |
| Cascade.Candidates | src/main.py:216-226 | The test set holds exactly the books of the iteration order that have a corpus row and that the model knows, each once when the order has no repeats. |
| Cascade.CandidatesConcat | src/main.py:216-226 | The filter keeps iteration order: filtering concatenated orders filters each part in turn. |
| Cascade.CandidatesTied | src/main.py:216-230 | The candidates with a given estimate are the eligible books of the iteration order with that estimate, in iteration order. |
| Cascade.CfStage | src/main.py:229-233 | The CF picks are `min(n_cf, #candidates)` candidates in non-increasing estimate order. No dropped candidate has a higher estimate. |
| Cascade.Seeds | src/main.py:242 | The seeds are exactly the CF picks with a corpus row. When all picks have one, the seeds are the picks. |
| Cascade.Recommendation.Output | src/main.py:271 | The result is the CF block's titles followed by the CB block's titles, position by position. |
| Cascade.MaxSimilarity | src/main.py:259 | A CB score is at least the similarity to every seed and equals the similarity to some seed. |
| Cascade.MaxSimilaritySeedSet | src/main.py:259 | A CB score depends only on the set of seeds. |
| Cascade.CbCandidates | src/main.py:251-262 | The scored books are exactly the non-excluded corpus books, each once when the corpus has no repeats. |
| Cascade.CbCandidatesConcat | src/main.py:251-262 | The CB filter keeps corpus row order: filtering concatenated corpora filters each part in turn. |
| Cascade.CbCandidatesTied | src/main.py:251-265 | The scored books with a given score are the non-excluded corpus books with that score, in corpus row order. |
| Cascade.CbStage | src/main.py:251-266 | The CB picks are `min(n_cb, #scored)` non-excluded corpus books, best score first. No scored book left out scores higher. |
| Cascade.HybridCascade | src/main.py:205-273 | CF picks are eligible, at most `n_cf` and sorted. CB picks are corpus books that are neither rated nor CF picks, at most `n_cb`. No CF pick means no CB pick. Each block is the catalog query of its picks. |
| Cascade.RankedOutputPositions | src/main.py:271 | The rank-ordered result holds each CF pick's title at its CF rank, then each CB pick's title at its CB rank. |
| CascadeProperties.CandidatesAreEligible | src/main.py:209-226 | Every candidate is unrated, has a corpus row and is known to the model. Every such book is a candidate, listed once. |
| CascadeProperties.CfPicksAreTopEstimates | src/main.py:229-233 | The cascade's CF picks are the stable top `n_cf` of the candidates by estimate, distinct. No dropped candidate has a higher estimate. |
| CascadeProperties.CfTiesKeepIterationOrder | src/main.py:230 | The CF picks with a given estimate are a prefix of the eligible books of the iteration order with that estimate, taken in iteration order. |
| CascadeProperties.SeedsAreCfPicks | src/main.py:242 | The seeds are the CF picks themselves. |
| CascadeProperties.CbPicksAreTopSimilar | src/main.py:251-266 | With CF picks, the CB picks are the stable top `n_cb` non-excluded corpus books by greatest similarity to a CF pick, and exactly `min(n_cb, #scored)` of them. |
| CascadeProperties.CbTiesKeepCorpusOrder | src/main.py:265 | The CB picks with a given score are a prefix of the non-excluded corpus books with that score, taken in corpus row order. |
| CascadeProperties.EmptySeedsReturnCfTitles | src/main.py:244-246 | The seeds are empty exactly when there is no CF pick. The result is then empty, and it is empty whenever `n_cf = 0` or no candidate exists. |
| CascadeProperties.NoRatedBookAndDisjointBlocks | src/main.py:239 | No returned row is a rated book, and the CF and CB blocks share no book. |
| CascadeProperties.OutputShape | src/main.py:271 | The result is the CF title block followed by the CB title block. With unique catalog ids it has at most `n_cf + n_cb` titles and no book twice. |
| CascadeProperties.OutputExactLength | src/main.py:234 | When the corpus lies inside a catalog with unique ids, each pick contributes exactly one title. |
| CascadeProperties.CascadeIndependentOfIterationOrder | src/main.py:209-211 | Without tied estimates, the set iteration order of the unrated books does not change the result. |
| CascadeProperties.RankedOutputReordersOutput | src/main.py:234 | Rank-ordered blocks hold the same rows as the returned blocks, permuted. |
| CascadeProperties.PicksInCatalog | src/main.py:268 | When the corpus lies inside the catalog, every pick is a catalog book and each block lists its picks once. |
| CascadeProperties.RecommendedBooksLookUnrated | src/main.py:104-105 | Every recommended book is found by the single-pair lookup and reported as not rated. |
| Popularity.FirstSeen | src/main.py:173 | The counted users are the users of the column, each once. |
| Popularity.TopActiveUsers | src/main.py:170-174 | The report has `min(n, #users)` entries for `n >= 0`, counts non-increasing, each user once with its row count in the merged table. No unlisted user has more rows than a listed one. |
| Popularity.EntriesOfReport | src/main.py:173 | Entries drawn from the counts carry true counts and distinct users. |
| Popularity.TopReportDropped | src/main.py:173 | A user left out of the report has no more rows than any listed user. |
| Popularity.TopActiveUsersCountRatings | src/main.py:166-174 | With unique catalog ids, the counts are the users' rating-row counts, non-increasing, and no unlisted user has more. When `n` covers every rating user, each is listed. |
| PairLookup.LookupPair | src/main.py:95-115 | Fails on a book missing from the catalog. Otherwise gives the first catalog title, the user, the estimate, and "not rated" exactly when no rating row exists for the pair, else that pair's first rating. |
| PairLookup.PriorRating | src/main.py:107-108 | The reported rating is the value of the first rating row for the pair. |
| PairLookup.PriorMatchesRatedIds | src/main.py:104-108 | For a catalog book, the lookup shows a rating exactly when the book is in the user's rated set. It shows "not rated" exactly when the book is in the unrated set the cascade starts from. |
| PairLookup.LookupTitleUnique | src/main.py:102 | With unique catalog ids, the lookup finds the book and reports the title of its row. |
| Scenarios.UnratedTwoThree | src/main.py:209-211 | In the example, the user who rated book 1 has unrated set {2, 3}. |
| Scenarios.RatedOnlyOne | src/main.py:209 | The example's rated set is {1}. |
| Scenarios.CandidatesTwoThree | src/main.py:216-226 | Both unrated books are candidates, in iteration order. |
| Scenarios.SelectionsOfThreeBooks | src/main.py:234 | Querying ids [3, 2] yields books 2 then 3, in catalog order. |
| Scenarios.CbCandidatesThree | src/main.py:251-256 | With books 1 and 2 excluded, only book 3 is scored. |
| Scenarios.BestOfTwo | src/main.py:229-233 | Of two candidates, the single CF pick is the better-estimated one. |
| Scenarios.OrderedPair | src/main.py:230 | Two distinct picks sorted by a key that ranks `a` above `b` come as `a`, `b`. |
| Scenarios.RankTwo | src/main.py:229-233 | Two CF picks from two candidates come best first. |
| Scenarios.HybridCfPick | src/main.py:229-233 | An estimate of 4.5 for book 2 and 3.0 for book 3 makes book 2 the one CF pick. |
| Scenarios.HybridCbPick | src/main.py:251-266 | Seeded with book 2, the one CB pick is book 3. |
| Scenarios.HybridCfStage | src/main.py:216-233 | The example's CF stage picks book 2. |
| Scenarios.HybridCbStage | src/main.py:239-266 | The example's CB stage, with rated book 1 and CF pick 2 excluded, picks book 3. |
| Scenarios.HybridRecord | src/main.py:205-273 | The example run recommends book 2 by CF and book 3 by CB. |
| Scenarios.HybridRecordShows | src/main.py:271 | That run returns ["B", "C"]. |
| Scenarios.NoCfPicksExample | src/main.py:244-246 | With `n_cf = 0` there is no seed, and the run returns the empty list. |
| Scenarios.ReversedCfPicks | src/main.py:229-233 | A model ranking book 3 above book 2 picks 3, then 2. |
| Scenarios.ReversedCfStage | src/main.py:216-233 | The reversed run's CF stage picks book 3, then book 2. |
| Scenarios.ReversedRecord | src/main.py:205-273 | The reversed run with `n_cf = 2`, `n_cb = 0` has CF picks [3, 2] and CF rows in catalog order [2, 3]. |
| Scenarios.ReversedRecordShows | src/main.py:271 | The reversed run returns ["B", "C"]. |
| Scenarios.CatalogOrderHidesRank | src/main.py:234 | In the reversed run, the returned titles ["B", "C"] differ from the rank-ordered titles ["C", "B"]. |
| Scenarios.RankedTitlesOfTwo | src/main.py:271 | The rank-ordered titles of two CF picks are their titles in rank order. |
| Scenarios.RankedTitlesOfReversed | src/main.py:271 | The reversed run's rank-ordered titles are ["C", "B"]. |

## Left out

- CSV loading and the `dataset_health` report: file I/O.
- The FastAPI request models and endpoints: transport glue. This includes
  the `/recomenda_livro` endpoint's fixed book id 5.
- KNNBaseline training and `knn.test`/`knn.predict`: foreign library calls
  over floats. They appear only as the abstract estimate function of
  `Cascade.CfModel` and of `PairLookup.LookupPair`.
- The TF-IDF matrix and cosine similarity: foreign calls over floats. They
  appear only as the abstract similarity of `Cascade.ContentIndex`.
- Building the content corpus from tags and merging it with the catalog:
  outside the ranking. The corpus is the given id sequence
  `ContentIndex.corpus`.
- The module-level `top_n`, the first `Recomenda` class and the `top_n`
  endpoint: the first two are earlier definitions shadowed by the
  redefinitions at src/main.py:300 and src/main.py:166, and all three sit
  outside the modelled core.
- `round(..., 2)` and the raw/inner id translations in
  `recomenda_livro_cf`: float formatting and library internals.
- The warning the cascade prints before returning the CF titles alone:
  console output only.
- PairLookup.LookupPair: the estimate is the given function's value, and
  rounding is not modelled. The id translation at src/main.py:114 is left
  out too. It passes the raw `user_id` and `book_id` to `to_raw_uid` and
  `to_raw_iid` as if they were inner ids. That raises ValueError when either
  is not a valid inner id. Otherwise it predicts for a different (user,
  book) pair. The model has neither that failure nor that pair swap.
- Cascade.HybridCascade: the `bookid_to_index`/`index_to_bookid` pandas
  mappings are modelled as membership in the corpus sequence. Properties
  that need a lookup to give one row assume distinct corpus ids
  (`Distinct(index.corpus)`).
- Cascade.CbCandidates: with a book id repeated in the corpus, the source
  raises KeyError at src/main.py:252, because `index_to_bookid`
  (src/main.py:201) drops the repeated rows. The model keeps each row
  instead, and the CB properties assume distinct corpus ids.
- Popularity.TopActiveUsers: pandas does not fix the order of equal counts
  in `value_counts`. The model takes first-appearance order. The
  tie-independent facts in `Popularity.TopActiveUsersCountRatings` do not
  depend on this choice.
- Scores are mathematical reals. NaN and floating-point rounding are not
  modelled.

## Findings

| source | as written | input that shows it | evidently intended | confidence | as-written member | corrected member |
|---|---|---|---|---|---|---|
| src/main.py:234 | `cf_titles` (and `cb_titles` at line 268) come from `livros_df.query('book_id in @ids')`, which lists titles in catalog order. Only the set of titles in each block follows the ranking. | Catalog [1 "A", 2 "B", 3 "C"]; the user rated book 1; estimates 5.0 for book 3 and 4.0 for book 2; `n_cf = 2`, `n_cb = 0`. The CF ranking is [3, 2], but the result is ["B", "C"]. | Titles in rank order, best first: ["C", "B"]. | high (follows from pandas' documented `query` semantics), not executed | Scenarios.CatalogOrderHidesRank | Cascade.RankedOutputPositions |

In the model:

- `Recommendation.Output` keeps the as-written order.
- `Scenarios.ReversedRecord` derives the run from the cascade.
- `Scenarios.CatalogOrderHidesRank` shows that the returned titles differ
  from the rank-ordered ones.
- `Cascade.RankedOutput` is the corrected result. `Cascade.RankedOutputPositions`
  proves that it gives each pick's title at the pick's rank.
- `CascadeProperties.RankedOutputReordersOutput` proves that it is a
  permutation of the as-written blocks.
