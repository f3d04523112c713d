# WebSync_JSON recommendation and search core, in Dafny

This project models the back end of WebSync_JSON, a small service that
recommends fan fiction for web novels and searches novel titles.

The recommendation pipeline (`backend/scratch.py`) works in these steps:

1. It tokenizes every description: lowercase the text, keep the runs of ASCII letters, drop stop words.
2. It gives every fanfiction and every web novel an internal index, and records the correspondence in four module-level dictionaries.
3. It builds an inverted index of the fanfiction tokens.
4. It keeps the terms whose document frequency lies within bounds, and gives each one an IDF weight.
5. It computes the TF-IDF norm of every fanfiction.
6. For every web novel, it builds a query vector from the novel's distinct words, accumulates dot products term at a time, divides by the norms and keeps the ten best cosine scores.

The same file has an edit-distance search. It runs the Wagner–Fischer matrix with unit costs on lowercased strings and sorts messages by distance.

The web application (`backend/app.py`) reads one column per key out of the novel records. It also filters novels whose first title contains the query, case-insensitively.

Modules, one per part of the program:

- `Text`: ASCII letters and lowercasing, and the substring test.
- `Sums`: sums over finite sets.
- `Sorting`: a stable sort by a real key.
- `Tokenizer`: `tokenize`.
- `Corpus`: `tokenize_fanfics`, `tokenize_webnovels` and the four dictionaries, as fields of the class `IdMaps`.
- `InvertedIndex`: `build_inverted_index`.
- `Idf`: `compute_idf`.
- `Norms`: `compute_doc_norms`.
- `Scoring`: `accumulate_dot_scores`.
- `Cosine`: `compute_cossim_for_webnovel` and `build_sims_cos`.
- `EditDistance`: the cost functions, `edit_matrix`, `edit_distance` and `edit_distance_search`.
- `TitleSearch`: `getKeyInfo` and `json_search`.

Every loop of the source is a method with loop invariants. Each method is proved against a specification function on the inputs:

- `Tokens` is the token list of a text.
- `IndexOf` is the inverted index of a list of documents.
- `NormSq` and `DotScore` are sums over the vocabulary.
- `CosineScores` is the cosine score of every matched document.
- `Cell` is the edit-distance recurrence.
- `Selected` is the list of matching novel indices.

Separate lemmas then prove what the program promises of those functions.

Python dictionaries and sets are iterated in an order the model does not fix. Each such loop picks the next key from the remaining ones, so every result is proved for every iteration order.

## Model

| member | source | states |
|---|---|---|
| Text.LowerChar | backend/scratch.py:103 | an upper-case ASCII letter becomes the letter 32 code points higher, its lower-case form; every other character is unchanged |
| Text.Lower | backend/scratch.py:103 | `str.lower()` on ASCII: same length, each character lowered by `LowerChar`, no upper-case letter left |
| Text.Contains | backend/app.py:35 | definition: the substring test `needle in haystack`, trying every start position of the haystack; characterised by `Text.ContainsMeansWindow` |
| Text.ContainsMeansWindow | backend/app.py:35 | the substring test `a in b` holds exactly when `a` occurs at some position of `b` |
| Text.ContainsSelf | backend/app.py:35 | every string contains itself and the empty string |
| Sorting.SortBy | backend/scratch.py:372 | sorting by a key keeps the length and is a permutation of its input |
| Sorting.SortBySorted | backend/scratch.py:552 | the sorted list is in non-decreasing key order |
| Sorting.SortByStable | backend/scratch.py:552 | the sort is stable: for every key, the entries with that key keep their input order |
| Sorting.SortByDistinct | backend/scratch.py:372 | sorting a list without duplicates gives a list without duplicates |
| Tokenizer.LetterRuns | backend/scratch.py:103 | definition: `re.findall("[A-Za-z]+", s)`, skipping non-letters and taking each longest letter run; characterised by `Tokenizer.LetterRunsAreMaximal` and `Tokenizer.MaximalRunsAreLetterRuns` |
| Tokenizer.LetterPrefix | backend/scratch.py:103 | the length of the longest leading run of `[A-Za-z]` |
| Tokenizer.LetterRunsAreMaximal | backend/scratch.py:103 | `LetterRuns(s)`, the model of `re.findall("[A-Za-z]+", s)`, splits `s` into non-letter gaps and maximal letter runs: woven together they give back `s`, and every inner gap is non-empty |
| Tokenizer.MaximalRunsAreLetterRuns | backend/scratch.py:103 | conversely, any such decomposition of `s` into gaps and maximal runs has exactly `LetterRuns(s)` as its runs, so the runs are determined by the text |
| Tokenizer.WithoutStopWords | backend/scratch.py:104-109 | definition: the found words that are not stop words, in order; characterised by `Tokenizer.WithoutStopWordsMembers` |
| Tokenizer.WithoutStopWordsMembers | backend/scratch.py:105-109 | a word is kept exactly when it is among the found words and not a stop word |
| Tokenizer.Tokens | backend/scratch.py:87-110 | definition: what `tokenize(text)` returns, the letter runs of the lowered text without the stop words; the loop `Tokenizer.Tokenize` is proved equal to it, and its properties are in `Tokenizer.TokensAreLowercaseWords` and `Tokenizer.NoLettersNoTokens` |
| Tokenizer.Tokenize | backend/scratch.py:87-110 | the loop returns `Tokens(text)`: the letter runs of the lowered text, in order, without the stop words |
| Tokenizer.LetterRunsAreWords | backend/scratch.py:103 | every run is non-empty and made of letters |
| Tokenizer.LetterRunsFromText | backend/scratch.py:103 | every character of a run comes from the text |
| Tokenizer.TokensAreLowercaseWords | backend/scratch.py:103-110 | every token is non-empty, lower-case letters only, and not a stop word |
| Tokenizer.NoLettersNoTokens | backend/scratch.py:103-110 | a text without letters yields no tokens |
| Corpus.Positions | backend/scratch.py:139 | definition: the index-to-key map, position i ↦ i-th key for the positions `0..n-1`; its properties are in `Corpus.Inverse` |
| Corpus.LastPositions | backend/scratch.py:138 | definition: the key-to-index map left by assigning each key its position in order, a later position overwriting an earlier one; its properties are in `Corpus.LastPositionsAreLast` |
| Corpus.IdMaps.constructor | backend/scratch.py:26-29 | the four maps start empty |
| Corpus.IdMaps.TokenizeFanfics | backend/scratch.py:113-141 | one `(id, tokens)` per record, in order; `index_to_fic_id` gains position i ↦ i-th id, `fic_id_to_index` gains each id ↦ its last position; the web-novel maps are unchanged |
| Corpus.IdMaps.TokenizeWebnovels | backend/scratch.py:143-173 | one `(i, tokens)` per record, in order; the two title maps gain first title ↦ last position and position ↦ first title; the fanfiction maps are unchanged |
| Corpus.LastPositionsAreLast | backend/scratch.py:138 | the key-to-index map holds exactly the keys that occur; each maps to a position holding it, and no later position holds it |
| Corpus.Inverse | backend/scratch.py:138-139 | with distinct keys the two maps are mutually inverse |
| Corpus.FanficMapsInverse | backend/scratch.py:133-140 | with distinct fanfiction ids, `fic_id_to_index[id_i] == i` and `index_to_fic_id[i] == id_i` |
| Corpus.WebnovelMapsInverse | backend/scratch.py:165-172 | with distinct first titles, the two title maps are mutually inverse |
| InvertedIndex.IndexOf | backend/scratch.py:185-191 | definition: the reference inverted index, mapping each occurring term to its `PostingsOf` list; its properties are in `InvertedIndex.KeysAreOccurringTerms`, `InvertedIndex.PostingsIncreasing` and `InvertedIndex.PostingsExact` |
| InvertedIndex.Terms | backend/scratch.py:210-217 | the term set of a token list holds exactly its tokens |
| InvertedIndex.CountPositive | backend/scratch.py:214-228 | a term's count in a document is positive exactly when it occurs there |
| InvertedIndex.BuildInvertedIndex | backend/scratch.py:175-229 | the nested loops with the `first_inst` table build exactly `IndexOf(docs)`, the reference index |
| InvertedIndex.IndexDocument | backend/scratch.py:209-228 | indexing one more document extends the reference index by that document |
| InvertedIndex.IndexToken | backend/scratch.py:211-228 | each of the three branches (new term, first occurrence in this document, repeated occurrence) extends the index by one token and keeps `first_inst` pointing at this document's entry |
| InvertedIndex.NewPostings | backend/scratch.py:214-228 | what one token does to its postings list: a new term gets `[(d,1)]`, a term new to the document gets `(d,1)` appended, otherwise the document's last entry is incremented |
| InvertedIndex.KeysAreOccurringTerms | backend/scratch.py:187-191 | a term is a key exactly when it occurs in some document |
| InvertedIndex.PostingsIncreasing | backend/scratch.py:188-190 | every postings list is strictly increasing in document index, with all indices below the number of documents |
| InvertedIndex.PostingsExact | backend/scratch.py:188-191 | each pair `(d, tf)` has `tf` equal to the term's exact count in document d, and every document containing the term has a pair |
| InvertedIndex.EmptyDocument | backend/scratch.py:208-211 | an empty document leaves the index unchanged |
| InvertedIndex.DocstringExample | backend/scratch.py:196-204 | the docstring example: `'be'` ↦ `[(0,2),(1,2)]` and `'not'` ↦ `[(0,1)]` |
| InvertedIndex.PostingSumOfCorpus | backend/scratch.py:285-286 | summing a function of `tf` over a term's postings for document d gives the function of d's count of that term |
| Idf.Kept | backend/scratch.py:259-261 | definition: the bounds test `df/n_docs <= max_df_ratio and df >= min_df`; spelled out for the defaults by `Idf.DefaultBounds` |
| Idf.Weight | backend/scratch.py:262 | definition: the weight `log2(n_docs/(1+df))`, the logarithm a parameter |
| Idf.ComputeIdf | backend/scratch.py:231-263 | the keys are exactly the index terms whose document frequency is at least `min_df` and at most a fraction `max_df_ratio` of the documents, each weighted `log2(n_docs/(1+df))`; needs `n_docs > 0` once there is a term |
| Idf.DefaultBounds | backend/scratch.py:231 | with the default bounds, a term is kept exactly when it occurs in 10 or more documents and in at most 95% of them |
| Idf.DocumentFrequency | backend/scratch.py:259 | the length of a term's postings list is the number of documents containing it |
| Norms.ComputeDocNorms | backend/scratch.py:265-287 | `n_docs` entries; entry d is the square root of the sum, over the IDF vocabulary, of `(tf·idf)²` for document d |
| Norms.NormSq | backend/scratch.py:280-286 | definition: the squared TF-IDF norm of document d, the sum over the IDF vocabulary of `(tf·idf)²`; `Norms.ComputeDocNorms` is proved against it, and `Norms.NormOfCorpus` and `Norms.NoVocabularyZeroNorm` state what it is on a corpus |
| Norms.AddTermSq | backend/scratch.py:284-286 | one term's pass adds `(tf·idf)²` to each of its documents and nothing to the others |
| Norms.NoVocabularyZeroNorm | backend/scratch.py:280-286 | a document containing no vocabulary term has squared norm 0 |
| Norms.NormOfCorpus | backend/scratch.py:280-286 | on the index of a corpus, the squared norm of document d is the sum of `(count·idf)²` over the vocabulary |
| Scoring.AccumulateDotScores | backend/scratch.py:289-318 | the keys are exactly the documents in the postings of some query word; each score is the sum over the query words of `tf·idf·q·idf`, whatever the iteration order |
| Scoring.DotScore | backend/scratch.py:310-318 | definition: the dot product of the query vector and document d's TF-IDF vector, summed over the query words; `Scoring.AccumulateDotScores` is proved against it, and `Scoring.DotOfCorpus` and `Scoring.UnscoredZero` state what it is on a corpus |
| Scoring.AddWordScores | backend/scratch.py:313-317 | one query word's pass adds its contribution to each of its documents and creates the missing entries |
| Scoring.ScoredDocsMeans | backend/scratch.py:311-315 | the scored documents are exactly those named in a query word's postings |
| Scoring.UnscoredZero | backend/scratch.py:311-317 | a document no query word names has dot product 0 |
| Scoring.DotOfCorpus | backend/scratch.py:311-317 | on the index of a corpus, the dot product with document d is the sum of `count·idf·q·idf` over the query words |
| Cosine.Dedup | backend/scratch.py:355 | `list(set(toks))` has no duplicates and the same members |
| Cosine.Counter | backend/scratch.py:356 | definition: `Counter` of a list, defined exactly on its members; its counts are in `Cosine.DistinctCounter` |
| Cosine.DistinctCounter | backend/scratch.py:356 | on a list without duplicates every count is 1 |
| Cosine.QueryCounts | backend/scratch.py:355-363 | definition: the query vector left after the deletions, every distinct query word with an IDF weight at count 1; `Cosine.QueryVector` proves the loop builds it |
| Cosine.QueryNormSq | backend/scratch.py:358-361 | definition: the sum of the squared weights of the words of `QueryCounts`, the value `norm` reaches; `Cosine.QueryVector` proves the loop computes it |
| Cosine.QueryVector | backend/scratch.py:355-363 | the counts end up holding exactly the distinct query words that have an IDF weight, each with count 1; `norm` is the sum of their squared weights |
| Cosine.VectorStep | backend/scratch.py:359-363 | one pass of the query loop: a new word with an IDF weight keeps count 1 and adds its squared weight to `norm`; one without is deleted from the counts; the counts keep exactly the words seen so far that have weights, plus those not seen yet |
| Cosine.Cosines | backend/scratch.py:364-370 | definition: for every scored document, its dot product divided by the product of the query norm and its own norm; used by `Cosine.ScoresAreCosines` |
| Cosine.CosineScores | backend/scratch.py:364-370 | definition: `Cosines` of the query vector `QueryCounts` and its norm `QueryNormSq`, the scores every result of `compute_cossim_for_webnovel` ranks; `Cosine.ScoresAreCosines` and `Cosine.ComputeCossim` are proved against it |
| Cosine.ScoresAreCosines | backend/scratch.py:364-370 | dividing each accumulated score by the scaled norm gives the cosine score of the query with that document, for exactly the scored documents |
| Cosine.Scale | backend/scratch.py:364 | definition: `math.sqrt(norm) * fanfic_norms`, every entry scaled; used by `Cosine.ScoresAreCosines` |
| Cosine.CosineList | backend/scratch.py:368-370 | the list holds every scored document once, with its score |
| Cosine.IsRanking | backend/scratch.py:372 | definition: the meaning of `sorted(..., reverse=True)[:10]`, `min(10, #scores)` entries in non-increasing score order, each a document with its own score, none twice, none left out scoring above a kept one; `Cosine.TopRanking` proves the sort and cut give it |
| Cosine.TopRanking | backend/scratch.py:372 | sorting by descending score and keeping ten entries gives a ranking |
| Cosine.ComputeCossim | backend/scratch.py:320-373 | the result is a ranking of the cosine scores: `min(10, #scored)` entries, non-increasing scores, each one a scored document with its own score, no document twice, and no left-out document scoring above a kept one |
| Cosine.BuildSimsCos | backend/scratch.py:376-400 | the keys are exactly the `index` fields of the records; under each key is a ranking for the last record carrying it |
| Cosine.IndexedByPosition | backend/scratch.py:163-173 | when each record's `index` is its position, as `tokenize_webnovels` assigns it, every record is the last with its index and the keys are exactly `0..n-1` |
| EditDistance.InsertionCost | backend/scratch.py:434-435 | definition: inserting any letter costs 1 |
| EditDistance.DeletionCost | backend/scratch.py:438-439 | definition: deleting any letter costs 1 |
| EditDistance.SubstitutionCost | backend/scratch.py:442-446 | cost 0 exactly when the two letters are equal, else 1 |
| EditDistance.Min3 | backend/scratch.py:479-483 | the result is one of the three values and not above any of them |
| EditDistance.Cell | backend/scratch.py:472-483 | definition: the recurrence the chart follows, `(0,0)` ↦ 0, edges by one more deletion or insertion, interior cells the minimum of the three moves; its properties are in the `Cell…` lemmas below |
| EditDistance.Distance | backend/scratch.py:513 | definition: the bottom-right cell `Cell(a, b, len(a), len(b))`; its properties are in the `Distance…` lemmas below |
| EditDistance.EditMatrix | backend/scratch.py:449-484 | the chart is defined exactly on `0..len(q) × 0..len(m)`, and every cell holds the recurrence `Cell`: edges by insertion and deletion costs, interior cells the minimum of the three moves |
| EditDistance.FillRow | backend/scratch.py:478-483 | the inner loop for row i: starting from a chart whose cells all hold the recurrence and that holds exactly the edge cells and the rows before i, it yields such a chart holding row i as well |
| EditDistance.FirstRow | backend/scratch.py:475-476 | row 0 of the matrix is `0, 1, …, len(m)` |
| EditDistance.RowStep | backend/scratch.py:477-483 | a row computed by the recurrence from the correct row above is the matrix row: the chart can be filled one row at a time |
| EditDistance.KittenSitting | backend/scratch.py:487-513 | the distance of "kitten" and "sitting" is 3 |
| EditDistance.CellEdges | backend/scratch.py:472-476 | the edge cells are the prefix sums of the unit costs: `chart[i,0] == i` and `chart[0,j] == j` |
| EditDistance.CellBounds | backend/scratch.py:477-483 | every cell is at least the difference of the prefix lengths and at most the longer one |
| EditDistance.CellIsPrefixDistance | backend/scratch.py:449-484 | cell `(i, j)` is the distance between the prefixes of lengths i and j |
| EditDistance.CellSymmetric | backend/scratch.py:477-483 | swapping query and message transposes the matrix |
| EditDistance.CellZero | backend/scratch.py:477-483 | a cell is 0 exactly when it spans two equal prefixes |
| EditDistance.DistanceToSelf | backend/scratch.py:487-513 | every string is at distance 0 from itself |
| EditDistance.DistanceFromEmpty | backend/scratch.py:487-513 | the empty string is at distance `len(m)` from m, in both directions |
| EditDistance.DistanceSymmetric | backend/scratch.py:487-513 | the distance is symmetric |
| EditDistance.DistanceZero | backend/scratch.py:487-513 | the distance is 0 exactly when the strings are equal |
| EditDistance.DistanceBounds | backend/scratch.py:487-513 | the distance lies between the difference of the lengths and the longer length |
| EditDistance.EditDistanceOf | backend/scratch.py:487-513 | `edit_distance` is the distance of the lowercased strings, 0 exactly when they agree up to case, and `len(message)` for an empty query |
| EditDistance.Scored | backend/scratch.py:547-551 | definition: one `(distance, text)` pair per message, in input order, before sorting; what the search returns is in `EditDistance.EditDistanceSearch` |
| EditDistance.EditDistanceSearch | backend/scratch.py:516-554 | every message's pair appears (a permutation of the per-message list, not only ten) and the result is stably sorted by ascending distance |
| TitleSearch.GetKeyInfo | backend/app.py:18-22 | same length as the data, and element i is `data[i][key]` |
| TitleSearch.TitleMatches | backend/app.py:35 | definition: the test `query.lower() in titles[i][0].lower() and query != ""` |
| TitleSearch.Selected | backend/app.py:34-35 | definition: the indices below n whose titles match, in ascending order; characterised by `TitleSearch.SelectedMembers` and `TitleSearch.SelectedIncreasing` |
| TitleSearch.SelectedMembers | backend/app.py:34-36 | an index is selected exactly when the lowered query is a substring of the lowered first title and the query is not empty |
| TitleSearch.SelectedIncreasing | backend/app.py:34-36 | the selected indices are strictly increasing: matches come in record order |
| TitleSearch.EmptyQuerySelectsNothing | backend/app.py:35 | the empty query selects nothing |
| TitleSearch.ExactTitleFound | backend/app.py:35 | a non-empty query equal, up to case, to a record's first title selects that record |
| TitleSearch.JsonSearch | backend/app.py:32-37 | one match per selected index, in order, pairing the whole `titles[i]` list with `descriptions[i]`; no matches for the empty query |

## Left out

- File and JSON input, the driver `main` and the JSON output (backend/scratch.py:31-85, 402-427), and the module-level file load of backend/app.py (lines 10-27): records are parameters.
- The Flask application, CORS, routes and `app.run` (backend/app.py:29-30, 39-49): web plumbing with no logic. `helpers/MySQLDatabaseHandler` is not part of this model.
- Floating point: `math.log2`, `np.sqrt`, `math.sqrt` and the float division of the cosine score are function parameters (`log2`, `sqrt`, `div`), and reals are exact. Rounding is not modelled, and no zero-norm guard is added, because the source has none.
- `ENGLISH_STOP_WORDS` from scikit-learn is a set parameter `stopWords`.
- Text.Lower: lowers ASCII letters only; Python's Unicode case mapping is not modelled.
- Cosine.ComputeCossim: the order among equal scores depends on Python's set iteration order at backend/scratch.py:355, so the contract fixes only the ranking properties, not the tie order.
- Cosine.ComputeCossim: the ranking contract assumes every score is a number. With floats, a score is `0/0`, which is NaN, whenever the product of the two norms is 0: for instance when every query word has weight `log2(n/(1+df)) == 0` (20 documents and a term in 19 of them, which the default bounds keep), or when every vocabulary term of the document has weight 0. Python's `sorted` then gives no order guarantee, and the exact reals of the model cannot express that case.
- The `print` at backend/scratch.py:553 and the `tqdm` progress bar at line 395 are output side effects.
- backend/scratch.py:556-573 cannot be reached after the `return` at line 554.
- The `score_func` and `input_get_sims_method` parameters of `build_sims_cos` are fixed to `accumulate_dot_scores` and `compute_cossim_for_webnovel`, the only functions the program passes (backend/scratch.py:420).
- The `tokenize_method` parameter of `tokenize_fanfics` and `tokenize_webnovels` is fixed to `tokenize`, the only function the program passes (backend/scratch.py:408-409).
- The cost-function parameters of `edit_matrix`, `edit_distance` and `edit_distance_search` are fixed to the unit costs of backend/scratch.py:434-446, the only cost functions the file defines. Nothing in backend/scratch.py or backend/app.py calls `edit_distance_search`, and `edit_distance` is called only with the search's own parameters.
- EditDistance.InsertionCost and EditDistance.DeletionCost have no contract of their own: each is the constant 1, used by the recurrence `Cell`.
- `list.sort` and `sorted` are modelled by a functional stable insertion sort. The in-place update of the Python list is not modelled.
- The numpy array of `compute_doc_norms` is a Dafny array while it is filled, and is returned as a sequence.
- Crashes of the source are preconditions:
  - a missing key in `getKeyInfo`;
  - an empty title list in `tokenize_webnovels` and `json_search`;
  - a description index out of range in `json_search`;
  - a query word missing from the index in `accumulate_dot_scores`, or a query word with postings missing from the IDF map (`idf[query_word]` at backend/scratch.py:315);
  - an IDF term missing from the index in `compute_doc_norms` (`index[term]` at backend/scratch.py:284);
  - a posting document outside the norm array in `compute_doc_norms` and `compute_cossim_for_webnovel`;
  - `n_docs == 0` with a non-empty index in `compute_idf`.
- The KeyErrors on a record without a field are ruled out by the record types, not by a `requires`: `Corpus.Fanfic`, `Corpus.Webnovel`, `Corpus.TokenizedWebnovel` and `EditDistance.Message` always have their fields. These are `fanfic_dict['id']` and `['description']` (backend/scratch.py:134-135), `webnovel_dict['titles']` and `['description']` (backend/scratch.py:166-167), `webnovel['tokenized_description']` and `['index']` (backend/scratch.py:397-398) and `msg['text']` (backend/scratch.py:550-551).
