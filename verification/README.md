# rust-file-search-engine: the indexing and ranking core in Dafny

This project models the core of a small TF-IDF file search engine, written
in Rust. At start-up the engine numbers the discovered files `0 .. n-1` and
turns each into a `FileEntry` holding an id, a title, a content and a path.
Each entry goes into an inverted index, which maps every token of the text
`title + " " + content` to the set of ids of the documents that produced it.
Each entry is also stored in a document map keyed by id. A query is a list
of terms:

- Terms absent from the index are skipped.
- For every other term, each document in its posting set is credited
  `tf * idf`:
  - `tf` counts the non-overlapping occurrences of the term in the
    document's combined text;
  - `idf` is `log10(n / df)`.
- The `(id, score)` pairs are collected from a hash map and sorted.

The model is split into these modules:

- `Matching` (matching.dfy): substring occurrence, and the left-to-right,
  non-overlapping match count of `str::matches(..).count()`.
- `Tokenizer` (tokenizer.dfy): `str::split(" ")` on a single separator
  character, with `Join` as its inverse.
- `Ranking` (ranking.dfy): the hit type, the lexicographic tuple order, a
  stable insertion sort, and the listing of a score map in an unspecified
  order.
- `Scoring` (scoring.dfy): the crediting loop that adds a term's gain to
  every document of a posting set.
- `SearchingEngine` (searching_engine.dfy): `add_entry`, `term_frequency`
  and `query`, together with the index invariants (soundness and
  completeness) they keep.
- `Build` (build.dfy): the start-up loop of `main`, which numbers, indexes
  and stores the entries.

Maps and sets are Dafny's immutable `map` and `set`. `add_entry` and the
accumulation of `query` are pure functions. The loops of `query` are
methods, each proved equal to its functional reference. The start-up loop
of `main` is a method proved to establish soundness, completeness and
non-empty posting sets. By `IndexDetermined`, these invariants fix the
index uniquely.

Some consequences of the code as written:

- **Tokens.** They are the pieces of `split(" ")`: only the space character
  separates them. Runs of spaces, and leading or trailing spaces, give empty
  tokens, and the empty string becomes an index key. Tabs and newlines stay
  inside tokens.
- **Result order.** The result is sorted ascending by the `(id, score)`
  tuple. Result ids are distinct, so the order is strictly ascending by id
  and scores never decide it.
- **Empty term.** It matches at every character boundary, so its frequency
  is `|text| + 1`, as Rust counts it.
- **Skipped terms.** A term is skipped only when it is absent from the
  index. It is not skipped when its posting set is empty, but an index built
  by `add_entry` has no empty posting set (`NoEmptyPostings`).

## Model

| member | source | states |
|---|---|---|
| Matching.CountMatches | src/searching_engine.rs:39-42 | the greedy, non-overlapping match count of `matches(..).count()`: never more than the `|text| + 1` character boundaries (the count the empty term reaches). For a non-empty term `CountLeftmost` and `CountAbsent` determine its value, and `CountPositiveIffOccurs` and `CountBound` give positivity and the length bound |
| Matching.CountLeftmost | src/searching_engine.rs:39-42 | the scan of `matches` takes the leftmost occurrence of a non-empty term, then resumes after its end: the count is one plus the count in the text after that match |
| Matching.CountAbsent | src/searching_engine.rs:39-42 | a term that does not occur in the text is matched zero times |
| Matching.CountPositiveIffOccurs | src/searching_engine.rs:39-42 | the match count is positive exactly when the term is a substring of the text (both directions) |
| Matching.CountBound | src/searching_engine.rs:39-42 | non-overlapping matches of a non-empty term fit in the text: `count * |term| <= |text|` |
| Tokenizer.Split | src/searching_engine.rs:6-7 | `split(" ")` yields at least one piece, even for the empty text. `SplitPieces`, `SplitCount`, `JoinSplit` and `SplitJoin` specify the pieces |
| Tokenizer.JoinSplit | src/searching_engine.rs:6-7 | gluing the split pieces back with the separator restores the text, so splitting loses nothing |
| Tokenizer.SplitJoin | src/searching_engine.rs:6-7 | splitting a join of separator-free pieces returns those pieces, so `Split` and `Join` are mutually inverse |
| Tokenizer.SplitPieces | src/searching_engine.rs:6-7 | no token contains the separator, and the first token is a prefix of the text |
| Tokenizer.SplitCount | src/searching_engine.rs:6-7 | there is exactly one more token than there are separators, empty tokens included |
| Tokenizer.PieceOccurs | src/searching_engine.rs:6-7 | every token is a substring of the text it was split from |
| SearchingEngine.InsertId | src/searching_engine.rs:9-14 | one token visit adds the token as a key if it was absent, adds the id to that token's postings, and leaves every other posting set as it was |
| SearchingEngine.InsertAll | src/searching_engine.rs:8-15 | after the token loop the keys are the old keys plus the visited tokens, and exactly the visited tokens gained the id |
| SearchingEngine.AddEntry | src/searching_engine.rs:5-16 | after indexing a document the keys are the old keys plus its tokens, and each posting set is the old one plus the document's id exactly when the key is one of its tokens |
| SearchingEngine.AddEntryComplete | src/searching_engine.rs:6-14 | every token of the document is a key afterwards and lists the document's id |
| SearchingEngine.AddEntryKeeps | src/searching_engine.rs:8-14 | every token/id pair present before is still present (monotone) |
| SearchingEngine.AddEntryUntouched | src/searching_engine.rs:8-14 | a key that is not a token of the document keeps its posting set, and an absent one stays absent |
| SearchingEngine.AddEntryOrigin | src/searching_engine.rs:8-14 | a token/id pair present afterwards was present before, or is one of the document's tokens with its id: no other id is ever added |
| SearchingEngine.AddEntryNonEmpty | src/searching_engine.rs:9-13 | after `add_entry` every posting set of the document's tokens is non-empty, even one that was empty before, and every other set is non-empty if it was before |
| SearchingEngine.AddEntryIdempotent | src/searching_engine.rs:9-13 | indexing the same document twice yields the index of indexing it once |
| SearchingEngine.TermFrequency | src/searching_engine.rs:39-42 | `term_frequency` over the combined text `title + " " + content` is at most its length plus one. `TermFrequencySpec` states when it is positive and how it is bounded for a non-empty term, and `TermFrequencyLeftmost` determines its value |
| SearchingEngine.TermFrequencySpec | src/searching_engine.rs:39-42 | a document's term frequency is positive exactly when the term is a substring of its combined text, and for a non-empty term `tf * |term|` is at most the length of that text |
| SearchingEngine.TermFrequencyLeftmost | src/searching_engine.rs:39-42 | the frequency of a non-empty term is one for its leftmost match in `title + " " + content` plus the matches after that match's end |
| SearchingEngine.TokenHasFrequency | src/searching_engine.rs:39-42 | every token a document is indexed under is counted at least once by `term_frequency`, since both use the same combined text |
| SearchingEngine.SoundPostingsMatch | src/searching_engine.rs:26-27 | in a sound index every id of a posting set names a stored document whose frequency of that token is at least 1 |
| SearchingEngine.Score | src/searching_engine.rs:24-33 | the reference score of one document: its `tf * idf` summed over the query terms that list it. A document missing from the store scores 0. `AccumulateScores` shows the score map holds exactly this value |
| SearchingEngine.AddTerm | src/searching_engine.rs:20-34 | one term step: an unknown term leaves the score map as it was. A known term adds entries for exactly its posting set and keeps every entry outside that set |
| SearchingEngine.Accumulate | src/searching_engine.rs:18-34 | the score map after the term loop holds an entry for every id listed by a known query term. `AccumulateDomain` and `AccumulateScores` give the converse and the values |
| SearchingEngine.AccumulateDomain | src/searching_engine.rs:20-34 | the score map holds an entry for a document exactly when some query term lists it in the index |
| SearchingEngine.AccumulateScores | src/searching_engine.rs:20-34 | each entry of the score map is the document's `tf * idf` summed over the query terms, repeated terms counting again |
| SearchingEngine.AccumulateKeys | src/searching_engine.rs:20-34 | the score map's keys are the union of the posting sets of the query terms present in the index |
| SearchingEngine.Query | src/searching_engine.rs:17-38 | the result lists exactly the candidate documents, each with its TF-IDF score, strictly ascending by id |
| Scoring.Credit | src/searching_engine.rs:26-34 | the closed form of the crediting loop: an entry for every old key and every visited id, with entries that were not visited kept unchanged. `CreditStep` gives the value of a visited entry |
| Scoring.CreditAll | src/searching_engine.rs:26-34 | the posting-set loop, visiting ids in any order, gives each visited id an entry starting at 0 and adds its gain: the result is the credited map whatever the visiting order |
| Scoring.CreditStep | src/searching_engine.rs:28-33 | crediting one more id is a single update of its entry, or of 0 when it has none |
| Scoring.CreditNothing | src/searching_engine.rs:26-34 | crediting no id leaves the score map unchanged |
| SearchingEngine.CreditTerm | src/searching_engine.rs:24-34 | the inner loop for one known term computes that term's step of the score fold |
| SearchingEngine.ScoreTerm | src/searching_engine.rs:20-34 | one iteration of the term loop (skip an unknown term, credit a known one's postings) advances the score map by exactly one step of the term fold |
| SearchingEngine.ScoreTerms | src/searching_engine.rs:20-35 | the term loop, skipping unknown terms, computes the query's score map |
| SearchingEngine.RunQuery | src/searching_engine.rs:17-38 | the loops, the listing of the hash map in any order and the sort return the query result: exactly the candidates, with their scores, strictly ascending by id |
| SearchingEngine.QueryUnknownTerms | src/searching_engine.rs:20-23 | a query none of whose terms is in the index (the empty query included) returns no hits |
| SearchingEngine.QueryRepeatedTerm | src/searching_engine.rs:20-34 | repeating a query term does not change which documents are returned |
| SearchingEngine.QueryIgnoresMapOrder | src/searching_engine.rs:35-36 | sorting any listing of the score map gives the same result, so the hash map's iteration order does not show |
| SearchingEngine.ScoreNonNegative | src/searching_engine.rs:25-32 | when every idf is non-negative (as `log10(n / df)` is for `df <= n`), no score is negative |
| SearchingEngine.ContributionNonNegative | src/searching_engine.rs:25-32 | the credit one term gives one document, `tf * idf`, is non-negative when the idf is |
| SearchingEngine.ScoreMonotone | src/searching_engine.rs:25-32 | appending a term whose idf is non-negative never lowers a document's score |
| SearchingEngine.QueryFindsTokenMatches | src/searching_engine.rs:17-34 | over a sound and complete index a query returns exactly the stored documents having a query term as a token, not those merely containing it inside a longer token |
| SearchingEngine.AddEntryPreservesSound | src/main.rs:11-13 | indexing and storing a document under a fresh id keeps every posting pointing at a stored document that has the token |
| SearchingEngine.AddEntryPreservesComplete | src/main.rs:11-13 | indexing and storing a document under a fresh id keeps every token of every stored document listed |
| SearchingEngine.IndexDetermined | src/main.rs:8-14 | a sound, complete index without empty posting sets is determined by the document map alone, whatever the order in which documents were added |
| Ranking.InsertSorted | src/searching_engine.rs:36 | inserting into a sorted sequence keeps it sorted and adds exactly the new hit to its members |
| Ranking.InsertPermutes | src/searching_engine.rs:36 | insertion adds exactly one occurrence of the new hit (multiset) |
| Ranking.InsertKeepsDistinct | src/searching_engine.rs:35-36 | inserting a hit with a new id keeps the ids pairwise different |
| Ranking.SortHits | src/searching_engine.rs:36 | the sort's output is ordered by the `(id, score)` tuple order and has the same members as its input |
| Ranking.SortPermutes | src/searching_engine.rs:36 | the sort's output is a permutation of its input (multiset equality) |
| Ranking.SortDistinctAscending | src/searching_engine.rs:35-36 | hits with distinct ids come out strictly ascending by id: the score never decides the order |
| Ranking.SortedUnique | src/searching_engine.rs:36 | two sorted arrangements of the same hits are identical, because the tuple order is total and antisymmetric |
| Ranking.SortIgnoresInputOrder | src/searching_engine.rs:35-36 | the sorted result does not depend on the order in which the hits were collected |
| Ranking.AscendingUnique | src/searching_engine.rs:35-36 | two sequences strictly ascending by id with the same members are equal |
| Ranking.ListScores | src/searching_engine.rs:35 | collecting the hash map into a vector lists every entry exactly once with its score, whatever the iteration order |
| Ranking.EntriesEnumerate | src/searching_engine.rs:35 | the reference listing of a score map lists every entry exactly once with its score |
| Ranking.SortEnumeration | src/searching_engine.rs:35-36 | sorting a listing of a score map yields a listing of the same map: every entry once, with its score |
| Ranking.AscendingEnumerationUnique | src/searching_engine.rs:35-36 | a score map has exactly one listing strictly ascending by id |
| Build.BuildIndex | src/main.rs:8-14 | after the start-up loop the document map's keys are exactly `0 .. n-1`; entry `i` is built from file `i`; the index is sound and complete; every posting set is non-empty and no larger than the document map, so `n / df` has a positive denominator and is at least 1; no files give empty maps |
| Build.EmptyStoreQuery | src/main.rs:8-16 | with no files discovered, every query over the empty maps returns no hits |

## Left out

- File discovery and reading: `get_files`, `get_file_content`,
  `get_file_title`, `get_file_set` and the I/O inside `FileEntry::new`
  (src/file_logic.rs, src/file_entry.rs:13-22).
  - `Build.SourceFile` supplies each file's path, title (the file stem) and
    content (empty when unreadable) as given values.
  - The title is not derived from the path.
- The hard-coded query and the printing of results (src/main.rs:15-20):
  console output.
- Floating point:
  - The idf `log10(n / df)` in `f32` is the abstract parameter `IdfFn`.
  - Scores are exact reals. `f32` rounding, and any dependence of a
    floating-point sum on the order of addition, is not modelled.
- NaN comparison: the panic of `partial_cmp(..).unwrap()` on a NaN is not
  modelled. Result ids are distinct, so the comparison never reaches the
  score.
- Integer width: ids and counts are unbounded naturals. `usize` overflow
  needs more files or matches than memory can hold.
- Failed document lookup: the `unwrap` of the document lookup
  (src/searching_engine.rs:27) is not modelled as a panic.
  - Instead, `Query`, `RunQuery`, `ScoreTerms` and `CreditTerm` require
    that every posting set of a queried term names stored documents
    (`Resolves`).
  - `BuildIndex` establishes this through soundness.
  - The internal scoring functions treat a missing document as
    contributing 0 (`Weight`).
- Hash iteration order: the orders of `HashMap` and `HashSet` are not
  modelled. The loops pick their next element nondeterministically, and
  `Ranking.Entries` is one fixed reference listing. The lemmas show that the
  result does not depend on the choice.
- Contracts that give only part of a function's meaning: each of these
  five functions has a small contract of its own, which keeps its recursion
  cheap to verify. The lemmas named on its line state the rest of what is
  proved about it.
- Matching.CountMatches: its own contract gives only the `|text| + 1`
  bound. For a non-empty term, `CountLeftmost` (leftmost match, then
  resume after it) and `CountAbsent` (no occurrence means 0) determine the
  value. `CountPositiveIffOccurs` and `CountBound` give positivity and the
  length bound. The empty term's count, `|text| + 1`, is fixed by the
  definition alone.
- Tokenizer.Split: its own contract gives only the number of pieces as at
  least one. The pieces are characterised by `SplitPieces`, `SplitCount`,
  `JoinSplit` and `SplitJoin`.
- SearchingEngine.TermFrequency: its own contract gives only the
  `|text| + 1` bound. `TermFrequencySpec` gives positivity and the length
  bound, and `TermFrequencyLeftmost` with `CountAbsent` determines the
  value for a non-empty term.
- SearchingEngine.Accumulate: its own contract gives one direction of its
  key set. The converse is in `AccumulateDomain`, and the values are in
  `AccumulateScores`.
- SearchingEngine.Score: its own contract gives only that a missing
  document scores 0. How the score relates to the score map is in
  `AccumulateScores`, and its sign is in `ScoreNonNegative` and
  `ScoreMonotone`.
