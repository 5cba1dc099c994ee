/** The indexing and ranking core: `add_entry`, `query` and
    `term_frequency` of src/searching_engine.rs over immutable maps. */
module SearchingEngine {
  import opened Tokenizer
  import opened Matching
  import opened Ranking
  import opened Scoring

  /** An ingested file. Its title is the file stem and its content the text
      read from disk (empty when unreadable); the path is carried for display
      and plays no part in indexing or scoring. */
  datatype FileEntry = FileEntry(id: nat, title: string, content: string, path: string)

  /** The inverted index: each token maps to the ids of the documents whose
      combined text produced it. */
  type Index = map<string, set<nat>>

  /** The document store, keyed by id. */
  type FileSet = map<nat, FileEntry>

  /** Scores accumulated per document id. */
  type Scores = map<nat, real>

  /** The inverse document frequency of a term, given the number of stored
      documents and the size of the term's posting set. The engine computes
      the `f32` value `log10(n / df)`; the model keeps it abstract. */
  type IdfFn = (nat, nat) -> real

  /** The text both indexing and term counting work on: the title, a single
      space, then the content. */
  function Combined(f: FileEntry): string
  {
    f.title + " " + f.content
  }

  /** The tokens of a document: its combined text split on `' '` only. */
  function Words(f: FileEntry): seq<string>
  {
    Split(Combined(f), ' ')
  }

  /** The posting set of `w`; an absent token has none. */
  function Postings(idx: Index, w: string): set<nat>
  {
    if w in idx then idx[w] else {}
  }

  /** One iteration of the token loop: create an empty posting set for a
      new token, then add `id` to the token's set. */
  function InsertId(idx: Index, word: string, id: nat): (r: Index)
    ensures r.Keys == idx.Keys + {word}
    ensures forall k :: k in r ==> r[k] == Postings(idx, k) + (if k == word then {id} else {})
  {
    var created := if word !in idx then idx[word := {}] else idx;
    created[word := created[word] + {id}]
  }

  /** The token loop over `words`, front to back. The result adds `id` to
      the postings of exactly the listed tokens. */
  function InsertAll(idx: Index, words: seq<string>, id: nat): (r: Index)
    ensures forall k :: k in r <==> k in idx || k in words
    ensures forall k :: k in r ==> r[k] == Postings(idx, k) + (if k in words then {id} else {})
    decreases |words|
  {
    if |words| == 0 then idx
    else
      var r := InsertAll(InsertId(idx, words[0], id), words[1..], id);
      assert forall k :: k in words <==> k == words[0] || k in words[1..];
      r
  }

  /** Indexes one document under every token of its combined text: the
      document's id is added to the postings of exactly its tokens, which
      become keys if they were not. */
  function AddEntry(f: FileEntry, idx: Index): (r: Index)
    ensures forall k :: k in r <==> k in idx || k in Words(f)
    ensures forall k :: k in r ==> r[k] == Postings(idx, k) + (if k in Words(f) then {f.id} else {})
  {
    InsertAll(idx, Words(f), f.id)
  }

  /** Every token of the document lists it afterwards. */
  lemma AddEntryComplete(f: FileEntry, idx: Index, w: string)
    requires w in Words(f)
    ensures w in AddEntry(f, idx) && f.id in AddEntry(f, idx)[w]
  {
  }

  /** Nothing already indexed is lost. */
  lemma AddEntryKeeps(f: FileEntry, idx: Index, w: string, id: nat)
    requires w in idx && id in idx[w]
    ensures w in AddEntry(f, idx) && id in AddEntry(f, idx)[w]
  {
  }

  /** A token outside the document keeps its posting set, and stays absent
      if it was absent. */
  lemma AddEntryUntouched(f: FileEntry, idx: Index, k: string)
    requires k !in Words(f)
    ensures k in AddEntry(f, idx) <==> k in idx
    ensures Postings(AddEntry(f, idx), k) == Postings(idx, k)
  {
  }

  /** A pair present after `AddEntry` was present before, or pairs one of
      the document's tokens with its id: no other id is ever added. */
  lemma AddEntryOrigin(f: FileEntry, idx: Index, w: string, id: nat)
    requires w in AddEntry(f, idx) && id in AddEntry(f, idx)[w]
    ensures (w in idx && id in idx[w]) || (id == f.id && w in Words(f))
  {
  }

  /** Every posting set `AddEntry` creates is non-empty, so an index built
      only by `AddEntry` has no empty posting set. */
  lemma AddEntryNonEmpty(f: FileEntry, idx: Index, k: string)
    requires k in AddEntry(f, idx)
    requires k in idx && k !in Words(f) ==> idx[k] != {}
    ensures AddEntry(f, idx)[k] != {}
  {
  }

  /** Indexing the same document twice gives the index of indexing it once. */
  lemma AddEntryIdempotent(f: FileEntry, idx: Index)
    ensures AddEntry(f, AddEntry(f, idx)) == AddEntry(f, idx)
  {
    var once := AddEntry(f, idx);
    var twice := AddEntry(f, once);
    assert twice.Keys == once.Keys;
    forall k | k in once
      ensures twice[k] == once[k]
    {
    }
  }

  /** The number of non-overlapping occurrences of `term` in the combined
      text of `f`. */
  function TermFrequency(f: FileEntry, term: string): (r: nat)
    ensures r <= |Combined(f)| + 1
  {
    CountMatches(Combined(f), term)
  }

  /** A term has a positive frequency exactly when it is a substring of the
      combined text, and its non-overlapping matches fit in that text. */
  lemma TermFrequencySpec(f: FileEntry, term: string)
    ensures TermFrequency(f, term) > 0 <==> Occurs(term, Combined(f))
    ensures |term| > 0 ==> TermFrequency(f, term) * |term| <= |Combined(f)|
  {
    CountPositiveIffOccurs(Combined(f), term);
    if |term| > 0 {
      CountBound(Combined(f), term);
    }
  }

  /** The frequency of a non-empty term is its leftmost match in the
      combined text plus the matches after that match's end. With
      `TermFrequencySpec`, which gives 0 for a term that does not occur,
      this determines the frequency. */
  lemma TermFrequencyLeftmost(f: FileEntry, term: string, k: nat)
    requires |term| > 0 && OccursAt(term, Combined(f), k)
    requires forall j :: 0 <= j < k ==> !OccursAt(term, Combined(f), j)
    ensures TermFrequency(f, term) == 1 + CountMatches(Combined(f)[k + |term|..], term)
  {
    CountLeftmost(Combined(f), term, k);
  }

  /** Every token a document is indexed under is matched at least once when
      its frequency is counted, since both use the same combined text. */
  lemma TokenHasFrequency(f: FileEntry, w: string)
    requires w in Words(f)
    ensures TermFrequency(f, w) >= 1
  {
    var i :| 0 <= i < |Words(f)| && Words(f)[i] == w;
    PieceOccurs(Combined(f), ' ', i);
    CountPositiveIffOccurs(Combined(f), w);
  }

  /** Every id `query` can look up for the given terms names a stored
      document (the lookup at src/searching_engine.rs:27 is unwrapped). */
  predicate Resolves(files: FileSet, idx: Index, terms: seq<string>)
  {
    forall t :: t in terms && t in idx ==> idx[t] <= files.Keys
  }

  /** The documents a query reaches: the union of the posting sets of its
      terms that are in the index. */
  function Candidates(idx: Index, terms: seq<string>): set<nat>
  {
    set t, id | t in terms && t in idx && id in idx[t] :: id
  }

  /** What crediting a document for `term` adds to its score: its frequency
      of the term times the term's weight `w`. A document missing from the
      store, which the engine's lookup would reject, adds nothing. */
  function Weight(files: FileSet, term: string, w: real, id: nat): real
  {
    if id in files then TermFrequency(files[id], term) as real * w else 0.0
  }

  /** The credit the inner loop of `query` gives each visited document. */
  function Gain(files: FileSet, term: string, w: real): nat -> real
  {
    (id: nat) => Weight(files, term, w, id)
  }

  /** The score one term adds to one document: `tf * idf` when the document
      is in the term's postings, nothing otherwise. */
  function Contribution(files: FileSet, idx: Index, t: string, idf: IdfFn, id: nat): real
  {
    if t in idx && id in idx[t] then Weight(files, t, idf(|files|, |idx[t]|), id)
    else 0.0
  }

  /** The TF-IDF score of one document: its contributions summed over the
      query terms, each occurrence of a repeated term counting again. */
  function Score(files: FileSet, idx: Index, terms: seq<string>, idf: IdfFn, id: nat): (r: real)
    ensures id !in files ==> r == 0.0
    decreases |terms|
  {
    if |terms| == 0 then 0.0
    else
      var n := |terms| - 1;
      Score(files, idx, terms[..n], idf, id) + Contribution(files, idx, terms[n], idf, id)
  }

  /** A document none of whose terms lists it scores nothing. */
  lemma {:induction false} ScoreOutsideCandidates(files: FileSet, idx: Index, terms: seq<string>, idf: IdfFn, id: nat)
    requires forall t :: t in terms ==> id !in Postings(idx, t)
    ensures Score(files, idx, terms, idf, id) == 0.0
    decreases |terms|
  {
    if |terms| > 0 {
      var n := |terms| - 1;
      assert forall t :: t in terms[..n] ==> t in terms;
      assert terms[n] in terms;
      ScoreOutsideCandidates(files, idx, terms[..n], idf, id);
    }
  }

  /** One iteration of the term loop: an unknown term is skipped; otherwise
      every id in the term's postings is credited `tf * idf`. */
  function AddTerm(files: FileSet, idx: Index, term: string, idf: IdfFn, acc: Scores): (r: Scores)
    ensures forall id :: id in r <==> id in acc || id in Postings(idx, term)
    ensures forall id :: id in acc && id !in Postings(idx, term) ==> r[id] == acc[id]
  {
    if term !in idx then acc
    else Credit(acc, idx[term], Gain(files, term, idf(|files|, |idx[term]|)))
  }

  /** The score map `query` builds before sorting: the term fold, one
      `AddTerm` step per query term, in query order. */
  function Accumulate(files: FileSet, idx: Index, terms: seq<string>, idf: IdfFn): (r: Scores)
    ensures forall t :: t in terms && t in idx ==> idx[t] <= r.Keys
    decreases |terms|
  {
    if |terms| == 0 then map[]
    else
      var n := |terms| - 1;
      assert forall t :: t in terms ==> t in terms[..n] || t == terms[n];
      AddTerm(files, idx, terms[n], idf, Accumulate(files, idx, terms[..n], idf))
  }

  /** The score map holds exactly the documents listed by some query term. */
  lemma {:induction false} AccumulateDomain(files: FileSet, idx: Index, terms: seq<string>, idf: IdfFn)
    ensures forall id :: id in Accumulate(files, idx, terms, idf) <==>
      exists t :: t in terms && id in Postings(idx, t)
    decreases |terms|
  {
    if |terms| > 0 {
      var n := |terms| - 1;
      var prefix := terms[..n];
      var last := terms[n];
      assert terms == prefix + [last];
      AccumulateDomain(files, idx, prefix, idf);
      var acc := Accumulate(files, idx, prefix, idf);
      var r := Accumulate(files, idx, terms, idf);
      assert forall id :: id in r <==> id in acc || id in Postings(idx, last);
      forall id
        ensures id in r <==> exists t :: t in terms && id in Postings(idx, t)
      {
        if id in Postings(idx, last) {
          assert last in terms;
        } else if id in acc {
          var t :| t in prefix && id in Postings(idx, t);
          assert t in terms;
        } else {
          assert forall t :: t in terms ==> t in prefix || t == last;
        }
      }
    }
  }

  /** Every entry of the score map is the document's TF-IDF score. */
  lemma {:induction false} AccumulateScores(files: FileSet, idx: Index, terms: seq<string>, idf: IdfFn)
    ensures var r := Accumulate(files, idx, terms, idf);
      forall id :: id in r ==> r[id] == Score(files, idx, terms, idf, id)
    decreases |terms|
  {
    if |terms| > 0 {
      var n := |terms| - 1;
      var prefix := terms[..n];
      var last := terms[n];
      AccumulateScores(files, idx, prefix, idf);
      AccumulateDomain(files, idx, prefix, idf);
      var acc := Accumulate(files, idx, prefix, idf);
      var r := Accumulate(files, idx, terms, idf);
      forall id | id in r
        ensures r[id] == Score(files, idx, terms, idf, id)
      {
        assert Score(files, idx, terms, idf, id)
          == Score(files, idx, prefix, idf, id) + Contribution(files, idx, last, idf, id);
        if id !in acc {
          ScoreOutsideCandidates(files, idx, prefix, idf, id);
        }
      }
    }
  }

  /** The score map holds an entry for exactly the candidate documents. */
  lemma AccumulateKeys(files: FileSet, idx: Index, terms: seq<string>, idf: IdfFn)
    ensures Accumulate(files, idx, terms, idf).Keys == Candidates(idx, terms)
  {
    var acc := Accumulate(files, idx, terms, idf);
    AccumulateDomain(files, idx, terms, idf);
    forall id | id in Candidates(idx, terms) ensures id in acc {
      var t :| t in terms && t in idx && id in idx[t];
      assert id in Postings(idx, t);
    }
  }

  /** The ranked result of a query: the accumulated hits sorted by the
      tuple order. It holds exactly the candidate documents, each with its
      score, strictly ascending by id. */
  ghost function Query(files: FileSet, idx: Index, terms: seq<string>, idf: IdfFn): (r: seq<Hit>)
    requires Resolves(files, idx, terms)
    ensures Ids(r) == Candidates(idx, terms)
    ensures forall i :: 0 <= i < |r| ==> r[i].score == Score(files, idx, terms, idf, r[i].id)
    ensures StrictlyAscending(r)
  {
    var acc := Accumulate(files, idx, terms, idf);
    var xs := Entries(acc);
    EntriesEnumerate(acc);
    SortEnumeration(xs, acc);
    SortDistinctAscending(xs);
    AccumulateScores(files, idx, terms, idf);
    AccumulateKeys(files, idx, terms, idf);
    SortHits(xs)
  }

  /** The inner loop of `query` for one known term, crediting every id of
      the term's postings with its frequency times the term's idf. It
      computes one step of the term fold. */
  method CreditTerm(files: FileSet, idx: Index, term: string, idf: IdfFn, acc0: Scores) returns (acc: Scores)
    requires term in idx && idx[term] <= files.Keys
    ensures acc == AddTerm(files, idx, term, idf, acc0)
  {
    var ids := idx[term];
    var w := idf(|files|, |ids|);
    acc := CreditAll(acc0, ids, Gain(files, term, w));
  }

  /** Scoring one more term of the query is one more step of the fold. */
  lemma AccumulateStep(files: FileSet, idx: Index, terms: seq<string>, idf: IdfFn, i: nat)
    requires i < |terms|
    ensures Accumulate(files, idx, terms[..i + 1], idf)
      == AddTerm(files, idx, terms[i], idf, Accumulate(files, idx, terms[..i], idf))
  {
    assert terms[..i + 1][..i] == terms[..i] && terms[..i + 1][i] == terms[i];
  }

  /** One iteration of the term loop of `query`: an unknown term is
      skipped, a known one credits its postings. */
  method ScoreTerm(files: FileSet, idx: Index, terms: seq<string>, idf: IdfFn, i: nat, acc0: Scores) returns (acc: Scores)
    requires Resolves(files, idx, terms)
    requires i < |terms|
    requires acc0 == Accumulate(files, idx, terms[..i], idf)
    ensures acc == Accumulate(files, idx, terms[..i + 1], idf)
  {
    var key := terms[i];
    AccumulateStep(files, idx, terms, idf, i);
    acc := acc0;
    if key in idx {
      assert key in terms;
      acc := CreditTerm(files, idx, key, idf, acc);
    }
  }

  /** The term loop of `query`: unknown terms are skipped, each known term
      credits its postings. The result is the score map of the query. */
  method ScoreTerms(files: FileSet, idx: Index, terms: seq<string>, idf: IdfFn) returns (acc: Scores)
    requires Resolves(files, idx, terms)
    ensures acc == Accumulate(files, idx, terms, idf)
  {
    acc := map[];
    var i := 0;
    while i < |terms|
      invariant 0 <= i <= |terms|
      invariant acc == Accumulate(files, idx, terms[..i], idf)
    {
      acc := ScoreTerm(files, idx, terms, idf, i, acc);
      i := i + 1;
    }
    assert terms[..|terms|] == terms;
  }

  /** `query` as the engine runs it: the term loop, then the score map
      listed in whatever order the map yields, then the sort. The result is
      the ranked query result, whatever that listing order. */
  method RunQuery(files: FileSet, idx: Index, terms: seq<string>, idf: IdfFn) returns (r: seq<Hit>)
    requires Resolves(files, idx, terms)
    ensures r == Query(files, idx, terms, idf)
    ensures Ids(r) == Candidates(idx, terms)
    ensures forall i :: 0 <= i < |r| ==> r[i].score == Score(files, idx, terms, idf, r[i].id)
    ensures StrictlyAscending(r)
  {
    var acc := ScoreTerms(files, idx, terms, idf);
    var xs := ListScores(acc);
    r := SortHits(xs);
    QueryIgnoresMapOrder(files, idx, terms, idf, xs);
  }

  /** Terms absent from the index contribute nothing: a query with no known
      term, the empty query included, returns no hits. */
  lemma QueryUnknownTerms(files: FileSet, idx: Index, terms: seq<string>, idf: IdfFn)
    requires forall t :: t in terms ==> t !in idx
    ensures Query(files, idx, terms, idf) == []
  {
    var r := Query(files, idx, terms, idf);
    assert Candidates(idx, terms) == {};
    EmptyIds(r);
  }

  /** Repeating a term changes the scores but not which documents are
      returned. */
  lemma QueryRepeatedTerm(files: FileSet, idx: Index, terms: seq<string>, t: string, idf: IdfFn)
    requires Resolves(files, idx, terms)
    requires t in terms
    ensures Resolves(files, idx, terms + [t])
    ensures Ids(Query(files, idx, terms + [t], idf)) == Ids(Query(files, idx, terms, idf))
  {
    assert forall u :: u in terms + [t] <==> u in terms;
    assert Candidates(idx, terms + [t]) == Candidates(idx, terms);
  }

  /** The result does not depend on the order in which the score map is
      listed before sorting: sorting any listing gives the query result. */
  lemma QueryIgnoresMapOrder(files: FileSet, idx: Index, terms: seq<string>, idf: IdfFn, xs: seq<Hit>)
    requires Resolves(files, idx, terms)
    requires Enumerates(xs, Accumulate(files, idx, terms, idf))
    ensures SortHits(xs) == Query(files, idx, terms, idf)
  {
    var acc := Accumulate(files, idx, terms, idf);
    var ys := Entries(acc);
    EntriesEnumerate(acc);
    SortEnumeration(xs, acc);
    SortEnumeration(ys, acc);
    SortDistinctAscending(xs);
    SortDistinctAscending(ys);
    AscendingEnumerationUnique(SortHits(xs), SortHits(ys), acc);
  }

  /** With non-negative idf values no score is negative. */
  lemma {:induction false} ScoreNonNegative(files: FileSet, idx: Index, terms: seq<string>, idf: IdfFn, id: nat)
    requires forall t :: t in terms && t in idx ==> idf(|files|, |idx[t]|) >= 0.0
    ensures Score(files, idx, terms, idf, id) >= 0.0
    decreases |terms|
  {
    if |terms| > 0 {
      var n := |terms| - 1;
      assert forall t :: t in terms[..n] ==> t in terms;
      assert terms[n] in terms;
      ScoreNonNegative(files, idx, terms[..n], idf, id);
      ContributionNonNegative(files, idx, terms[n], idf, id);
    }
  }

  /** A product of two non-negative reals is non-negative. */
  lemma MulNonNegative(a: real, b: real)
    requires a >= 0.0 && b >= 0.0
    ensures a * b >= 0.0
  {
  }

  /** A term with a non-negative idf contributes nothing negative. */
  lemma ContributionNonNegative(files: FileSet, idx: Index, t: string, idf: IdfFn, id: nat)
    requires t in idx ==> idf(|files|, |idx[t]|) >= 0.0
    ensures Contribution(files, idx, t, idf, id) >= 0.0
  {
    if t in idx && id in idx[t] && id in files {
      MulNonNegative(TermFrequency(files[id], t) as real, idf(|files|, |idx[t]|));
    }
  }

  /** Appending a term with a non-negative idf never lowers a score. */
  lemma ScoreMonotone(files: FileSet, idx: Index, terms: seq<string>, t: string, idf: IdfFn, id: nat)
    requires t in idx ==> idf(|files|, |idx[t]|) >= 0.0
    ensures Score(files, idx, terms + [t], idf, id) >= Score(files, idx, terms, idf, id)
  {
    var ext := terms + [t];
    assert ext[..|terms|] == terms && ext[|terms|] == t;
    ContributionNonNegative(files, idx, t, idf, id);
  }

  /** Every posting lists a stored document that produced the token. */
  predicate Sound(files: FileSet, idx: Index)
  {
    forall w, id :: w in idx && id in idx[w] ==> id in files && w in Words(files[id])
  }

  /** Every token of every stored document lists that document. */
  predicate Complete(files: FileSet, idx: Index)
  {
    forall id, w :: id in files && w in Words(files[id]) ==> w in idx && id in idx[w]
  }

  /** No token maps to an empty posting set. */
  predicate NoEmptyPostings(idx: Index)
  {
    forall w :: w in idx ==> idx[w] != {}
  }

  /** A sound and complete index without empty posting sets is determined
      by the store alone: neither the order in which documents were added
      nor anything else about its construction shows in it. */
  lemma IndexDetermined(files: FileSet, a: Index, b: Index)
    requires Sound(files, a) && Complete(files, a) && NoEmptyPostings(a)
    requires Sound(files, b) && Complete(files, b) && NoEmptyPostings(b)
    ensures a == b
  {
    forall w, id | w in a && id in a[w] ensures w in b && id in b[w] {
      assert id in files && w in Words(files[id]);
    }
    forall w, id | w in b && id in b[w] ensures w in a && id in a[w] {
      assert id in files && w in Words(files[id]);
    }
    forall w | w in a ensures w in b {
      var id :| id in a[w];
    }
    forall w | w in b ensures w in a {
      var id :| id in b[w];
    }
    assert a.Keys == b.Keys;
    forall w | w in a ensures a[w] == b[w] {
    }
  }

  /** Indexing a document under a fresh id keeps the index sound. */
  lemma AddEntryPreservesSound(files: FileSet, idx: Index, f: FileEntry)
    requires Sound(files, idx)
    requires f.id !in files
    ensures Sound(files[f.id := f], AddEntry(f, idx))
  {
    var files' := files[f.id := f];
    var idx' := AddEntry(f, idx);
    forall w, id | w in idx' && id in idx'[w]
      ensures id in files' && w in Words(files'[id])
    {
      AddEntryOrigin(f, idx, w, id);
    }
  }

  /** Indexing a document under a fresh id while storing it keeps the index
      complete. */
  lemma AddEntryPreservesComplete(files: FileSet, idx: Index, f: FileEntry)
    requires Complete(files, idx)
    requires f.id !in files
    ensures Complete(files[f.id := f], AddEntry(f, idx))
  {
    var files' := files[f.id := f];
    var idx' := AddEntry(f, idx);
    forall id, w | id in files' && w in Words(files'[id])
      ensures w in idx' && id in idx'[w]
    {
      if id == f.id {
        AddEntryComplete(f, idx, w);
      } else {
        AddEntryKeeps(f, idx, w, id);
      }
    }
  }

  /** In a sound index every id of a posting set is matched at least once
      when the token's frequency is counted in that document. */
  lemma SoundPostingsMatch(files: FileSet, idx: Index, w: string, id: nat)
    requires Sound(files, idx)
    requires w in idx && id in idx[w]
    ensures id in files && TermFrequency(files[id], w) >= 1
  {
    TokenHasFrequency(files[id], w);
  }

  /** Over a sound and complete index a query returns exactly the stored
      documents having one of the query terms as a token. Documents that
      merely contain a term inside a longer token are not returned, even
      though their term frequency would be positive. */
  lemma QueryFindsTokenMatches(files: FileSet, idx: Index, terms: seq<string>, idf: IdfFn)
    requires Sound(files, idx) && Complete(files, idx)
    ensures Resolves(files, idx, terms)
    ensures forall id :: id in Ids(Query(files, idx, terms, idf)) <==>
      id in files && exists t :: t in terms && t in Words(files[id])
  {
    var r := Query(files, idx, terms, idf);
    forall id
      ensures id in Ids(r) <==> id in files && exists t :: t in terms && t in Words(files[id])
    {
      if id in Ids(r) {
        assert id in Candidates(idx, terms);
        var t :| t in terms && t in idx && id in idx[t];
        assert t in Words(files[id]);
      }
      if id in files && exists t :: t in terms && t in Words(files[id]) {
        var t :| t in terms && t in Words(files[id]);
        assert t in idx && id in idx[t];
        assert id in Candidates(idx, terms);
      }
    }
  }
}
