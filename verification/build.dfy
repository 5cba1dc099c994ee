/** The start-up loop of src/main.rs: every discovered file is numbered by
    its position, turned into an entry, indexed, and stored under its id. */
module Build {
  import opened SearchingEngine
  import opened Ranking

  /** What the file-system layer yields for one discovered file: its path,
      its title (the file stem) and its content (empty when unreadable). */
  datatype SourceFile = SourceFile(path: string, title: string, content: string)

  /** The entry `FileEntry::new` builds for the file numbered `id`, with the
      results of its file-system reads supplied. */
  function NewEntry(id: nat, src: SourceFile): FileEntry
  {
    FileEntry(id, src.title, src.content, src.path)
  }

  /** A subset of a finite set is no larger than it. */
  lemma {:induction false} SubsetSize(a: set<nat>, b: set<nat>)
    requires a <= b
    ensures |a| <= |b|
    decreases b
  {
    if a != {} {
      var x :| x in a;
      SubsetSize(a - {x}, b - {x});
    }
  }

  /** Builds the document store and the index from the discovered files,
      numbering them `0 .. |files| - 1` in order. */
  method BuildIndex(files: seq<SourceFile>) returns (indexer: Index, fileSet: FileSet)
    ensures forall i :: i in fileSet <==> 0 <= i < |files|
    ensures forall i :: 0 <= i < |files| ==> fileSet[i] == NewEntry(i, files[i])
    ensures Sound(fileSet, indexer) && Complete(fileSet, indexer)
    ensures NoEmptyPostings(indexer)
    ensures forall w :: w in indexer ==> |indexer[w]| <= |fileSet|
    ensures |files| == 0 ==> indexer == map[] && fileSet == map[]
  {
    indexer := map[];
    fileSet := map[];
    var id := 0;
    while id < |files|
      invariant 0 <= id <= |files|
      invariant forall i :: i in fileSet <==> 0 <= i < id
      invariant forall i :: 0 <= i < id ==> fileSet[i] == NewEntry(i, files[i])
      invariant Sound(fileSet, indexer) && Complete(fileSet, indexer)
      invariant NoEmptyPostings(indexer)
    {
      var entry := NewEntry(id, files[id]);
      AddEntryPreservesSound(fileSet, indexer, entry);
      AddEntryPreservesComplete(fileSet, indexer, entry);
      forall w | w in AddEntry(entry, indexer)
        ensures AddEntry(entry, indexer)[w] != {}
      {
        AddEntryNonEmpty(entry, indexer, w);
      }
      indexer := AddEntry(entry, indexer);
      fileSet := fileSet[id := entry];
      id := id + 1;
    }
    forall w | w in indexer
      ensures |indexer[w]| <= |fileSet|
    {
      assert indexer[w] <= fileSet.Keys;
      SubsetSize(indexer[w], fileSet.Keys);
    }
  }

  /** With no files discovered the store and the index are empty, and every
      query over them returns no hits. */
  lemma EmptyStoreQuery(terms: seq<string>, idf: IdfFn)
    ensures Resolves(map[], map[], terms)
    ensures Query(map[], map[], terms, idf) == []
  {
    QueryUnknownTerms(map[], map[], terms, idf);
  }
}
