/** The final ordering of query results. The engine collects `(id, score)`
    pairs from a hash map, whose iteration order is unspecified, and sorts
    them with the lexicographic tuple comparison of Rust's `partial_cmp`:
    by id first and by score only between equal ids. */
module Ranking {

  /** One result row: a document id and its accumulated score. */
  datatype Hit = Hit(id: nat, score: real)

  /** The lexicographic tuple order on hits, as a less-or-equal relation. */
  predicate LexLe(a: Hit, b: Hit)
  {
    a.id < b.id || (a.id == b.id && a.score <= b.score)
  }

  predicate Sorted(s: seq<Hit>)
  {
    forall i, j :: 0 <= i < j < |s| ==> LexLe(s[i], s[j])
  }

  /** No document id occurs twice. */
  predicate DistinctIds(s: seq<Hit>)
  {
    forall i, j :: 0 <= i < j < |s| ==> s[i].id != s[j].id
  }

  predicate StrictlyAscending(s: seq<Hit>)
  {
    forall i, j :: 0 <= i < j < |s| ==> s[i].id < s[j].id
  }

  /** The ids of the hits in `s`. */
  function Ids(s: seq<Hit>): set<nat>
  {
    set i | 0 <= i < |s| :: s[i].id
  }

  /** A listing has no ids exactly when it is empty. */
  lemma EmptyIds(s: seq<Hit>)
    ensures Ids(s) == {} <==> s == []
  {
    if |s| > 0 {
      assert s[0].id in Ids(s);
    }
  }

  /** The members of a non-empty sequence are its head and those of its
      tail. */
  lemma HeadTail(s: seq<Hit>)
    requires |s| > 0
    ensures forall x :: x in s <==> x == s[0] || x in s[1..]
  {
    assert s == [s[0]] + s[1..];
  }

  /** Places `h` into the sorted `s` after every element not greater than it,
      the step a stable sort takes for each successive element. */
  function InsertSorted(h: Hit, s: seq<Hit>): (r: seq<Hit>)
    requires Sorted(s)
    ensures Sorted(r)
    ensures forall x :: x in r <==> x == h || x in s
    decreases |s|
  {
    if |s| == 0 then [h]
    else if LexLe(h, s[0]) && h != s[0] then [h] + s
    else
      var tail := InsertSorted(h, s[1..]);
      HeadTail(s);
      assert forall x :: x in tail ==> LexLe(s[0], x);
      [s[0]] + tail
  }

  /** Inserting adds exactly one occurrence of the new hit. */
  lemma {:induction false} InsertPermutes(h: Hit, s: seq<Hit>)
    requires Sorted(s)
    ensures multiset(InsertSorted(h, s)) == multiset(s) + multiset{h}
    decreases |s|
  {
    if |s| > 0 && !(LexLe(h, s[0]) && h != s[0]) {
      InsertPermutes(h, s[1..]);
      assert s == [s[0]] + s[1..];
      assert multiset(s) == multiset{s[0]} + multiset(s[1..]);
    }
  }

  /** Inserting a hit whose id is new keeps the ids pairwise different. */
  lemma {:induction false} InsertKeepsDistinct(h: Hit, s: seq<Hit>)
    requires Sorted(s) && DistinctIds(s)
    requires forall x :: x in s ==> x.id != h.id
    ensures DistinctIds(InsertSorted(h, s))
    decreases |s|
  {
    if |s| > 0 && !(LexLe(h, s[0]) && h != s[0]) {
      InsertKeepsDistinct(h, s[1..]);
      var tail := InsertSorted(h, s[1..]);
      forall x | x in tail
        ensures x.id != s[0].id
      {
        if x != h {
          var j :| 0 <= j < |s[1..]| && s[1..][j] == x;
          assert s[j + 1] == x;
        }
      }
    }
  }

  /** The hits in lexicographic order: a stable insertion sort, processing
      the input from left to right. */
  function SortHits(xs: seq<Hit>): (r: seq<Hit>)
    ensures Sorted(r)
    ensures forall x :: x in r <==> x in xs
    decreases |xs|
  {
    if |xs| == 0 then []
    else
      var prefix := xs[..|xs| - 1];
      assert xs == prefix + [xs[|xs| - 1]];
      InsertSorted(xs[|xs| - 1], SortHits(prefix))
  }

  /** Sorting rearranges the hits and neither drops nor repeats any. */
  lemma {:induction false} SortPermutes(xs: seq<Hit>)
    ensures multiset(SortHits(xs)) == multiset(xs)
    decreases |xs|
  {
    if |xs| > 0 {
      var prefix := xs[..|xs| - 1];
      SortPermutes(prefix);
      InsertPermutes(xs[|xs| - 1], SortHits(prefix));
      assert xs == prefix + [xs[|xs| - 1]];
    }
  }

  /** Sorting hits with pairwise different ids orders them strictly by id. */
  lemma {:induction false} SortDistinctAscending(xs: seq<Hit>)
    requires DistinctIds(xs)
    ensures DistinctIds(SortHits(xs))
    ensures StrictlyAscending(SortHits(xs))
    decreases |xs|
  {
    if |xs| > 0 {
      var last := xs[|xs| - 1];
      var prefix := xs[..|xs| - 1];
      SortDistinctAscending(prefix);
      var sorted := SortHits(prefix);
      forall x | x in sorted
        ensures x.id != last.id
      {
        var i :| 0 <= i < |prefix| && prefix[i] == x;
        assert xs[i] == x;
      }
      InsertKeepsDistinct(last, sorted);
      SortedDistinctAscending(SortHits(xs));
    }
  }

  /** Between hits with pairwise different ids the tuple order never reaches
      the score: a sorted sequence is strictly ascending by id. */
  lemma SortedDistinctAscending(s: seq<Hit>)
    requires Sorted(s) && DistinctIds(s)
    ensures StrictlyAscending(s)
  {
  }

  /** Two sorted arrangements of the same hits are identical, because the
      tuple order is total and antisymmetric. */
  lemma {:induction false} SortedUnique(a: seq<Hit>, b: seq<Hit>)
    requires Sorted(a) && Sorted(b)
    requires multiset(a) == multiset(b)
    ensures a == b
    decreases |a|
  {
    if |a| > 0 {
      assert |b| == |multiset(b)| == |multiset(a)| == |a|;
      SortedSameHead(a, b);
      assert a == [a[0]] + a[1..] && b == [b[0]] + b[1..];
      assert multiset(a[1..]) == multiset(b[1..]) by {
        assert multiset(a) == multiset{a[0]} + multiset(a[1..]);
        assert multiset(b) == multiset{b[0]} + multiset(b[1..]);
        assert multiset(a[1..]) == multiset(a) - multiset{a[0]};
        assert multiset(b[1..]) == multiset(b) - multiset{b[0]};
      }
      SortedUnique(a[1..], b[1..]);
    }
  }

  /** Sorted arrangements of the same hits begin with the same hit. */
  lemma SortedSameHead(a: seq<Hit>, b: seq<Hit>)
    requires Sorted(a) && Sorted(b) && |a| > 0 && |b| > 0
    requires multiset(a) == multiset(b)
    ensures a[0] == b[0]
  {
    assert a[0] in multiset(b) && b[0] in multiset(a);
    var k :| 0 <= k < |b| && b[k] == a[0];
    var m :| 0 <= m < |a| && a[m] == b[0];
    assert LexLe(b[0], a[0]) && LexLe(a[0], b[0]);
  }

  /** The ranking does not depend on the order in which the hits were
      collected. */
  lemma SortIgnoresInputOrder(xs: seq<Hit>, ys: seq<Hit>)
    requires multiset(xs) == multiset(ys)
    ensures SortHits(xs) == SortHits(ys)
  {
    SortPermutes(xs);
    SortPermutes(ys);
    SortedUnique(SortHits(xs), SortHits(ys));
  }

  /** Sequences with the same members are empty together. */
  lemma SameMembersEmpty(a: seq<Hit>, b: seq<Hit>)
    requires forall x :: x in a <==> x in b
    ensures |a| == 0 <==> |b| == 0
  {
    if |a| > 0 {
      assert a[0] in b;
    }
    if |b| > 0 {
      assert b[0] in a;
    }
  }

  /** Sequences strictly ascending by id that hold the same hits begin with
      the same hit. */
  lemma AscendingSameHead(a: seq<Hit>, b: seq<Hit>)
    requires StrictlyAscending(a) && StrictlyAscending(b) && |a| > 0 && |b| > 0
    requires forall x :: x in a <==> x in b
    ensures a[0] == b[0]
  {
    assert a[0] in a && b[0] in b;
    var k :| 0 <= k < |b| && b[k] == a[0];
    var m :| 0 <= m < |a| && a[m] == b[0];
    assert b[0].id <= b[k].id && a[0].id <= a[m].id;
    assert k == 0;
  }

  /** In a sequence strictly ascending by id, the tail holds every member
      except the head. */
  lemma AscendingTail(a: seq<Hit>)
    requires StrictlyAscending(a) && |a| > 0
    ensures forall x :: x in a[1..] <==> x in a && x != a[0]
  {
    HeadTail(a);
    forall x | x in a[1..]
      ensures x != a[0]
    {
      var i :| 0 <= i < |a[1..]| && a[1..][i] == x;
      assert a[i + 1] == x;
    }
  }

  /** Two sequences strictly ascending by id that hold the same hits are
      identical. */
  lemma {:induction false} AscendingUnique(a: seq<Hit>, b: seq<Hit>)
    requires StrictlyAscending(a) && StrictlyAscending(b)
    requires forall x :: x in a <==> x in b
    ensures a == b
    decreases |a|
  {
    SameMembersEmpty(a, b);
    if |a| > 0 {
      AscendingSameHead(a, b);
      AscendingTail(a);
      AscendingTail(b);
      AscendingUnique(a[1..], b[1..]);
      assert a == [a[0]] + a[1..] && b == [b[0]] + b[1..];
    }
  }

  /** A listing of `acc` as hits: every entry once, with its score. */
  predicate Enumerates(xs: seq<Hit>, acc: map<nat, real>)
  {
    && DistinctIds(xs)
    && Ids(xs) == acc.Keys
    && forall i :: 0 <= i < |xs| ==> xs[i].id in acc && xs[i].score == acc[xs[i].id]
  }

  /** Appending an entry for a new key to a listing lists the extended map. */
  lemma EnumeratesAppend(xs: seq<Hit>, acc: map<nat, real>, k: nat, v: real)
    requires Enumerates(xs, acc)
    requires k !in acc
    ensures Enumerates(xs + [Hit(k, v)], acc[k := v])
  {
    var r := xs + [Hit(k, v)];
    assert forall i :: 0 <= i < |xs| ==> r[i] == xs[i];
    assert r[|xs|].id == k;
    forall id | id in acc[k := v].Keys ensures id in Ids(r) {
      if id != k {
        var i :| 0 <= i < |xs| && xs[i].id == id;
        assert r[i].id == id;
      }
    }
  }

  /** Prepending an entry for a new key to a listing lists the extended map. */
  lemma EnumeratesPrepend(xs: seq<Hit>, acc: map<nat, real>, k: nat, v: real)
    requires Enumerates(xs, acc)
    requires k !in acc
    ensures Enumerates([Hit(k, v)] + xs, acc[k := v])
  {
    var r := [Hit(k, v)] + xs;
    assert forall i :: 1 <= i < |r| ==> r[i] == xs[i - 1];
    assert r[0].id == k;
    forall id | id in acc[k := v].Keys ensures id in Ids(r) {
      if id != k {
        var i :| 0 <= i < |xs| && xs[i].id == id;
        assert r[i + 1].id == id;
      }
    }
  }

  /** The score map turned into a vector of pairs, as `into_iter().collect()`
      does: the keys are visited in an unspecified order. */
  method ListScores(acc: map<nat, real>) returns (xs: seq<Hit>)
    ensures Enumerates(xs, acc)
  {
    xs := [];
    var todo := acc.Keys;
    while todo != {}
      invariant todo <= acc.Keys
      invariant Enumerates(xs, acc - todo)
      decreases todo
    {
      var id :| id in todo;
      EnumeratesAppend(xs, acc - todo, id, acc[id]);
      assert (acc - todo)[id := acc[id]] == acc - (todo - {id});
      xs := xs + [Hit(id, acc[id])];
      todo := todo - {id};
    }
    assert acc - todo == acc;
  }

  /** Some listing of the score map, in an unspecified order: the reference
      for whatever order the hash map's `into_iter` produces. */
  ghost function Entries(acc: map<nat, real>): seq<Hit>
    decreases acc.Keys
  {
    if acc.Keys == {} then []
    else
      var k :| k in acc.Keys;
      [Hit(k, acc[k])] + Entries(acc - {k})
  }

  /** `Entries` lists every entry of the map exactly once. */
  lemma {:induction false} EntriesEnumerate(acc: map<nat, real>)
    ensures Enumerates(Entries(acc), acc)
    decreases acc.Keys
  {
    if acc.Keys == {} {
      assert Entries(acc) == [];
    } else {
      var k :| k in acc.Keys && Entries(acc) == [Hit(k, acc[k])] + Entries(acc - {k});
      EntriesEnumerate(acc - {k});
      EnumeratesPrepend(Entries(acc - {k}), acc - {k}, k, acc[k]);
      assert (acc - {k})[k := acc[k]] == acc;
    }
  }

  /** Sorting any listing of a score map yields a listing of the same map. */
  lemma SortEnumeration(xs: seq<Hit>, acc: map<nat, real>)
    requires Enumerates(xs, acc)
    ensures Enumerates(SortHits(xs), acc)
  {
    SortDistinctAscending(xs);
    var r := SortHits(xs);
    forall id | id in Ids(r) ensures id in Ids(xs) {
      var i :| 0 <= i < |r| && r[i].id == id;
      assert r[i] in xs;
    }
    forall id | id in Ids(xs) ensures id in Ids(r) {
      var i :| 0 <= i < |xs| && xs[i].id == id;
      assert xs[i] in r;
    }
    forall i | 0 <= i < |r| ensures r[i].id in acc && r[i].score == acc[r[i].id] {
      assert r[i] in xs;
    }
  }

  /** A score map has exactly one listing strictly ascending by id. */
  lemma AscendingEnumerationUnique(a: seq<Hit>, b: seq<Hit>, acc: map<nat, real>)
    requires Enumerates(a, acc) && Enumerates(b, acc)
    requires StrictlyAscending(a) && StrictlyAscending(b)
    ensures a == b
  {
    forall x | x in a ensures x in b {
      var i :| 0 <= i < |a| && a[i] == x;
      assert x.id in Ids(b);
      var j :| 0 <= j < |b| && b[j].id == x.id;
    }
    forall x | x in b ensures x in a {
      var i :| 0 <= i < |b| && b[i] == x;
      assert x.id in Ids(a);
      var j :| 0 <= j < |a| && a[j].id == x.id;
    }
    AscendingUnique(a, b);
  }
}
