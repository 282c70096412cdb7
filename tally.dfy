/** Frequency tables: Python's `Counter(xs).most_common(k)` and the frontend's
    "count into a dictionary, sort the entries by count descending, keep the
    first k". Both list each distinct value once, in the order it was first
    seen, then sort stably by count. */
module Tally {
  import opened Seqs

  /** Each distinct value of s with its number of occurrences, in first-occurrence order. */
  function Counts<T(==)>(s: seq<T>): seq<(T, nat)> {
    var u := Uniq(s);
    seq(|u|, i requires 0 <= i < |u| => (u[i], multiset(s)[u[i]]))
  }

  function Keys<T>(r: seq<(T, nat)>): (ks: seq<T>)
    ensures |ks| == |r|
  {
    seq(|r|, i requires 0 <= i < |r| => r[i].0)
  }

  predicate SortedDesc<T>(r: seq<(T, nat)>) {
    forall i, j :: 0 <= i < j < |r| ==> r[i].1 >= r[j].1
  }

  /** Insert p in front of the first element whose count is not larger: a stable
      insertion for a descending order. */
  function InsertDesc<T>(p: (T, nat), s: seq<(T, nat)>): (r: seq<(T, nat)>)
    requires SortedDesc(s)
    ensures SortedDesc(r)
    ensures |r| == |s| + 1
    ensures forall i :: 0 <= i < |r| ==> r[i] == p || r[i].1 <= (if s == [] then p else s[0]).1
    decreases |s|
  {
    if s == [] then [p]
    else if p.1 >= s[0].1 then [p] + s
    else [s[0]] + InsertDesc(p, s[1..])
  }

  /** Inserting adds exactly the one pair. */
  lemma {:induction false} InsertDescPermutes<T>(p: (T, nat), s: seq<(T, nat)>)
    requires SortedDesc(s)
    ensures multiset(InsertDesc(p, s)) == multiset(s) + multiset{p}
    decreases |s|
  {
    if s != [] && p.1 < s[0].1 {
      InsertDescPermutes(p, s[1..]);
      assert s == [s[0]] + s[1..];
    }
  }

  /** A stable sort by count, largest first. */
  function SortDesc<T>(s: seq<(T, nat)>): (r: seq<(T, nat)>)
    ensures SortedDesc(r)
    ensures multiset(r) == multiset(s)
    ensures |r| == |s|
    decreases |s|
  {
    if s == [] then []
    else
      assert s == [s[0]] + s[1..];
      InsertDescPermutes(s[0], SortDesc(s[1..]));
      InsertDesc(s[0], SortDesc(s[1..]))
  }

  /** The k most frequent values with their counts. */
  function TopCounts<T(==)>(s: seq<T>, k: nat): seq<(T, nat)> {
    Take(SortDesc(Counts(s)), k)
  }

  /** A dictionary filled in sequence order, with its keys in insertion order,
      that holds the number of occurrences of every value of s. */
  predicate Tabulates<T(==)>(keys: seq<T>, counts: map<T, nat>, s: seq<T>) {
    && keys == Uniq(s)
    && counts.Keys == Elements(keys)
    && (forall x :: x in counts ==> counts[x] == multiset(s)[x])
  }

  /** The empty dictionary tabulates the empty sequence. */
  lemma TabulatesEmpty<T>()
    ensures Tabulates<T>([], map[], [])
  {
  }

  /** `counts[x] = (counts[x] || 0) + 1`: a new key goes to the end of the
      insertion order. */
  function Bump<T(==)>(keys: seq<T>, counts: map<T, nat>, x: T): (seq<T>, map<T, nat>) {
    if x in counts then (keys, counts[x := counts[x] + 1])
    else (keys + [x], counts[x := 1])
  }

  /** One more occurrence keeps the dictionary up to date. */
  lemma BumpTabulates<T>(keys: seq<T>, counts: map<T, nat>, s: seq<T>, x: T)
    requires Tabulates(keys, counts, s)
    ensures Tabulates(Bump(keys, counts, x).0, Bump(keys, counts, x).1, s + [x])
  {
    KeysAreSeen(keys, counts, s);
    BumpKeys(keys, counts, s, x);
    BumpCounts(counts, s, x);
  }

  /** The keys of an up-to-date dictionary are the values seen so far. */
  lemma KeysAreSeen<T>(keys: seq<T>, counts: map<T, nat>, s: seq<T>)
    requires keys == Uniq(s) && counts.Keys == Elements(keys)
    ensures forall y :: y in counts <==> y in s
  {
    ElementsIn(keys);
  }

  /** The insertion order and the key set after one more occurrence. */
  lemma BumpKeys<T>(keys: seq<T>, counts: map<T, nat>, s: seq<T>, x: T)
    requires keys == Uniq(s) && counts.Keys == Elements(keys)
    requires forall y :: y in counts <==> y in s
    ensures Bump(keys, counts, x).0 == Uniq(s + [x])
    ensures Bump(keys, counts, x).1.Keys == Elements(Bump(keys, counts, x).0)
  {
    hide Uniq, Elements;
    UniqSnoc(s, x);
    if x in counts {
      assert x in s;
      var m := counts[x := counts[x] + 1];
      assert m.Keys == counts.Keys;
      assert Bump(keys, counts, x) == (keys, m);
    } else {
      assert x !in s;
      var m := counts[x := 1];
      ElementsSnoc(keys, x);
      assert m.Keys == counts.Keys + {x};
      assert Bump(keys, counts, x) == (keys + [x], m);
    }
  }

  /** The counts after one more occurrence. */
  lemma BumpCounts<T>(counts: map<T, nat>, s: seq<T>, x: T)
    requires forall y :: y in counts <==> y in s
    requires forall y :: y in counts ==> counts[y] == multiset(s)[y]
    ensures forall y :: y in Bump([], counts, x).1 ==> Bump([], counts, x).1[y] == multiset(s + [x])[y]
  {
    assert multiset(s + [x]) == multiset(s) + multiset{x};
  }

  /** `Object.entries(counts)`: the pairs in key insertion order. */
  function Pairs<T>(keys: seq<T>, counts: map<T, nat>): (r: seq<(T, nat)>)
    requires forall i :: 0 <= i < |keys| ==> keys[i] in counts
    ensures |r| == |keys|
  {
    seq(|keys|, i requires 0 <= i < |keys| => (keys[i], counts[keys[i]]))
  }

  /** The pairs of an up-to-date dictionary are the frequency table. */
  lemma PairsAreCounts<T>(keys: seq<T>, counts: map<T, nat>, s: seq<T>)
    requires Tabulates(keys, counts, s)
    ensures forall i :: 0 <= i < |keys| ==> keys[i] in counts
    ensures Pairs(keys, counts) == Counts(s)
  {
    ElementsIn(keys);
  }

  /** No value is listed twice in the frequency table, and every listed count is
      the value's true number of occurrences. */
  lemma CountsFacts<T>(s: seq<T>)
    ensures Distinct(Counts(s))
    ensures Keys(Counts(s)) == Uniq(s)
    ensures forall i :: 0 <= i < |Counts(s)| ==> Counts(s)[i].0 in s && Counts(s)[i].1 == multiset(s)[Counts(s)[i].0]
  {
    var c := Counts(s);
    var u := Uniq(s);
    assert forall i, j :: 0 <= i < j < |c| ==> c[i].0 == u[i] && c[j].0 == u[j];
  }

  /** The sorted table still lists each value once, with its true count. */
  lemma SortedCountsFacts<T>(s: seq<T>)
    ensures var sorted := SortDesc(Counts(s));
      && Distinct(Keys(sorted))
      && (forall i :: 0 <= i < |sorted| ==> sorted[i].0 in s && sorted[i].1 == multiset(s)[sorted[i].0])
      && (forall x :: x in s ==> exists q :: 0 <= q < |sorted| && sorted[q] == (x, multiset(s)[x]))
  {
    var c := Counts(s);
    var sorted := SortDesc(c);
    CountsFacts(s);
    forall i | 0 <= i < |sorted|
      ensures sorted[i].0 in s && sorted[i].1 == multiset(s)[sorted[i].0]
    {
      assert sorted[i] in multiset(c);
    }
    DistinctByMultiset(c, sorted);
    forall i, j | 0 <= i < j < |sorted| ensures Keys(sorted)[i] != Keys(sorted)[j] {
      assert sorted[i] != sorted[j];
    }
    forall x | x in s ensures exists q :: 0 <= q < |sorted| && sorted[q] == (x, multiset(s)[x]) {
      assert x in Keys(c);
      var p :| 0 <= p < |c| && c[p].0 == x;
      assert c[p] in multiset(sorted);
    }
  }

  /** No value left out of the top k occurs more often than one that was kept,
      and values are only left out when k pairs were kept. */
  lemma TopCountsComplete<T>(s: seq<T>, k: nat, x: T)
    requires x in s && x !in Keys(TopCounts(s, k))
    ensures |TopCounts(s, k)| == k
    ensures forall i :: 0 <= i < |TopCounts(s, k)| ==> multiset(s)[x] <= TopCounts(s, k)[i].1
  {
    var sorted := SortDesc(Counts(s));
    var r := TopCounts(s, k);
    SortedCountsFacts(s);
    var q :| 0 <= q < |sorted| && sorted[q] == (x, multiset(s)[x]);
    forall j | 0 <= j < |r| ensures sorted[j].0 != x {
      assert Keys(r)[j] == sorted[j].0;
    }
    assert sorted[q].0 == x;
    assert q >= |r|;
    forall i | 0 <= i < |r| ensures multiset(s)[x] <= r[i].1 {
      assert r[i] == sorted[i];
    }
  }

  lemma TopCountsShape<T>(s: seq<T>, k: nat)
    ensures |TopCounts(s, k)| == (if |Uniq(s)| <= k then |Uniq(s)| else k)
    ensures SortedDesc(TopCounts(s, k))
  {
    CountsFacts(s);
  }

  lemma TopCountsTrue<T>(s: seq<T>, k: nat)
    ensures Distinct(Keys(TopCounts(s, k)))
    ensures forall i :: 0 <= i < |TopCounts(s, k)| ==>
      TopCounts(s, k)[i].0 in s && TopCounts(s, k)[i].1 == multiset(s)[TopCounts(s, k)[i].0]
  {
    var sorted := SortDesc(Counts(s));
    var r := TopCounts(s, k);
    SortedCountsFacts(s);
    forall i, j | 0 <= i < j < |r| ensures Keys(r)[i] != Keys(r)[j] {
      assert r[i] == sorted[i] && r[j] == sorted[j];
      assert Keys(sorted)[i] != Keys(sorted)[j];
    }
    forall i | 0 <= i < |r| ensures r[i].0 in s && r[i].1 == multiset(s)[r[i].0] {
      assert r[i] == sorted[i];
    }
  }

  /** What `most_common(k)` promises: at most k pairs, largest count first, each
      value once with its true count, and no value left out occurs more often
      than one that was kept. */
  lemma TopCountsSpec<T>(s: seq<T>, k: nat)
    ensures |TopCounts(s, k)| == (if |Uniq(s)| <= k then |Uniq(s)| else k)
    ensures SortedDesc(TopCounts(s, k))
    ensures Distinct(Keys(TopCounts(s, k)))
    ensures forall i :: 0 <= i < |TopCounts(s, k)| ==>
      TopCounts(s, k)[i].0 in s && TopCounts(s, k)[i].1 == multiset(s)[TopCounts(s, k)[i].0]
    ensures forall x :: x in s && x !in Keys(TopCounts(s, k)) ==>
      |TopCounts(s, k)| == k && forall i :: 0 <= i < |TopCounts(s, k)| ==> multiset(s)[x] <= TopCounts(s, k)[i].1
  {
    TopCountsShape(s, k);
    TopCountsTrue(s, k);
    forall x | x in s && x !in Keys(TopCounts(s, k))
      ensures |TopCounts(s, k)| == k && forall i :: 0 <= i < |TopCounts(s, k)| ==> multiset(s)[x] <= TopCounts(s, k)[i].1
    {
      TopCountsComplete(s, k, x);
    }
  }
}
