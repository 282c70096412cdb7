/** Generic sequence vocabulary shared by the backend and the frontend models:
    duplicate-freedom, first-occurrence de-duplication (the iteration order of a
    JavaScript Set or a Python dict filled in sequence order), prefixes
    (`slice(0, n)`, `[:n]`) and the union of a list of groups. */
module Seqs {

  predicate Distinct<T(==)>(s: seq<T>) {
    forall i, j :: 0 <= i < j < |s| ==> s[i] != s[j]
  }

  /** `s.slice(0, n)`: the first n elements, or all of them when there are fewer. */
  function Take<T>(s: seq<T>, n: nat): (r: seq<T>)
    ensures |r| == if |s| <= n then |s| else n
    ensures r == s[..|r|]
  {
    if |s| <= n then s else s[..n]
  }

  /** The distinct elements of s, each at the position of its first occurrence. */
  function Uniq<T(==)>(s: seq<T>): (r: seq<T>)
    ensures Distinct(r)
    ensures forall i :: 0 <= i < |r| ==> r[i] in s
    ensures forall i :: 0 <= i < |s| ==> s[i] in r
    ensures |r| <= |s|
    decreases |s|
  {
    if s == [] then []
    else
      var u := Uniq(s[..|s| - 1]);
      if s[|s| - 1] in u then u else u + [s[|s| - 1]]
  }

  lemma UniqEmpty<T>()
    ensures Uniq<T>([]) == []
  {
  }

  /** Adding an element to the end of the input either leaves the de-duplicated
      sequence alone (the element was seen before) or appends it. */
  lemma UniqSnoc<T>(s: seq<T>, x: T)
    ensures Uniq(s + [x]) == if x in s then Uniq(s) else Uniq(s) + [x]
  {
    assert (s + [x])[..|s + [x]| - 1] == s;
  }

  /** Earlier input decides the order: the de-duplication of a prefix of the
      input is a prefix of the de-duplication of the whole input. */
  lemma {:induction false} UniqPrefix<T>(s: seq<T>, t: seq<T>)
    ensures Uniq(s) <= Uniq(s + t)
    decreases |t|
  {
    if t != [] {
      var t' := t[..|t| - 1];
      UniqPrefix(s, t');
      assert s + t == (s + t') + [t[|t| - 1]];
      UniqSnoc(s + t', t[|t| - 1]);
    } else {
      assert s + t == s;
    }
  }

  /** A duplicate-free sequence has the same elements as its de-duplication, in the same order. */
  lemma {:induction false} UniqOfDistinct<T>(s: seq<T>)
    requires Distinct(s)
    ensures Uniq(s) == s
    decreases |s|
  {
    if s != [] {
      var s' := s[..|s| - 1];
      UniqOfDistinct(s');
      assert s'[..] == s';
      assert s[|s| - 1] !in s';
      assert s' + [s[|s| - 1]] == s;
    }
  }

  /** `set.add(x)` on a set that remembers insertion order. */
  function AddNew<T(==)>(s: seq<T>, x: T): seq<T> {
    if x in s then s else s + [x]
  }

  /** Adding the elements of a sequence one by one to an insertion-ordered set
      builds its de-duplication. */
  lemma AddNewUniq<T>(s: seq<T>, x: T)
    ensures AddNew(Uniq(s), x) == Uniq(s + [x])
  {
    UniqSnoc(s, x);
  }

  /** Union of the elements of a list of groups (the entries already placed in
      some cluster). */
  ghost function Members<T>(cs: seq<seq<T>>): set<T>
    decreases |cs|
  {
    if cs == [] then {}
    else Members(cs[..|cs| - 1]) + Elements(cs[|cs| - 1])
  }

  /** The set of elements of a sequence: `set(s)`. */
  function Elements<T>(s: seq<T>): set<T> {
    set i | 0 <= i < |s| :: s[i]
  }

  /** `set.add(x)` on the set of a sequence. */
  lemma ElementsSnoc<T>(s: seq<T>, x: T)
    ensures Elements(s + [x]) == Elements(s) + {x}
  {
    ElementsIn(s);
    ElementsIn(s + [x]);
  }

  lemma ElementsIn<T>(s: seq<T>)
    ensures forall x :: x in Elements(s) <==> x in s
  {
    forall x | x in s ensures x in Elements(s) {
      var i :| 0 <= i < |s| && s[i] == x;
    }
  }

  lemma MembersSnoc<T>(cs: seq<seq<T>>, c: seq<T>)
    ensures forall x :: x in Members(cs + [c]) <==> x in Members(cs) || x in c
  {
    assert (cs + [c])[..|cs + [c]| - 1] == cs;
    ElementsIn(c);
  }

  /** x is in the union exactly when some group contains it. */
  lemma {:induction false} MembersAt<T>(cs: seq<seq<T>>, x: T)
    ensures x in Members(cs) <==> exists p :: 0 <= p < |cs| && x in cs[p]
    decreases |cs|
  {
    if cs != [] {
      var cs' := cs[..|cs| - 1];
      MembersAt(cs', x);
      if x in Members(cs') {
        var p :| 0 <= p < |cs'| && x in cs'[p];
        assert cs[p] == cs'[p];
      }
      if exists p :: 0 <= p < |cs| && x in cs[p] {
        var p :| 0 <= p < |cs| && x in cs[p];
        if p < |cs| - 1 { assert cs'[p] == cs[p]; }
      }
    }
  }

  /** No element is in two different groups. */
  predicate PairwiseDisjoint<T(==)>(cs: seq<seq<T>>) {
    forall p, q, x :: 0 <= p < q < |cs| && x in cs[p] ==> x !in cs[q]
  }

  /** Two equal elements at different positions contradict duplicate-freedom of
      anything with the same multiset. */
  lemma DistinctByMultiset<T>(a: seq<T>, b: seq<T>)
    requires multiset(a) == multiset(b) && Distinct(a)
    ensures Distinct(b)
  {
    forall i, j | 0 <= i < j < |b| ensures b[i] != b[j] {
      if b[i] == b[j] {
        TwiceInMultiset(b, i, j);
        CountedOnce(a, b[i]);
      }
    }
  }

  lemma TwiceInMultiset<T>(s: seq<T>, i: nat, j: nat)
    requires i < j < |s| && s[i] == s[j]
    ensures multiset(s)[s[i]] >= 2
  {
    var x := s[i];
    assert s == s[..j] + [s[j]] + s[j + 1..];
    assert x in s[..j];
    assert multiset(s) == multiset(s[..j]) + multiset{s[j]} + multiset(s[j + 1..]);
  }

  lemma {:induction false} CountedOnce<T>(s: seq<T>, x: T)
    requires Distinct(s)
    ensures multiset(s)[x] <= 1
    decreases |s|
  {
    if s != [] {
      var s' := s[..|s| - 1];
      CountedOnce(s', x);
      assert s == s' + [s[|s| - 1]];
      assert s[|s| - 1] in s' ==> false;
    }
  }

  /** A duplicate-free sequence of naturals below n has at most n elements. */
  lemma {:induction false} DistinctBounded(s: seq<nat>, n: nat)
    requires Distinct(s)
    requires forall i :: 0 <= i < |s| ==> s[i] < n
    ensures |s| <= n
    decreases n
  {
    if s != [] {
      assert s[0] < n;
      if m :| 0 <= m < |s| && s[m] == n - 1 {
        var s' := s[..m] + s[m + 1..];
        assert forall i :: 0 <= i < |s'| ==> s'[i] == (if i < m then s[i] else s[i + 1]);
        DistinctBounded(s', n - 1);
      } else {
        DistinctBounded(s, n - 1);
      }
    }
  }

  /** Replacing every group by a rearrangement of itself changes neither the
      union nor disjointness. */
  lemma GroupsPermuted<T>(a: seq<seq<T>>, b: seq<seq<T>>)
    requires |a| == |b|
    requires forall p :: 0 <= p < |a| ==> multiset(a[p]) == multiset(b[p])
    ensures Members(a) == Members(b)
    ensures PairwiseDisjoint(a) ==> PairwiseDisjoint(b)
  {
    forall p, x | 0 <= p < |a| ensures x in a[p] <==> x in b[p] {
      assert x in a[p] <==> x in multiset(a[p]);
      assert x in b[p] <==> x in multiset(b[p]);
    }
    forall x ensures x in Members(a) <==> x in Members(b) {
      MembersAt(a, x);
      MembersAt(b, x);
    }
  }

  /** Without duplicates, turning a list into a set loses nothing. */
  lemma {:induction false} DistinctElementsCount<T>(s: seq<T>)
    requires Distinct(s)
    ensures |Elements(s)| == |s|
    decreases |s|
  {
    if s != [] {
      var init := s[..|s| - 1];
      var x := s[|s| - 1];
      DistinctElementsCount(init);
      ElementsIn(init);
      ElementsIn(s);
      assert Elements(s) == Elements(init) + {x};
      assert x !in Elements(init);
    }
  }

  /** `s.filter(p)`: the elements satisfying p, in their order. */
  function Filter<T>(s: seq<T>, p: T -> bool): (r: seq<T>)
    ensures |r| <= |s|
    decreases |s|
  {
    if s == [] then []
    else
      var init := Filter(s[..|s| - 1], p);
      if p(s[|s| - 1]) then init + [s[|s| - 1]] else init
  }

  /** An element survives the filter exactly when it is in s and satisfies p. */
  lemma {:induction false} FilterMembers<T>(s: seq<T>, p: T -> bool, x: T)
    ensures x in Filter(s, p) <==> x in s && p(x)
    decreases |s|
  {
    if s != [] {
      var init := s[..|s| - 1];
      FilterMembers(init, p, x);
      assert s == init + [s[|s| - 1]];
    }
  }

  /** Filters that agree on the elements of s keep the same elements. */
  lemma {:induction false} FilterSame<T>(s: seq<T>, p: T -> bool, q: T -> bool)
    requires forall x :: x in s ==> p(x) == q(x)
    ensures Filter(s, p) == Filter(s, q)
    decreases |s|
  {
    if s != [] {
      FilterSame(s[..|s| - 1], p, q);
    }
  }

  /** `ss.flat()`: the groups one after the other. */
  function Flatten<T>(ss: seq<seq<T>>): (r: seq<T>)
    decreases |ss|
  {
    if ss == [] then [] else Flatten(ss[..|ss| - 1]) + ss[|ss| - 1]
  }

  /** x is in the concatenation exactly when some group holds it. */
  lemma {:induction false} FlattenMembers<T>(ss: seq<seq<T>>, x: T)
    ensures x in Flatten(ss) <==> exists i :: 0 <= i < |ss| && x in ss[i]
    decreases |ss|
  {
    if ss != [] {
      var init := ss[..|ss| - 1];
      FlattenMembers(init, x);
      if x in Flatten(init) {
        var i :| 0 <= i < |init| && x in init[i];
        assert ss[i] == init[i];
      }
      if exists i :: 0 <= i < |ss| && x in ss[i] {
        var i :| 0 <= i < |ss| && x in ss[i];
        if i < |ss| - 1 { assert init[i] == ss[i]; }
      }
    }
  }
}
