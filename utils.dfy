/** The frontend's small helpers: rendering a duration and an age, grouping a
    list by a key, the cosine similarity of two embeddings and the
    productivity heuristic of the dashboard. */
module Utils {
  import opened Seqs
  import opened Text
  import opened Records

  // ---------------------------------------------------------------------
  // formatDuration

  /** JavaScript's `%`: the remainder takes the sign of the dividend. */
  function JsRem(a: int, b: int): (r: int)
    requires b > 0
    ensures a >= 0 ==> 0 <= r < b && r == a % b
    ensures a < 0 ==> -b < r <= 0
  {
    if a >= 0 then a % b else -((-a) % b)
  }

  /** The three numbers `formatDuration` prints: `Math.floor(seconds / 3600)`,
      `Math.floor((seconds % 3600) / 60)` and `seconds % 60`. */
  function DurationParts(seconds: int): (int, int, int) {
    (seconds / 3600, JsRem(seconds, 3600) / 60, JsRem(seconds, 60))
  }

  function FormatDuration(seconds: int): string {
    var (hours, minutes, secs) := DurationParts(seconds);
    var tail := IntToString(secs) + "s";
    if hours > 0 then IntToString(hours) + "h " + (IntToString(minutes) + "m " + tail)
    else if minutes > 0 then IntToString(minutes) + "m " + tail
    else tail
  }

  /** For a non-negative number of seconds the parts are hours, minutes below
      60 and seconds below 60 that add up to the input. */
  lemma DurationPartsSpec(seconds: int)
    requires seconds >= 0
    ensures var (h, m, s) := DurationParts(seconds);
      && h >= 0 && 0 <= m < 60 && 0 <= s < 60
      && h * 3600 + m * 60 + s == seconds
  {
    var (h, m, s) := DurationParts(seconds);
    var r := seconds % 3600;
    assert seconds == h * 3600 + r;
    assert r == m * 60 + r % 60;
    assert seconds % 60 == r % 60 by {
      assert seconds == (h * 60) * 60 + r;
    }
  }

  /** The rendering leaves out the hours when there are none, and the minutes
      too when both are zero. */
  lemma FormatDurationShape(seconds: int)
    requires seconds >= 0
    ensures var (h, m, s) := DurationParts(seconds);
      && (h > 0 ==> FormatDuration(seconds) == NatToString(h) + "h " + (NatToString(m) + "m " + (NatToString(s) + "s")))
      && (h == 0 && m > 0 ==> FormatDuration(seconds) == NatToString(m) + "m " + (NatToString(s) + "s"))
      && (h == 0 && m == 0 ==> FormatDuration(seconds) == NatToString(s) + "s" && s == seconds)
  {
    DurationPartsSpec(seconds);
    var (h, m, s) := DurationParts(seconds);
    IntToStringSign(h);
    IntToStringSign(m);
    IntToStringSign(s);
  }

  /** The seconds a unit letter stands for; 0 for any other character. */
  function UnitSeconds(c: char): int {
    if c == 'h' then 3600 else if c == 'm' then 60 else if c == 's' then 1 else 0
  }

  function AddTo(x: int, o: Option<int>): Option<int> {
    match o
    case None => None
    case Some(v) => Some(x + v)
  }

  /** Reads back a rendered duration: numbers each followed by a unit `h`, `m`
      or `s`, separated by single spaces, added up in seconds. */
  function ParseDuration(s: string): Option<int>
    decreases |s|
  {
    var k := DigitRun(s);
    if k == 0 || k == |s| || UnitSeconds(s[k]) == 0 then None
    else
      var value := ParseDigits(s[..k]) * UnitSeconds(s[k]);
      if k + 1 == |s| then Some(value)
      else if s[k + 1] != ' ' then None
      else AddTo(value, ParseDuration(s[k + 2..]))
  }

  /** The last number of a rendering, with its unit. */
  lemma ParseLast(n: nat, u: char)
    requires UnitSeconds(u) != 0
    ensures ParseDuration(NatToString(n) + [u]) == Some(n * UnitSeconds(u))
  {
    var d := NatToString(n);
    var s := d + [u];
    DigitRunOfRendering(n, [u]);
    ParseNatToString(n);
    hide NatToString, DigitRun, ParseDigits;
    assert s[..|d|] == d;
  }

  /** A number with its unit and a space in front of the rest of a rendering. */
  lemma ParseFront(n: nat, u: char, tail: string)
    requires UnitSeconds(u) != 0
    ensures ParseDuration(NatToString(n) + [u, ' '] + tail) == AddTo(n * UnitSeconds(u), ParseDuration(tail))
  {
    var d := NatToString(n);
    var s := d + [u, ' '] + tail;
    assert s == d + ([u, ' '] + tail);
    DigitRunOfRendering(n, [u, ' '] + tail);
    ParseNatToString(n);
    hide NatToString, DigitRun, ParseDigits;
    assert s[..|d|] == d;
    assert s[|d|] == u && s[|d| + 1] == ' ';
    assert s[|d| + 2..] == tail;
  }

  /** Reading the rendering of a duration gives the number of seconds back. */
  lemma ParseFormatDuration(seconds: int)
    requires seconds >= 0
    ensures ParseDuration(FormatDuration(seconds)) == Some(seconds)
  {
    hide FormatDuration, ParseDuration, NatToString, DigitRun, ParseDigits;
    FormatDurationShape(seconds);
    DurationPartsSpec(seconds);
    var (h, m, s) := DurationParts(seconds);
    if h > 0 {
      ParseHours(h, m, s);
    } else if m > 0 {
      ParseMinutes(m, s);
    } else {
      ParseSeconds(s);
    }
  }

  lemma ParseSeconds(s: nat)
    ensures ParseDuration(NatToString(s) + "s") == Some(s)
  {
    hide ParseDuration, NatToString, DigitRun, ParseDigits;
    ParseLast(s, 's');
    UnitValue(s, 's', 1);
  }

  lemma ParseMinutes(m: nat, s: nat)
    ensures ParseDuration(NatToString(m) + "m " + (NatToString(s) + "s")) == Some(m * 60 + s)
  {
    hide ParseDuration, NatToString, DigitRun, ParseDigits;
    ParseSeconds(s);
    ParseFront(m, 'm', NatToString(s) + "s");
    UnitValue(m, 'm', 60);
  }

  lemma ParseHours(h: nat, m: nat, s: nat)
    ensures ParseDuration(NatToString(h) + "h " + (NatToString(m) + "m " + (NatToString(s) + "s"))) == Some(h * 3600 + m * 60 + s)
  {
    hide ParseDuration, NatToString, DigitRun, ParseDigits;
    ParseMinutes(m, s);
    ParseFront(h, 'h', NatToString(m) + "m " + (NatToString(s) + "s"));
    UnitValue(h, 'h', 3600);
  }

  lemma UnitValue(n: nat, u: char, unit: int)
    requires UnitSeconds(u) == unit
    ensures n * UnitSeconds(u) == n * unit
  {
  }

  // ---------------------------------------------------------------------
  // getTimeAgo

  /** `getTimeAgo` with `Date.now() / 1000` passed in as `now`. */
  function TimeAgo(timestamp: real, now: real): string {
    var diff := now - timestamp;
    if diff < 60.0 then "just now"
    else if diff < 3600.0 then IntToString((diff / 60.0).Floor) + "m ago"
    else if diff < 86400.0 then IntToString((diff / 3600.0).Floor) + "h ago"
    else IntToString((diff / 86400.0).Floor) + "d ago"
  }

  /** Which of the four forms is chosen, and the whole number it shows: the
      elapsed minutes (1 to 59), hours (1 to 23) or days (at least 1), rounded
      down. */
  lemma TimeAgoSpec(timestamp: real, now: real)
    ensures var diff := now - timestamp;
      var r := TimeAgo(timestamp, now);
      && (diff < 60.0 <==> r == "just now")
      && (60.0 <= diff < 3600.0 ==>
            var n := (diff / 60.0).Floor;
            1 <= n < 60 && n as real * 60.0 <= diff < (n + 1) as real * 60.0 && r == NatToString(n) + "m ago")
      && (3600.0 <= diff < 86400.0 ==>
            var n := (diff / 3600.0).Floor;
            1 <= n < 24 && n as real * 3600.0 <= diff < (n + 1) as real * 3600.0 && r == NatToString(n) + "h ago")
      && (86400.0 <= diff ==>
            var n := (diff / 86400.0).Floor;
            1 <= n && n as real * 86400.0 <= diff < (n + 1) as real * 86400.0 && r == NatToString(n) + "d ago")
  {
    hide NatToString, IntToString;
    var diff := now - timestamp;
    if 60.0 <= diff < 3600.0 {
      WholeMinutes(diff);
      Rendered((diff / 60.0).Floor, "m ago");
    } else if 3600.0 <= diff < 86400.0 {
      WholeHours(diff);
      Rendered((diff / 3600.0).Floor, "h ago");
    } else if 86400.0 <= diff {
      WholeDays(diff);
      Rendered((diff / 86400.0).Floor, "d ago");
    }
  }

  lemma WholeMinutes(diff: real)
    requires 60.0 <= diff < 3600.0
    ensures var n := (diff / 60.0).Floor; 1 <= n < 60 && n as real * 60.0 <= diff < (n + 1) as real * 60.0
  {
  }

  lemma WholeHours(diff: real)
    requires 3600.0 <= diff < 86400.0
    ensures var n := (diff / 3600.0).Floor; 1 <= n < 24 && n as real * 3600.0 <= diff < (n + 1) as real * 3600.0
  {
  }

  lemma WholeDays(diff: real)
    requires 86400.0 <= diff
    ensures var n := (diff / 86400.0).Floor; 1 <= n && n as real * 86400.0 <= diff < (n + 1) as real * 86400.0
  {
  }

  /** A positive count is printed without a sign, and its rendering starts
      with a digit. */
  lemma Rendered(n: int, suffix: string)
    requires n >= 1
    ensures IntToString(n) + suffix == NatToString(n) + suffix
    ensures IntToString(n) + suffix != "just now"
  {
    IntToStringSign(n);
    assert IsDigit((NatToString(n) + suffix)[0]);
  }

  // ---------------------------------------------------------------------
  // groupBy

  /** The items whose key is k, in input order. */
  function Select<T, K(==)>(items: seq<T>, key: T -> K, k: K): (r: seq<T>)
    ensures |r| <= |items|
    decreases |items|
  {
    if items == [] then []
    else
      var init := Select(items[..|items| - 1], key, k);
      var x := items[|items| - 1];
      if key(x) == k then init + [x] else init
  }

  /** The keys of the items in input order, repeats included. */
  function KeysOf<T, K>(items: seq<T>, key: T -> K): (r: seq<K>)
    ensures |r| == |items|
    ensures forall i :: 0 <= i < |items| ==> r[i] == key(items[i])
  {
    seq(|items|, i requires 0 <= i < |items| => key(items[i]))
  }

  /** The dictionary `groupBy` has built from the items seen so far: its keys
      are their distinct keys in first-seen order and each group lists the
      items of its key in input order. */
  predicate Grouped<T(==), K(==)>(keys: seq<K>, groups: map<K, seq<T>>, items: seq<T>, key: T -> K) {
    && keys == Uniq(KeysOf(items, key))
    && groups.Keys == Elements(keys)
    && (forall k :: k in groups ==> groups[k] == Select(items, key, k))
  }

  /** `groupBy(array, keyFn)`: the `reduce` that creates a group for an unseen
      key and pushes every item onto the group of its key. The keys are
      returned in the order the dictionary first saw them. */
  method GroupBy<T(==), K(==)>(items: seq<T>, key: T -> K) returns (keys: seq<K>, groups: map<K, seq<T>>)
    ensures Grouped(keys, groups, items, key)
  {
    keys, groups := [], map[];
    var i := 0;
    while i < |items|
      invariant 0 <= i <= |items|
      invariant Grouped(keys, groups, items[..i], key)
    {
      var x := items[i];
      var k := key(x);
      GroupStep(keys, groups, items, key, i);
      if k !in groups {
        keys, groups := keys + [k], groups[k := []];
      }
      groups := groups[k := groups[k] + [x]];
      i := i + 1;
    }
    assert items[..i] == items;
  }

  /** One item of the `reduce`. */
  lemma GroupStep<T, K>(keys: seq<K>, groups: map<K, seq<T>>, items: seq<T>, key: T -> K, i: nat)
    requires i < |items| && Grouped(keys, groups, items[..i], key)
    ensures var x := items[i];
      var k := key(x);
      var keys1 := if k in groups then keys else keys + [k];
      var groups0 := if k in groups then groups else groups[k := []];
      Grouped(keys1, groups0[k := groups0[k] + [x]], items[..i + 1], key)
  {
    hide Uniq, Select, KeysOf;
    var x := items[i];
    var k := key(x);
    var pre := items[..i];
    var post := items[..i + 1];
    assert post == pre + [x];
    KeysOfSnoc(pre, key, x);
    UniqSnoc(KeysOf(pre, key), k);
    ElementsIn(keys);
    assert k in groups <==> k in KeysOf(pre, key);
    var keys1 := if k in groups then keys else keys + [k];
    var groups0 := if k in groups then groups else groups[k := []];
    var groups1 := groups0[k := groups0[k] + [x]];
    ElementsIn(keys1);
    assert keys1 == Uniq(KeysOf(post, key));
    forall j ensures j in groups1.Keys <==> j in Elements(keys1) {
      assert j in keys1 <==> j in keys || j == k;
    }
    assert groups1.Keys == Elements(keys1);
    forall j | j in groups1 ensures groups1[j] == Select(post, key, j) {
      SelectSnoc(pre, key, j, x);
      if j == k && k !in groups {
        SelectAbsent(pre, key, k);
      }
    }
  }

  lemma KeysOfSnoc<T, K>(items: seq<T>, key: T -> K, x: T)
    ensures KeysOf(items + [x], key) == KeysOf(items, key) + [key(x)]
  {
  }

  lemma SelectSnoc<T, K>(items: seq<T>, key: T -> K, k: K, x: T)
    ensures Select(items + [x], key, k) == if key(x) == k then Select(items, key, k) + [x] else Select(items, key, k)
  {
    assert (items + [x])[..|items + [x]| - 1] == items;
  }

  /** A key no item has selects nothing. */
  lemma {:induction false} SelectAbsent<T, K>(items: seq<T>, key: T -> K, k: K)
    requires k !in KeysOf(items, key)
    ensures Select(items, key, k) == []
    decreases |items|
  {
    if items != [] {
      var init := items[..|items| - 1];
      assert forall i :: 0 <= i < |init| ==> KeysOf(init, key)[i] == KeysOf(items, key)[i];
      assert k !in KeysOf(init, key);
      SelectAbsent(init, key, k);
      assert KeysOf(items, key)[|items| - 1] == key(items[|items| - 1]);
    }
  }

  /** Every item is in the group of its own key, and a group holds only items
      of its key. */
  lemma {:induction false} SelectMembers<T, K>(items: seq<T>, key: T -> K, k: K, x: T)
    ensures x in Select(items, key, k) <==> x in items && key(x) == k
    decreases |items|
  {
    if items != [] {
      var init := items[..|items| - 1];
      SelectMembers(init, key, k, x);
      assert items == init + [items[|items| - 1]];
    }
  }

  /** The items of the groups of a list of keys, counted with repetition. */
  ghost function GroupedItems<T, K>(items: seq<T>, key: T -> K, ks: seq<K>): multiset<T>
    decreases |ks|
  {
    if ks == [] then multiset{}
    else GroupedItems(items, key, ks[..|ks| - 1]) + multiset(Select(items, key, ks[|ks| - 1]))
  }

  lemma {:induction false} GroupedItemsOfNothing<T, K>(key: T -> K, ks: seq<K>)
    ensures GroupedItems([], key, ks) == multiset{}
    decreases |ks|
  {
    if ks != [] {
      GroupedItemsOfNothing(key, ks[..|ks| - 1]);
    }
  }

  /** Appending an item changes only the group of its key. */
  lemma {:induction false} GroupedItemsSnoc<T, K>(items: seq<T>, key: T -> K, ks: seq<K>, x: T)
    requires Distinct(ks)
    ensures GroupedItems(items + [x], key, ks) ==
      GroupedItems(items, key, ks) + (if key(x) in ks then multiset{x} else multiset{})
    decreases |ks|
  {
    if ks != [] {
      var init := ks[..|ks| - 1];
      var k := ks[|ks| - 1];
      assert Distinct(init);
      GroupedItemsSnoc(items, key, init, x);
      assert (items + [x])[..|items + [x]| - 1] == items;
      assert key(x) in ks <==> key(x) in init || key(x) == k;
      if key(x) == k {
        assert key(x) !in init;
      }
    }
  }

  /** The groups of the distinct keys that `groupBy` gathers hold exactly the
      input items: nothing is lost or duplicated. */
  lemma {:induction false} GroupsPartition<T, K>(items: seq<T>, key: T -> K, ks: seq<K>)
    requires Distinct(ks)
    requires forall i :: 0 <= i < |items| ==> key(items[i]) in ks
    ensures GroupedItems(items, key, ks) == multiset(items)
    decreases |items|
  {
    if items == [] {
      GroupedItemsOfNothing(key, ks);
    } else {
      var init := items[..|items| - 1];
      var x := items[|items| - 1];
      assert items == init + [x];
      assert forall i :: 0 <= i < |init| ==> init[i] == items[i];
      GroupsPartition(init, key, ks);
      GroupedItemsSnoc(init, key, ks, x);
    }
  }

  /** What the dictionary returned by `groupBy` holds: one group per key that
      occurs, each item in the group of its key, and all groups together the
      input items. */
  lemma GroupByFacts<T, K>(keys: seq<K>, groups: map<K, seq<T>>, items: seq<T>, key: T -> K)
    requires Grouped(keys, groups, items, key)
    ensures Distinct(keys)
    ensures forall k :: k in groups <==> exists i :: 0 <= i < |items| && key(items[i]) == k
    ensures forall i :: 0 <= i < |items| ==> key(items[i]) in groups && items[i] in groups[key(items[i])]
    ensures forall k, x :: k in groups && x in groups[k] ==> x in items && key(x) == k
    ensures GroupedItems(items, key, keys) == multiset(items)
  {
    hide Uniq, Select, KeysOf, Elements, GroupedItems;
    ElementsIn(keys);
    var ks := KeysOf(items, key);
    forall k ensures k in groups <==> exists i :: 0 <= i < |items| && key(items[i]) == k {
      if k in groups {
        assert k in ks;
        var i :| 0 <= i < |ks| && ks[i] == k;
      }
    }
    forall i | 0 <= i < |items| ensures key(items[i]) in groups && items[i] in groups[key(items[i])] {
      assert ks[i] in ks;
      SelectMembers(items, key, key(items[i]), items[i]);
    }
    forall k, x | k in groups && x in groups[k] ensures x in items && key(x) == k {
      SelectMembers(items, key, k, x);
    }
    GroupsPartition(items, key, keys);
  }

  // ---------------------------------------------------------------------
  // cosineSimilarity

  /** The dot product of two vectors of the same length. */
  function Dot(a: seq<real>, b: seq<real>): real
    requires |a| == |b|
    decreases |a|
  {
    if a == [] then 0.0 else Dot(a[..|a| - 1], b[..|b| - 1]) + Mul(a[|a| - 1], b[|b| - 1])
  }

  /** The product of two coordinates, kept behind a name so that proofs about
      signs stay linear. */
  function Mul(x: real, y: real): (r: real)
    ensures x > 0.0 && y > 0.0 ==> r > 0.0
    ensures x < 0.0 && y < 0.0 ==> r > 0.0
    ensures x == 0.0 || y == 0.0 ==> r == 0.0
  {
    x * y
  }

  /** `cosineSimilarity(a, b)` with `Math.sqrt` passed in as `root`: 0 for
      vectors of different length or with a zero norm, else the dot product
      over the product of the norms. */
  function Similarity(a: seq<real>, b: seq<real>, root: real -> real): real
    requires forall x :: x > 0.0 ==> root(x) > 0.0
  {
    if |a| != |b| then 0.0
    else
      var normA := Dot(a, a);
      var normB := Dot(b, b);
      SquaresNonNegative(a);
      SquaresNonNegative(b);
      if normA == 0.0 || normB == 0.0 then 0.0
      else Dot(a, b) / NormProduct(normA, normB, root)
  }

  /** `Math.sqrt(normA) * Math.sqrt(normB)`, positive for positive norms. */
  function NormProduct(normA: real, normB: real, root: real -> real): (d: real)
    requires forall x :: x > 0.0 ==> root(x) > 0.0
    requires normA > 0.0 && normB > 0.0
    ensures d > 0.0
  {
    root(normA) * root(normB)
  }

  /** The loop that accumulates the dot product and both squared norms. */
  method CosineSimilarity(a: seq<real>, b: seq<real>, root: real -> real) returns (r: real)
    requires forall x :: x > 0.0 ==> root(x) > 0.0
    ensures r == Similarity(a, b, root)
  {
    if |a| != |b| {
      assert Similarity(a, b, root) == 0.0;
      return 0.0;
    }
    var dotProduct, normA, normB := 0.0, 0.0, 0.0;
    for i := 0 to |a|
      invariant dotProduct == Dot(a[..i], b[..i])
      invariant normA == Dot(a[..i], a[..i])
      invariant normB == Dot(b[..i], b[..i])
    {
      assert a[..i + 1][..i] == a[..i];
      assert b[..i + 1][..i] == b[..i];
      dotProduct := dotProduct + a[i] * b[i];
      normA := normA + a[i] * a[i];
      normB := normB + b[i] * b[i];
    }
    assert a[..|a|] == a && b[..|b|] == b;
    assert dotProduct == Dot(a, b) && normA == Dot(a, a) && normB == Dot(b, b);
    SquaresNonNegative(a);
    SquaresNonNegative(b);
    if normA == 0.0 || normB == 0.0 {
      assert Similarity(a, b, root) == 0.0;
      return 0.0;
    }
    r := dotProduct / NormProduct(normA, normB, root);
  }

  lemma {:induction false} SquaresNonNegative(a: seq<real>)
    ensures Dot(a, a) >= 0.0
    decreases |a|
  {
    if a != [] {
      hide Mul;
      SquaresNonNegative(a[..|a| - 1]);
    }
  }

  /** The squared norm is zero exactly for the zero vector. */
  lemma NormZero(a: seq<real>)
    ensures Dot(a, a) == 0.0 <==> forall i :: 0 <= i < |a| ==> a[i] == 0.0
  {
    if forall i :: 0 <= i < |a| ==> a[i] == 0.0 {
      ZeroNorm(a);
    } else {
      var i :| 0 <= i < |a| && a[i] != 0.0;
      NormPositive(a, i);
    }
  }

  lemma {:induction false} ZeroNorm(a: seq<real>)
    requires forall i :: 0 <= i < |a| ==> a[i] == 0.0
    ensures Dot(a, a) == 0.0
    decreases |a|
  {
    if a != [] {
      ZeroNorm(a[..|a| - 1]);
      assert a[|a| - 1] == 0.0;
    }
  }

  lemma {:induction false} NormPositive(a: seq<real>, i: nat)
    requires i < |a| && a[i] != 0.0
    ensures Dot(a, a) > 0.0
    decreases |a|
  {
    var init := a[..|a| - 1];
    var x := a[|a| - 1];
    hide Mul;
    SquaresNonNegative(init);
    assert Dot(a, a) == Dot(init, init) + Mul(x, x);
    if i < |a| - 1 {
      assert init[i] == a[i];
      NormPositive(init, i);
    } else {
      assert x != 0.0;
    }
  }

  lemma {:induction false} DotSymmetric(a: seq<real>, b: seq<real>)
    requires |a| == |b|
    ensures Dot(a, b) == Dot(b, a)
    decreases |a|
  {
    if a != [] {
      DotSymmetric(a[..|a| - 1], b[..|b| - 1]);
    }
  }

  /** The guards: different lengths or a zero vector give 0, and the
      similarity does not depend on the order of its arguments. */
  lemma SimilarityFacts(a: seq<real>, b: seq<real>, root: real -> real)
    requires forall x :: x > 0.0 ==> root(x) > 0.0
    ensures |a| != |b| ==> Similarity(a, b, root) == 0.0
    ensures (forall i :: 0 <= i < |a| ==> a[i] == 0.0) ==> Similarity(a, b, root) == 0.0
    ensures (forall i :: 0 <= i < |b| ==> b[i] == 0.0) ==> Similarity(a, b, root) == 0.0
    ensures Similarity(a, b, root) == Similarity(b, a, root)
  {
    NormZero(a);
    NormZero(b);
    if |a| == |b| {
      DotSymmetric(a, b);
      SquaresNonNegative(a);
      SquaresNonNegative(b);
      if Dot(a, a) != 0.0 && Dot(b, b) != 0.0 {
        assert NormProduct(Dot(a, a), Dot(b, b), root) == NormProduct(Dot(b, b), Dot(a, a), root);
      }
    }
  }

  // ---------------------------------------------------------------------
  // calculateProductivityScore

  /** The number of entries whose lower-cased app contains one of the keywords. */
  function CountApps(entries: seq<Entry>, keywords: seq<string>): (n: nat)
    ensures n <= |entries|
    decreases |entries|
  {
    if entries == [] then 0
    else
      var e := entries[|entries| - 1];
      CountApps(entries[..|entries| - 1], keywords) + (if AnyContains([Lower(e.app)], keywords) then 1 else 0)
  }

  const ProductiveApps: seq<string> := ["code", "vscode"]
  const GameApps: seq<string> := ["game"]
  const BrowserApps: seq<string> := ["chrome", "firefox"]

  /** `Math.max(0, Math.min(100, x))`. */
  function Clamp(x: real): (r: real)
    ensures 0.0 <= r <= 100.0
    ensures 0.0 <= x <= 100.0 ==> r == x
    ensures x <= 0.0 ==> r == 0.0
    ensures x >= 100.0 ==> r == 100.0
  {
    if x < 0.0 then 0.0 else if x > 100.0 then 100.0 else x
  }

  /** `calculateProductivityScore`: the share of coding entries times 100,
      less half the gaming share and a fifth of the browsing share (both
      times 100), clamped to [0, 100]; 0 for no entries. */
  function ProductivityScore(entries: seq<Entry>): real {
    if |entries| == 0 then 0.0
    else
      var n := |entries| as real;
      var coding := CountApps(entries, ProductiveApps) as real;
      var gaming := CountApps(entries, GameApps) as real;
      var browsing := CountApps(entries, BrowserApps) as real;
      Clamp(coding / n * 100.0 - gaming / n * 50.0 - browsing / n * 20.0)
  }

  /** Every entry whose app matches counts. */
  lemma {:induction false} CountAppsAll(entries: seq<Entry>, keywords: seq<string>)
    requires forall i :: 0 <= i < |entries| ==> AnyContains([Lower(entries[i].app)], keywords)
    ensures CountApps(entries, keywords) == |entries|
    decreases |entries|
  {
    if entries != [] {
      CountAppsAll(entries[..|entries| - 1], keywords);
    }
  }

  /** No entry whose app matches counts zero. */
  lemma {:induction false} CountAppsNone(entries: seq<Entry>, keywords: seq<string>)
    requires forall i :: 0 <= i < |entries| ==> !AnyContains([Lower(entries[i].app)], keywords)
    ensures CountApps(entries, keywords) == 0
    decreases |entries|
  {
    if entries != [] {
      CountAppsNone(entries[..|entries| - 1], keywords);
    }
  }

  /** The share k / n of a count k out of n entries. */
  lemma Share(k: nat, n: nat)
    requires 0 < n && k <= n
    ensures 0.0 <= k as real / n as real <= 1.0
    ensures k == 0 ==> k as real / n as real == 0.0
    ensures k == n ==> k as real / n as real == 1.0
  {
  }

  /** The score is 0 without entries, always between 0 and 100, 0 when no
      entry is a coding app, and 100 when every entry is one and none is a
      game or a browser. */
  lemma ProductivityFacts(entries: seq<Entry>)
    ensures entries == [] ==> ProductivityScore(entries) == 0.0
    ensures 0.0 <= ProductivityScore(entries) <= 100.0
    ensures (forall i :: 0 <= i < |entries| ==> !AnyContains([Lower(entries[i].app)], ProductiveApps)) ==>
      ProductivityScore(entries) == 0.0
    ensures (entries != [] &&
      forall i :: 0 <= i < |entries| ==>
        && AnyContains([Lower(entries[i].app)], ProductiveApps)
        && !AnyContains([Lower(entries[i].app)], GameApps)
        && !AnyContains([Lower(entries[i].app)], BrowserApps))
      ==> ProductivityScore(entries) == 100.0
  {
    if entries != [] {
      var n := |entries|;
      var coding := CountApps(entries, ProductiveApps);
      var gaming := CountApps(entries, GameApps);
      var browsing := CountApps(entries, BrowserApps);
      Share(coding, n);
      Share(gaming, n);
      Share(browsing, n);
      hide CountApps;
      if forall i :: 0 <= i < |entries| ==> !AnyContains([Lower(entries[i].app)], ProductiveApps) {
        CountAppsNone(entries, ProductiveApps);
      }
      if forall i :: 0 <= i < |entries| ==>
           && AnyContains([Lower(entries[i].app)], ProductiveApps)
           && !AnyContains([Lower(entries[i].app)], GameApps)
           && !AnyContains([Lower(entries[i].app)], BrowserApps) {
        CountAppsAll(entries, ProductiveApps);
        CountAppsNone(entries, GameApps);
        CountAppsNone(entries, BrowserApps);
      }
    }
  }
}
