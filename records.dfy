/** The capture record both code bases cluster, the event categories, and
    ordering by timestamp. */
module Records {
  import opened Seqs

  datatype Option<T> = None | Some(value: T)

  type Embedding = seq<real>

  /** One capture record. `eventId` is the back-reference to the event the
      entry was placed in; `language` is "" when the store holds none. */
  datatype Entry = Entry(
    id: int,
    app: string,
    title: string,
    text: string,
    timestamp: int,
    embedding: Option<Embedding>,
    language: string,
    eventId: Option<string>)

  datatype EventType = Coding | Gaming | Video | Meeting | Browsing | Other

  /** The lower-case name the code bases store for a category. */
  function TypeName(t: EventType): string {
    match t
    case Coding => "coding"
    case Gaming => "gaming"
    case Video => "video"
    case Meeting => "meeting"
    case Browsing => "browsing"
    case Other => "other"
  }

  lemma TypeNameInjective(a: EventType, b: EventType)
    ensures TypeName(a) == TypeName(b) ==> a == b
  {
  }

  /** No two entries share a timestamp (the store's column is UNIQUE). */
  predicate UniqueTimestamps(s: seq<Entry>) {
    forall i, j :: 0 <= i < j < |s| ==> s[i].timestamp != s[j].timestamp
  }

  /** Each entry is no earlier than the one before it. */
  predicate SortedByTime(s: seq<Entry>) {
    forall i :: 0 < i < |s| ==> s[i - 1].timestamp <= s[i].timestamp
  }

  /** In a time-ordered sequence every entry is no earlier than any before it. */
  lemma {:induction false} SortedPairs(s: seq<Entry>)
    requires SortedByTime(s)
    ensures forall i, j :: 0 <= i <= j < |s| ==> s[i].timestamp <= s[j].timestamp
    decreases |s|
  {
    if s != [] {
      var init := s[..|s| - 1];
      SortedPairs(init);
      forall i | 0 <= i < |s| ensures s[i].timestamp <= s[|s| - 1].timestamp {
        if i < |s| - 1 {
          assert init[i] == s[i] && init[|s| - 2] == s[|s| - 2];
        }
      }
      forall i, j | 0 <= i <= j < |s| - 1 ensures s[i].timestamp <= s[j].timestamp {
        assert init[i] == s[i] && init[j] == s[j];
      }
    }
  }

  /** Stable insertion in front of the first later entry. */
  function InsertByTime(e: Entry, s: seq<Entry>): (r: seq<Entry>)
    requires SortedByTime(s)
    ensures SortedByTime(r)
    ensures |r| == |s| + 1
    ensures r[0] == e || (s != [] && r[0] == s[0])
    decreases |s|
  {
    if s == [] then [e]
    else if e.timestamp <= s[0].timestamp then [e] + s
    else [s[0]] + InsertByTime(e, s[1..])
  }

  /** Inserting adds exactly the one entry. */
  lemma {:induction false} InsertByTimePermutes(e: Entry, s: seq<Entry>)
    requires SortedByTime(s)
    ensures multiset(InsertByTime(e, s)) == multiset(s) + multiset{e}
    decreases |s|
  {
    if s != [] && e.timestamp > s[0].timestamp {
      InsertByTimePermutes(e, s[1..]);
      assert s == [s[0]] + s[1..];
    }
  }

  /** `sorted(entries, key=timestamp)` / `entries.sort((a, b) => a.timestamp - b.timestamp)`. */
  function SortByTime(s: seq<Entry>): (r: seq<Entry>)
    ensures SortedByTime(r)
    ensures multiset(r) == multiset(s)
    ensures |r| == |s|
    decreases |s|
  {
    if s == [] then []
    else
      assert s == [s[0]] + s[1..];
      InsertByTimePermutes(s[0], SortByTime(s[1..]));
      InsertByTime(s[0], SortByTime(s[1..]))
  }

  /** Timestamps stay unique under any reordering with the same multiset. */
  lemma UniqueTimestampsPermuted(a: seq<Entry>, b: seq<Entry>)
    requires multiset(a) == multiset(b) && UniqueTimestamps(a)
    ensures UniqueTimestamps(b)
  {
    assert Distinct(a) by {
      forall i, j | 0 <= i < j < |a| ensures a[i] != a[j] {
        assert a[i].timestamp != a[j].timestamp;
      }
    }
    DistinctByMultiset(a, b);
    forall i, j | 0 <= i < j < |b| ensures b[i].timestamp != b[j].timestamp {
      assert b[i] in multiset(a) && b[j] in multiset(a);
      var p :| 0 <= p < |a| && a[p] == b[i];
      var q :| 0 <= q < |a| && a[q] == b[j];
      assert p != q;
    }
  }

  /** Sorting entries with unique timestamps orders them strictly. */
  lemma SortedStrictly(s: seq<Entry>)
    requires UniqueTimestamps(s)
    ensures UniqueTimestamps(SortByTime(s))
    ensures forall i, j :: 0 <= i < j < |s| ==> SortByTime(s)[i].timestamp < SortByTime(s)[j].timestamp
  {
    UniqueTimestampsPermuted(s, SortByTime(s));
    SortedPairs(SortByTime(s));
  }

  /** Unique timestamps make the entries themselves pairwise different. */
  lemma UniqueTimestampsDistinct(s: seq<Entry>)
    requires UniqueTimestamps(s)
    ensures Distinct(s)
  {
    forall i, j | 0 <= i < j < |s| ensures s[i] != s[j] {
      assert s[i].timestamp != s[j].timestamp;
    }
  }
}
