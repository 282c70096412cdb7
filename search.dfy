/** The frontend's search over the timeline: the keyword index built from the
    events, the merge of keyword and semantic hits into one ranked list, the
    filters of the advanced search and the quick suggestions. Fuse.js and the
    embedding service stay outside the model: Fuse is a function from the
    indexed documents and the query to its hits, and the query embedding is
    either a vector or the error the service threw. */
module Search {
  import opened Seqs
  import opened Text
  import opened Records
  import opened FrontModels
  import Utils

  /** One indexed document: an entry together with the fields of its event
      that the keyword search weighs. */
  datatype SearchDoc = SearchDoc(
    id: int,
    eventId: string,
    app: string,
    title: string,
    text: string,
    timestamp: int,
    language: string,
    eventType: EventType,
    eventTitle: string,
    entry: Entry,
    event: FrontEvent)

  /** A Fuse hit: the document, the score if Fuse gave one (0 is a perfect
      match, 1 no match at all), and the values of its matches, where a match
      without a value is written "". */
  datatype FuseHit = FuseHit(item: SearchDoc, score: Option<real>, matches: seq<string>)

  datatype SearchResult = SearchResult(entry: Entry, score: real, highlights: seq<string>, event: FrontEvent)

  // ---------------------------------------------------------------------
  // buildSearchIndex

  function DocOf(ev: FrontEvent, e: Entry): SearchDoc {
    SearchDoc(e.id, ev.id, e.app, e.title, e.text, e.timestamp, e.language, ev.kind, ev.title, e, ev)
  }

  function EventDocs(ev: FrontEvent): seq<SearchDoc> {
    seq(|ev.entries|, j requires 0 <= j < |ev.entries| => DocOf(ev, ev.entries[j]))
  }

  /** `events.flatMap(event => event.entries.map(entry => ...))`. */
  function SearchData(events: seq<FrontEvent>): seq<SearchDoc> {
    Flatten(seq(|events|, i requires 0 <= i < |events| => EventDocs(events[i])))
  }

  /** The index holds one document for each entry of each event, carrying
      that entry and that event. */
  lemma SearchDataMembers(events: seq<FrontEvent>, d: SearchDoc)
    ensures d in SearchData(events) <==>
      exists i, j :: 0 <= i < |events| && 0 <= j < |events[i].entries| && d == DocOf(events[i], events[i].entries[j])
  {
    var groups := seq(|events|, i requires 0 <= i < |events| => EventDocs(events[i]));
    FlattenMembers(groups, d);
    if d in SearchData(events) {
      var i :| 0 <= i < |groups| && d in groups[i];
      var j :| 0 <= j < |groups[i]| && groups[i][j] == d;
      assert d == DocOf(events[i], events[i].entries[j]);
    }
    if exists i, j :: 0 <= i < |events| && 0 <= j < |events[i].entries| && d == DocOf(events[i], events[i].entries[j]) {
      var i, j :| 0 <= i < |events| && 0 <= j < |events[i].entries| && d == DocOf(events[i], events[i].entries[j]);
      assert groups[i][j] == d;
    }
  }

  // ---------------------------------------------------------------------
  // Scoring the hits

  /** `1 - (fuseResult.score || 1)` as written: a missing score and a perfect
      score of 0 both count as 1, so a perfect match gets similarity 0. */
  function FuseSimilarityAsWritten(score: Option<real>): real {
    1.0 - (if score.None? || score.value == 0.0 then 1.0 else score.value)
  }

  /** A perfect match ranks below a weaker one under the written rule. */
  lemma FuseSimilarityAsWrittenInverts()
    ensures FuseSimilarityAsWritten(Some(0.0)) == 0.0
    ensures FuseSimilarityAsWritten(Some(0.25)) == 0.75
  {
  }

  /** The similarity the conversion is meant to give: `1 - (score ?? 1)`. Only
      a missing score counts as no match. */
  function FuseSimilarity(score: Option<real>): (s: real)
    ensures score.None? ==> s == 0.0
    ensures score == Some(0.0) ==> s == 1.0
    ensures score.Some? && 0.0 <= score.value <= 1.0 ==> 0.0 <= s <= 1.0
  {
    1.0 - (if score.None? then 1.0 else score.value)
  }

  /** A better (smaller) Fuse score never gives a smaller similarity. */
  lemma FuseSimilarityOrder(a: real, b: real)
    requires a <= b
    ensures FuseSimilarity(Some(a)) >= FuseSimilarity(Some(b))
  {
  }

  /** The highlights of a Fuse hit: every match value that is set, cut to its
      first 200 characters, in match order. */
  function Highlights(matches: seq<string>): seq<string>
    decreases |matches|
  {
    if matches == [] then []
    else
      var init := Highlights(matches[..|matches| - 1]);
      var v := matches[|matches| - 1];
      if v != "" then init + [Take(v, 200)] else init
  }

  /** `fuseResult.matches.forEach(match => { if (match.value) highlights.push(...) })`. */
  method ExtractHighlights(matches: seq<string>) returns (highlights: seq<string>)
    ensures highlights == Highlights(matches)
  {
    highlights := [];
    for k := 0 to |matches|
      invariant highlights == Highlights(matches[..k])
    {
      assert matches[..k + 1][..k] == matches[..k];
      if matches[k] != "" {
        highlights := highlights + [Take(matches[k], 200)];
      }
    }
    assert matches[..|matches|] == matches;
  }

  /** A highlight is the first 200 characters of a set match value, and every
      set match value gives one. */
  lemma {:induction false} HighlightsMembers(matches: seq<string>, h: string)
    ensures h in Highlights(matches) <==> exists k :: 0 <= k < |matches| && matches[k] != "" && h == Take(matches[k], 200)
    decreases |matches|
  {
    if matches != [] {
      var init := matches[..|matches| - 1];
      HighlightsMembers(init, h);
      if exists k :: 0 <= k < |init| && init[k] != "" && h == Take(init[k], 200) {
        var k :| 0 <= k < |init| && init[k] != "" && h == Take(init[k], 200);
        assert matches[k] == init[k];
      }
      if exists k :: 0 <= k < |matches| && matches[k] != "" && h == Take(matches[k], 200) {
        var k :| 0 <= k < |matches| && matches[k] != "" && h == Take(matches[k], 200);
        if k < |init| {
          assert init[k] == matches[k];
        }
      }
    }
  }

  function FuseResult(hit: FuseHit): SearchResult {
    SearchResult(hit.item.entry, FuseSimilarity(hit.score), Highlights(hit.matches), hit.item.event)
  }

  /** One result per Fuse hit, in hit order. */
  function FuseResults(hits: seq<FuseHit>): (rs: seq<SearchResult>)
    ensures |rs| == |hits|
    ensures forall k :: 0 <= k < |hits| ==> rs[k].entry == hits[k].item.entry && rs[k].event == hits[k].item.event
    decreases |hits|
  {
    if hits == [] then [] else FuseResults(hits[..|hits| - 1]) + [FuseResult(hits[|hits| - 1])]
  }

  /** The loop over the Fuse hits, pushing one result per hit. */
  method KeywordResults(hits: seq<FuseHit>) returns (found: seq<SearchResult>)
    ensures found == FuseResults(hits)
  {
    found := [];
    for k := 0 to |hits|
      invariant found == FuseResults(hits[..k])
    {
      assert hits[..k + 1][..k] == hits[..k];
      var highlights := ExtractHighlights(hits[k].matches);
      found := found + [SearchResult(hits[k].item.entry, FuseSimilarity(hits[k].score), highlights, hits[k].item.event)];
    }
    assert hits[..|hits|] == hits;
  }

  /** The entry has an embedding that is close enough to the query. */
  predicate Relevant(e: Entry, query: Embedding, root: real -> real)
    requires forall x :: x > 0.0 ==> root(x) > 0.0
  {
    e.embedding.Some? && |e.embedding.value| > 0 && Utils.Similarity(query, e.embedding.value, root) > 0.7
  }

  function SemanticResult(ev: FrontEvent, e: Entry, query: Embedding, root: real -> real): SearchResult
    requires forall x :: x > 0.0 ==> root(x) > 0.0
    requires e.embedding.Some?
  {
    SearchResult(e, Utils.Similarity(query, e.embedding.value, root), [Take(e.text, 200)], ev)
  }

  /** The semantic results for the given entries of one event, in entry order. */
  function EntryHits(ev: FrontEvent, entries: seq<Entry>, query: Embedding, root: real -> real): seq<SearchResult>
    requires forall x :: x > 0.0 ==> root(x) > 0.0
    decreases |entries|
  {
    if entries == [] then []
    else
      var e := entries[|entries| - 1];
      EntryHits(ev, entries[..|entries| - 1], query, root)
        + (if Relevant(e, query, root) then [SemanticResult(ev, e, query, root)] else [])
  }

  /** The semantic results over all entries of all events, in event order. */
  function SemanticHits(events: seq<FrontEvent>, query: Embedding, root: real -> real): seq<SearchResult>
    requires forall x :: x > 0.0 ==> root(x) > 0.0
    decreases |events|
  {
    if events == [] then []
    else
      var ev := events[|events| - 1];
      SemanticHits(events[..|events| - 1], query, root) + EntryHits(ev, ev.entries, query, root)
  }

  /** The two nested loops over the events and their entries. */
  method SemanticSearch(events: seq<FrontEvent>, query: Embedding, root: real -> real) returns (hits: seq<SearchResult>)
    requires forall x :: x > 0.0 ==> root(x) > 0.0
    ensures hits == SemanticHits(events, query, root)
  {
    hits := [];
    for i := 0 to |events|
      invariant hits == SemanticHits(events[..i], query, root)
    {
      var ev := events[i];
      ghost var before := hits;
      for j := 0 to |ev.entries|
        invariant hits == before + EntryHits(ev, ev.entries[..j], query, root)
      {
        var e := ev.entries[j];
        assert ev.entries[..j + 1][..j] == ev.entries[..j];
        if e.embedding.Some? && |e.embedding.value| > 0 {
          var similarity := Utils.CosineSimilarity(query, e.embedding.value, root);
          if similarity > 0.7 {
            hits := hits + [SearchResult(e, similarity, [Take(e.text, 200)], ev)];
          }
        }
      }
      assert ev.entries[..|ev.entries|] == ev.entries;
      assert events[..i + 1][..i] == events[..i];
    }
    assert events[..|events|] == events;
  }

  /** r is the semantic result of entry e of event ev. */
  predicate FromEntry(ev: FrontEvent, e: Entry, query: Embedding, root: real -> real, r: SearchResult)
    requires forall x :: x > 0.0 ==> root(x) > 0.0
  {
    Relevant(e, query, root) && r == SemanticResult(ev, e, query, root)
  }

  lemma EntryHitsSnoc(ev: FrontEvent, entries: seq<Entry>, e: Entry, query: Embedding, root: real -> real, r: SearchResult)
    requires forall x :: x > 0.0 ==> root(x) > 0.0
    ensures r in EntryHits(ev, entries + [e], query, root) <==>
      r in EntryHits(ev, entries, query, root) || FromEntry(ev, e, query, root, r)
  {
    assert (entries + [e])[..|entries|] == entries;
  }

  lemma SemanticHitsSnoc(events: seq<FrontEvent>, ev: FrontEvent, query: Embedding, root: real -> real, r: SearchResult)
    requires forall x :: x > 0.0 ==> root(x) > 0.0
    ensures r in SemanticHits(events + [ev], query, root) <==>
      r in SemanticHits(events, query, root) || r in EntryHits(ev, ev.entries, query, root)
  {
    assert (events + [ev])[..|events|] == events;
  }

  /** A semantic result comes from an entry of the given event whose
      embedding is close enough to the query, and every such entry gives one. */
  lemma {:induction false} EntryHitsMembers(ev: FrontEvent, entries: seq<Entry>, query: Embedding, root: real -> real, r: SearchResult)
    requires forall x :: x > 0.0 ==> root(x) > 0.0
    ensures r in EntryHits(ev, entries, query, root) <==> exists j :: 0 <= j < |entries| && FromEntry(ev, entries[j], query, root, r)
    decreases |entries|
  {
    if entries != [] {
      var init := entries[..|entries| - 1];
      var e := entries[|entries| - 1];
      assert entries == init + [e];
      EntryHitsSnoc(ev, init, e, query, root, r);
      hide EntryHits, FromEntry;
      EntryHitsMembers(ev, init, query, root, r);
      if exists j :: 0 <= j < |init| && FromEntry(ev, init[j], query, root, r) {
        var j :| 0 <= j < |init| && FromEntry(ev, init[j], query, root, r);
        assert entries[j] == init[j];
      }
      if exists j :: 0 <= j < |entries| && FromEntry(ev, entries[j], query, root, r) {
        var j :| 0 <= j < |entries| && FromEntry(ev, entries[j], query, root, r);
        if j < |init| {
          assert init[j] == entries[j];
        }
      }
    }
  }

  /** The semantic results are exactly the entries of the events whose
      similarity to the query exceeds 0.7, each scored with that similarity. */
  lemma {:induction false} SemanticHitsMembers(events: seq<FrontEvent>, query: Embedding, root: real -> real, r: SearchResult)
    requires forall x :: x > 0.0 ==> root(x) > 0.0
    ensures r in SemanticHits(events, query, root) <==>
      exists i, j :: 0 <= i < |events| && 0 <= j < |events[i].entries| && FromEntry(events[i], events[i].entries[j], query, root, r)
    decreases |events|
  {
    if events != [] {
      var init := events[..|events| - 1];
      var ev := events[|events| - 1];
      assert events == init + [ev];
      SemanticHitsSnoc(init, ev, query, root, r);
      hide SemanticHits, EntryHits, FromEntry;
      SemanticHitsMembers(init, query, root, r);
      EntryHitsMembers(ev, ev.entries, query, root, r);
      if exists i, j :: 0 <= i < |init| && 0 <= j < |init[i].entries| && FromEntry(init[i], init[i].entries[j], query, root, r) {
        var i, j :| 0 <= i < |init| && 0 <= j < |init[i].entries| && FromEntry(init[i], init[i].entries[j], query, root, r);
        assert events[i] == init[i];
      }
      if exists j :: 0 <= j < |ev.entries| && FromEntry(ev, ev.entries[j], query, root, r) {
        var j :| 0 <= j < |ev.entries| && FromEntry(ev, ev.entries[j], query, root, r);
        assert events[|events| - 1] == ev;
      }
      if exists i, j :: 0 <= i < |events| && 0 <= j < |events[i].entries| && FromEntry(events[i], events[i].entries[j], query, root, r) {
        var i, j :| 0 <= i < |events| && 0 <= j < |events[i].entries| && FromEntry(events[i], events[i].entries[j], query, root, r);
        if i < |init| {
          assert init[i] == events[i];
        }
      }
    }
  }

  /** Every semantic result scores above the threshold. */
  lemma SemanticScores(events: seq<FrontEvent>, query: Embedding, root: real -> real, r: SearchResult)
    requires forall x :: x > 0.0 ==> root(x) > 0.0
    requires r in SemanticHits(events, query, root)
    ensures r.score > 0.7
  {
    SemanticHitsMembers(events, query, root, r);
  }

  /** The results before de-duplication: the Fuse hits (up to 50) when the
      index exists, then the semantic hits when the query has a non-empty
      embedding. A failed embedding call contributes nothing. */
  function Candidates(docs: seq<SearchDoc>, built: bool, fuse: (seq<SearchDoc>, string) -> seq<FuseHit>,
                      query: string, events: seq<FrontEvent>, queryEmbedding: Result<Embedding>,
                      root: real -> real): seq<SearchResult>
    requires forall x :: x > 0.0 ==> root(x) > 0.0
  {
    (if built then FuseResults(Take(fuse(docs, query), 50)) else [])
      + (if queryEmbedding.Success? && |queryEmbedding.value| > 0 then SemanticHits(events, queryEmbedding.value, root) else [])
  }

  // ---------------------------------------------------------------------
  // Removing duplicates, sorting and limiting

  function Ids(rs: seq<SearchResult>): (ids: seq<int>)
    ensures |ids| == |rs|
  {
    seq(|rs|, i requires 0 <= i < |rs| => rs[i].entry.id)
  }

  /** `results.filter((r, i, self) => i === self.findIndex(x => x.entry.id === r.entry.id))`:
      a result is kept when no earlier result has the same entry id. */
  function DedupById(rs: seq<SearchResult>): seq<SearchResult>
    decreases |rs|
  {
    if rs == [] then []
    else
      var init := rs[..|rs| - 1];
      var r := rs[|rs| - 1];
      if r.entry.id in Ids(init) then DedupById(init) else DedupById(init) + [r]
  }

  lemma IdsSnoc(rs: seq<SearchResult>, r: SearchResult)
    ensures Ids(rs + [r]) == Ids(rs) + [r.entry.id]
  {
    assert forall i :: 0 <= i < |rs| ==> (rs + [r])[i] == rs[i];
  }

  lemma DedupSnoc(rs: seq<SearchResult>, r: SearchResult)
    ensures DedupById(rs + [r]) == if r.entry.id in Ids(rs) then DedupById(rs) else DedupById(rs) + [r]
  {
    assert (rs + [r])[..|rs|] == rs;
  }

  /** The kept ids are the distinct ids in first-occurrence order. */
  lemma {:induction false} DedupIds(rs: seq<SearchResult>)
    ensures Ids(DedupById(rs)) == Uniq(Ids(rs))
    decreases |rs|
  {
    if rs != [] {
      var init := rs[..|rs| - 1];
      var r := rs[|rs| - 1];
      assert rs == init + [r];
      DedupSnoc(init, r);
      IdsSnoc(init, r);
      IdsSnoc(DedupById(init), r);
      UniqSnoc(Ids(init), r.entry.id);
      hide DedupById, Ids, Uniq;
      DedupIds(init);
    }
  }

  /** Each kept result is the first result with its entry id. */
  lemma {:induction false} DedupFirst(rs: seq<SearchResult>, x: SearchResult)
    requires x in DedupById(rs)
    ensures exists i :: 0 <= i < |rs| && rs[i] == x && x.entry.id !in Ids(rs[..i])
    decreases |rs|
  {
    var init := rs[..|rs| - 1];
    var r := rs[|rs| - 1];
    if x in DedupById(init) {
      DedupFirst(init, x);
      var i :| 0 <= i < |init| && init[i] == x && x.entry.id !in Ids(init[..i]);
      assert rs[..i] == init[..i];
    } else {
      assert x == r && r.entry.id !in Ids(init);
      assert rs[..|rs| - 1] == init;
    }
  }

  /** Every kept result is one of the results. */
  lemma {:induction false} DedupSubset(rs: seq<SearchResult>, x: SearchResult)
    requires x in DedupById(rs)
    ensures x in rs
    decreases |rs|
  {
    var init := rs[..|rs| - 1];
    if x in DedupById(init) {
      DedupSubset(init, x);
    }
  }

  predicate SortedByScore(rs: seq<SearchResult>) {
    forall i, j :: 0 <= i < j < |rs| ==> rs[i].score >= rs[j].score
  }

  /** Insert r in front of the first result that does not score higher: a
      stable insertion for a descending order. */
  function InsertByScore(r: SearchResult, s: seq<SearchResult>): (t: seq<SearchResult>)
    requires SortedByScore(s)
    ensures SortedByScore(t)
    ensures |t| == |s| + 1
    ensures forall i :: 0 <= i < |t| ==> t[i] == r || t[i].score <= (if s == [] then r else s[0]).score
    decreases |s|
  {
    if s == [] then [r]
    else if r.score >= s[0].score then [r] + s
    else [s[0]] + InsertByScore(r, s[1..])
  }

  lemma {:induction false} InsertByScorePermutes(r: SearchResult, s: seq<SearchResult>)
    requires SortedByScore(s)
    ensures multiset(InsertByScore(r, s)) == multiset(s) + multiset{r}
    decreases |s|
  {
    if s != [] && r.score < s[0].score {
      InsertByScorePermutes(r, s[1..]);
      assert s == [s[0]] + s[1..];
    }
  }

  /** `uniqueResults.sort((a, b) => b.score - a.score)`: a stable sort, best
      score first. */
  function SortByScore(s: seq<SearchResult>): (t: seq<SearchResult>)
    ensures SortedByScore(t)
    ensures multiset(t) == multiset(s)
    ensures |t| == |s|
    decreases |s|
  {
    if s == [] then []
    else
      assert s == [s[0]] + s[1..];
      InsertByScorePermutes(s[0], SortByScore(s[1..]));
      InsertByScore(s[0], SortByScore(s[1..]))
  }

  /** De-duplicate by entry id, sort by score, keep the first 20. */
  function Merge(candidates: seq<SearchResult>): seq<SearchResult> {
    Take(SortByScore(DedupById(candidates)), 20)
  }

  /** Distinct ids make distinct results. */
  lemma DistinctIdsDistinct(rs: seq<SearchResult>)
    requires Distinct(Ids(rs))
    ensures Distinct(rs)
  {
    forall i, j | 0 <= i < j < |rs| ensures rs[i] != rs[j] {
      assert Ids(rs)[i] != Ids(rs)[j];
    }
  }

  /** A rearrangement of results with distinct ids has distinct ids. */
  lemma PermutedIds(a: seq<SearchResult>, b: seq<SearchResult>)
    requires Distinct(Ids(a)) && multiset(a) == multiset(b)
    ensures Distinct(Ids(b))
  {
    DistinctIdsDistinct(a);
    DistinctByMultiset(a, b);
    forall i, j | 0 <= i < j < |b| ensures Ids(b)[i] != Ids(b)[j] {
      assert b[i] in multiset(a) && b[j] in multiset(a);
      var p :| 0 <= p < |a| && a[p] == b[i];
      var q :| 0 <= q < |a| && a[q] == b[j];
      assert p != q;
      assert Ids(a)[p] != Ids(a)[q];
    }
  }

  /** The limit keeps a prefix of the sorted de-duplicated results. */
  lemma MergePrefix(candidates: seq<SearchResult>)
    ensures Merge(candidates) == SortByScore(DedupById(candidates))[..|Merge(candidates)|]
    ensures |Merge(candidates)| <= 20
    ensures SortedByScore(Merge(candidates))
  {
  }

  lemma MergeDistinct(candidates: seq<SearchResult>)
    ensures Distinct(Ids(Merge(candidates)))
  {
    var unique := DedupById(candidates);
    var sorted := SortByScore(unique);
    var merged := Merge(candidates);
    MergePrefix(candidates);
    DedupIds(candidates);
    PermutedIds(unique, sorted);
    hide Merge, SortByScore, DedupById;
    forall i, j | 0 <= i < j < |merged| ensures Ids(merged)[i] != Ids(merged)[j] {
      assert merged[i] == sorted[i] && merged[j] == sorted[j];
      assert Ids(sorted)[i] != Ids(sorted)[j];
    }
  }

  lemma MergeFirst(candidates: seq<SearchResult>, x: SearchResult)
    requires x in Merge(candidates)
    ensures exists i :: 0 <= i < |candidates| && candidates[i] == x && x.entry.id !in Ids(candidates[..i])
  {
    var unique := DedupById(candidates);
    var sorted := SortByScore(unique);
    MergePrefix(candidates);
    assert x in sorted;
    assert x in multiset(unique);
    DedupFirst(candidates, x);
  }

  lemma MergeKeepsBest(candidates: seq<SearchResult>, x: SearchResult, y: SearchResult)
    requires x in Merge(candidates) && y in DedupById(candidates) && y !in Merge(candidates)
    ensures x.score >= y.score
  {
    var unique := DedupById(candidates);
    var sorted := SortByScore(unique);
    var merged := Merge(candidates);
    MergePrefix(candidates);
    assert y in multiset(unique);
    hide Merge, SortByScore, DedupById;
    var i :| 0 <= i < |merged| && merged[i] == x;
    var j :| 0 <= j < |sorted| && sorted[j] == y;
    assert forall t :: 0 <= t < |merged| ==> merged[t] == sorted[t];
    assert sorted[i] == x;
  }

  lemma MergeComplete(candidates: seq<SearchResult>, id: int)
    requires |Uniq(Ids(candidates))| <= 20 && id in Ids(candidates)
    ensures id in Ids(Merge(candidates))
  {
    var unique := DedupById(candidates);
    var sorted := SortByScore(unique);
    var merged := Merge(candidates);
    DedupIds(candidates);
    assert |unique| == |Ids(unique)|;
    assert merged == sorted;
    assert id in Ids(unique);
    var k :| 0 <= k < |unique| && Ids(unique)[k] == id;
    assert unique[k] in multiset(sorted);
    hide Merge, SortByScore, DedupById;
    var m :| 0 <= m < |sorted| && sorted[m] == unique[k];
    assert Ids(sorted)[m] == id;
  }

  /** The final list: at most 20 results, best score first, one per entry id,
      each the first candidate with its id; the results the limit drops score
      no higher than those kept; and when there are at most 20 distinct ids,
      none is dropped. */
  lemma MergeSpec(candidates: seq<SearchResult>)
    ensures |Merge(candidates)| <= 20
    ensures SortedByScore(Merge(candidates))
    ensures Distinct(Ids(Merge(candidates)))
    ensures forall x :: x in Merge(candidates) ==>
      exists i :: 0 <= i < |candidates| && candidates[i] == x && x.entry.id !in Ids(candidates[..i])
    ensures forall x, y :: x in Merge(candidates) && y in DedupById(candidates) && y !in Merge(candidates) ==> x.score >= y.score
    ensures |Uniq(Ids(candidates))| <= 20 ==> forall id :: id in Ids(candidates) ==> id in Ids(Merge(candidates))
  {
    MergePrefix(candidates);
    MergeDistinct(candidates);
    hide Merge, SortByScore, DedupById, Ids, Uniq;
    forall x | x in Merge(candidates)
      ensures exists i :: 0 <= i < |candidates| && candidates[i] == x && x.entry.id !in Ids(candidates[..i])
    {
      MergeFirst(candidates, x);
    }
    forall x, y | x in Merge(candidates) && y in DedupById(candidates) && y !in Merge(candidates)
      ensures x.score >= y.score
    {
      MergeKeepsBest(candidates, x, y);
    }
    if |Uniq(Ids(candidates))| <= 20 {
      forall id | id in Ids(candidates) ensures id in Ids(Merge(candidates)) {
        MergeComplete(candidates, id);
      }
    }
  }

  // ---------------------------------------------------------------------
  // The index and performSearch

  class SearchIndex {
    /** `eventsData`: the events the index was last built from. */
    var eventsData: seq<FrontEvent>
    /** The documents `fuseIndex` searches. */
    var docs: seq<SearchDoc>
    /** `fuseIndex !== null`. */
    var built: bool

    /** An index that exists always holds the documents of the events it was
        built from; before the first build there are neither. */
    predicate Valid()
      reads this
    {
      && (built ==> docs == SearchData(eventsData))
      && (!built ==> eventsData == [] && docs == [])
    }

    constructor()
      ensures Valid()
      ensures eventsData == [] && docs == [] && !built
    {
      eventsData, docs, built := [], [], false;
    }

    /** `buildSearchIndex(events)`. */
    method BuildSearchIndex(events: seq<FrontEvent>)
      modifies this
      ensures Valid()
      ensures eventsData == events && docs == SearchData(events) && built
    {
      eventsData := events;
      docs := SearchData(events);
      built := true;
    }

    /** `performSearch(query, events)`. A blank query changes nothing and finds
        nothing. Otherwise the index is rebuilt when the events differ from
        those it was built from, and the result is the merge of the
        candidates. */
    method PerformSearch(query: string, events: seq<FrontEvent>, fuse: (seq<SearchDoc>, string) -> seq<FuseHit>,
                         queryEmbedding: Result<Embedding>, root: real -> real)
      returns (results: seq<SearchResult>)
      requires Valid()
      requires forall x :: x > 0.0 ==> root(x) > 0.0
      modifies this
      ensures Valid()
      ensures IsBlank(query) ==> results == [] && eventsData == old(eventsData) && docs == old(docs) && built == old(built)
      ensures !IsBlank(query) ==> eventsData == events && built == (old(built) || old(eventsData) != events)
      ensures !IsBlank(query) ==> results == Merge(Candidates(docs, built, fuse, query, events, queryEmbedding, root))
    {
      hide SortByScore, DedupById, FuseResults, SemanticHits, Take, SearchData;
      if IsBlank(query) {
        return [];
      }
      if events != eventsData {
        BuildSearchIndex(events);
      }
      var found: seq<SearchResult> := [];
      if built {
        found := KeywordResults(Take(fuse(docs, query), 50));
      }
      if queryEmbedding.Success? && |queryEmbedding.value| > 0 {
        var semantic := SemanticSearch(events, queryEmbedding.value, root);
        found := found + semantic;
      }
      assert found == Candidates(docs, built, fuse, query, events, queryEmbedding, root);
      var unique := DedupById(found);
      var sorted := SortByScore(unique);
      results := Take(sorted, 20);
    }

    /** `performAdvancedSearch(query, events, filters)`: the search over the
        events that pass the filters. */
    method PerformAdvancedSearch(query: string, events: seq<FrontEvent>, filters: Filters,
                                 fuse: (seq<SearchDoc>, string) -> seq<FuseHit>,
                                 queryEmbedding: Result<Embedding>, root: real -> real)
      returns (results: seq<SearchResult>)
      requires Valid()
      requires forall x :: x > 0.0 ==> root(x) > 0.0
      modifies this
      ensures Valid()
      ensures IsBlank(query) ==> results == [] && eventsData == old(eventsData) && docs == old(docs) && built == old(built)
      ensures !IsBlank(query) ==> eventsData == FilterEvents(events, filters)
      ensures !IsBlank(query) ==>
        results == Merge(Candidates(docs, built, fuse, query, FilterEvents(events, filters), queryEmbedding, root))
    {
      var filtered := FilterEvents(events, filters);
      results := PerformSearch(query, filtered, fuse, queryEmbedding, root);
    }
  }

  // ---------------------------------------------------------------------
  // performAdvancedSearch filters

  datatype Filters = Filters(
    app: Option<string>,
    language: Option<string>,
    startTime: Option<int>,
    endTime: Option<int>,
    eventType: Option<string>)

  /** A text filter applies only when it is set and not "" (JavaScript truthiness). */
  predicate GivenText(o: Option<string>) {
    o.Some? && o.value != ""
  }

  /** A time filter applies only when it is set and not 0. */
  predicate GivenTime(o: Option<int>) {
    o.Some? && o.value != 0
  }

  predicate AppMatches(ev: FrontEvent, app: string) {
    exists k :: 0 <= k < |ev.apps| && Contains(Lower(ev.apps[k]), Lower(app))
  }

  /** The time callback: not ending before the start, not starting after the end. */
  predicate InWindow(ev: FrontEvent, f: Filters) {
    if GivenTime(f.startTime) && ev.endTime < f.startTime.value then false
    else if GivenTime(f.endTime) && ev.startTime > f.endTime.value then false
    else true
  }

  function WithApp(app: string): FrontEvent -> bool {
    (e: FrontEvent) => AppMatches(e, app)
  }

  function OfType(kind: string): FrontEvent -> bool {
    (e: FrontEvent) => TypeName(e.kind) == kind
  }

  function Within(f: Filters): FrontEvent -> bool {
    (e: FrontEvent) => InWindow(e, f)
  }

  /** The three filters applied one after the other, each only when its
      filter value is given. */
  function FilterEvents(events: seq<FrontEvent>, f: Filters): seq<FrontEvent> {
    var byApp := if GivenText(f.app) then Filter(events, WithApp(f.app.value)) else events;
    var byType := if GivenText(f.eventType) then Filter(byApp, OfType(f.eventType.value)) else byApp;
    if GivenTime(f.startTime) || GivenTime(f.endTime) then Filter(byType, Within(f)) else byType
  }

  /** What an event must satisfy to be searched, one condition per given filter. */
  predicate Keeps(ev: FrontEvent, f: Filters) {
    && (GivenText(f.app) ==> AppMatches(ev, f.app.value))
    && (GivenText(f.eventType) ==> TypeName(ev.kind) == f.eventType.value)
    && (GivenTime(f.startTime) ==> ev.endTime >= f.startTime.value)
    && (GivenTime(f.endTime) ==> ev.startTime <= f.endTime.value)
  }

  /** An event is searched exactly when it is one of the events and meets
      every given filter. */
  lemma FilterEventsSpec(events: seq<FrontEvent>, f: Filters, ev: FrontEvent)
    ensures ev in FilterEvents(events, f) <==> ev in events && Keeps(ev, f)
  {
    var byApp := if GivenText(f.app) then Filter(events, WithApp(f.app.value)) else events;
    var byType := if GivenText(f.eventType) then Filter(byApp, OfType(f.eventType.value)) else byApp;
    if GivenText(f.app) {
      FilterMembers(events, WithApp(f.app.value), ev);
    }
    if GivenText(f.eventType) {
      FilterMembers(byApp, OfType(f.eventType.value), ev);
    }
    if GivenTime(f.startTime) || GivenTime(f.endTime) {
      FilterMembers(byType, Within(f), ev);
    }
  }

  /** The language filter is accepted and ignored. */
  lemma FilterEventsIgnoresLanguage(events: seq<FrontEvent>, f: Filters, language: Option<string>)
    ensures FilterEvents(events, f.(language := language)) == FilterEvents(events, f)
  {
    var g := f.(language := language);
    var byApp := if GivenText(f.app) then Filter(events, WithApp(f.app.value)) else events;
    var byType := if GivenText(f.eventType) then Filter(byApp, OfType(f.eventType.value)) else byApp;
    FilterSame(byType, Within(g), Within(f));
  }

  // ---------------------------------------------------------------------
  // getSearchSuggestions

  function AppsOf(events: seq<FrontEvent>): seq<string> {
    Flatten(seq(|events|, i requires 0 <= i < |events| => events[i].apps))
  }

  function TitlesOf(events: seq<FrontEvent>): seq<string> {
    seq(|events|, i requires 0 <= i < |events| => events[i].title)
  }

  function EntriesOfEvents(events: seq<FrontEvent>): seq<Entry> {
    Flatten(seq(|events|, i requires 0 <= i < |events| => events[i].entries))
  }

  function TextWords(entries: seq<Entry>): seq<string> {
    Flatten(seq(|entries|, j requires 0 <= j < |entries| => Words(entries[j].text)))
  }

  /** What is added to the suggestion set, in order: the apps of the first 10
      events, the titles of the first 5, then the first 20 words longer than 4
      characters from the entries of the first 3. */
  function SuggestionCandidates(events: seq<FrontEvent>): seq<string> {
    AppsOf(Take(events, 10)) + TitlesOf(Take(events, 5))
      + Take(LongWords(TextWords(EntriesOfEvents(Take(events, 3))), 4, []), 20)
  }

  /** `getSearchSuggestions(events)`: the first 8 elements of the set. */
  function Suggestions(events: seq<FrontEvent>): seq<string> {
    Take(Uniq(SuggestionCandidates(events)), 8)
  }

  predicate RecentApp(events: seq<FrontEvent>, s: string) {
    exists i, k :: 0 <= i < |events| && i < 10 && 0 <= k < |events[i].apps| && events[i].apps[k] == s
  }

  predicate RecentTitle(events: seq<FrontEvent>, s: string) {
    exists i :: 0 <= i < |events| && i < 5 && events[i].title == s
  }

  predicate RecentWord(events: seq<FrontEvent>, s: string) {
    |s| > 4 && exists i, j :: 0 <= i < |events| && i < 3 && 0 <= j < |events[i].entries| && s in Words(events[i].entries[j].text)
  }

  lemma AppsOfMembers(events: seq<FrontEvent>, s: string)
    ensures s in AppsOf(Take(events, 10)) <==> RecentApp(events, s)
  {
    var prefix := Take(events, 10);
    var groups := seq(|prefix|, i requires 0 <= i < |prefix| => prefix[i].apps);
    FlattenMembers(groups, s);
    if s in AppsOf(prefix) {
      var i :| 0 <= i < |groups| && s in groups[i];
      var k :| 0 <= k < |groups[i]| && groups[i][k] == s;
      assert events[i].apps[k] == s;
    }
    if RecentApp(events, s) {
      var i, k :| 0 <= i < |events| && i < 10 && 0 <= k < |events[i].apps| && events[i].apps[k] == s;
      assert groups[i] == events[i].apps;
    }
  }

  lemma TitlesOfMembers(events: seq<FrontEvent>, s: string)
    ensures s in TitlesOf(Take(events, 5)) <==> RecentTitle(events, s)
  {
    var prefix := Take(events, 5);
    if RecentTitle(events, s) {
      var i :| 0 <= i < |events| && i < 5 && events[i].title == s;
      assert TitlesOf(prefix)[i] == s;
    }
  }

  /** The words come from the texts of the entries of the first 3 events. */
  lemma WordsMembers(events: seq<FrontEvent>, s: string)
    requires s in Take(LongWords(TextWords(EntriesOfEvents(Take(events, 3))), 4, []), 20)
    ensures RecentWord(events, s)
  {
    var prefix := Take(events, 3);
    var entries := EntriesOfEvents(prefix);
    var perEntry := seq(|entries|, j requires 0 <= j < |entries| => Words(entries[j].text));
    var perEvent := seq(|prefix|, i requires 0 <= i < |prefix| => prefix[i].entries);
    LongWordsMembers(TextWords(entries), 4, [], s);
    FlattenMembers(perEntry, s);
    var j :| 0 <= j < |perEntry| && s in perEntry[j];
    FlattenMembers(perEvent, entries[j]);
    var i :| 0 <= i < |perEvent| && entries[j] in perEvent[i];
    var m :| 0 <= m < |events[i].entries| && events[i].entries[m] == entries[j];
    assert s in Words(events[i].entries[m].text);
  }

  /** At most 8 distinct suggestions, each an app of one of the first 10
      events, a title of one of the first 5 or a long word of the first 3;
      when there are at most 8 distinct candidates, every recent app and
      title is among them. */
  lemma SuggestionsSpec(events: seq<FrontEvent>)
    ensures |Suggestions(events)| <= 8
    ensures Distinct(Suggestions(events))
    ensures forall s :: s in Suggestions(events) ==> RecentApp(events, s) || RecentTitle(events, s) || RecentWord(events, s)
    ensures |Uniq(SuggestionCandidates(events))| <= 8 ==>
      forall s :: RecentApp(events, s) || RecentTitle(events, s) ==> s in Suggestions(events)
  {
    var candidates := SuggestionCandidates(events);
    var r := Suggestions(events);
    assert r == Uniq(candidates)[..|r|];
    forall i, j | 0 <= i < j < |r| ensures r[i] != r[j] {
      assert r[i] == Uniq(candidates)[i] && r[j] == Uniq(candidates)[j];
    }
    forall s | s in r ensures RecentApp(events, s) || RecentTitle(events, s) || RecentWord(events, s) {
      assert s in Uniq(candidates);
      AppsOfMembers(events, s);
      TitlesOfMembers(events, s);
      if s !in AppsOf(Take(events, 10)) && s !in TitlesOf(Take(events, 5)) {
        WordsMembers(events, s);
      }
    }
    if |Uniq(candidates)| <= 8 {
      forall s | RecentApp(events, s) || RecentTitle(events, s) ensures s in r {
        AppsOfMembers(events, s);
        TitlesOfMembers(events, s);
        assert s in candidates;
      }
    }
  }
}
