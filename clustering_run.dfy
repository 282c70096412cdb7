/** `run_clustering`: picks the records no event claims yet, segments them,
    and for each resulting event stores it, points its members at it and
    queues one summary job and one title job. */
module ClusteringRun {
  import opened Seqs
  import opened Text
  import opened Records
  import opened Metric
  import opened Store
  import opened Clustering

  /** The segmenter's defaults: `cluster_entries(entries, eps=0.3, min_samples=2)`. */
  const Eps: real := 0.3
  const MinSamples: int := 2

  /** `not e.event_id`: no event, or the empty id. */
  predicate Unlinked(e: Entry) {
    e.eventId.None? || e.eventId.value == ""
  }

  /** `[e for e in all_entries if not e.event_id]`. */
  function Unclustered(entries: seq<Entry>): (r: seq<Entry>)
    ensures |r| <= |entries|
    ensures forall e :: e in r <==> e in entries && Unlinked(e)
    decreases |entries|
  {
    if entries == [] then []
    else (if Unlinked(entries[0]) then [entries[0]] else []) + Unclustered(entries[1..])
  }

  /** Filtering keeps timestamps unique, so the records handed to the
      segmenter are pairwise different. */
  lemma {:induction false} UnclusteredUnique(entries: seq<Entry>)
    requires UniqueTimestamps(entries)
    ensures UniqueTimestamps(Unclustered(entries))
    decreases |entries|
  {
    if entries != [] {
      var rest := Unclustered(entries[1..]);
      assert UniqueTimestamps(entries[1..]) by {
        forall i, j | 0 <= i < j < |entries| - 1
          ensures entries[1..][i].timestamp != entries[1..][j].timestamp
        {
          assert entries[1..][i] == entries[i + 1] && entries[1..][j] == entries[j + 1];
        }
      }
      UnclusteredUnique(entries[1..]);
      if Unlinked(entries[0]) {
        forall j | 0 <= j < |rest| ensures entries[0].timestamp != rest[j].timestamp {
          assert rest[j] in entries[1..];
          var k :| 0 <= k < |entries[1..]| && entries[1..][k] == rest[j];
          assert entries[k + 1] == rest[j];
        }
        var r := [entries[0]] + rest;
        forall i, j | 0 <= i < j < |r| ensures r[i].timestamp != r[j].timestamp {
          if i == 0 {
            assert r[j] == rest[j - 1];
          } else {
            assert r[i] == rest[i - 1] && r[j] == rest[j - 1];
          }
        }
      } else {
        assert Unclustered(entries) == rest;
      }
    }
  }

  /** One line of the job context: `f"{e.app}: {e.title} - {e.text}"`. */
  function Line(e: Entry): string {
    e.app + ": " + e.title + " - " + e.text
  }

  function Lines(members: seq<Entry>): (ls: seq<string>)
    ensures |ls| == |members|
    ensures forall t :: 0 <= t < |members| ==> ls[t] == Line(members[t])
  {
    seq(|members|, t requires 0 <= t < |members| => Line(members[t]))
  }

  /** The context the AI jobs receive: the member lines joined by newlines. */
  function CombinedText(members: seq<Entry>): string {
    Join(Lines(members), "\n")
  }

  /** When no app, title or text holds a newline, the job text splits back
      into exactly one line per member, in member order. */
  lemma CombinedTextLines(members: seq<Entry>)
    requires |members| > 0
    requires forall t :: 0 <= t < |members| ==>
      '\n' !in members[t].app && '\n' !in members[t].title && '\n' !in members[t].text
    ensures SplitOn(CombinedText(members), '\n') == Lines(members)
  {
    forall t | 0 <= t < |members| ensures '\n' !in Lines(members)[t] {
      var e := members[t];
      assert Line(e) == e.app + (": " + e.title + " - " + e.text);
      assert ": " + e.title + " - " + e.text == ": " + (e.title + (" - " + e.text));
    }
    JoinSplitOn(Lines(members), '\n');
  }

  /** The ids of a group's members. */
  function MemberIds(members: seq<Entry>): set<int> {
    set t | 0 <= t < |members| :: members[t].id
  }

  /** The effect of the inner `UPDATE ... WHERE id = ?` loop for one event:
      every entry whose id is a member's id now points at the event, every
      other entry is as it was. */
  function LinkGroup(entries: seq<Entry>, members: seq<Entry>, eventId: string): (r: seq<Entry>)
    ensures |r| == |entries|
    ensures forall i :: 0 <= i < |r| ==>
      r[i] == if entries[i].id in MemberIds(members) then entries[i].(eventId := Some(eventId)) else entries[i]
    decreases |members|
  {
    if members == [] then entries
    else
      var n := |members| - 1;
      assert MemberIds(members) == MemberIds(members[..n]) + {members[n].id} by {
        assert forall t :: 0 <= t < n ==> members[..n][t] == members[t];
      }
      LinkEntry(LinkGroup(entries, members[..n], eventId), members[n].id, eventId)
  }

  /** The id of the last event that lists an entry with this id among its
      members: the one whose UPDATE is applied last. */
  function LinkTarget(events: seq<(Event, seq<Entry>)>, id: int): (r: Option<string>)
    ensures r.None? <==> forall p :: 0 <= p < |events| ==> id !in MemberIds(events[p].1)
    ensures r.Some? ==> exists p :: 0 <= p < |events| && id in MemberIds(events[p].1) && r.value == events[p].0.id
    decreases |events|
  {
    if events == [] then None
    else
      var n := |events| - 1;
      if id in MemberIds(events[n].1) then Some(events[n].0.id)
      else
        var r := LinkTarget(events[..n], id);
        assert forall p :: 0 <= p < n ==> events[..n][p] == events[p];
        r
  }

  /** All the UPDATEs of the run, event by event. Each entry ends up pointing
      at the last event that claimed its id; entries no event claims keep
      their link. */
  function LinkAll(entries: seq<Entry>, events: seq<(Event, seq<Entry>)>): (r: seq<Entry>)
    ensures |r| == |entries|
    ensures forall i :: 0 <= i < |r| ==>
      r[i] == match LinkTarget(events, entries[i].id)
        case None => entries[i]
        case Some(eid) => entries[i].(eventId := Some(eid))
    decreases |events|
  {
    if events == [] then entries
    else
      var n := |events| - 1;
      var prev := LinkAll(entries, events[..n]);
      var r := LinkGroup(prev, events[n].1, events[n].0.id);
      assert forall i :: 0 <= i < |r| ==> prev[i].id == entries[i].id;
      r
  }

  /** When every member is a stored entry, ids are unique and the groups do
      not overlap, a member's id is claimed by its own event only. */
  lemma LinkTargetOfMember(entries: seq<Entry>, events: seq<(Event, seq<Entry>)>, p: nat, e: Entry)
    requires UniqueIds(entries)
    requires forall q, t :: 0 <= q < |events| && 0 <= t < |events[q].1| ==> events[q].1[t] in entries
    requires PairwiseDisjoint(Groups(events))
    requires p < |events| && e in events[p].1
    ensures LinkTarget(events, e.id) == Some(events[p].0.id)
  {
    hide LinkTarget, UniqueIds, PairwiseDisjoint, Groups, MemberIds;
    var n := |events| - 1;
    if p < n {
      var init := events[..n];
      assert forall q :: 0 <= q < n ==> init[q] == events[q];
      DisjointPrefix(events, n);
      OtherGroupId(entries, events, p, n, e);
      LinkTargetOfMember(entries, init, p, e);
      LinkTargetSkip(events, e.id);
    } else {
      MemberIdIn(events[n].1, e);
      LinkTargetLast(events, e.id);
    }
  }

  /** A member's id is among the ids of its group. */
  lemma MemberIdIn(members: seq<Entry>, e: Entry)
    requires e in members
    ensures e.id in MemberIds(members)
  {
    var t :| 0 <= t < |members| && members[t] == e;
  }

  /** The last event claims the ids it lists. */
  lemma LinkTargetLast(events: seq<(Event, seq<Entry>)>, id: int)
    requires |events| > 0 && id in MemberIds(events[|events| - 1].1)
    ensures LinkTarget(events, id) == Some(events[|events| - 1].0.id)
  {
  }

  /** An id the last event does not list is claimed as by the events before it. */
  lemma LinkTargetSkip(events: seq<(Event, seq<Entry>)>, id: int)
    requires |events| > 0 && id !in MemberIds(events[|events| - 1].1)
    ensures LinkTarget(events, id) == LinkTarget(events[..|events| - 1], id)
  {
  }

  /** The groups of a prefix of the events do not overlap either. */
  lemma DisjointPrefix(events: seq<(Event, seq<Entry>)>, n: nat)
    requires n <= |events| && PairwiseDisjoint(Groups(events))
    ensures PairwiseDisjoint(Groups(events[..n]))
  {
    var init := events[..n];
    forall q, q', x | 0 <= q < q' < n && x in Groups(init)[q] ensures x !in Groups(init)[q'] {
      assert Groups(init)[q] == Groups(events)[q] && Groups(init)[q'] == Groups(events)[q'];
    }
  }

  /** With unique ids, a member of one group shares its id with no member of
      a later group. */
  lemma OtherGroupId(entries: seq<Entry>, events: seq<(Event, seq<Entry>)>, p: nat, q: nat, e: Entry)
    requires UniqueIds(entries)
    requires forall q, t :: 0 <= q < |events| && 0 <= t < |events[q].1| ==> events[q].1[t] in entries
    requires PairwiseDisjoint(Groups(events))
    requires p < q < |events| && e in events[p].1
    ensures e.id !in MemberIds(events[q].1)
  {
    forall t | 0 <= t < |events[q].1| ensures events[q].1[t].id != e.id {
      var x := events[q].1[t];
      assert x in Groups(events)[q] && e in Groups(events)[p];
      var a :| 0 <= a < |entries| && entries[a] == x;
      var b :| 0 <= b < |entries| && entries[b] == e;
      assert a != b;
    }
  }

  /** An entry in no group is claimed by no event. */
  lemma LinkTargetOfOutsider(entries: seq<Entry>, events: seq<(Event, seq<Entry>)>, e: Entry)
    requires UniqueIds(entries)
    requires forall q, t :: 0 <= q < |events| && 0 <= t < |events[q].1| ==> events[q].1[t] in entries
    requires e in entries && e !in Members(Groups(events))
    ensures LinkTarget(events, e.id) == None
  {
    forall p, t | 0 <= p < |events| && 0 <= t < |events[p].1| ensures events[p].1[t].id != e.id {
      var x := events[p].1[t];
      assert x in Groups(events)[p];
      MembersAt(Groups(events), x);
      var a :| 0 <= a < |entries| && entries[a] == x;
      var b :| 0 <= b < |entries| && entries[b] == e;
      assert a != b;
    }
  }

  /** After the run's UPDATEs, when groups do not overlap, every member of an
      event points at that event and every other stored entry is unchanged. */
  lemma LinkAllOfGroups(entries: seq<Entry>, events: seq<(Event, seq<Entry>)>)
    requires UniqueIds(entries)
    requires forall q, t :: 0 <= q < |events| && 0 <= t < |events[q].1| ==> events[q].1[t] in entries
    requires PairwiseDisjoint(Groups(events))
    ensures forall i, p :: 0 <= i < |entries| && 0 <= p < |events| && entries[i] in events[p].1 ==>
      LinkAll(entries, events)[i] == entries[i].(eventId := Some(events[p].0.id))
    ensures forall i :: 0 <= i < |entries| && entries[i] !in Members(Groups(events)) ==>
      LinkAll(entries, events)[i] == entries[i]
  {
    forall i, p | 0 <= i < |entries| && 0 <= p < |events| && entries[i] in events[p].1
      ensures LinkAll(entries, events)[i] == entries[i].(eventId := Some(events[p].0.id))
    {
      LinkTargetOfMember(entries, events, p, entries[i]);
    }
    forall i | 0 <= i < |entries| && entries[i] !in Members(Groups(events))
      ensures LinkAll(entries, events)[i] == entries[i]
    {
      LinkTargetOfOutsider(entries, events, entries[i]);
    }
  }

  /** Records that already point at an event are never among the segmented
      ones, so the run's UPDATEs leave them as they were. */
  lemma LinkedKept(entries: seq<Entry>, events: seq<(Event, seq<Entry>)>)
    requires UniqueIds(entries)
    requires forall q, t :: 0 <= q < |events| && 0 <= t < |events[q].1| ==> events[q].1[t] in Unclustered(entries)
    requires PairwiseDisjoint(Groups(events))
    ensures forall i :: 0 <= i < |entries| && !Unlinked(entries[i]) ==> LinkAll(entries, events)[i] == entries[i]
  {
    LinkAllOfGroups(entries, events);
    forall i | 0 <= i < |entries| && !Unlinked(entries[i])
      ensures entries[i] !in Members(Groups(events))
    {
      forall p | 0 <= p < |events| ensures entries[i] !in Groups(events)[p] {
        forall t | 0 <= t < |events[p].1| ensures events[p].1[t] != entries[i] {
          assert Unlinked(events[p].1[t]);
        }
      }
      MembersAt(Groups(events), entries[i]);
    }
  }

  /** `insert_event` for each event in turn. */
  function EventsAfter(stored: map<string, Event>, events: seq<(Event, seq<Entry>)>): (r: map<string, Event>)
    ensures r.Keys == stored.Keys + set p | 0 <= p < |events| :: events[p].0.id
    decreases |events|
  {
    if events == [] then stored
    else
      var n := |events| - 1;
      var r := EventsAfter(stored, events[..n]);
      assert forall p :: 0 <= p < n ==> events[..n][p] == events[p];
      r[events[n].0.id := events[n].0]
  }

  /** With pairwise different ids each event is stored under its own id and
      every other stored event is kept. */
  lemma {:induction false} EventsAfterLookup(stored: map<string, Event>, events: seq<(Event, seq<Entry>)>)
    requires forall p, q :: 0 <= p < q < |events| ==> events[p].0.id != events[q].0.id
    ensures forall p :: 0 <= p < |events| ==> EventsAfter(stored, events)[events[p].0.id] == events[p].0
    ensures forall k :: k in stored && (forall p :: 0 <= p < |events| ==> events[p].0.id != k) ==>
      EventsAfter(stored, events)[k] == stored[k]
    decreases |events|
  {
    if events != [] {
      var n := |events| - 1;
      var init := events[..n];
      assert forall p :: 0 <= p < n ==> init[p] == events[p];
      EventsAfterLookup(stored, init);
      var prev := EventsAfter(stored, init);
      assert EventsAfter(stored, events) == prev[events[n].0.id := events[n].0];
      forall p | 0 <= p < n ensures EventsAfter(stored, events)[events[p].0.id] == events[p].0 {
        assert events[p].0.id != events[n].0.id;
        assert prev[init[p].0.id] == init[p].0;
      }
    }
  }

  function SummaryPayload(ev: Event, members: seq<Entry>): Payload {
    map["event_id" := Str(ev.id), "text" := Str(CombinedText(members))]
  }

  function TitlePayload(ev: Event, members: seq<Entry>): Payload {
    map["event_id" := Str(ev.id), "text" := Str(CombinedText(members)), "event_type" := Str(ev.kind)]
  }

  /** The jobs queued for the events, numbered from `base`. */
  function JobsFor(events: seq<(Event, seq<Entry>)>, base: nat): (r: seq<Job>)
    ensures |r| == 2 * |events|
    ensures forall p :: 0 <= p < |events| ==>
      && r[2 * p] == Job(base + 2 * p, "generate_summary", SummaryPayload(events[p].0, events[p].1))
      && r[2 * p + 1] == Job(base + 2 * p + 1, "generate_title", TitlePayload(events[p].0, events[p].1))
    decreases |events|
  {
    if events == [] then []
    else
      var n := |events| - 1;
      var ev := events[n];
      var prev := JobsFor(events[..n], base);
      assert forall p :: 0 <= p < n ==> events[..n][p] == events[p];
      prev + [Job(base + 2 * n, "generate_summary", SummaryPayload(ev.0, ev.1)),
              Job(base + 2 * n + 1, "generate_title", TitlePayload(ev.0, ev.1))]
  }

  /** Before the first event nothing has changed. */
  lemma NothingStored(stored: map<string, Event>, entries: seq<Entry>, status: map<nat, JobStatus>,
                      events: seq<(Event, seq<Entry>)>, base: nat)
    ensures EventsAfter(stored, events[..0]) == stored
    ensures LinkAll(entries, events[..0]) == entries
    ensures JobsFor(events[..0], base) == []
    ensures PendingFrom(status, base, 0) == status
  {
    assert events[..0] == [];
  }

  /** The next event's UPDATEs come after all earlier ones. */
  lemma LinkAllSnoc(entries: seq<Entry>, events: seq<(Event, seq<Entry>)>, p: nat)
    requires p < |events|
    ensures LinkAll(entries, events[..p + 1]) == LinkGroup(LinkAll(entries, events[..p]), events[p].1, events[p].0.id)
  {
    assert events[..p + 1][..p] == events[..p];
  }

  /** The next event is inserted after all earlier ones. */
  lemma EventsAfterSnoc(stored: map<string, Event>, events: seq<(Event, seq<Entry>)>, p: nat)
    requires p < |events|
    ensures EventsAfter(stored, events[..p + 1]) == EventsAfter(stored, events[..p])[events[p].0.id := events[p].0]
  {
    assert events[..p + 1][..p] == events[..p];
  }

  /** Queuing the next event's two jobs extends the job list by those two. */
  lemma JobsForSnoc(events: seq<(Event, seq<Entry>)>, base: nat, p: nat)
    requires p < |events|
    ensures JobsFor(events[..p + 1], base) == JobsFor(events[..p], base)
      + [Job(base + 2 * p, "generate_summary", SummaryPayload(events[p].0, events[p].1)),
         Job(base + 2 * p + 1, "generate_title", TitlePayload(events[p].0, events[p].1))]
  {
    assert events[..p + 1][..p] == events[..p];
  }

  /** The status map once jobs `base .. base + count - 1` were queued. */
  function PendingFrom(status: map<nat, JobStatus>, base: nat, count: nat): (r: map<nat, JobStatus>)
    ensures forall k :: k in r <==> k in status || base <= k < base + count
    ensures forall k :: k in r ==> r[k] == if base <= k < base + count then Pending else status[k]
    decreases count
  {
    if count == 0 then status
    else PendingFrom(status, base, count - 1)[base + count - 1 := Pending]
  }

  lemma PendingFromStep(status: map<nat, JobStatus>, base: nat, count: nat)
    ensures PendingFrom(status, base, count + 2)
      == PendingFrom(status, base, count)[base + count := Pending][base + count + 1 := Pending]
  {
  }

  /** Every queued job is pending and carries the id of an event of the run. */
  lemma JobsForEvents(events: seq<(Event, seq<Entry>)>, base: nat)
    ensures forall k :: 0 <= k < |JobsFor(events, base)| ==>
      && JobsFor(events, base)[k].id == base + k
      && "event_id" in JobsFor(events, base)[k].payload
      && JobsFor(events, base)[k].payload["event_id"] == Str(events[k / 2].0.id)
  {
    hide JobsFor, CombinedText;
    var r := JobsFor(events, base);
    forall k | 0 <= k < |r|
      ensures r[k].id == base + k && "event_id" in r[k].payload && r[k].payload["event_id"] == Str(events[k / 2].0.id)
    {
      var p := k / 2;
      if k % 2 == 0 {
        assert k == 2 * p;
        assert r[k].payload == SummaryPayload(events[p].0, events[p].1);
      } else {
        assert k == 2 * p + 1;
        assert r[k].payload == TitlePayload(events[p].0, events[p].1);
      }
    }
  }

  /** The inner loop of `run_clustering`: one UPDATE per member. */
  method LinkMembers(db: Database, members: seq<Entry>, eventId: string)
    modifies db
    requires db.Valid()
    ensures db.Valid()
    ensures db.entries == LinkGroup(old(db.entries), members, eventId)
    ensures db.events == old(db.events) && db.jobs == old(db.jobs) && db.status == old(db.status)
    ensures db.statusWrites == old(db.statusWrites)
  {
    var t := 0;
    while t < |members|
      invariant 0 <= t <= |members|
      invariant db.Valid()
      invariant db.entries == LinkGroup(old(db.entries), members[..t], eventId)
      invariant db.events == old(db.events) && db.jobs == old(db.jobs) && db.status == old(db.status)
      invariant db.statusWrites == old(db.statusWrites)
    {
      assert members[..t + 1][..t] == members[..t];
      db.SetEntryEvent(members[t].id, eventId);
      t := t + 1;
    }
    assert members[..t] == members;
  }

  /** The body of the event loop of `run_clustering` for one event: insert
      it, link its members, queue its summary job and then its title job. */
  method StoreEvent(db: Database, ev: Event, members: seq<Entry>)
    modifies db
    requires db.Valid()
    ensures db.Valid()
    ensures db.events == old(db.events)[ev.id := ev]
    ensures db.entries == LinkGroup(old(db.entries), members, ev.id)
    ensures db.jobs == old(db.jobs)
      + [Job(|old(db.jobs)|, "generate_summary", SummaryPayload(ev, members)),
         Job(|old(db.jobs)| + 1, "generate_title", TitlePayload(ev, members))]
    ensures db.status == old(db.status)[|old(db.jobs)| := Pending][|old(db.jobs)| + 1 := Pending]
    ensures db.statusWrites == old(db.statusWrites)
  {
    db.InsertEvent(ev);
    LinkMembers(db, members, ev.id);
    var summaryId := db.InsertJob("generate_summary", SummaryPayload(ev, members));
    var titleId := db.InsertJob("generate_title", TitlePayload(ev, members));
  }

  /** Steps 3 to 5 of `run_clustering`: for each event in turn, insert it,
      link its members and queue its summary and title jobs. */
  method StoreEvents(db: Database, events: seq<(Event, seq<Entry>)>)
    modifies db
    requires db.Valid()
    ensures db.Valid()
    ensures db.events == EventsAfter(old(db.events), events)
    ensures db.entries == LinkAll(old(db.entries), events)
    ensures db.jobs == old(db.jobs) + JobsFor(events, |old(db.jobs)|)
    ensures db.status == PendingFrom(old(db.status), |old(db.jobs)|, 2 * |events|)
    ensures db.statusWrites == old(db.statusWrites)
  {
    hide *;
    var base := |db.jobs|;
    var p := 0;
    NothingStored(db.events, db.entries, db.status, events, base);
    while p < |events|
      invariant 0 <= p <= |events|
      invariant db.Valid()
      invariant db.events == EventsAfter(old(db.events), events[..p])
      invariant db.entries == LinkAll(old(db.entries), events[..p])
      invariant db.jobs == old(db.jobs) + JobsFor(events[..p], base)
      invariant db.status == PendingFrom(old(db.status), base, 2 * p)
      invariant db.statusWrites == old(db.statusWrites)
    {
      var ev, members := events[p].0, events[p].1;
      JobsForSnoc(events, base, p);
      PendingFromStep(old(db.status), base, 2 * p);
      LinkAllSnoc(old(db.entries), events, p);
      EventsAfterSnoc(old(db.events), events, p);
      StoreEvent(db, ev, members);
      p := p + 1;
    }
    assert events[..p] == events;
  }

  /** `run_clustering` against the store. `newId(p)` stands for the uuid
      drawn for the p-th event. */
  method RunClustering(db: Database, cosine: Cosine, newId: nat -> string)
    returns (events: seq<(Event, seq<Entry>)>)
    modifies db
    requires db.Valid()
    ensures db.Valid()
    ensures var unclustered := Unclustered(old(db.entries));
      && (unclustered == [] ==> events == [])
      && (forall p :: 0 <= p < |events| ==>
            && |events[p].1| > 0 && SortedByTime(events[p].1)
            && events[p].0 == EventOf(events[p].1, newId(p)))
      && PairwiseDisjoint(Groups(events))
      && (forall p, t :: 0 <= p < |events| && 0 <= t < |events[p].1| ==> events[p].1[t] in unclustered)
      && (var sorted := SortByTime(unclustered);
          forall k :: 0 <= k < |sorted| ==>
            (sorted[k] in Members(Groups(events)) <==> Clusterable(FeatureVectors(sorted, cosine), Eps, MinSamples, k)))
      && (var sorted := SortByTime(unclustered);
          && CoreLinked(sorted, FeatureVectors(sorted, cosine), Eps, MinSamples, Groups(events))
          && CoreAnchored(sorted, FeatureVectors(sorted, cosine), Eps, MinSamples, Groups(events)))
    ensures db.events == EventsAfter(old(db.events), events)
    ensures db.entries == LinkAll(old(db.entries), events)
    ensures forall i :: 0 <= i < |old(db.entries)| && !Unlinked(old(db.entries)[i]) ==> db.entries[i] == old(db.entries)[i]
    ensures db.jobs == old(db.jobs) + JobsFor(events, |old(db.jobs)|)
    ensures db.status == PendingFrom(old(db.status), |old(db.jobs)|, 2 * |events|)
    ensures db.statusWrites == old(db.statusWrites)
  {
    hide EventOf;
    var unclustered := Unclustered(db.entries);
    if unclustered == [] {
      return [];
    }
    UnclusteredUnique(db.entries);
    UniqueTimestampsDistinct(unclustered);
    events := ClusterEntries(unclustered, cosine, Eps, MinSamples, newId);
    LinkedKept(db.entries, events);
    StoreEvents(db, events);
  }
}
