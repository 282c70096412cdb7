/** The backend's persistent state as the segmenter and the job dispatcher see
    it: capture records, events keyed by id, and the job queue. Only the
    effect of each store call is modelled, not SQL. */
module Store {
  import opened Records

  /** A job payload value; payloads are JSON objects in the job table. */
  datatype Value = Str(s: string) | Bool(b: bool)

  /** Python truthiness of a payload value. */
  predicate Truthy(v: Value) {
    match v
    case Str(s) => s != ""
    case Bool(b) => b
  }

  type Payload = map<string, Value>

  /** `payload.get(key)` read as a string: "" when the key is missing or holds
      a non-string. */
  function StrOf(payload: Payload, key: string): (s: string)
    ensures key in payload && payload[key].Str? ==> s == payload[key].s
    ensures (key !in payload || !payload[key].Str?) ==> s == ""
  {
    if key in payload && payload[key].Str? then payload[key].s else ""
  }

  datatype JobStatus = Pending | Processing | Completed | Failed

  datatype Job = Job(id: nat, kind: string, payload: Payload)

  datatype Stats = Stats(screenshotCount: nat, topApps: seq<(string, nat)>, wordCount: nat)

  /** A stored event. The thumbnail and tag lists are built from sets in
      arbitrary order and are kept as sets here. */
  datatype Event = Event(
    id: string,
    startTime: int,
    endTime: int,
    title: string,
    description: string,
    kind: string,
    stats: Stats,
    heroImage: string,
    thumbnails: set<string>,
    tags: set<string>)

  /** `UPDATE entries SET event_id = ? WHERE id = ?`. */
  function LinkEntry(entries: seq<Entry>, entryId: int, eventId: string): (r: seq<Entry>)
    ensures |r| == |entries|
    ensures forall i :: 0 <= i < |r| ==>
      r[i] == if entries[i].id == entryId then entries[i].(eventId := Some(eventId)) else entries[i]
  {
    seq(|entries|, i requires 0 <= i < |entries| =>
      if entries[i].id == entryId then entries[i].(eventId := Some(eventId)) else entries[i])
  }

  predicate UniqueIds(entries: seq<Entry>) {
    forall i, j :: 0 <= i < j < |entries| ==> entries[i].id != entries[j].id
  }

  /** The events table is keyed by the event's own id. */
  predicate KeysMatch(events: map<string, Event>) {
    forall k :: k in events ==> events[k].id == k
  }

  class Database {
    var entries: seq<Entry>
    var events: map<string, Event>
    /** The job table in insertion order; a job's id is its position. */
    var jobs: seq<Job>
    var status: map<nat, JobStatus>
    /** Every status write, in order. */
    ghost var statusWrites: seq<(nat, JobStatus)>

    /** The table constraints: entry ids and timestamps are unique, every
        event is stored under its own id, job ids are assigned in sequence. */
    predicate Valid()
      reads this
    {
      && UniqueIds(entries)
      && UniqueTimestamps(entries)
      && KeysMatch(events)
      && (forall i :: 0 <= i < |jobs| ==> jobs[i].id == i)
    }

    constructor(entries: seq<Entry>)
      requires UniqueIds(entries) && UniqueTimestamps(entries)
      ensures Valid()
      ensures this.entries == entries && events == map[] && jobs == [] && status == map[] && statusWrites == []
    {
      this.entries := entries;
      events := map[];
      jobs := [];
      status := map[];
      statusWrites := [];
    }

    /** `insert_event`: stores the event under its id, replacing any event
        with that id. */
    method InsertEvent(ev: Event)
      modifies this
      requires Valid()
      ensures Valid()
      ensures events == old(events)[ev.id := ev]
      ensures entries == old(entries) && jobs == old(jobs) && status == old(status)
      ensures statusWrites == old(statusWrites)
    {
      events := events[ev.id := ev];
    }

    /** `get_event_by_id`. */
    function GetEventById(id: string): (r: Option<Event>)
      reads this
      ensures r.Some? <==> id in events
      ensures r.Some? ==> r.value == events[id]
    {
      if id in events then Some(events[id]) else None
    }

    /** `insert_job`: appends a pending job with the next id. */
    method InsertJob(kind: string, payload: Payload) returns (id: nat)
      modifies this
      requires Valid()
      ensures Valid()
      ensures id == |old(jobs)|
      ensures jobs == old(jobs) + [Job(id, kind, payload)]
      ensures status == old(status)[id := Pending]
      ensures entries == old(entries) && events == old(events)
      ensures statusWrites == old(statusWrites)
    {
      id := |jobs|;
      jobs := jobs + [Job(id, kind, payload)];
      status := status[id := Pending];
    }

    /** `update_job_status`: an UPDATE by id, which changes nothing when no job
        has that id. */
    method UpdateJobStatus(id: nat, s: JobStatus)
      modifies this
      ensures status == if id in old(status) then old(status)[id := s] else old(status)
      ensures statusWrites == old(statusWrites) + [(id, s)]
      ensures entries == old(entries) && events == old(events) && jobs == old(jobs)
    {
      if id in status {
        status := status[id := s];
      }
      statusWrites := statusWrites + [(id, s)];
    }

    /** Links the entry with the given id to an event. */
    method SetEntryEvent(entryId: int, eventId: string)
      modifies this
      requires Valid()
      ensures Valid()
      ensures entries == LinkEntry(old(entries), entryId, eventId)
      ensures events == old(events) && jobs == old(jobs) && status == old(status)
      ensures statusWrites == old(statusWrites)
    {
      entries := LinkEntry(entries, entryId, eventId);
    }
  }
}
