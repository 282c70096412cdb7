/** The background job dispatcher of `scheduler.py`: a `running` flag with
    start/stop, one pass of the dispatch loop over a fetched batch of
    pending jobs, and `process_job`, which moves a job to "processing" and
    then to "completed" or "failed" and lets the summary and title handlers
    rewrite one field of the stored event. The AI client is a pair of
    injected reply functions; the idle signal and a stop from another
    thread are parameters. */
module JobScheduler {
  import opened Records
  import opened Store

  /** What an AI call gives back: generated text, or an exception. */
  datatype Reply = Text(s: string) | Raised

  /** `client.generate_summary(text)` and `client.generate_title(text, event_type)`. */
  datatype AiClient = AiClient(summary: Value -> Reply, title: (Value, Value) -> Reply)

  /** `idle_threshold`, in seconds. */
  const IdleThreshold: int := 60

  /** The job types that wait for the user to be idle. */
  const HeavyKinds: seq<string> := ["generate_summary", "generate_title", "generate_embedding"]

  // ---------------------------------------------------------------------
  // Idle detection

  /** A 32-bit unsigned tick count, as Windows reports it. */
  type U32 = x: int | 0 <= x < 0x1_0000_0000

  /** How ctypes reads `GetTickCount()` without a declared return type: as a
      signed C int. */
  function AsCInt(x: U32): (r: int)
    ensures -0x8000_0000 <= r < 0x8000_0000
    ensures r % 0x1_0000_0000 == x
  {
    if x < 0x8000_0000 then x else x - 0x1_0000_0000
  }

  /** `is_idle` as written. `info` is None when `GetLastInputInfo` fails or
      raises, else the tick count and the last input time. */
  predicate IsIdleAsWritten(info: Option<(U32, U32)>) {
    match info
    case None => false
    case Some((tick, last)) => (AsCInt(tick) - last) as real / 1000.0 > IdleThreshold as real
  }

  /** Milliseconds since the last input, on the 32-bit tick clock. */
  function IdleMillis(tick: U32, last: U32): (m: U32)
    ensures last <= tick ==> m == tick - last
    ensures tick < last ==> m == tick - last + 0x1_0000_0000
  {
    (tick - last) % 0x1_0000_0000
  }

  /** `is_idle` with the tick difference taken on the 32-bit clock. */
  predicate IsIdle(info: Option<(U32, U32)>) {
    match info
    case None => false
    case Some((tick, last)) => IdleMillis(tick, last) as real / 1000.0 > IdleThreshold as real
  }

  /** Idle exactly when more than 60000 ms passed since the last input; false
      whenever the query fails. */
  lemma IsIdleSpec(info: Option<(U32, U32)>)
    ensures info.None? ==> !IsIdle(info)
    ensures info.Some? ==> (IsIdle(info) <==> IdleMillis(info.value.0, info.value.1) > 60000)
  {
    if info.Some? {
      var m := IdleMillis(info.value.0, info.value.1);
      assert m as real / 1000.0 > 60.0 <==> m as real > 60000.0;
    }
  }

  /** Once the tick count passes 2^31 (about 24.8 days of uptime) it reads
      as negative, and 70 seconds without input do not count as idle. */
  lemma IsIdleAsWrittenMissesIdleTime()
    ensures var info := Some((0x8001_1170 as U32, 0x8000_0000 as U32));
      && IdleMillis(info.value.0, info.value.1) == 70000
      && !IsIdleAsWritten(info)
      && IsIdle(info)
  {
    var info := Some((0x8001_1170 as U32, 0x8000_0000 as U32));
    assert AsCInt(0x8001_1170) == 0x8001_1170 - 0x1_0000_0000;
    IsIdleSpec(info);
  }

  /** Below 2^31 ticks, with the last input not later than now, both readings agree. */
  lemma IsIdleAgreesEarly(tick: U32, last: U32)
    requires last <= tick < 0x8000_0000
    ensures IsIdleAsWritten(Some((tick, last))) == IsIdle(Some((tick, last)))
  {
  }

  // ---------------------------------------------------------------------
  // Job handlers

  /** `payload.get(key)`. */
  function Get(payload: Payload, key: string): (r: Option<Value>)
    ensures r.Some? <==> key in payload
    ensures r.Some? ==> r.value == payload[key]
  {
    if key in payload then Some(payload[key]) else None
  }

  /** Python truthiness of `payload.get(key)`: present and truthy. */
  predicate Given(v: Option<Value>) {
    v.Some? && Truthy(v.value)
  }

  /** `job.payload.get("force", False)` is truthy. */
  predicate Forced(payload: Payload) {
    Given(Get(payload, "force"))
  }

  /** `job.payload.get("event_type", "activity")`. */
  function EventTypeArg(payload: Payload): (v: Value)
    ensures "event_type" !in payload ==> v == Str("activity")
    ensures "event_type" in payload ==> v == payload["event_type"]
  {
    if "event_type" in payload then payload["event_type"] else Str("activity")
  }

  /** The key `get_event_by_id` is given; events are keyed by strings, so a
      non-string id finds nothing. */
  function EventKey(v: Value): Option<string> {
    match v
    case Str(s) => Some(s)
    case Bool(_) => None
  }

  datatype Field = Description | Title

  function SetField(ev: Event, f: Field, s: string): Event {
    match f
    case Description => ev.(description := s)
    case Title => ev.(title := s)
  }

  /** Fetch the event, replace one field, insert it again under its id; a
      missing event means no write. */
  function Rewrite(events: map<string, Event>, eventId: Value, f: Field, s: string): map<string, Event> {
    var k := EventKey(eventId);
    if k.Some? && k.value in events then
      var ev := events[k.value];
      events[ev.id := SetField(ev, f, s)]
    else events
  }

  /** The handler part of `process_job`: the events afterwards, or None when
      the handler raised. "cluster" and unknown types do nothing. */
  function Handle(events: map<string, Event>, job: Job, ai: AiClient): Option<map<string, Event>> {
    var eventId := Get(job.payload, "event_id");
    var text := Get(job.payload, "text");
    if job.kind == "generate_summary" && Given(eventId) && Given(text) then
      match ai.summary(text.value)
      case Raised => None
      case Text(s) => Some(Rewrite(events, eventId.value, Description, s))
    else if job.kind == "generate_title" && Given(eventId) && Given(text) then
      match ai.title(text.value, EventTypeArg(job.payload))
      case Raised => None
      case Text(s) => Some(Rewrite(events, eventId.value, Title, s))
    else Some(events)
  }

  /** `update_job_status`: an UPDATE that matches no row changes nothing. */
  function SetStatus(status: map<nat, JobStatus>, id: nat, s: JobStatus): map<nat, JobStatus> {
    if id in status then status[id := s] else status
  }

  /** The part of the store the dispatcher changes. */
  datatype State = State(events: map<string, Event>, status: map<nat, JobStatus>, writes: seq<(nat, JobStatus)>)

  /** The final status `process_job` writes. */
  function FinalStatus(events: map<string, Event>, job: Job, ai: AiClient): (s: JobStatus)
    ensures s == Failed <==> Handle(events, job, ai).None?
    ensures s == Completed || s == Failed
  {
    if Handle(events, job, ai).None? then Failed else Completed
  }

  /** The store after `process_job(job)`. */
  function AfterJob(st: State, job: Job, ai: AiClient): (r: State)
    ensures r.writes == st.writes + [(job.id, Processing), (job.id, FinalStatus(st.events, job, ai))]
    ensures r.status == SetStatus(SetStatus(st.status, job.id, Processing), job.id, FinalStatus(st.events, job, ai))
  {
    var h := Handle(st.events, job, ai);
    var final := FinalStatus(st.events, job, ai);
    State(if h.Some? then h.value else st.events,
          SetStatus(SetStatus(st.status, job.id, Processing), job.id, final),
          st.writes + [(job.id, Processing), (job.id, final)])
  }

  /** The store after processing the jobs one after the other. */
  function AfterJobs(st: State, jobs: seq<Job>, ai: AiClient): State
    decreases |jobs|
  {
    if jobs == [] then st
    else AfterJob(AfterJobs(st, jobs[..|jobs| - 1], ai), jobs[|jobs| - 1], ai)
  }

  /** A summary job with an event id and a text, whose AI call returns s,
      stores the fetched event again with only its description replaced. */
  lemma SummaryRewritesDescription(st: State, job: Job, ai: AiClient, s: string)
    requires KeysMatch(st.events)
    requires job.kind == "generate_summary"
    requires Given(Get(job.payload, "event_id")) && Given(Get(job.payload, "text"))
    requires ai.summary(job.payload["text"]) == Text(s)
    ensures var key := EventKey(job.payload["event_id"]);
      AfterJob(st, job, ai).events ==
        if key.Some? && key.value in st.events
        then st.events[key.value := st.events[key.value].(description := s)]
        else st.events
    ensures FinalStatus(st.events, job, ai) == Completed
  {
  }

  /** The same for a title job, which rewrites only the title. */
  lemma TitleRewritesTitle(st: State, job: Job, ai: AiClient, s: string)
    requires KeysMatch(st.events)
    requires job.kind == "generate_title"
    requires Given(Get(job.payload, "event_id")) && Given(Get(job.payload, "text"))
    requires ai.title(job.payload["text"], EventTypeArg(job.payload)) == Text(s)
    ensures var key := EventKey(job.payload["event_id"]);
      AfterJob(st, job, ai).events ==
        if key.Some? && key.value in st.events
        then st.events[key.value := st.events[key.value].(title := s)]
        else st.events
    ensures FinalStatus(st.events, job, ai) == Completed
  {
  }

  /** A job fails exactly when it is a summary or title job with an event id
      and a text whose AI call raised; a failed job writes no event. */
  lemma FailsOnlyWhenAiRaises(st: State, job: Job, ai: AiClient)
    ensures FinalStatus(st.events, job, ai) == Failed <==>
      && Given(Get(job.payload, "event_id")) && Given(Get(job.payload, "text"))
      && ((job.kind == "generate_summary" && ai.summary(job.payload["text"]).Raised?)
          || (job.kind == "generate_title" && ai.title(job.payload["text"], EventTypeArg(job.payload)).Raised?))
    ensures FinalStatus(st.events, job, ai) == Failed ==> AfterJob(st, job, ai).events == st.events
  {
  }

  /** Jobs of other types, and summary or title jobs missing an event id or
      a text, complete without touching the events. */
  lemma NothingToDoCompletes(st: State, job: Job, ai: AiClient)
    requires (job.kind != "generate_summary" && job.kind != "generate_title")
      || !Given(Get(job.payload, "event_id")) || !Given(Get(job.payload, "text"))
    ensures AfterJob(st, job, ai).events == st.events
    ensures FinalStatus(st.events, job, ai) == Completed
  {
  }

  /** A job whose event is not stored completes without a write. */
  lemma MissingEventCompletes(st: State, job: Job, ai: AiClient)
    requires "event_id" in job.payload
    requires var key := EventKey(job.payload["event_id"]); key.None? || key.value !in st.events
    requires FinalStatus(st.events, job, ai) != Failed
    ensures AfterJob(st, job, ai).events == st.events
    ensures FinalStatus(st.events, job, ai) == Completed
  {
  }

  /** Processing touches only the statuses of the processed jobs and appends
      status writes only for them, two per job in order. */
  lemma {:induction false} AfterJobsTouchesOnly(st: State, jobs: seq<Job>, ai: AiClient, id: nat)
    requires forall t :: 0 <= t < |jobs| ==> jobs[t].id != id
    ensures id in AfterJobs(st, jobs, ai).status <==> id in st.status
    ensures id in st.status ==> AfterJobs(st, jobs, ai).status[id] == st.status[id]
    ensures |AfterJobs(st, jobs, ai).writes| == |st.writes| + 2 * |jobs|
    ensures AfterJobs(st, jobs, ai).writes[..|st.writes|] == st.writes
    ensures forall w :: |st.writes| <= w < |AfterJobs(st, jobs, ai).writes| ==> AfterJobs(st, jobs, ai).writes[w].0 != id
    decreases |jobs|
  {
    if jobs != [] {
      var n := |jobs| - 1;
      var prev := AfterJobs(st, jobs[..n], ai);
      AfterJobsTouchesOnly(st, jobs[..n], ai, id);
      var r := AfterJob(prev, jobs[n], ai);
      assert r.writes == prev.writes + [(jobs[n].id, Processing), (jobs[n].id, FinalStatus(prev.events, jobs[n], ai))];
      assert r.writes[..|st.writes|] == prev.writes[..|st.writes|];
    }
  }

  // ---------------------------------------------------------------------
  // Dispatch

  /** The loop's gate: a heavy job runs only when the user is idle or the
      job is forced; every other job always runs. */
  predicate Eligible(job: Job, idle: bool) {
    job.kind !in HeavyKinds || idle || Forced(job.payload)
  }

  /** The positions below `limit` the loop hands to `process_job`, in order. */
  function DispatchedAt(jobs: seq<Job>, limit: nat, idle: nat -> bool): (r: seq<nat>)
    requires limit <= |jobs|
    ensures forall t :: 0 <= t < |r| ==> r[t] < limit
    ensures forall k :: 0 <= k < limit ==> (k in r <==> Eligible(jobs[k], idle(k)))
    ensures forall t, u :: 0 <= t < u < |r| ==> r[t] < r[u]
    decreases limit
  {
    if limit == 0 then []
    else
      var r := DispatchedAt(jobs, limit - 1, idle);
      if Eligible(jobs[limit - 1], idle(limit - 1)) then r + [limit - 1] else r
  }

  function Dispatched(jobs: seq<Job>, limit: nat, idle: nat -> bool): (r: seq<Job>)
    requires limit <= |jobs|
  {
    var at := DispatchedAt(jobs, limit, idle);
    seq(|at|, t requires 0 <= t < |at| => jobs[at[t]])
  }

  /** One more position: the dispatched jobs grow by that job exactly when
      it passes the gate. */
  lemma DispatchedSnoc(jobs: seq<Job>, k: nat, idle: nat -> bool)
    requires k < |jobs|
    ensures Dispatched(jobs, k + 1, idle) ==
      Dispatched(jobs, k, idle) + (if Eligible(jobs[k], idle(k)) then [jobs[k]] else [])
  {
  }

  lemma NothingDispatched(st: State, jobs: seq<Job>, idle: nat -> bool, ai: AiClient)
    ensures Dispatched(jobs, 0, idle) == []
    ensures AfterJobs(st, [], ai) == st
  {
  }

  /** Processing one more job after a run of jobs. */
  lemma AfterJobsSnoc(st: State, jobs: seq<Job>, job: Job, ai: AiClient)
    ensures AfterJobs(st, jobs + [job], ai) == AfterJob(AfterJobs(st, jobs, ai), job, ai)
  {
    assert (jobs + [job])[..|jobs|] == jobs;
  }

  /** A job the gate holds back keeps its status, and no status write
      mentions it, when job ids in the batch are unique. */
  lemma SkippedJobUntouched(st: State, jobs: seq<Job>, limit: nat, idle: nat -> bool, ai: AiClient, k: nat)
    requires limit <= |jobs| && k < |jobs|
    requires forall a, b :: 0 <= a < b < |jobs| ==> jobs[a].id != jobs[b].id
    requires k >= limit || !Eligible(jobs[k], idle(k))
    ensures var after := AfterJobs(st, Dispatched(jobs, limit, idle), ai);
      && (jobs[k].id in after.status <==> jobs[k].id in st.status)
      && (jobs[k].id in st.status ==> after.status[jobs[k].id] == st.status[jobs[k].id])
      && (forall w :: |st.writes| <= w < |after.writes| ==> after.writes[w].0 != jobs[k].id)
  {
    var d := Dispatched(jobs, limit, idle);
    var at := DispatchedAt(jobs, limit, idle);
    forall t | 0 <= t < |d| ensures d[t].id != jobs[k].id {
      assert d[t] == jobs[at[t]];
      assert at[t] != k;
    }
    AfterJobsTouchesOnly(st, d, ai, jobs[k].id);
  }

  ghost function StateOf(db: Database): State
    reads db
  {
    State(db.events, db.status, db.statusWrites)
  }

  class Scheduler {
    var running: bool
    /** `self.thread is not None`. */
    var hasThread: bool

    constructor()
      ensures !running && !hasThread
    {
      running := false;
      hasThread := false;
    }

    /** `start`: a no-op when already running; otherwise sets the flag and
        starts the worker thread. */
    method Start()
      modifies this
      ensures running
      ensures hasThread == (old(hasThread) || !old(running))
    {
      if running {
        return;
      }
      running := true;
      hasThread := true;
    }

    /** `stop`: clears the flag; the thread handle is kept. */
    method Stop()
      modifies this
      ensures !running && hasThread == old(hasThread)
    {
      running := false;
    }

    /** `process_job`. */
    method ProcessJob(db: Database, job: Job, ai: AiClient)
      modifies db
      requires db.Valid()
      ensures db.Valid()
      ensures StateOf(db) == AfterJob(old(StateOf(db)), job, ai)
      ensures db.entries == old(db.entries) && db.jobs == old(db.jobs)
    {
      db.UpdateJobStatus(job.id, Processing);
      var failed := false;
      var eventId := Get(job.payload, "event_id");
      var text := Get(job.payload, "text");
      if job.kind == "cluster" {
      } else if job.kind == "generate_summary" {
        if Given(eventId) && Given(text) {
          var reply := ai.summary(text.value);
          if reply.Raised? {
            failed := true;
          } else {
            var key := EventKey(eventId.value);
            var ev := if key.Some? then db.GetEventById(key.value) else None;
            if ev.Some? {
              db.InsertEvent(ev.value.(description := reply.s));
            }
          }
        }
      } else if job.kind == "generate_title" {
        var eventType := EventTypeArg(job.payload);
        if Given(eventId) && Given(text) {
          var reply := ai.title(text.value, eventType);
          if reply.Raised? {
            failed := true;
          } else {
            var key := EventKey(eventId.value);
            var ev := if key.Some? then db.GetEventById(key.value) else None;
            if ev.Some? {
              db.InsertEvent(ev.value.(title := reply.s));
            }
          }
        }
      }
      if failed {
        db.UpdateJobStatus(job.id, Failed);
      } else {
        db.UpdateJobStatus(job.id, Completed);
      }
    }

    /** One pass of `_loop` over a fetched batch of pending jobs. `idle(k)`
        is what `is_idle()` answers when job k is examined; a `stop()` from
        another thread takes effect before job `stopAt` is examined. */
    method RunIteration(db: Database, jobs: seq<Job>, ai: AiClient, idle: nat -> bool, stopAt: nat)
      modifies this, db
      requires db.Valid()
      ensures db.Valid()
      ensures running == (old(running) && stopAt >= |jobs|)
      ensures var limit := if !old(running) then 0 else if stopAt < |jobs| then stopAt else |jobs|;
        StateOf(db) == AfterJobs(old(StateOf(db)), Dispatched(jobs, limit, idle), ai)
      ensures db.entries == old(db.entries) && db.jobs == old(db.jobs)
      ensures hasThread == old(hasThread)
    {
      hide AfterJobs, AfterJob, Dispatched, DispatchedAt;
      var k := 0;
      NothingDispatched(old(StateOf(db)), jobs, idle, ai);
      while k < |jobs|
        invariant 0 <= k <= |jobs|
        invariant db.Valid()
        invariant running == (old(running) && k <= stopAt)
        invariant old(running) ==> k <= stopAt
        invariant old(running) || k == 0
        invariant StateOf(db) == AfterJobs(old(StateOf(db)), Dispatched(jobs, k, idle), ai)
        invariant db.entries == old(db.entries) && db.jobs == old(db.jobs)
        invariant hasThread == old(hasThread)
      {
        if k == stopAt {
          running := false;
        }
        if !running {
          break;
        }
        var job := jobs[k];
        DispatchedSnoc(jobs, k, idle);
        if job.kind in HeavyKinds && !idle(k) && !Forced(job.payload) {
          assert Dispatched(jobs, k + 1, idle) == Dispatched(jobs, k, idle) + [];
          assert Dispatched(jobs, k + 1, idle) == Dispatched(jobs, k, idle);
          k := k + 1;
          continue;
        }
        AfterJobsSnoc(old(StateOf(db)), Dispatched(jobs, k, idle), job, ai);
        ProcessJob(db, job, ai);
        k := k + 1;
      }
    }
  }
}
