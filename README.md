# openrecall activity sessions, in Dafny

openrecall takes a screenshot every few seconds and stores one capture record
per shot: the id, the foreground app, the window title, the OCR text, a
timestamp, an optional embedding and a language. This project models the part
of openrecall that turns those records into activity sessions ("events"). It
also models the jobs that later enrich each session with AI text, and the
frontend helpers that display and search sessions.

- **Backend segmentation** (`openrecall/clustering.py`).
  - Each record gets a feature 4-vector relative to its predecessor.
  - A DBSCAN-style pass groups records whose weighted distance is within `eps`.
  - Each group becomes an event: start and end, hero image, thumbnails, top apps, word count, tags, and a placeholder title.
  - `run_clustering` clusters the records that are not yet linked. It stores each event, links its members to it, and enqueues a summary job and a title job.
- **Job scheduler** (`openrecall/scheduler.py`).
  - A `running` flag with start and stop.
  - One pass of the dispatch loop over a batch of pending jobs. Heavy jobs wait for the user to be idle unless forced.
  - `process_job` moves a job to processing and then to completed or failed. The summary and title handlers rewrite one field of the stored event.
  - The store is a `Database` class. It holds the records, the event map, the job list, the job-status map and the log of status writes.
- **Frontend segmentation** (`src/features/clustering/cluster.ts`). The same pipeline with its own differences:
  - there is no 7200 s hard split;
  - a cluster is kept only if it has at least `minSamples` members;
  - the seed record is pushed twice;
  - tags are capped at 10 and include words from the text.
- **Frontend utilities** (`src/lib/utils.ts`): duration and "time ago" rendering, `groupBy`, cosine similarity and the productivity score.
- **Search** (`src/features/search/searchIndex.ts`).
  - The index state (`eventsData` and the Fuse index) is a `SearchIndex` class.
  - `performSearch` merges keyword and semantic results, then deduplicates, sorts and limits them.
  - The advanced-search filters.
  - The search suggestions.

How values are modelled:
- Numbers are `real` or `int`. The distance test compares the squared weighted distance with `eps * eps`, which is the same test as `sqrt(d) <= eps` for `eps >= 0`.
- Things the code calls but does not compute are injected as parameters: cosine similarity of two embeddings in the clustering passes, `Math.sqrt`, fresh ids, the AI text, the Fuse search and the query embedding.
- A JavaScript `Set` or `Object.entries` result is a sequence in insertion order (`Seqs.Uniq`, `Tally.Counts`). A Python `set` is a Dafny `set`.
- The record store is read newest-first (`openrecall/database.py:59`). The backend pass sorts the records by timestamp first (`openrecall/clustering.py:65`). The frontend pass takes them in the order it is given and sorts only each cluster (`src/features/clustering/cluster.ts:117`).
- Timestamps are unique in the store (`openrecall/database.py:31`). Under that precondition, Python's `in`, which compares records by value, agrees with index identity.
- JavaScript's `indexOf` and `includes` compare record objects by reference. The model compares them by value; the two agree as long as no record is listed twice as two separate objects.

Modules:
- `Records`: the capture record, event types, and sorting by time.
- `Metric`: features, the weighted distance and the region query. The two languages use the same metric.
- `Clustering` and `ClusteringRun`: `clustering.py`.
- `Store`: the abstract store.
- `JobScheduler`: `scheduler.py`.
- `FrontModels` and `FrontCluster`: `models.ts` and `cluster.ts`.
- `Utils`: `utils.ts`.
- `Search`: `searchIndex.ts`.
- `Seqs`, `Text` and `Tally`: shared sequence, string and counting helpers.

In the DBSCAN statements below:
- a point is *core* when at least `minSamples` points lie within `eps` of it;
- a point is *clusterable* when it is core or is within `eps` of a core point;
- clusters are *core-linked* when two core points within `eps` of each other always share a cluster: if one is in cluster p, so is the other (`CoreLinked`);
- a cluster is *anchored* when each of its members is core or is within `eps` of a core point that is a member of the same cluster (`Anchored`, and `CoreAnchored` for every cluster).

## Model

| member | source | states |
|---|---|---|
| Clustering.TimeFeature | openrecall/clustering.py:16-23 | the time feature is 10.0 exactly when the gap exceeds 7200 s; otherwise it is at most 1.0, and it is at least 0 for a non-negative gap |
| Clustering.FeatureFacts | openrecall/clustering.py:10-52 | the first record's features are [0, 0, 1.0, 0.5]; the app feature is 1.0 iff the app changed; the title feature is 1.0 iff the titles are equal or the record is first, and 0.5 iff they differ; the embedding feature is 0.5 when either embedding is missing; for records in time order the time feature is in [0,1] or is exactly 10.0, and it is 10.0 iff the gap exceeds 7200 s |
| Clustering.ExtractFeatures | openrecall/clustering.py:10-52 | one feature record per input record, in input order, each carrying its own record and the features of its position |
| Metric.SqDistance | openrecall/clustering.py:54-58 | the squared weighted distance with weights 0.4, 0.3, 0.2 and 0.1 is never negative |
| Metric.NearSymmetric | openrecall/clustering.py:54-58 | the distance is symmetric, and so is being within `eps` |
| Metric.NearSelf | openrecall/clustering.py:54-58 | the distance from a vector to itself is zero, so a point is within `eps` of itself iff `eps >= 0` |
| Metric.HardSplitSeparates | openrecall/clustering.py:20-21 | a point with time feature 10.0 is never within any eps up to 5.0 of a point whose time feature is at most 1.0, in either direction (0.4 × 81 > 25) |
| Metric.Region | openrecall/clustering.py:74-79 | the region of a point is, in increasing index order, exactly the indices whose vectors are within `eps` of it |
| Metric.RegionHasSelf | openrecall/clustering.py:74-79 | for `eps >= 0` a point's region contains the point, so the region is never empty |
| Metric.RegionQuery | openrecall/clustering.py:74-79 | the loop returns exactly the region of the point |
| Clustering.InAnyCluster | openrecall/clustering.py:98-103 | the scan returns true iff the record is a member of some earlier cluster |
| Clustering.AppendAbsent | openrecall/clustering.py:94-96 | the neighbour list grows by appending only: the old list is a prefix, the new list holds the old neighbours and the new region, and it stays free of duplicates |
| Clustering.ExpandCluster | openrecall/clustering.py:81-112 | the grown cluster starts with the seed and is free of duplicates; every member is an input record in no earlier cluster and is clusterable; every newly visited point ends up in this cluster or an earlier one and is within `eps` of a core point whose record is in this cluster; every core point visited so far has its whole region inside the clusters; the cluster is anchored |
| Clustering.Segment | openrecall/clustering.py:114-126 | clusters are non-empty, free of duplicates and pairwise disjoint, and hold only input records; a record is in some cluster iff its point is clusterable; the clusters are core-linked and anchored; noise holds only non-core points and every point that is not clusterable |
| Clustering.AnchorStep | openrecall/clustering.py:114-126 | appending an anchored cluster to anchored clusters keeps every cluster anchored |
| Clustering.ClaimStep | openrecall/clustering.py:114-126 | appending a cluster that holds no record of the earlier clusters keeps "no later cluster holds a neighbour of an earlier cluster's core member", provided the earlier clusters hold the whole region of each of their core members |
| Clustering.LinkedByClaim | openrecall/clustering.py:114-126 | disjoint clusters that hold the whole region of each visited core member, where no later cluster takes a neighbour of an earlier core member, are core-linked |
| Clustering.ClassifyEventType | openrecall/clustering.py:136-157 | the first-match classifier (coding, gaming, video, meeting, else browsing) never answers "other" |
| Clustering.ClassifySpec | openrecall/clustering.py:136-157 | the type is coding iff an app has a coding keyword; gaming iff not coding and an app or a title has a gaming keyword; then video by app; then meeting by title; browsing iff nothing matches |
| Clustering.ClassifyPermutation | openrecall/clustering.py:136-157 | the type depends only on the multiset of records, not on their order |
| Clustering.ImageNameInjective | openrecall/clustering.py:168 | distinct timestamps give distinct image names |
| Clustering.ThumbnailCount | openrecall/clustering.py:170-176 | for records with unique timestamps the thumbnail set holds min(n, 3) images |
| Clustering.TagSetMembers | openrecall/clustering.py:186-190 | a tag is an app of some record, or a language of some record that is neither empty nor "unknown", and every such app and language is a tag |
| Clustering.TagSetPermutation | openrecall/clustering.py:186-190 | the tag set does not depend on the order of the records |
| Clustering.CollectTags | openrecall/clustering.py:186-190 | the loop builds exactly the tag set |
| Clustering.BuildEvent | openrecall/clustering.py:161-216 | the event assembled from sorted members is the event the specification function describes |
| Clustering.CreateEventFromCluster | openrecall/clustering.py:159-216 | the members are the cluster sorted by timestamp, and the event is built from them |
| Clustering.EventSpan | openrecall/clustering.py:160-193 | start ≤ end; every member's timestamp lies between them; both are members' timestamps; the screenshot count is the member count |
| Clustering.EventOrderFree | openrecall/clustering.py:164-202 | type, title ("<Type> Session") and tags depend only on which records the cluster holds; the type is never "other" |
| Clustering.EventImages | openrecall/clustering.py:167-176 | the hero image is one of the thumbnails; with unique timestamps there are min(n, 3) thumbnails |
| Clustering.EventTopApps | openrecall/clustering.py:179-180 | at most 5 pairs with distinct apps, sorted by count descending, each the true count of an app of the members; an app left out means 5 pairs were kept, each counted at least as often |
| Clustering.EventsFromClusters | openrecall/clustering.py:128-134 | one event per cluster, in cluster order; event p is built from cluster p with id `newId(p)` |
| Clustering.EventIdsDistinct | openrecall/clustering.py:199 | when the id source never repeats an id, as `uuid.uuid4()` is meant to, no two events share an id |
| Clustering.BuildEvents | openrecall/clustering.py:128-134 | the loop builds exactly those events |
| Clustering.EventGroupsMembers | openrecall/clustering.py:128-134 | the events' member groups are the clusters, one per cluster, with the same records |
| Clustering.SameGroupsLinked | openrecall/clustering.py:128-134 | being core-linked and being anchored depend only on which records each group holds |
| Clustering.ClusterEntries | openrecall/clustering.py:60-134 | `[]` for no records; each event's members are non-empty, free of duplicates, in time order and describe the event; groups are pairwise disjoint and hold only input records; a record is in an event iff it is clusterable in the time-sorted feature sequence; over that sequence the event groups are core-linked and anchored |
| Records.SortByTime | openrecall/clustering.py:65 | sorting by timestamp gives a time-ordered permutation of the input |
| Records.SortedStrictly | openrecall/database.py:31 | with unique timestamps the sorted records are strictly increasing in time |
| Records.TypeNameInjective | openrecall/clustering.py:211 | the stored type names of distinct event types differ |
| ClusteringRun.Unclustered | openrecall/clustering.py:236 | exactly the records without an event id, in order |
| ClusteringRun.UnclusteredUnique | openrecall/clustering.py:236 | filtering keeps timestamps unique |
| ClusteringRun.CombinedTextLines | openrecall/clustering.py:265 | when no field holds a newline, splitting the combined text at newlines gives back one "app: title - text" line per member |
| ClusteringRun.LinkGroup | openrecall/clustering.py:256-260 | exactly the records whose ids belong to the members get the event id; all others are unchanged |
| ClusteringRun.LinkTarget | openrecall/clustering.py:249-260 | a record id has a target event iff it belongs to some event's members, and the target is such an event |
| ClusteringRun.LinkAll | openrecall/clustering.py:249-260 | after all events, each record carries its target event's id, or is unchanged when it has none |
| ClusteringRun.LinkAllOfGroups | openrecall/clustering.py:249-260 | with unique ids and disjoint groups, every member of event p carries p's id, and records outside all events are unchanged |
| ClusteringRun.EventsAfter | openrecall/clustering.py:251 | the stored event keys are the old keys plus one per new event |
| ClusteringRun.EventsAfterLookup | openrecall/clustering.py:251 | with distinct event ids each new event is stored under its id, and other stored events are untouched |
| ClusteringRun.JobsFor | openrecall/clustering.py:267-276 | two jobs per event, in order: a `generate_summary` job and then a `generate_title` job, with consecutive ids and their payloads |
| ClusteringRun.JobsForEvents | openrecall/clustering.py:267-276 | job k has id base + k and carries the id of event k / 2 as "event_id" |
| ClusteringRun.PendingFrom | openrecall/clustering.py:267-276 | the new job ids are pending and all other statuses are unchanged |
| ClusteringRun.LinkMembers | openrecall/clustering.py:254-261 | the update loop links exactly the members and changes nothing else in the store |
| ClusteringRun.StoreEvent | openrecall/clustering.py:249-276 | one event: it is stored, its members are linked, two pending jobs are appended, and nothing else changes |
| ClusteringRun.StoreEvents | openrecall/clustering.py:249-276 | the whole loop's effect on events, records, jobs and statuses |
| ClusteringRun.LinkedKept | openrecall/clustering.py:236-260 | when the events' members are unlinked records with unique ids, linking leaves every record that already had an event id unchanged |
| ClusteringRun.RunClustering | openrecall/clustering.py:218-276 | the events returned come from clustering the unlinked records (none when there are none), with the same guarantees as `ClusterEntries` (membership iff clusterable, core-linked, anchored), and the store is updated as `StoreEvents` states; a record that already had an event id keeps it unchanged |
| JobScheduler.AsCInt | openrecall/scheduler.py:134 | ctypes' signed C int reading of a 32-bit tick count: in range, and equal to it modulo 2^32 |
| JobScheduler.IdleMillis | openrecall/scheduler.py:134 | the time since the last input on the 32-bit tick clock, including across a wrap |
| JobScheduler.IsIdleSpec | openrecall/scheduler.py:122-138 | the (corrected) idle test is false when the query fails and otherwise true iff more than 60000 ms passed |
| JobScheduler.IsIdleAsWrittenMissesIdleTime | openrecall/scheduler.py:133-135 | at tick 0x80011170 with the last input at 0x80000000 (70 s idle) the code as written answers not idle |
| JobScheduler.IsIdleAgreesEarly | openrecall/scheduler.py:133-135 | below 2^31 ticks the code as written and the corrected test agree |
| JobScheduler.Get | openrecall/scheduler.py:84-85 | `payload.get(key)` is present iff the key is, with its value |
| JobScheduler.EventTypeArg | openrecall/scheduler.py:104 | the event type argument defaults to "activity" |
| JobScheduler.FinalStatus | openrecall/scheduler.py:115-120 | a job ends completed or failed, and failed iff its handler raises |
| JobScheduler.AfterJob | openrecall/scheduler.py:70-120 | processing writes "processing" and then the final status for the job, in that order |
| JobScheduler.SummaryRewritesDescription | openrecall/scheduler.py:83-99 | with an event id and text, a summary job replaces only the description of the stored event, if it exists, and completes |
| JobScheduler.TitleRewritesTitle | openrecall/scheduler.py:101-113 | with an event id and text, a title job replaces only the title of the stored event, if it exists, and completes |
| JobScheduler.FailsOnlyWhenAiRaises | openrecall/scheduler.py:83-120 | a job fails iff it has an event id and text and its AI call raises; a failed job writes no event |
| JobScheduler.NothingToDoCompletes | openrecall/scheduler.py:75-115 | "cluster" and unknown types, or a missing event id or text: no event write, and the job completes |
| JobScheduler.MissingEventCompletes | openrecall/scheduler.py:94-115 | if the event is not found, nothing is written and the job completes |
| JobScheduler.AfterJobsTouchesOnly | openrecall/scheduler.py:59-120 | processing a batch never touches the status of a job outside the batch, and only appends to the status-write log |
| JobScheduler.DispatchedAt | openrecall/scheduler.py:46-59 | the positions passed to `process_job`, in order: exactly those before the stop with a light type, an idle check that succeeded, or `force` |
| JobScheduler.SkippedJobUntouched | openrecall/scheduler.py:51-57 | a heavy job skipped for lack of idleness or force, or one after the stop, keeps its status and gets no status write |
| JobScheduler.Scheduler.constructor | openrecall/scheduler.py:15-19 | a new scheduler is not running and has no thread |
| JobScheduler.Scheduler.Start | openrecall/scheduler.py:21-26 | afterwards it is running; a thread is created only if it was not already running |
| JobScheduler.Scheduler.Stop | openrecall/scheduler.py:29-33 | afterwards it is not running, and the thread field is kept |
| JobScheduler.Scheduler.ProcessJob | openrecall/scheduler.py:70-120 | the store's events, statuses and status writes become `AfterJob` of the old state; records and jobs are untouched |
| JobScheduler.Scheduler.RunIteration | openrecall/scheduler.py:36-65 | one pass over a batch: the dispatched jobs, up to a stop at position `stopAt`, are processed in order, and `running` is false afterwards iff a stop came within the batch (or it was already stopped) |
| Store.StrOf | openrecall/scheduler.py:84-85 | the string value of a payload key, or "" when it is absent or not a string |
| Store.LinkEntry | openrecall/clustering.py:257-260 | `UPDATE entries SET event_id = ? WHERE id = ?` changes exactly the records with that id |
| Store.Database.constructor | openrecall/database.py:45-59 | a store holding the records, with no events, jobs or statuses |
| Store.Database.InsertEvent | openrecall/clustering.py:251 | the event is stored under its id, replacing any earlier one, and nothing else changes |
| Store.Database.GetEventById | openrecall/scheduler.py:94 | the stored event with that id, or none |
| Store.Database.InsertJob | openrecall/clustering.py:267-276 | a new pending job with the next id is appended, and nothing else changes |
| Store.Database.UpdateJobStatus | openrecall/scheduler.py:72 | the job status is set if the job exists, the write is logged, and nothing else changes |
| Store.Database.SetEntryEvent | openrecall/clustering.py:257-260 | one record update, as `LinkEntry` states |
| Tally.SortDesc | src/features/clustering/cluster.ts:252 | a stable sort by count descending gives a sorted permutation |
| Tally.TopCountsSpec | src/features/clustering/cluster.ts:246-254 | the top k of a tally has min(k, number of distinct keys) pairs with distinct keys, sorted by count descending, and each is the true count of an element; a key left out means k pairs were kept, each counted at least as often |
| Seqs.Uniq | src/features/clustering/cluster.ts:131-141 | a set filled in insertion order lists distinct elements of the input |
| Seqs.UniqSnoc | src/features/clustering/cluster.ts:131-141 | adding an element to such a set appends it iff it is new |
| Text.Lower | src/features/clustering/cluster.ts:37 | lower-casing maps each character on its own and keeps the length |
| Text.SplitOnJoin | openrecall/clustering.py:265 | splitting at a separator and joining back with it gives the input |
| Text.LongWordsMembers | src/features/clustering/cluster.ts:232-262 | the kept words are the words longer than the bound that are not stop words |
| FrontCluster.ExtractFeatures | src/features/clustering/cluster.ts:6-40 | one record per input record, each with its own entry, the features of its first occurrence, and the text "app title text" lower-cased |
| FrontCluster.FeatureFacts | src/features/clustering/cluster.ts:11-25 | the first record's features are [0, 0, 1, 0.5]; the time feature is min(Δ/3600, 1) with no hard split; the app feature is 1 iff the app changed and 0 otherwise; the title feature is 1 iff titles are equal or the record is first, and 0.5 iff they differ; the embedding feature is 0.5 when either embedding is missing |
| FrontCluster.RepeatedEntryFeatures | src/features/clustering/cluster.ts:12 | `indexOf` finds the first equal record, so a repeated record gets the features of its first occurrence |
| FrontCluster.NoHardSplit | src/features/clustering/cluster.ts:17 | a gap above 7200 s gives time feature 1, where the backend gives 10 |
| FrontCluster.ExpandCluster | src/features/clustering/cluster.ts:70-91 | it reports a keepable cluster iff the cluster has at least `minSamples` members; the cluster starts with the seed, its other members are distinct, and for `eps >= 0` they include the seed again, because the seed is in its own region; members are input records in no finished cluster, and clusterable; newly visited points are within `eps` of some core point and end up in this cluster or a finished one; every core point visited in this expansion, the seed included, has its whole region inside the clusters; the cluster is anchored |
| FrontCluster.Segment | src/features/clustering/cluster.ts:93-107 | kept clusters have at least `minSamples` members, start with their seed followed by distinct members (the seed among them for `eps >= 0`), hold input records, and are pairwise disjoint; members are clusterable; the clusters are anchored; noise holds only non-core points and every point that is not clusterable; when `eps >= 0` and `minSamples <= 2`, as with the defaults 0.3 and 2, the clusters are also core-linked and every clusterable point is in a kept cluster |
| FrontCluster.AllKeptEnd | src/features/clustering/cluster.ts:93-107 | when no cluster is dropped, the finished clusters are core-linked and hold every clusterable point |
| FrontCluster.ClassifySpec | src/features/clustering/cluster.ts:176-203 | the type is coding iff an app has a coding keyword; gaming iff not coding and an app or a title mentions games; then video by app; then meeting by title; browsing otherwise; never "other" |
| FrontCluster.ClassifyPermutation | src/features/clustering/cluster.ts:176-203 | the type does not depend on the order of the records |
| FrontCluster.EventTitleInjective | src/features/clustering/cluster.ts:206-217 | each event type has its own label |
| FrontCluster.ImagePathInjective | src/features/clustering/cluster.ts:128 | distinct timestamps give distinct image paths |
| FrontCluster.WordCountAtLeast | src/features/clustering/cluster.ts:142 | `split(' ')` counts at least one word per record, even for empty text |
| FrontCluster.ExtractTags | src/features/clustering/cluster.ts:220-243 | the loop builds exactly the first ten tags of the insertion-ordered tag stream |
| FrontCluster.TagStreamMembers | src/features/clustering/cluster.ts:223-240 | a string enters the tag set iff it is an app, a language other than "unknown", or a lower-cased word of more than 3 characters not in the common-word list |
| FrontCluster.TagsFacts | src/features/clustering/cluster.ts:220-243 | at most 10 distinct tags, each from one of those three sources; "unknown" is a tag only as an app or a word; with at most 10 candidates every app is a tag |
| FrontCluster.WordStreamMembers | src/features/clustering/cluster.ts:260-266 | a counted word is a lower-cased word of some record, longer than 2 characters and not a stop word |
| FrontCluster.GetTopApps | src/features/clustering/cluster.ts:246-254 | the loop and sort give the top 5 of the app tally |
| FrontCluster.GetTopWords | src/features/clustering/cluster.ts:256-271 | the loop and sort give the top 10 of the word tally |
| FrontCluster.TopWordsFacts | src/features/clustering/cluster.ts:256-271 | at most 10 pairs with distinct words, sorted by count descending; each word is longer than 2 characters, not a stop word, and occurs in some record, and each count is the true count |
| FrontCluster.BuildEvent | src/features/clustering/cluster.ts:119-172 | the event assembled from sorted members is the specified event |
| FrontCluster.EventOfFields | src/features/clustering/cluster.ts:119-172 | id, entries, start and end, duration, count, type, title label, hero image at n/2, and de-duplicated thumbnails, field by field |
| FrontCluster.ThumbnailsAdded | src/features/clustering/cluster.ts:131-138 | adding first, then last if n > 1, then hero if n > 2 to the set gives the de-duplicated thumbnail list |
| FrontCluster.CreateEventFromCluster | src/features/clustering/cluster.ts:114-173 | it fails with "Empty cluster" iff the cluster is empty; otherwise it builds the event from the cluster sorted by time |
| FrontCluster.EventSpan | src/features/clustering/cluster.ts:119-165 | start ≤ end; duration = end − start ≥ 0; every member lies between them; the count is the cluster size; type and title depend only on the cluster's records; never "other" |
| FrontCluster.EventImages | src/features/clustering/cluster.ts:127-138 | the hero image is a thumbnail; there are one to three distinct thumbnails, the first being the start image |
| FrontCluster.EventsFromClusters | src/features/clustering/cluster.ts:110 | it fails iff some cluster is empty; otherwise there is one event per cluster, event p built from cluster p with id `newId(p)` |
| FrontCluster.EventIdsDistinct | src/features/clustering/cluster.ts:153 | when `generateId()` never repeats an id, no two built events share an id |
| FrontCluster.BuildEvents | src/features/clustering/cluster.ts:110 | the loop gives exactly those events |
| FrontCluster.ClusterEntries | src/features/clustering/cluster.ts:43-111 | success; `[]` for no records; each event has at least `minSamples` members in time order, one of them repeated when `eps >= 0`, all input records; groups are pairwise disjoint; a record is in an event only if clusterable; the groups are anchored; when `eps >= 0` and `minSamples <= 2` (the defaults) every clusterable record is in an event and the groups are core-linked |
| FrontCluster.BuiltEvents | src/features/clustering/cluster.ts:110-172 | events built from the clusters keep the clusters' members, sorted, and their disjointness |
| Utils.JsRem | src/lib/utils.ts:15-16 | JavaScript's `%` takes the sign of the dividend |
| Utils.DurationPartsSpec | src/lib/utils.ts:14-16 | for non-negative seconds: hours·3600 + minutes·60 + secs = seconds, with minutes and secs below 60 |
| Utils.FormatDurationShape | src/lib/utils.ts:18-24 | "Hh Mm Ss" when there are hours, "Mm Ss" when there are only minutes, "Ss" otherwise |
| Utils.ParseFormatDuration | src/lib/utils.ts:13-25 | reading back a rendered duration gives the seconds it was made from |
| Utils.TimeAgoSpec | src/lib/utils.ts:27-35 | "just now" iff diff < 60, then "Nm ago" with N whole minutes (1 to 59) below 3600, "Nh ago" with N whole hours (1 to 23) below 86400, else "Nd ago" with N ≥ 1 whole days |
| Utils.KeysOf | src/lib/utils.ts:43 | the key of every item, in order |
| Utils.GroupBy | src/lib/utils.ts:38-48 | the loop leaves keys and groups as `Grouped` describes them |
| Utils.SelectMembers | src/lib/utils.ts:45 | an item is in the group of a key iff it is an input item with that key |
| Utils.GroupsPartition | src/lib/utils.ts:38-48 | over distinct keys covering every item, the groups together hold exactly the input items |
| Utils.GroupByFacts | src/lib/utils.ts:38-48 | keys are first-seen and distinct; a key has a group iff some item has it; each item is in its key's group and each group holds only items with its key; the groups partition the input |
| Utils.Mul | src/lib/utils.ts:59-61 | the sign of a product |
| Utils.NormProduct | src/lib/utils.ts:66 | with positive norms, the denominator is positive |
| Utils.CosineSimilarity | src/lib/utils.ts:51-67 | the loop computes the specified similarity |
| Utils.NormZero | src/lib/utils.ts:64 | a squared norm is 0 iff every component is 0 |
| Utils.SimilarityFacts | src/lib/utils.ts:52-64 | 0 when the lengths differ or either vector is all zeros; symmetric in its arguments |
| Utils.CountApps | src/lib/utils.ts:97-99 | a filter keeps at most all entries |
| Utils.Clamp | src/lib/utils.ts:105 | the result is in [0, 100] and equals its input inside that range |
| Utils.ProductivityFacts | src/lib/utils.ts:94-106 | 0 for no entries; always in [0, 100]; 0 when no app is a coding app; 100 when every app is a coding app and none is a game or a browser |
| Search.SearchDataMembers | src/features/search/searchIndex.ts:14-29 | the index holds exactly one document per (event, entry) pair |
| Search.FuseSimilarityAsWrittenInverts | src/features/search/searchIndex.ts:61-75 | as written, a perfect Fuse score 0 gives similarity 0, below the 0.75 of a worse score 0.25 |
| Search.FuseSimilarity | src/features/search/searchIndex.ts:61-75 | corrected: a missing score gives 0, a perfect score gives 1, and a score in [0,1] gives a similarity in [0,1] |
| Search.FuseSimilarityOrder | src/features/search/searchIndex.ts:61-75 | corrected: a better (lower) Fuse score never gives a lower similarity |
| Search.ExtractHighlights | src/features/search/searchIndex.ts:64-71 | the loop builds the highlights |
| Search.HighlightsMembers | src/features/search/searchIndex.ts:64-71 | a highlight is the first 200 characters of a match value that is present and non-empty, and every such value gives one |
| Search.FuseResults | src/features/search/searchIndex.ts:59-79 | one result per Fuse hit, in order, with the hit's entry and event, scored by the corrected `FuseSimilarity` |
| Search.KeywordResults | src/features/search/searchIndex.ts:59-79 | the loop gives exactly those results |
| Search.SemanticSearch | src/features/search/searchIndex.ts:86-100 | the nested loops give exactly the specified semantic hits |
| Search.SemanticHitsMembers | src/features/search/searchIndex.ts:86-100 | a semantic hit comes from an entry with a non-empty embedding whose similarity to the query exceeds 0.7, with that score, the first 200 text characters and its event, and every such entry gives one |
| Search.SemanticScores | src/features/search/searchIndex.ts:90 | every semantic hit scores above 0.7 |
| Search.DedupIds | src/features/search/searchIndex.ts:107-109 | after deduplication the ids are the distinct ids in first-seen order |
| Search.DedupFirst | src/features/search/searchIndex.ts:107-109 | a kept result is the first result with its id |
| Search.SortByScore | src/features/search/searchIndex.ts:111 | a stable sort by score descending gives a sorted permutation |
| Search.MergeSpec | src/features/search/searchIndex.ts:106-113 | at most 20 results, sorted by score descending, distinct ids, each the first occurrence of its id; a deduplicated result that was dropped scores no higher than any kept one; with at most 20 distinct ids every id is kept |
| Search.SearchIndex.constructor | src/features/search/searchIndex.ts:7-8 | the module starts with no events and no index |
| Search.SearchIndex.BuildSearchIndex | src/features/search/searchIndex.ts:10-43 | it records the events and indexes exactly their documents |
| Search.SearchIndex.PerformSearch | src/features/search/searchIndex.ts:45-114 | a blank query gives `[]` and changes nothing; otherwise the index is rebuilt iff the events changed, and the results are the merge of at most 50 keyword results and, when an embedding is obtained, the semantic hits |
| Search.SearchIndex.PerformAdvancedSearch | src/features/search/searchIndex.ts:117-151 | a search over the filtered events |
| Search.FilterEventsSpec | src/features/search/searchIndex.ts:131-147 | an event is kept iff it is an input event that meets every given filter: an app containing the app filter (case-insensitively), the event type, not ending before the start, not starting after the end; empty and 0 filters are ignored |
| Search.FilterEventsIgnoresLanguage | src/features/search/searchIndex.ts:120-147 | the language filter has no effect |
| Search.AppsOfMembers | src/features/search/searchIndex.ts:158-160 | the app candidates are exactly the apps of the first 10 events |
| Search.TitlesOfMembers | src/features/search/searchIndex.ts:163-165 | the title candidates are exactly the titles of the first 5 events |
| Search.WordsMembers | src/features/search/searchIndex.ts:168-172 | each word candidate is a whitespace-separated word of more than 4 characters from an entry of the first 3 events |
| Search.SuggestionsSpec | src/features/search/searchIndex.ts:154-177 | at most 8 distinct suggestions, each a recent app, title or word; with at most 8 distinct candidates every recent app and title is suggested |

## Left out

- I/O is not modelled: SQLite, connections and commits, logging, `print`, `console.warn`, threads, `join` and `time.sleep`. Store calls are methods of the abstract `Database` class.
- `insert_event`, `insert_job`, `update_job_status`, `get_pending_jobs` and `get_event_by_id` are not part of `openrecall/database.py` as given; their behaviour is assumed from their names and use. The model makes no claim about batch size or order.
- `Entry` in `openrecall/database.py:10-12` has no `event_id` field, yet `openrecall/clustering.py:236` reads it. The record carries an optional `eventId` so that `run_clustering` can be modelled as it is evidently meant.
- Exceptions in `run_clustering` (the `try`/`except` at `openrecall/clustering.py:228, 278-279`) and in the scheduler loop (`openrecall/scheduler.py:66-68`) are not modelled; only the handler exceptions of `process_job` are.
- The Win32 calls of `is_idle` are an injected pair (tick count, last input), or none when the call fails. The loop's idle signal is a parameter per position.
- AI text is injected: in the backend, reply functions that give text or raise; in the frontend, the summary function. The AI wrappers catch their own errors, so a raised reply stands for an error they let through.
- Cosine similarity of embeddings in both clustering passes, the query embedding, `Math.sqrt` and the Fuse search are injected. `Math.sqrt` is only required to be positive on positive inputs.
- `src/features/search/searchIndex.ts:4` imports `aiClient` from `@/api/client`, but `src/api/client.ts` exports only `apiClient` and `ollamaClient`. As written, the module does not link. If it did load, `aiClient.generateEmbedding` (line 84) would throw, the `catch` at line 102 would be taken, and the semantic branch would never add a hit. The model takes the evidently intended embedding call as an injected, possibly absent query embedding. It therefore covers a branch that the code as written cannot reach.
- `uuid.uuid4()` and `generateId()` are injected fresh-id functions.
- Floating-point rounding is not modelled: numbers are Dafny reals.
- `formatDuration` is modelled on whole seconds, as the model's `int`.
- Strings are character sequences. Case mapping and whitespace are ASCII only. Whitespace is the six characters space, tab, newline, carriage return, vertical tab and form feed. Python's `str.split()` (used for the backend word count, `Clustering.WordTotal`) also splits at `\x1c`-`\x1f` and at Unicode spaces, and JavaScript's `\s` also matches Unicode spaces; neither is modelled.
- Python `list(set(...))` order for thumbnails and tags (`openrecall/clustering.py:176, 215`) is not modelled: both are sets.
- `Object.entries` lists integer-like keys first in JavaScript. The model keeps counting keys in insertion order.
- `groupBy` is modelled with keys as values; JavaScript's coercion of keys to strings and inherited object keys are not modelled.
- The in-place sorts (`entries.sort(...)`, `uniqueResults.sort(...)`) are modelled as value functions on sequences: `Records.SortByTime` and `Search.SortByScore`. The sort order is the stable one the engines use.
- `events !== eventsData` compares references; the model compares values. It therefore never rebuilds for an equal copy, and an empty first search builds no index.
- `formatTimestamp`, `cn`, `debounce`, `generateId` and `highlightText` are not modelled: locale formatting, a style library, timers, randomness and regular expressions.
- The React UI, the Flask app, the chat feature, the API client and the configuration are not part of this model.
- Clustering.EventTopApps and Tally.TopCountsSpec: ties between equal counts are stated only as "sorted by count"; the tie order (first seen first) follows from the stable sort but is not stated.
- Search.FuseResults: each hit is scored with the corrected conversion `FuseSimilarity` (`1 - (score ?? 1)`), not with the `1 - (fuseResult.score || 1)` of `src/features/search/searchIndex.ts:61-75`. The two differ only for a Fuse score of exactly 0; see "## Findings", where `Search.FuseSimilarityAsWritten` is the code as written.
- Search.KeywordResults: it pushes the corrected `FuseSimilarity` score, for the same reason as `Search.FuseResults`.
- Search.SearchIndex.PerformSearch: the keyword candidates it merges are scored with the corrected conversion. For a Fuse hit with score exactly 0, the code as written gives similarity 0 where the model gives 1, and that can change what the merge sorts and keeps.
- Search.SearchIndex.PerformAdvancedSearch: it is `PerformSearch` over the filtered events, so it uses the corrected conversion too.
- FrontCluster.GetTopApps: it counts into a plain `{}` with `(counts[k] || 0) + 1`, so in JavaScript a key inherited from `Object.prototype` misbehaves. The model's map gives every key its true integer count. An app named `constructor` starts from a function value, giving a string count and a `NaN` comparison. Assigning to `__proto__` is ignored, so that key is never counted.
- FrontCluster.GetTopWords: the same inherited-key behaviour is not modelled; words such as `constructor` and `__proto__` are counted like any other word.
- FrontCluster.TopWordsFacts: "each count is the true count" holds for the model's map; in JavaScript it fails for inherited keys such as `constructor` and `__proto__`.
- FrontCluster.Segment: for `eps < 0` or `minSamples > 2`, it does not state that every clusterable point ends up in a kept cluster, nor that the clusters are core-linked. A cluster that is too small is dropped after its points were visited, so a border point it visited, or a core point of a dropped cluster, can stay out of every kept cluster. FrontCluster.ClusterEntries carries the same condition.

## Findings

| source | as written | input that shows it | evidently intended | confidence | as-written member | corrected member |
|---|---|---|---|---|---|---|
| openrecall/scheduler.py:133-135 | `GetTickCount()` is called without a declared return type, so ctypes reads the 32-bit tick count as a signed int, and it is negative after 2^31 ms of uptime | tick count 0x80011170 and last input 0x80000000: 70 s without input, but the difference is about −2^32 and the user is never idle | idle time measured on the unsigned 32-bit tick clock, `(tick - last) mod 2^32` | not executed | JobScheduler.IsIdleAsWrittenMissesIdleTime | JobScheduler.IsIdleSpec |
| src/features/search/searchIndex.ts:61-75 | `fuseResult.score \|\| 1` treats a perfect Fuse score of 0 as missing, so an exact match gets similarity 0 | Fuse score 0 gives similarity 0, while a worse score of 0.25 gives 0.75 | a missing score counts as 1 and a present one is kept: `1 - (score ?? 1)` | not executed | Search.FuseSimilarityAsWrittenInverts | Search.FuseSimilarity |
