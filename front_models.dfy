/** The frontend's data model: the event the timeline view builds from a
    cluster of capture records, its statistics, and the outcome of an
    operation that can throw. The capture record itself is `Records.Entry`. */
module FrontModels {
  import opened Records

  /** A value, or the message of the error thrown instead. */
  datatype Result<T> = Success(value: T) | Failure(error: string)

  datatype FrontStats = FrontStats(
    screenshotCount: nat,
    topApps: seq<(string, nat)>,
    wordCount: nat,
    topWords: seq<(string, nat)>)

  /** The `Event` interface of the frontend. `entries` are the members in time
      order; `thumbnails`, `apps` and `tags` are arrays made from sets, so
      they keep the order in which their elements were first added. */
  datatype FrontEvent = FrontEvent(
    id: string,
    kind: EventType,
    title: string,
    description: string,
    startTime: int,
    endTime: int,
    duration: int,
    entries: seq<Entry>,
    heroImage: string,
    thumbnails: seq<string>,
    apps: seq<string>,
    stats: FrontStats,
    tags: seq<string>)
}
