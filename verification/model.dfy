/** The records the sync pass moves between stores: buckets and events. */
module Model {
  import opened Results

  /** A JSON value in a bucket's or an event's `data`. The pass only ever
      builds string values (the provenance keys); every other value is
      carried along without being looked at. */
  datatype Json = JsonString(text: string) | JsonOther(repr: string)

  /** One record of a bucket. `id` is local to the store that holds the
      event; `timestamp` and `duration` are instants and spans on one
      integer time line. */
  datatype Event = Event(id: Option<int>, timestamp: int, duration: int, data: map<string, Json>)
  {
    /** The instant the event ends. */
    function End(): int { timestamp + duration }
  }

  /** A named event log. `bucketType` is the Rust field `_type`. */
  datatype Bucket = Bucket(id: string, bucketType: string, client: string, hostname: string,
                           data: map<string, Json>)

  /** Two events are the same record across stores when they agree on
      everything but the store-local id. */
  predicate SameRecord(a: Event, b: Event)
  {
    a.timestamp == b.timestamp && a.duration == b.duration && a.data == b.data
  }

  /** The event with its store-local id removed. */
  function Clear(e: Event): (r: Event)
    ensures r.id == None && SameRecord(r, e)
  {
    e.(id := None)
  }
}
