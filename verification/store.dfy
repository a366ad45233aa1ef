/** The store interface the sync pass talks to (the Rust trait
    `AccessMethod`), modelled as an immutable value: each call that changes a store
    returns the changed store. Both implementations of the trait are
    covered: `Datastore`, the embedded database, and `Client`, the HTTP
    client of a running server.

    Backend failures are injected: every call on a bucket id in `failing`
    fails with `BackendFailure`, and listing the buckets fails when
    `listingFails` holds. */
module Store {
  import opened Results
  import opened Model
  import Sorting

  /** The errors the pass distinguishes; every panic or `unwrap` of a
      failed call in the Rust code is one of these. */
  datatype StoreError = NoSuchBucket | BucketAlreadyExists | BackendFailure

  /** Which implementation of the trait a store is. A server reached
      through the client fills in a new bucket's client and hostname
      itself; these are `clientName` and `clientHost`. */
  datatype Backend = Datastore | Client(clientName: string, clientHost: string)

  /** A bucket and its events, in the order the store keeps them. */
  datatype Entry = Entry(bucket: Bucket, events: seq<Event>)

  datatype Store = Store(backend: Backend, entries: map<string, Entry>,
                         failing: set<string>, listingFails: bool)

  /** Bucket ids are unique: each entry is filed under its bucket's id. */
  predicate Valid(s: Store)
  {
    forall id :: id in s.entries ==> s.entries[id].bucket.id == id
  }

  /** The backend's heartbeat merge: given a bucket's events, a new event
      and a pulse time, the bucket's events afterwards. Its rules belong to
      the backend and are left abstract. */
  type Merge = (seq<Event>, Event, int) -> seq<Event>

  /** `get_buckets`: every bucket, by id. */
  function GetBuckets(s: Store): (r: Result<map<string, Bucket>, StoreError>)
    ensures r.Success? <==> !s.listingFails
    ensures r.Failure? ==> r.error == BackendFailure
    ensures r.Success? ==> r.value.Keys == s.entries.Keys
    ensures r.Success? ==> forall id :: id in r.value ==> r.value[id] == s.entries[id].bucket
  {
    if s.listingFails then Failure(BackendFailure)
    else Success(map id | id in s.entries :: s.entries[id].bucket)
  }

  /** `get_bucket`. */
  function GetBucket(s: Store, id: string): (r: Result<Bucket, StoreError>)
    ensures r.Success? <==> id in s.entries && id !in s.failing
    ensures r.Success? ==> r.value == s.entries[id].bucket
    ensures r == Failure(NoSuchBucket) <==> id !in s.entries && id !in s.failing
  {
    if id in s.failing then Failure(BackendFailure)
    else if id in s.entries then Success(s.entries[id].bucket)
    else Failure(NoSuchBucket)
  }

  /** What a backend keeps of a bucket handed to `create_bucket`: the
      database keeps all of it, the client sends only id and type. */
  function Stored(backend: Backend, b: Bucket): (r: Bucket)
    ensures r.id == b.id && r.bucketType == b.bucketType
  {
    match backend
    case Datastore => b
    case Client(name, host) => Bucket(b.id, b.bucketType, name, host, map[])
  }

  /** `create_bucket`: a new, empty bucket. The datastore refuses an id
      it already holds; the client's wrapper unwraps the server's answer,
      so a refusal there is a failure of the call. */
  function CreateBucket(s: Store, b: Bucket): (r: Result<Store, StoreError>)
    ensures r.Success? <==> b.id !in s.entries && b.id !in s.failing
    ensures r == Failure(BucketAlreadyExists) <==>
      b.id in s.entries && b.id !in s.failing && s.backend.Datastore?
    ensures s.backend.Client? && b.id in s.entries ==> r == Failure(BackendFailure)
    ensures r.Success? ==> r.value.entries.Keys == s.entries.Keys + {b.id}
    ensures r.Success? ==> r.value.entries[b.id].events == [] && r.value.entries[b.id].bucket.id == b.id
    ensures r.Success? ==> forall k :: k in s.entries ==> r.value.entries[k] == s.entries[k]
    ensures r.Success? && Valid(s) ==> Valid(r.value)
  {
    if b.id in s.failing then Failure(BackendFailure)
    else if b.id in s.entries then
      (if s.backend.Datastore? then Failure(BucketAlreadyExists) else Failure(BackendFailure))
    else Success(s.(entries := s.entries[b.id := Entry(Stored(s.backend, b), [])]))
  }

  /** An event falls in a query window: `start` inclusive, `end` exclusive,
      an absent bound is no bound. */
  predicate InWindow(e: Event, start: Option<int>, end: Option<int>)
  {
    (start.None? || start.value <= e.timestamp) && (end.None? || e.timestamp < end.value)
  }

  /** The events of `s` in a query window, in their order in `s`. */
  function Window(s: seq<Event>, start: Option<int>, end: Option<int>): (r: seq<Event>)
    ensures |r| <= |s|
    ensures forall k :: 0 <= k < |r| ==> InWindow(r[k], start, end)
  {
    if |s| == 0 then []
    else (if InWindow(s[0], start, end) then [s[0]] else []) + Window(s[1..], start, end)
  }

  /** The last `n` events of `s`, or all of them when there are fewer. */
  function Newest(s: seq<Event>, n: nat): (r: seq<Event>)
    ensures |r| == if n < |s| then n else |s|
    ensures forall k :: 0 <= k < |r| ==> r[k] == s[|s| - |r| + k]
  {
    if n >= |s| then s else s[|s| - n..]
  }

  /** `get_events`: the bucket's events in the window. Without a limit they
      come in the order the backend keeps them; with a limit, the `limit`
      latest of them, oldest first. */
  function GetEvents(s: Store, id: string, start: Option<int>, end: Option<int>,
                     limit: Option<nat>): (r: Result<seq<Event>, StoreError>)
    ensures r.Success? <==> id in s.entries && id !in s.failing
    ensures r.Success? && limit.None? ==> forall e ::
      multiset(r.value)[e] == if InWindow(e, start, end) then multiset(s.entries[id].events)[e] else 0
    ensures r.Success? && limit.Some? ==> |r.value| <= limit.value && Sorting.Sorted(r.value)
  {
    if id in s.failing then Failure(BackendFailure)
    else if id !in s.entries then Failure(NoSuchBucket)
    else
      var w := Window(s.entries[id].events, start, end);
      match limit
      case None =>
        WindowCounts(s.entries[id].events, start, end);
        Success(w)
      case Some(n) =>
        NewestSorted(Sorting.Sort(w), n);
        Success(Newest(Sorting.Sort(w), n))
  }

  /** `get_event_count`: how many of the bucket's events are in the window. */
  function GetEventCount(s: Store, id: string, start: Option<int>, end: Option<int>)
    : (r: Result<int, StoreError>)
    ensures r.Success? <==> id in s.entries && id !in s.failing
    ensures r.Success? && start.None? && end.None? ==> r.value == |s.entries[id].events|
  {
    if id in s.failing then Failure(BackendFailure)
    else if id !in s.entries then Failure(NoSuchBucket)
    else
      WindowUnbounded(s.entries[id].events);
      Success(|Window(s.entries[id].events, start, end)|)
  }

  /** `insert_events`: appends without merging. */
  function InsertEvents(s: Store, id: string, events: seq<Event>): (r: Result<Store, StoreError>)
    ensures r.Success? <==> id in s.entries && id !in s.failing
    ensures r.Success? ==> r.value.entries.Keys == s.entries.Keys
    ensures r.Success? ==> r.value.entries[id].events == s.entries[id].events + events
    ensures r.Success? ==> r.value.entries[id].bucket == s.entries[id].bucket
    ensures r.Success? ==> forall k :: k in s.entries && k != id ==> r.value.entries[k] == s.entries[k]
  {
    if id in s.failing then Failure(BackendFailure)
    else if id !in s.entries then Failure(NoSuchBucket)
    else
      var en := s.entries[id];
      Success(s.(entries := s.entries[id := en.(events := en.events + events)]))
  }

  /** `heartbeat`: the backend merges the event into the bucket. */
  function Heartbeat(s: Store, id: string, e: Event, pulsetime: int, merge: Merge)
    : (r: Result<Store, StoreError>)
    ensures r.Success? <==> id in s.entries && id !in s.failing
    ensures r.Success? ==> r.value.entries.Keys == s.entries.Keys && r.value.failing == s.failing
    ensures r.Success? ==> forall k :: k in s.entries && k != id ==> r.value.entries[k] == s.entries[k]
    ensures r.Success? ==> r.value.entries[id].bucket == s.entries[id].bucket
    ensures r.Success? ==> r.value.entries[id].events == merge(s.entries[id].events, e, pulsetime)
  {
    if id in s.failing then Failure(BackendFailure)
    else if id !in s.entries then Failure(NoSuchBucket)
    else
      var en := s.entries[id];
      Success(s.(entries := s.entries[id := en.(events := merge(en.events, e, pulsetime))]))
  }

  /** An unbounded window holds every event. */
  lemma {:induction false} WindowUnbounded(s: seq<Event>)
    ensures Window(s, None, None) == s
  {
    if |s| > 0 {
      WindowUnbounded(s[1..]);
      assert [s[0]] + s[1..] == s;
    }
  }

  /** A window holds the events of `s` that fall in it, each as often as
      `s` does, and no others. */
  lemma {:induction false} WindowCounts(s: seq<Event>, start: Option<int>, end: Option<int>)
    ensures forall e :: multiset(Window(s, start, end))[e] == if InWindow(e, start, end) then multiset(s)[e] else 0
  {
    if |s| > 0 {
      WindowCounts(s[1..], start, end);
      assert s == [s[0]] + s[1..];
    }
  }

  /** A window keeps the bucket's order: the events with any one
      timestamp are those of the bucket, in the bucket's order, when that
      timestamp is inside the window, and none otherwise. */
  lemma {:induction false} WindowByTimestamp(s: seq<Event>, start: Option<int>, end: Option<int>, t: int)
    ensures Sorting.WithTimestamp(Window(s, start, end), t)
         == if (start.None? || start.value <= t) && (end.None? || t < end.value) then Sorting.WithTimestamp(s, t) else []
  {
    if |s| > 0 {
      var head := if InWindow(s[0], start, end) then [s[0]] else [];
      WindowByTimestamp(s[1..], start, end, t);
      Sorting.WithTimestampAppend(head, Window(s[1..], start, end), t);
    }
  }

  /** A suffix of a sorted sequence is sorted. */
  lemma NewestSorted(s: seq<Event>, n: nat)
    requires Sorting.Sorted(s)
    ensures Sorting.Sorted(Newest(s, n))
  {
    if n < |s| {
      Sorting.SortedSuffix(s, |s| - n);
    }
  }

  /** The last event of a sorted sequence starts no earlier than any other. */
  lemma LastIsLatest(s: seq<Event>, x: Event)
    requires Sorting.Sorted(s) && |s| > 0 && x in multiset(s)
    ensures x.timestamp <= s[|s| - 1].timestamp
  {
    var k :| 0 <= k < |s| && s[k] == x;
  }

  /** The last event of a sorted list of the events of `ev` is one of
      them and starts no earlier than any. */
  lemma LatestOfSort(ev: seq<Event>)
    requires |ev| > 0
    ensures var sorted := Sorting.Sort(ev);
      && Newest(sorted, 1) == [sorted[|sorted| - 1]]
      && sorted[|sorted| - 1] in ev
      && forall x :: x in ev ==> x.timestamp <= sorted[|sorted| - 1].timestamp
  {
    var sorted := Sorting.Sort(ev);
    var last := sorted[|sorted| - 1];
    Sorting.SortPermutes(ev);
    assert last in multiset(ev) by {
      assert last in multiset(sorted);
    }
    forall x | x in ev ensures x.timestamp <= last.timestamp {
      assert x in multiset(sorted);
      LastIsLatest(sorted, x);
    }
  }

  /** Limit 1 fetches the most recent event: none for an empty bucket,
      otherwise one of the bucket's events that no other event starts
      after. */
  lemma MostRecentQuery(s: Store, id: string)
    requires id in s.entries && id !in s.failing
    ensures var r := GetEvents(s, id, None, None, Some(1)); var ev := s.entries[id].events;
      && r.Success?
      && (|r.value| == 0 <==> |ev| == 0)
      && (|r.value| > 0 ==>
            && |r.value| == 1 && r.value[0] in ev
            && forall x :: x in ev ==> x.timestamp <= r.value[0].timestamp)
  {
    var ev := s.entries[id].events;
    WindowUnbounded(ev);
    assert GetEvents(s, id, None, None, Some(1)) == Success(Newest(Sorting.Sort(ev), 1));
    if |ev| > 0 {
      LatestOfSort(ev);
    }
  }
}
