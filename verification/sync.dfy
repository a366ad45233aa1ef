/** One pass of `sync_datastores`: every bucket of the source store is
    mirrored into the destination store, each under its derived id, by
    replaying the source events that are newer than the mirror's most
    recent one. */
module Sync {
  import opened Results
  import opened Model
  import opened Sorting
  import opened Store
  import opened Naming

  /** The fetched events with their store-local ids cleared: one event
      per fetched event, in the same place, with no id and the same
      timestamp, duration and data. */
  function Normalize(s: seq<Event>): (r: seq<Event>)
    ensures |r| == |s|
    ensures forall i :: 0 <= i < |s| ==> r[i].id == None && SameRecord(r[i], s[i])
  {
    if |s| == 0 then [] else [Clear(s[0])] + Normalize(s[1..])
  }

  /** Clearing ids keeps timestamps, so it commutes with one insertion. */
  lemma {:induction false} InsertNormalize(s: seq<Event>, e: Event)
    ensures Insert(Normalize(s), Clear(e)) == Normalize(Insert(s, e))
    decreases |s|
  {
    if |s| > 0 {
      if e.timestamp < s[0].timestamp {
        assert ([e] + s)[1..] == s;
      } else {
        InsertNormalize(s[1..], e);
        assert ([s[0]] + Insert(s[1..], e))[1..] == Insert(s[1..], e);
      }
    }
  }

  /** Normalising before or after the sort gives the same list. */
  lemma {:induction false} SortNormalize(s: seq<Event>)
    ensures Sort(Normalize(s)) == Normalize(Sort(s))
    decreases |s|
  {
    if |s| > 0 {
      var init, last := s[..|s| - 1], s[|s| - 1];
      assert Normalize(s)[..|s| - 1] == Normalize(init);
      SortNormalize(init);
      InsertNormalize(Sort(init), last);
    }
  }

  /** Every event of `ev` starts no later than `x`, one of them. */
  predicate IsLatest(ev: seq<Event>, x: Event)
  {
    x in ev && forall y :: y in ev ==> y.timestamp <= x.timestamp
  }

  /** `c` is where the latest-starting event of `ev` ends. */
  predicate IsLatestEnd(ev: seq<Event>, c: int)
  {
    exists x :: x in ev && IsLatest(ev, x) && c == x.End()
  }

  /** The resume point of a mirror bucket: where its most recent event
      ends, or none for an empty bucket. */
  function ResumeCursor(to: Store, destId: string): (r: Result<Option<int>, StoreError>)
    ensures destId in to.failing ==> r == Failure(BackendFailure)
    ensures destId !in to.failing && destId !in to.entries ==> r == Failure(NoSuchBucket)
    ensures destId !in to.failing && destId in to.entries ==>
      r.Success? && (r.value.None? <==> |to.entries[destId].events| == 0)
    ensures r.Success? && r.value.Some? ==> IsLatestEnd(to.entries[destId].events, r.value.value)
  {
    match GetEvents(to, destId, None, None, Some(1))
    case Failure(e) => Failure(e)
    case Success(recent) =>
      MostRecentQuery(to, destId);
      if |recent| == 0 then Success(None)
      else
        assert IsLatest(to.entries[destId].events, recent[0]);
        Success(Some(recent[0].End()))
  }

  /** The bucket's events after heartbeats with `writes`, in order, with
      pulse time 0. */
  function Replay(events: seq<Event>, writes: seq<Event>, merge: Merge): seq<Event>
    decreases |writes|
  {
    if |writes| == 0 then events
    else merge(Replay(events, writes[..|writes| - 1], merge), writes[|writes| - 1], 0)
  }

  /** A heartbeat that never merges: the event is appended. */
  function AppendOnly(events: seq<Event>, e: Event, pulsetime: int): (r: seq<Event>)
    ensures |r| == |events| + 1 && r[..|events|] == events && r[|events|] == e
  {
    events + [e]
  }

  /** With a backend that never merges, replaying appends the writes. */
  lemma {:induction false} ReplayAppendOnly(events: seq<Event>, writes: seq<Event>)
    ensures Replay(events, writes, AppendOnly) == events + writes
    decreases |writes|
  {
    if |writes| > 0 {
      ReplayAppendOnly(events, writes[..|writes| - 1]);
      SplitLast(writes);
    }
  }

  /** One heartbeat issued by the pass. */
  datatype HeartbeatCall = HeartbeatCall(bucketId: string, event: Event, pulsetime: int)

  /** The events of a list of heartbeats, in order. */
  function Events(calls: seq<HeartbeatCall>): (r: seq<Event>)
    ensures |r| == |calls|
    ensures forall i :: 0 <= i < |calls| ==> r[i] == calls[i].event
  {
    if |calls| == 0 then [] else [calls[0].event] + Events(calls[1..])
  }

  /** What the pass did for one source bucket. `Delta` is the number
      `sync_datastores` logs as synced. */
  datatype BucketReport = BucketReport(sourceId: string, destId: string, cursor: Option<int>,
                                       calls: seq<HeartbeatCall>, countBefore: int, countAfter: int)
  {
    function Delta(): int { countAfter - countBefore }
  }

  /** `to` with the events of bucket `destId` replaced by `evs`. */
  function WithEvents(to: Store, destId: string, evs: seq<Event>): Store
    requires destId in to.entries
  {
    to.(entries := to.entries[destId := to.entries[destId].(events := evs)])
  }

  /** A heartbeat on `destId` after some earlier ones: the merge applied
      to the events so far. */
  lemma HeartbeatAgain(to: Store, destId: string, evs: seq<Event>, e: Event, merge: Merge)
    requires destId in to.entries && destId !in to.failing
    ensures Heartbeat(WithEvents(to, destId, evs), destId, e, 0, merge)
         == Success(WithEvents(to, destId, merge(evs, e, 0)))
  {
    var en := to.entries[destId];
    assert to.entries[destId := en.(events := evs)][destId := en.(events := merge(evs, e, 0))]
        == to.entries[destId := en.(events := merge(evs, e, 0))];
  }

  /** One heartbeat of the loop, on a mirror whose events so far are
      `evs`. */
  method HeartbeatOnce(to: Store, destId: string, ghost evs: seq<Event>, cur: Store, e: Event, merge: Merge)
      returns (cur': Store)
    requires destId in to.entries && destId !in to.failing
    requires cur == WithEvents(to, destId, evs)
    ensures cur' == WithEvents(to, destId, merge(evs, e, 0))
  {
    HeartbeatAgain(to, destId, evs, e, merge);
    cur' := Heartbeat(cur, destId, e, 0, merge).value;
  }

  /** The heartbeat loop: one heartbeat per event, in order, on `destId`
      with pulse time 0; nothing but that bucket's events changes. */
  method WriteAll(to: Store, destId: string, events: seq<Event>, merge: Merge)
      returns (to': Store, calls: seq<HeartbeatCall>)
    requires destId in to.entries && destId !in to.failing
    ensures to' == WithEvents(to, destId, Replay(to.entries[destId].events, events, merge))
    ensures |calls| == |events| && Events(calls) == events
    ensures forall i :: 0 <= i < |calls| ==> calls[i].bucketId == destId && calls[i].pulsetime == 0
  {
    ghost var start := to.entries[destId].events;
    assert to.entries[destId := to.entries[destId].(events := start)] == to.entries;
    to', calls := to, [];
    var i := 0;
    while i < |events|
      invariant 0 <= i <= |events|
      invariant to' == WithEvents(to, destId, Replay(start, events[..i], merge))
      invariant |calls| == i
      invariant forall k :: 0 <= k < i ==> calls[k] == HeartbeatCall(destId, events[k], 0)
    {
      to' := HeartbeatOnce(to, destId, Replay(start, events[..i], merge), to', events[i], merge);
      PrefixStep(events, i);
      calls := calls + [HeartbeatCall(destId, events[i], 0)];
      i := i + 1;
    }
    assert events[..|events|] == events;
  }

  /** The events of the mirror bucket `destId` before the pass touches it:
      none when it does not exist yet. */
  function EventsBefore(to: Store, destId: string): seq<Event>
  {
    if destId in to.entries then to.entries[destId].events else []
  }

  /** What the pass fetches from source bucket `sourceId` given a cursor:
      its events from the cursor on, in the order the source returns
      them. */
  function Fetched(from: Store, sourceId: string, cursor: Option<int>): seq<Event>
    requires sourceId in from.entries
  {
    Window(from.entries[sourceId].events, cursor, None)
  }

  /** `rep` describes heartbeats into the mirror of one source bucket,
      carrying that bucket's events from the cursor on, ids cleared, in
      timestamp order, with pulse time 0. */
  predicate WritesFromSource(from: Store, rep: BucketReport)
  {
    && rep.sourceId in from.entries
    && rep.destId == DestinationId(rep.sourceId, from.entries[rep.sourceId].bucket.hostname)
    && Events(rep.calls) == Sort(Normalize(Fetched(from, rep.sourceId, rep.cursor)))
    && forall i :: 0 <= i < |rep.calls| ==> rep.calls[i].bucketId == rep.destId && rep.calls[i].pulsetime == 0
  }

  /** What the pass reads and writes for one source bucket whose mirror
      `destId` held `before`: the cursor is read from those events, the
      source events from the cursor on are written, ids cleared and in
      timestamp order, one heartbeat each with pulse time 0, and the first
      count is the number of events held before. */
  predicate Planned(from: Store, before: seq<Event>, sourceId: string, destId: string, rep: BucketReport)
  {
    && sourceId in from.entries
    && rep.sourceId == sourceId && rep.destId == destId
    && (rep.cursor.None? <==> |before| == 0)
    && (rep.cursor.Some? ==> IsLatestEnd(before, rep.cursor.value))
    && Events(rep.calls) == Sort(Normalize(Fetched(from, sourceId, rep.cursor)))
    && (forall i :: 0 <= i < |rep.calls| ==> rep.calls[i].bucketId == destId && rep.calls[i].pulsetime == 0)
    && rep.countBefore == |before|
  }

  /** The transfer into an existing mirror bucket `destId` of `to`: the
      pass does what `Planned` says, only that bucket's events change, and
      the second count is taken afterwards. */
  predicate Transferred(from: Store, to: Store, sourceId: string, destId: string, merge: Merge,
                        to': Store, rep: BucketReport)
  {
    var before := EventsBefore(to, destId);
    && destId in to.entries
    && Planned(from, before, sourceId, destId, rep)
    && to' == WithEvents(to, destId, Replay(before, Events(rep.calls), merge))
    && rep.countAfter == |to'.entries[destId].events|
  }

  /** The destination store after syncing source bucket `src` with the
      heartbeats of `rep`: the mirror bucket (the one already there, or a
      new one) holds its earlier events with the heartbeats replayed on
      top. */
  function After(to: Store, src: Bucket, rep: BucketReport, merge: Merge): Store
  {
    var destId := DestinationId(src.id, src.hostname);
    var bucket := if destId in to.entries then to.entries[destId].bucket
                  else Stored(to.backend, WithProvenance(src, destId));
    to.(entries := to.entries[destId := Entry(bucket, Replay(EventsBefore(to, destId), Events(rep.calls), merge))])
  }

  /** Syncing a bucket changes the mirror bucket only: every other bucket,
      the failures and the backend stay as they were. */
  lemma AfterFrame(to: Store, src: Bucket, rep: BucketReport, merge: Merge)
    ensures var a := After(to, src, rep, merge); var destId := DestinationId(src.id, src.hostname);
      && a.backend == to.backend && a.failing == to.failing && a.listingFails == to.listingFails
      && a.entries.Keys == to.entries.Keys + {destId}
      && (forall k :: k in to.entries && k != destId ==> a.entries[k] == to.entries[k])
      && a.entries[destId].events == Replay(EventsBefore(to, destId), Events(rep.calls), merge)
    ensures Valid(to) ==> Valid(After(to, src, rep, merge))
  {
  }

  /** The effect of syncing source bucket `src` from `from` into `to`,
      giving `to'` and the report `rep`: the cursor is read from the
      mirror's events, the source events from the cursor on are written,
      ids cleared and in timestamp order, one heartbeat each with pulse
      time 0, and the counts are taken before and after. */
  predicate BucketSynced(from: Store, to: Store, src: Bucket, merge: Merge, to': Store, rep: BucketReport)
  {
    var destId := DestinationId(src.id, src.hostname);
    && Planned(from, EventsBefore(to, destId), src.id, destId, rep)
    && to' == After(to, src, rep, merge)
    && rep.countAfter == |to'.entries[destId].events|
  }

  /** The heartbeats carry the fetched records, ids cleared, in timestamp
      order, events with equal timestamps in the order they were fetched;
      clearing before sorting is the same as clearing after. */
  lemma WrittenInOrder(from: Store, rep: BucketReport)
    requires WritesFromSource(from, rep)
    ensures var fetched := Fetched(from, rep.sourceId, rep.cursor);
      && Sorted(Events(rep.calls))
      && (forall t :: WithTimestamp(Events(rep.calls), t) == WithTimestamp(Normalize(fetched), t))
      && Events(rep.calls) == Normalize(Sort(fetched))
  {
    var fetched := Fetched(from, rep.sourceId, rep.cursor);
    forall t ensures WithTimestamp(Events(rep.calls), t) == WithTimestamp(Normalize(fetched), t) {
      SortStable(Normalize(fetched), t);
    }
    SortNormalize(fetched);
  }

  /** Clearing ids keeps timestamps, so it commutes with picking the
      events of one timestamp. */
  lemma {:induction false} NormalizeByTimestamp(s: seq<Event>, t: int)
    ensures WithTimestamp(Normalize(s), t) == Normalize(WithTimestamp(s, t))
  {
    if |s| > 0 {
      var head := if s[0].timestamp == t then [s[0]] else [];
      NormalizeByTimestamp(s[1..], t);
      assert Normalize(s) == [Clear(s[0])] + Normalize(s[1..]);
      WithTimestampAppend([Clear(s[0])], Normalize(s[1..]), t);
      assert WithTimestamp(s, t) == head + WithTimestamp(s[1..], t);
      NormalizeAppend(head, WithTimestamp(s[1..], t));
    }
  }

  /** `Normalize` maps over a concatenation part by part. */
  lemma {:induction false} NormalizeAppend(a: seq<Event>, b: seq<Event>)
    ensures Normalize(a + b) == Normalize(a) + Normalize(b)
    decreases |a|
  {
    if |a| > 0 {
      assert (a + b)[1..] == a[1..] + b;
      NormalizeAppend(a[1..], b);
    } else {
      assert a + b == b;
    }
  }

  /** Heartbeats with equal timestamps go out in the order the source
      store keeps those events: for a timestamp from the cursor on, the
      heartbeats with it are exactly the stored events with it, ids
      cleared, in storage order; before the cursor there are none. */
  lemma TiesInStorageOrder(from: Store, rep: BucketReport, t: int)
    requires WritesFromSource(from, rep)
    ensures WithTimestamp(Events(rep.calls), t)
         == if rep.cursor.None? || rep.cursor.value <= t
            then Normalize(WithTimestamp(from.entries[rep.sourceId].events, t)) else []
  {
    var stored := from.entries[rep.sourceId].events;
    WrittenInOrder(from, rep);
    NormalizeByTimestamp(Fetched(from, rep.sourceId, rep.cursor), t);
    WindowByTimestamp(stored, rep.cursor, None, t);
  }

  /** The heartbeats carry exactly the fetched records, ids cleared: a
      permutation of them. */
  lemma WrittenPermutes(from: Store, rep: BucketReport)
    requires WritesFromSource(from, rep)
    ensures multiset(Events(rep.calls)) == multiset(Normalize(Fetched(from, rep.sourceId, rep.cursor)))
  {
    SortPermutes(Normalize(Fetched(from, rep.sourceId, rep.cursor)));
  }

  /** Every heartbeat of a bucket sync starts at or after the cursor: a
      source event that starts before it is not written. */
  lemma {:induction false} WrittenFromCursor(from: Store, to: Store, src: Bucket, merge: Merge, to': Store,
                                             rep: BucketReport)
    requires BucketSynced(from, to, src, merge, to', rep) && rep.cursor.Some?
    ensures forall i :: 0 <= i < |rep.calls| ==> rep.calls[i].event.timestamp >= rep.cursor.value
  {
    var fetched := Fetched(from, src.id, rep.cursor);
    var normal := Normalize(fetched);
    SortPermutes(normal);
    forall i | 0 <= i < |rep.calls| ensures rep.calls[i].event.timestamp >= rep.cursor.value {
      var x := Events(rep.calls)[i];
      assert x in multiset(Sort(normal));
      var j :| 0 <= j < |normal| && normal[j] == x;
      assert InWindow(fetched[j], rep.cursor, None);
    }
  }

  /** Two source buckets sharing one mirror: when the mirror already holds
      an event at 10 (written from the other bucket), a source event at 5
      is never written, because the cursor is already past it. */
  lemma SharedMirrorDropsOlder(from: Store, to: Store, src: Bucket, merge: Merge, to': Store, rep: BucketReport,
                               e10: Event, e5: Event)
    requires BucketSynced(from, to, src, merge, to', rep)
    requires var destId := DestinationId(src.id, src.hostname);
      destId in to.entries && to.entries[destId].events == [e10] && e10.timestamp == 10 && e10.duration == 0
    requires src.id in from.entries && from.entries[src.id].events == [e5] && e5.timestamp == 5
    ensures rep.cursor == Some(10) && rep.calls == []
  {
  }

  /** With a backend that never merges, the reported delta is the number
      of heartbeats. */
  lemma DeltaOfAppendOnly(from: Store, to: Store, src: Bucket, to': Store, rep: BucketReport)
    requires BucketSynced(from, to, src, AppendOnly, to', rep)
    ensures rep.Delta() == |rep.calls|
  {
    ReplayAppendOnly(EventsBefore(to, DestinationId(src.id, src.hostname)), Events(rep.calls));
  }

  /** Opening the mirror and then transferring into it is syncing the
      bucket. */
  lemma OpenThenTransfer(from: Store, to: Store, src: Bucket, merge: Merge,
                         to1: Store, to2: Store, rep: BucketReport)
    requires MirrorOpened(to, src, to1)
    requires Transferred(from, to1, src.id, DestinationId(src.id, src.hostname), merge, to2, rep)
    ensures BucketSynced(from, to, src, merge, to2, rep)
  {
    OpenedMirror(to, src, to1);
  }

  /** Opening the mirror only puts its entry in place, keeping the events
      a mirror that was already there holds. */
  lemma OpenedMirror(to: Store, src: Bucket, to1: Store)
    requires MirrorOpened(to, src, to1)
    ensures var destId := DestinationId(src.id, src.hostname);
      && to1 == to.(entries := to.entries[destId := to1.entries[destId]])
      && EventsBefore(to1, destId) == EventsBefore(to, destId)
      && to1.entries[destId].bucket == (if destId in to.entries then to.entries[destId].bucket
                                        else Stored(to.backend, WithProvenance(src, destId)))
  {
    var destId := DestinationId(src.id, src.hostname);
    assert to1.entries == to.entries[destId := to1.entries[destId]];
  }

  /** The number of events of a bucket, which the store must hold. */
  method CountEvents(s: Store, id: string) returns (n: int)
    requires id in s.entries && id !in s.failing
    ensures n == |s.entries[id].events|
  {
    n := GetEventCount(s, id, None, None).value;
  }

  /** The body of the loop of `sync_datastores` from the event count on:
      count the mirror's events, find the resume point, fetch the newer
      source events, clear their ids, sort them, heartbeat each one, and
      count again. Fetching from the source is the call that can fail. */
  method Transfer(from: Store, to: Store, sourceId: string, destId: string, merge: Merge)
      returns (r: Result<(Store, BucketReport), StoreError>)
    requires destId in to.entries && destId !in to.failing
    ensures r.Success? <==> sourceId !in from.failing && sourceId in from.entries
    ensures r.Success? ==> Transferred(from, to, sourceId, destId, merge, r.value.0, r.value.1)
  {
    var before := CountEvents(to, destId);
    var cursor := ResumeCursor(to, destId).value;
    var fetched := GetEvents(from, sourceId, cursor, None, None);
    if fetched.Failure? {
      return Failure(fetched.error);
    }
    var sorted := SortEvents(Normalize(fetched.value));
    var to', calls := WriteAll(to, destId, sorted, merge);
    var after := CountEvents(to', destId);
    r := Success((to', BucketReport(sourceId, destId, cursor, calls, before, after)));
  }

  /** One iteration of the loop of `sync_datastores`: fetch or create the
      mirror bucket, then transfer the newer source events into it. Any
      failed call fails the whole step. */
  method SyncBucket(from: Store, to: Store, src: Bucket, merge: Merge)
      returns (r: Result<(Store, BucketReport), StoreError>)
    requires Valid(to)
    ensures var destId := DestinationId(src.id, src.hostname);
      r.Success? <==> destId !in to.failing && src.id !in from.failing && src.id in from.entries
    ensures DestinationId(src.id, src.hostname) in to.failing ==> r == Failure(BackendFailure)
    ensures r.Success? ==> Valid(r.value.0) && BucketSynced(from, to, src, merge, r.value.0, r.value.1)
    ensures var destId := DestinationId(src.id, src.hostname);
      r.Success? ==> && r.value.0.entries.Keys == to.entries.Keys + {destId}
                     && forall k :: k in to.entries && k != destId ==> r.value.0.entries[k] == to.entries[k]
  {
    var got := GetOrCreateSyncBucket(src, to);
    if got.Failure? {
      return Failure(got.error);
    }
    var (bucketTo, to1) := got.value;
    r := Transfer(from, to1, src.id, bucketTo.id, merge);
    if r.Success? {
      OpenThenTransfer(from, to, src, merge, to1, r.value.0, r.value.1);
      AfterFrame(to, src, r.value.1, merge);
      assert r.value.0 == After(to, src, r.value.1, merge);
    }
  }
}
