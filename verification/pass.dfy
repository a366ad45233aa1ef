/** The whole of `sync_datastores`: the loop over the source buckets and
    what a finished pass guarantees. */
module Pass {
  import opened Results
  import opened Model
  import opened Store
  import opened Naming
  import opened Sync

  /** The mirror ids of the source buckets with ids in `ids`. */
  function DerivedIds(from: Store, ids: set<string>): set<string>
    requires ids <= from.entries.Keys
  {
    set id | id in ids :: DestinationId(id, from.entries[id].bucket.hostname)
  }

  /** Source bucket `id` can be synced into `to`: neither it nor its
      mirror fails. */
  predicate Syncable(from: Store, to: Store, id: string)
    requires id in from.entries
  {
    id !in from.failing && DestinationId(id, from.entries[id].bucket.hostname) !in to.failing
  }

  /** The source bucket of each report, in order. */
  function SourceIds(reports: seq<BucketReport>): (r: seq<string>)
    ensures |r| == |reports|
    ensures forall i :: 0 <= i < |reports| ==> r[i] == reports[i].sourceId
  {
    if |reports| == 0 then [] else [reports[0].sourceId] + SourceIds(reports[1..])
  }

  /** `cur` is `to` with the mirrors of the source buckets `done` added:
      it differs from `to` only at their mirror ids. */
  predicate Covered(from: Store, to: Store, done: set<string>, cur: Store)
    requires done <= from.entries.Keys
  {
    && cur.entries.Keys == to.entries.Keys + DerivedIds(from, done)
    && (forall k :: k in to.entries && k !in DerivedIds(from, done) ==> cur.entries[k] == to.entries[k])
  }

  /** `ids` lists each element of `s` exactly once, and nothing else. */
  predicate ExactlyOnce(ids: seq<string>, s: set<string>)
  {
    && (forall i, j :: 0 <= i < j < |ids| ==> ids[i] != ids[j])
    && (forall x :: x in ids ==> x in s)
    && (forall x :: x in s ==> x in ids)
  }

  /** Listing one more, new element. */
  lemma OnceMore(ids: seq<string>, s: set<string>, x: string)
    requires ExactlyOnce(ids, s) && x !in s
    ensures ExactlyOnce(ids + [x], s + {x})
  {
    var ids' := ids + [x];
    forall i, j | 0 <= i < j < |ids'| ensures ids'[i] != ids'[j] {
      assert ids'[i] == ids[i] && ids[i] in ids;
    }
  }

  /** `rep` describes syncing its source bucket from `from` into `cur`,
      which gave `cur'`. */
  predicate Step(from: Store, cur: Store, rep: BucketReport, merge: Merge, cur': Store)
  {
    rep.sourceId in from.entries && BucketSynced(from, cur, from.entries[rep.sourceId].bucket, merge, cur', rep)
  }

  /** The destination stores the syncs that `reports` describe go
      through, one after the other, starting from `to`: element `i` is
      the store before report `i`, the last one the store after all of
      them. A report on a bucket `from` does not hold changes nothing. */
  function States(from: Store, to: Store, reports: seq<BucketReport>, merge: Merge): (r: seq<Store>)
    ensures |r| == |reports| + 1 && r[0] == to
    decreases |reports|
  {
    if |reports| == 0 then [to]
    else
      var prev := States(from, to, reports[..|reports| - 1], merge);
      var rep := reports[|reports| - 1];
      var last := prev[|reports| - 1];
      prev + [if rep.sourceId in from.entries then After(last, from.entries[rep.sourceId].bucket, rep, merge) else last]
  }

  /** Report `i` of `reports` describes its sync from the store the
      earlier ones left behind: its cursor and counts are those of the
      mirror at that point, and the store after it is what it gave. */
  predicate SyncedAt(from: Store, to: Store, reports: seq<BucketReport>, merge: Merge, i: int)
    requires 0 <= i < |reports|
  {
    var states := States(from, to, reports, merge);
    Step(from, states[i], reports[i], merge, states[i + 1])
  }

  /** Every report of `reports` describes its sync, one after the other,
      starting from `to`. */
  predicate Trace(from: Store, to: Store, reports: seq<BucketReport>, merge: Merge)
  {
    forall i :: 0 <= i < |reports| ==> SyncedAt(from, to, reports, merge, i)
  }

  /** One more sync, from the store the earlier ones left behind, extends
      the trace by the store it gave. */
  lemma TraceStep(from: Store, to: Store, reports: seq<BucketReport>, merge: Merge, cur': Store, rep: BucketReport)
    requires Trace(from, to, reports, merge)
    requires Step(from, States(from, to, reports, merge)[|reports|], rep, merge, cur')
    ensures States(from, to, reports + [rep], merge) == States(from, to, reports, merge) + [cur']
    ensures Trace(from, to, reports + [rep], merge)
  {
    var reports' := reports + [rep];
    assert reports'[..|reports|] == reports;
    var states, states' := States(from, to, reports, merge), States(from, to, reports', merge);
    forall i | 0 <= i < |reports'| ensures SyncedAt(from, to, reports', merge, i) {
      if i < |reports| {
        assert SyncedAt(from, to, reports, merge, i);
        assert states'[i] == states[i] && states'[i + 1] == states[i + 1] && reports'[i] == reports[i];
      }
    }
  }

  /** `reports` has one report per source bucket in `done`. */
  predicate Reported(done: set<string>, reports: seq<BucketReport>)
  {
    ExactlyOnce(SourceIds(reports), done)
  }

  /** The source buckets `done` have been synced into `cur`, starting
      from `to`, and reported on once each: `cur` differs from `to` only
      at their mirrors. */
  predicate Covering(from: Store, to: Store, done: set<string>, cur: Store, reports: seq<BucketReport>)
  {
    && done <= from.entries.Keys
    && Reported(done, reports)
    && (forall id :: id in done ==> Syncable(from, to, id))
    && Covered(from, to, done, cur)
    && Valid(cur) && cur.failing == to.failing
  }

  /** `reports` trace the syncs from `to`, and `cur` is the store the last
      one left behind. */
  predicate Traced(from: Store, to: Store, merge: Merge, cur: Store, reports: seq<BucketReport>)
  {
    Trace(from, to, reports, merge) && cur == States(from, to, reports, merge)[|reports|]
  }

  /** The pass has synced the source buckets `done` into `cur`, starting
      from `to`, reported on each once, and `cur` is what those syncs
      left behind. */
  predicate Progress(from: Store, to: Store, merge: Merge, done: set<string>, cur: Store, reports: seq<BucketReport>)
  {
    Covering(from, to, done, cur, reports) && Traced(from, to, merge, cur, reports)
  }

  /** A synced bucket's report says what was written from the source. */
  lemma SyncedWrites(from: Store, to: Store, id: string, merge: Merge, to': Store, rep: BucketReport)
    requires Valid(from) && id in from.entries
    requires BucketSynced(from, to, from.entries[id].bucket, merge, to', rep)
    ensures WritesFromSource(from, rep) && rep.sourceId == id
  {
  }

  /** One more report on one more source bucket. */
  lemma ReportedStep(done: set<string>, reports: seq<BucketReport>, rep: BucketReport)
    requires Reported(done, reports) && rep.sourceId !in done
    ensures Reported(done + {rep.sourceId}, reports + [rep])
  {
    assert (reports + [rep])[..|reports|] == reports;
    assert SourceIds(reports + [rep]) == SourceIds(reports) + [rep.sourceId];
    OnceMore(SourceIds(reports), done, rep.sourceId);
  }

  /** Adding the mirror of one more source bucket. */
  lemma CoveredStep(from: Store, to: Store, done: set<string>, cur: Store, id: string, cur': Store)
    requires done <= from.entries.Keys && id in from.entries && Covered(from, to, done, cur)
    requires var destId := DestinationId(id, from.entries[id].bucket.hostname);
      && cur'.entries.Keys == cur.entries.Keys + {destId}
      && forall k :: k in cur.entries && k != destId ==> cur'.entries[k] == cur.entries[k]
    ensures Covered(from, to, done + {id}, cur')
  {
    var destId := DestinationId(id, from.entries[id].bucket.hostname);
    assert DerivedIds(from, done + {id}) == DerivedIds(from, done) + {destId};
  }

  /** Syncing one more source bucket covers it. */
  lemma CoveringStep(from: Store, to: Store, done: set<string>, cur: Store, reports: seq<BucketReport>,
                     id: string, cur': Store, rep: BucketReport)
    requires Covering(from, to, done, cur, reports)
    requires id in from.entries && id !in done && Syncable(from, to, id) && rep.sourceId == id
    requires Valid(cur') && cur'.failing == cur.failing
    requires var destId := DestinationId(id, from.entries[id].bucket.hostname);
      && cur'.entries.Keys == cur.entries.Keys + {destId}
      && forall k :: k in cur.entries && k != destId ==> cur'.entries[k] == cur.entries[k]
    ensures Covering(from, to, done + {id}, cur', reports + [rep])
  {
    ReportedStep(done, reports, rep);
    CoveredStep(from, to, done, cur, id, cur');
  }

  /** Syncing one more source bucket from the store the trace ends in
      extends the trace. */
  lemma TracedStep(from: Store, to: Store, merge: Merge, cur: Store, reports: seq<BucketReport>,
                   cur': Store, rep: BucketReport)
    requires Traced(from, to, merge, cur, reports) && Step(from, cur, rep, merge, cur')
    ensures Traced(from, to, merge, cur', reports + [rep])
  {
    TraceStep(from, to, reports, merge, cur', rep);
  }

  /** Syncing one more source bucket extends the progress. */
  lemma ProgressStep(from: Store, to: Store, merge: Merge, done: set<string>, cur: Store, reports: seq<BucketReport>,
                     id: string, cur': Store, rep: BucketReport)
    requires Valid(from) && Progress(from, to, merge, done, cur, reports)
    requires id in from.entries && id !in done && Syncable(from, to, id)
    requires BucketSynced(from, cur, from.entries[id].bucket, merge, cur', rep) && Valid(cur')
    requires var destId := DestinationId(id, from.entries[id].bucket.hostname);
      && cur'.entries.Keys == cur.entries.Keys + {destId}
      && forall k :: k in cur.entries && k != destId ==> cur'.entries[k] == cur.entries[k]
    ensures Progress(from, to, merge, done + {id}, cur', reports + [rep])
  {
    assert rep.sourceId == id by { SyncedWrites(from, cur, id, merge, cur', rep); }
    CoveringStep(from, to, done, cur, reports, id, cur', rep);
    TracedStep(from, to, merge, cur, reports, cur', rep);
  }

  /** Nothing synced yet. */
  lemma ProgressStart(from: Store, to: Store, merge: Merge)
    requires Valid(to)
    ensures Progress(from, to, merge, {}, to, [])
  {
    assert DerivedIds(from, {}) == {};
  }

  /** Each report of a trace says what was written from the source. */
  lemma TraceWrites(from: Store, to: Store, reports: seq<BucketReport>, merge: Merge)
    requires Valid(from) && Trace(from, to, reports, merge)
    ensures forall i :: 0 <= i < |reports| ==> WritesFromSource(from, reports[i])
  {
    var states := States(from, to, reports, merge);
    forall i | 0 <= i < |reports| ensures WritesFromSource(from, reports[i]) {
      assert SyncedAt(from, to, reports, merge, i);
      SyncedWrites(from, states[i], reports[i].sourceId, merge, states[i + 1], reports[i]);
    }
  }

  /** One step of the pass loop: sync source bucket `id` into `cur`. */
  method PassStep(from: Store, to: Store, ghost done: set<string>, cur: Store, reports: seq<BucketReport>,
                  id: string, merge: Merge)
      returns (r: Result<(Store, seq<BucketReport>), StoreError>)
    requires Valid(from) && Progress(from, to, merge, done, cur, reports)
    requires id in from.entries && id !in done
    ensures r.Success? <==> Syncable(from, to, id)
    ensures r.Success? ==> Progress(from, to, merge, done + {id}, r.value.0, r.value.1)
  {
    var step := SyncBucket(from, cur, from.entries[id].bucket, merge);
    if step.Failure? {
      return Failure(step.error);
    }
    ProgressStep(from, to, merge, done, cur, reports, id, step.value.0, step.value.1);
    r := Success((step.value.0, reports + [step.value.1]));
  }

  /** The loop of `sync_datastores` over the listed source bucket ids,
      in whatever order the listing yields them, aborting on the first
      failure. */
  method SyncAll(from: Store, to: Store, ids: set<string>, merge: Merge)
      returns (r: Result<(Store, seq<BucketReport>), StoreError>)
    requires Valid(from) && Valid(to) && ids == from.entries.Keys
    ensures r.Success? <==> forall id :: id in from.entries ==> Syncable(from, to, id)
    ensures r.Success? ==> Progress(from, to, merge, from.entries.Keys, r.value.0, r.value.1)
  {
    var cur, reports, remaining := to, [], ids;
    ghost var done: set<string> := {};
    ProgressStart(from, to, merge);
    while remaining != {}
      invariant done + remaining == ids && done !! remaining
      invariant Progress(from, to, merge, done, cur, reports)
      decreases remaining
    {
      var id :| id in remaining;
      var step := PassStep(from, to, done, cur, reports, id, merge);
      if step.Failure? {
        return Failure(step.error);
      }
      cur, reports, remaining := step.value.0, step.value.1, remaining - {id};
      done := done + {id};
    }
    r := Success((cur, reports));
  }

  /** `sync_datastores`: lists the source buckets and syncs each one, in
      the order the listing yields them, aborting on the first failure.
      On success every source bucket was synced exactly once, each report
      describes its sync into the store the earlier ones left behind, the
      result is what the last one left, and the destination changed only
      at mirror ids. */
  method SyncDatastores(from: Store, to: Store, merge: Merge)
      returns (r: Result<(Store, seq<BucketReport>), StoreError>)
    requires Valid(from) && Valid(to)
    ensures from.listingFails ==> r == Failure(BackendFailure)
    ensures r.Success? <==>
      !from.listingFails && forall id :: id in from.entries ==> Syncable(from, to, id)
    ensures r.Success? ==> ExactlyOnce(SourceIds(r.value.1), from.entries.Keys)
    ensures r.Success? ==> forall i :: 0 <= i < |r.value.1| ==> WritesFromSource(from, r.value.1[i])
    ensures r.Success? ==> r.value.0 == States(from, to, r.value.1, merge)[|r.value.1|]
    ensures r.Success? ==> forall i :: 0 <= i < |r.value.1| ==> SyncedAt(from, to, r.value.1, merge, i)
    ensures r.Success? ==>
      r.value.0.entries.Keys == to.entries.Keys + DerivedIds(from, from.entries.Keys)
    ensures r.Success? ==> forall k :: k in to.entries && k !in DerivedIds(from, from.entries.Keys) ==>
      r.value.0.entries[k] == to.entries[k]
    ensures r.Success? ==> Valid(r.value.0) && r.value.0.failing == to.failing
  {
    var listed := GetBuckets(from);
    if listed.Failure? {
      return Failure(listed.error);
    }
    assert listed.value.Keys == from.entries.Keys;
    r := SyncAll(from, to, listed.value.Keys, merge);
    if r.Success? {
      TraceWrites(from, to, r.value.1, merge);
    }
  }
}
