# aw-sync: one sync pass, modelled in Dafny

ActivityWatch's `aw-sync` mirrors the buckets of one event store into another.
`sync_datastores` performs one pass in one direction:

- it lists every bucket of the source store;
- for each bucket it fetches or creates a *mirror bucket* in the destination,
  named `<source id without "-synced">-synced-from-<source hostname>`;
- it reads the mirror's most recent event to find where the last pass stopped
  (the *resume cursor*: that event's end);
- it fetches the source events from the cursor on, clears their store-local
  ids, sorts them by timestamp, and writes each one into the mirror with a
  `heartbeat` of pulse time 0;
- it counts the mirror's events before and after, and logs the difference.

Both stores are reached through the `AccessMethod` trait. It has two
implementations: the embedded database (`Datastore`) and the HTTP client of a
running server (`AwClient`).

The model has one module per piece:

- `Results`: `Option` and `Result`.
- `Model`: events and buckets.
- `Text`: Rust's `str::replace`, as a function and as the left-to-right scan.
- `Sorting`: a stable insertion sort, as a function and as a loop.
- `Store`: the `AccessMethod` trait, as an immutable store value. Failures are
  injected per bucket id (`failing`) and for the listing (`listingFails`).
  The backend's heartbeat merge is a function parameter.
- `Naming`: the mirror id and `get_or_create_sync_bucket`.
- `Sync`: the resume cursor, normalisation, the heartbeat loop and one
  iteration of the pass loop.
- `Pass`: `sync_datastores` as a whole.

Every `unwrap` and `panic!` in `sync.rs` becomes a `Failure`. The first one
ends the whole pass: there is no per-bucket recovery.

Some consequences of the code, which the model states:

- **Mirror ids can collide, and the shared mirror drops events.** The
  comments at `sync.rs:133` ("avoiding bucket ID conflicts") and `sync.rs:241`
  ("to make unique") describe the `-synced-from-<host>` suffix as keeping ids
  apart. It does not always: a source id `x` and a source id `x-synced` on the
  same host share one mirror (`Naming.MarkedAndPlainIdsShareMirror`). The
  bucket synced second reads its cursor from the mirror after the first one's
  events are in it, and only its events from that cursor on are written
  (`Sync.WrittenFromCursor`). Its older events are silently lost: with the
  mirror holding an event at 10, a source event at 5 is never written
  (`Sync.SharedMirrorDropsOlder`). Which bucket loses events depends on the
  listing order.
- **Mirroring a mirror does not give back its id.** Mirroring
  `base-synced-from-h1` from host `h2` gives `base-from-h1-synced-from-h2`
  (`Naming.MirrorOfMirror`).
- **Stripping `-synced` can leave `-synced` behind.** `str::replace` makes a
  single pass, so `-s-syncedynced` strips to `-synced`
  (`Naming.StrippedIdMayKeepMarker`).
- **A client-backed store does not return the bucket as built.** For a
  destination reached through `AwClient`, the created mirror is the bucket the
  server builds from id and type alone. It is not the source bucket with
  provenance keys added (`Naming.ClientMirrorLacksProvenance`).

## Model

| member | source | states |
|---|---|---|
| Store.GetBuckets | aw-sync/src/sync.rs:23 | Listing succeeds exactly when the backend can list; on success it holds every bucket of the store, keyed by its id. |
| Store.GetBucket | aw-sync/src/sync.rs:24 | Success exactly for a present, working id, returning that bucket; `NoSuchBucket` exactly for an absent, working id. |
| Store.CreateBucket | aw-sync/src/sync.rs:25 | Creation succeeds exactly for a new, working id. The database refuses an existing id with `BucketAlreadyExists`, and only the database does; through the client the refusal is a failed call. On success the new bucket is empty and every other bucket is unchanged. |
| Store.GetEvents | aw-sync/src/sync.rs:26-32 | Success exactly for a present, working id. Without a limit, each event of the bucket inside the window appears as often as in the bucket, and no other event appears. With a limit, it holds at most that many events, in timestamp order. |
| Store.GetEventCount | aw-sync/src/sync.rs:34-39 | Success exactly for a present, working id; with no bounds the count is the number of events in the bucket. |
| Store.InsertEvents | aw-sync/src/sync.rs:33 | Success exactly for a present, working id. The events are appended to that bucket and nothing else changes. |
| Store.Heartbeat | aw-sync/src/sync.rs:40 | Success exactly for a present, working id. Only that bucket's events change, as the backend's merge dictates; ids, failures and bucket metadata are kept. |
| Store.Stored | aw-sync/src/sync.rs:116-121 | A created bucket keeps the id and type it was given. |
| Store.Window | aw-sync/src/sync.rs:298-300 | The `get_events` filter keeps only events inside the window and is no longer than the bucket. `Store.WindowCounts` (multiplicities) and `Store.WindowByTimestamp` (order) characterise it. |
| Store.WindowByTimestamp | aw-sync/src/sync.rs:298-300 | The filter keeps the bucket's order: the events with any one timestamp inside the window are the bucket's events with it, in the bucket's order; outside the window there are none. |
| Store.WindowUnbounded | aw-sync/src/sync.rs:280-282 | A query with no bounds sees every event of the bucket. |
| Store.WindowCounts | aw-sync/src/sync.rs:298-300 | The fetch from the cursor holds each event of the bucket inside the window as often as the bucket does, and nothing else. |
| Store.Newest | aw-sync/src/sync.rs:289-291 | The limited query keeps the last `min(n, len)` events, in place. |
| Store.MostRecentQuery | aw-sync/src/sync.rs:289-291 | The limit-1 query returns nothing exactly for an empty bucket. Otherwise it returns one event of the bucket that no other event starts after. |
| Model.Clear | aw-sync/src/sync.rs:302-307 | Clearing drops the store-local id and keeps timestamp, duration and data. |
| Text.Replace | aw-sync/src/sync.rs:244 | The definition of `str::replace`: leftmost non-overlapping matches replaced, the empty pattern matching before every character and at the end. It has no contract of its own; `Text.ReplaceScan`, `Text.ReplaceWithoutMatch`, `Text.ReplaceOnlyMatch` and `Text.ReplaceSingleOccurrence` characterise it. |
| Text.CopiesUnmatched | aw-sync/src/sync.rs:244 | From a point past which the pattern never occurs, `replace` copies the rest unchanged. |
| Text.ReplaceWithoutMatch | aw-sync/src/sync.rs:244 | An id without `-synced` is unchanged by the strip. |
| Text.ReplaceSkipsPrefix | aw-sync/src/sync.rs:244 | A stretch in which no match starts is copied verbatim before the rest of the scan. |
| Text.ReplaceOnlyMatch | aw-sync/src/sync.rs:244 | When the pattern occurs at one index and nowhere else, `replace` swaps that occurrence and keeps everything around it. |
| Text.ReplaceSingleOccurrence | aw-sync/src/sync.rs:244 | When the pattern occurs exactly once, `replace` swaps exactly that occurrence. |
| Text.ReplaceScan | aw-sync/src/sync.rs:244 | The left-to-right scan (resume just past each match; the empty pattern matches everywhere) computes the recursive definition of `replace`. |
| Naming.DestinationId | aw-sync/src/sync.rs:242-246 | The mirror id always ends with `-synced-from-` followed by the source hostname. |
| Naming.DestinationIdSeparatesHosts | aw-sync/src/sync.rs:242-246 | For source ids that strip to the same text, mirror ids are equal exactly when the hostnames are equal. |
| Naming.DestinationIdOfPlainId | aw-sync/src/sync.rs:242-246 | An id without `-synced` stays whole in front of the suffix. |
| Naming.MirrorOfMirror | aw-sync/src/sync.rs:242-246 | Mirroring `base-synced-from-h1` from `h2` gives `base-from-h1-synced-from-h2`, not the original mirror id. |
| Naming.StrippedIdMayKeepMarker | aw-sync/src/sync.rs:244 | The single-pass strip can leave `-synced` in place: `-s-syncedynced` strips to `-synced`. |
| Naming.MarkedAndPlainIdsShareMirror | aw-sync/src/sync.rs:242-246 | Source ids `x` and `x-synced` of one host map to the same mirror id. |
| Naming.WithProvenance | aw-sync/src/sync.rs:251-262 | The new mirror is the source bucket under the mirror id, with `sync.origin` set to the source hostname and `sync.id` set to the source id. Every other data key, the type, the client and the hostname are kept. |
| Naming.GetOrCreateSyncBucket | aw-sync/src/sync.rs:240-269 | An existing mirror is returned with the store untouched. A missing one is created, empty, and returned; with the database backend it is exactly the source bucket with provenance added. A failing lookup aborts without creating anything. Only the mirror id changes. |
| Naming.ClientMirrorLacksProvenance | aw-sync/src/sync.rs:116-121 | Through the client, a newly created mirror keeps the mirror id and the type but holds neither provenance key. |
| Sync.Normalize | aw-sync/src/sync.rs:298-308 | One event per fetched event, in place, each without id and with the same timestamp, duration and data. |
| Sync.InsertNormalize | aw-sync/src/sync.rs:302-311 | Clearing ids commutes with one step of the sort. |
| Sync.SortNormalize | aw-sync/src/sync.rs:298-311 | Clearing ids and then sorting gives the same list as sorting and then clearing. |
| Sync.ResumeCursor | aw-sync/src/sync.rs:289-295 | The cursor is none exactly for an empty mirror. Otherwise it is the end of the mirror's latest-starting event. A failing mirror fails the call. |
| Sync.Replay | aw-sync/src/sync.rs:313-315 | The effect of the heartbeat loop: each written event merged into the mirror in order. It has no contract of its own; `Sync.WriteAll` equates the loop with it and `Sync.ReplayAppendOnly` computes it for a backend that never merges. |
| Sync.ReplayAppendOnly | aw-sync/src/sync.rs:313-315 | With a backend that never merges, the heartbeat loop appends the written events in order. |
| Sync.WriteAll | aw-sync/src/sync.rs:313-315 | One heartbeat per event, in order, on the mirror id, with pulse time 0. Only the mirror's events change. |
| Sync.HeartbeatOnce | aw-sync/src/sync.rs:314 | One heartbeat on the mirror applies the backend's merge to its events so far and changes nothing else in the store. |
| Sync.WrittenInOrder | aw-sync/src/sync.rs:298-315 | The written events are sorted by timestamp, and events with equal timestamps keep their fetched order. Clearing ids before the sort gives the same list as clearing them after. |
| Sync.NormalizeByTimestamp | aw-sync/src/sync.rs:302-307 | Clearing ids commutes with picking the events of one timestamp. |
| Sync.TiesInStorageOrder | aw-sync/src/sync.rs:298-315 | For a timestamp from the cursor on, the heartbeats with it are the source bucket's stored events with it, ids cleared, in storage order; before the cursor there are none. |
| Sync.WrittenPermutes | aw-sync/src/sync.rs:298-315 | The written events are a permutation of the fetched events with ids cleared. |
| Sync.DeltaOfAppendOnly | aw-sync/src/sync.rs:280-323 | With a backend that never merges, the logged delta equals the number of heartbeats. |
| Sync.WrittenFromCursor | aw-sync/src/sync.rs:289-315 | Every heartbeat starts at or after the cursor read from the mirror. |
| Sync.SharedMirrorDropsOlder | aw-sync/src/sync.rs:289-300 | With a mirror already holding an event at 10, a source event at 5 gives cursor 10 and no heartbeat: it is lost. |
| Sync.Transfer | aw-sync/src/sync.rs:280-323 | Succeeds exactly when the source bucket is present and working. On success: the before-count, the cursor from the mirror's latest event, the fetch from the cursor, the sorted normalised heartbeats, and the after-count. |
| Sync.CountEvents | aw-sync/src/sync.rs:280-282 | The before and after counts (also sync.rs:317-319) are the number of events the mirror holds. |
| Sync.OpenThenTransfer | aw-sync/src/sync.rs:279-323 | Opening the mirror and then transferring into it has the effect of one bucket sync: the store becomes `Sync.After` of the store before, with cursor and counts read from the mirror as it was. |
| Sync.SyncBucket | aw-sync/src/sync.rs:279-323 | One loop iteration succeeds exactly when neither the mirror nor the source bucket fails. On success it opens the mirror and transfers the newer events into it: the report's cursor and counts come from the mirror, the store becomes `Sync.After`, and only the mirror id changes. |
| Sorting.Sort | aw-sync/src/sync.rs:311 | The sorted list is non-decreasing by timestamp and as long as its input. |
| Sorting.Insert | aw-sync/src/sync.rs:311 | One step of the sort adds exactly one element; `Sorting.InsertPermutes`, `Sorting.InsertKeepsSorted` and `Sorting.InsertAt` characterise where. |
| Sorting.InsertKeepsSorted | aw-sync/src/sync.rs:311 | Inserting into a sorted list keeps it sorted. |
| Sorting.SortPermutes | aw-sync/src/sync.rs:311 | Sorting is a permutation. |
| Sorting.SortStable | aw-sync/src/sync.rs:311 | Sorting is stable: for each timestamp, the events with it keep their relative order. |
| Sorting.SortOfSorted | aw-sync/src/sync.rs:311 | An already sorted list is left as it is. |
| Sorting.InsertAt | aw-sync/src/sync.rs:311 | An event goes just after the last event not later than it. |
| Sorting.InsertionPoint | aw-sync/src/sync.rs:311 | The backward walk stops just after the last event not later than the new one, past every later event, which is where the sort puts it. |
| Sorting.SortEvents | aw-sync/src/sync.rs:311 | The loop yields a sorted permutation of its input, the same list as the sort's definition. |
| Pass.States | aw-sync/src/sync.rs:278-324 | The stores the destination goes through: one before each report, starting from the destination as it was, and one after the last. |
| Pass.TraceStep | aw-sync/src/sync.rs:278-324 | A sync from the store the earlier syncs left behind extends the trace, and the store it gives is the next state. |
| Pass.TraceWrites | aw-sync/src/sync.rs:298-315 | Each traced report says that its heartbeats carried its bucket's newer events, ids cleared and in order, into its mirror. |
| Pass.CoveringStep | aw-sync/src/sync.rs:278-324 | Syncing one more bucket adds its report once and its mirror id to the ids the destination differs at. |
| Pass.ProgressStep | aw-sync/src/sync.rs:278-324 | Syncing one more source bucket, from the store the earlier syncs left behind, extends the pass's progress by that bucket, its report, its mirror id and the store it gives. |
| Pass.PassStep | aw-sync/src/sync.rs:278-324 | One loop step succeeds exactly when the bucket and its mirror do not fail, and then extends the progress. |
| Pass.SyncAll | aw-sync/src/sync.rs:278-324 | The loop, in any listing order, succeeds exactly when every source bucket can be synced, and then covers them all, each report tracing its sync from the store the earlier ones left behind. |
| Pass.SyncDatastores | aw-sync/src/sync.rs:272-325 | A failed listing fails the pass. Otherwise the pass succeeds exactly when every bucket can be synced. On success each listed bucket is reported exactly once, and each report is one bucket sync (cursor and counts from its mirror, newer events in order) from the store the earlier reports left behind. The result is the store the last one left, and it differs from the destination only at mirror ids. |

## Left out

- The concrete `Datastore` and `AwClient` implementations (sync.rs:43-127) are the store model itself. What they forward to (the embedded database, the HTTP client, `force_commit`) is not part of this model.
- Store.Heartbeat: the merge rule is a parameter, because the backend decides it. No property that depends on merging is claimed. `Sync.ReplayAppendOnly` and `Sync.DeltaOfAppendOnly` assume a backend that never merges.
- Store.Heartbeat: the event the trait returns is not modelled, because the pass discards it.
- Store.GetEvents: without a limit, events come in the order the store keeps them. That order matters: the sort is stable, so it decides the heartbeat order of events with equal timestamps (`Sync.TiesInStorageOrder`). The database's own storage order is not part of this model. With a limit, the latest events come oldest first.
- Store.GetEvents: the window is inclusive at the start and exclusive at the end, on the event's timestamp. The database's own query is not part of this model.
- Failures are per bucket id and persistent. A call can fail only on an id marked failing, so a heartbeat or count after a successful lookup does not fail mid-loop.
- Pass.SyncDatastores: after a failure, the partly written destination is not returned, only the error.
- Pass.SyncDatastores: the source and destination are two separate store values, so a pass from a store into itself (`sync_datastores(ds, ds)`) is not expressible; the model assumes the two stores are distinct.
- Store.CreateBucket: through `AwClient`, what the server does with an existing id is not part of this model; the call is modelled as failing. The pass only creates missing mirrors, so this case does not arise in it.
- The source store is only read: it is an input value that the pass never returns.
- `HashMap` iteration order is arbitrary; the loop takes any remaining id.
- JSON values in bucket and event data are opaque.
- Timestamps are integers, with no RFC 3339 form.
- The `f64` pulse time is the integer 0, the only value the pass uses.
- The bucket fields `created`, `metadata` and `last_updated` are not modelled. The pass never reads them; `bucket_from.clone()` (sync.rs:251) copies them unchanged into a new database mirror. So the equality with `Naming.WithProvenance` in `Naming.GetOrCreateSyncBucket` holds over the modelled fields only.
- `sync_run`, `setup_datastore`, `setup_client`, `setup_test` and `log_buckets` (sync.rs:136-237, 327-338) are filesystem setup, fixtures and logging.
