/** Where a source bucket is mirrored in the destination store: the id of
    the mirror bucket, and fetching or creating that bucket. */
module Naming {
  import opened Results
  import opened Model
  import opened Text
  import opened Store

  /** Removed from a source id before the suffix is appended. */
  const Marker: string := "-synced"
  /** Put between the stripped source id and the source hostname. */
  const FromMarker: string := "-synced-from-"
  /** Provenance keys stamped on a new mirror bucket. */
  const OriginKey: string := "sync.origin"
  const IdKey: string := "sync.id"

  /** The id of the bucket mirroring source bucket `id` of host `hostname`:
      the id with every `-synced` removed, then `-synced-from-`, then the
      hostname. */
  function DestinationId(id: string, hostname: string): (r: string)
    ensures |r| >= |FromMarker + hostname|
    ensures r[|r| - |FromMarker + hostname|..] == FromMarker + hostname
  {
    var stripped := Replace(id, Marker, "");
    assert (stripped + FromMarker + hostname)[|stripped|..] == FromMarker + hostname;
    stripped + FromMarker + hostname
  }

  /** For one source id (or two that strip to the same text), distinct
      hostnames give distinct mirror ids, and equal ones equal mirror ids. */
  lemma DestinationIdSeparatesHosts(id1: string, id2: string, h1: string, h2: string)
    requires Replace(id1, Marker, "") == Replace(id2, Marker, "")
    ensures DestinationId(id1, h1) == DestinationId(id2, h2) <==> h1 == h2
  {
    var p := Replace(id1, Marker, "") + FromMarker;
    if DestinationId(id1, h1) == DestinationId(id2, h2) {
      assert (p + h1)[|p|..] == h1 && (p + h2)[|p|..] == h2;
    }
  }

  /** An id without `-synced` is kept whole in front of the suffix. */
  lemma DestinationIdOfPlainId(id: string, hostname: string)
    requires !Contains(id, Marker)
    ensures DestinationId(id, hostname) == id + FromMarker + hostname
  {
    ReplaceWithoutMatch(id, Marker, "");
  }

  /** Mirroring a mirror: when the `-synced` of its suffix is the only one
      in `base-synced-from-h1`, the old suffix loses its `-synced` and the
      new one is appended, so the id carries a single `-synced-from-`
      again. */
  lemma MirrorOfMirror(base: string, h1: string, h2: string)
    requires forall i :: MatchesAt(base + FromMarker + h1, Marker, i) ==> i == |base|
    ensures DestinationId(base, h1) == base + FromMarker + h1
    ensures DestinationId(base + FromMarker + h1, h2) == base + "-from-" + h1 + FromMarker + h2
  {
    var s := base + FromMarker + h1;
    forall i | 0 <= i ensures !MatchesAt(base, Marker, i) {
      if MatchesAt(base, Marker, i) {
        assert s[i..i + |Marker|] == base[i..i + |Marker|];
        assert MatchesAt(s, Marker, i);
      }
    }
    DestinationIdOfPlainId(base, h1);
    assert FromMarker == Marker + "-from-";
    assert s == base + Marker + ("-from-" + h1);
    ReplaceSingleOccurrence(base, Marker, "", "-from-" + h1);
  }

  /** An id in which removing one `-synced` joins its neighbours into
      another. */
  const Rejoining: string := "-s-syncedynced"

  /** No match starts in the first two characters of `Rejoining`. */
  lemma RejoiningFront()
    ensures forall j :: 0 <= j < 2 ==> !MatchesAt(Rejoining, Marker, j)
  {
    assert !MatchesAt(Rejoining, Marker, 0) by {
      assert Rejoining[2] != Marker[2];
    }
    assert !MatchesAt(Rejoining, Marker, 1) by {
      assert Rejoining[1] != Marker[0];
    }
  }

  /** From index 2 on, `Rejoining` is one match followed by `ynced`. */
  lemma RejoiningRest()
    ensures Rejoining[0..2] + ReplaceFrom(Rejoining, Marker, "", 2) == Marker
  {
    // Not needed for soundness: these steps keep the solver's search small.
    assert MatchesAt(Rejoining, Marker, 2);
    assert ReplaceFrom(Rejoining, Marker, "", 9) == "ynced";
    assert Rejoining[0..2] == "-s";
  }

  /** Removing `-synced` is a single pass, so the stripped id is not free
      of the marker: `-s-syncedynced` strips to `-synced`. */
  lemma StrippedIdMayKeepMarker()
    ensures Replace(Rejoining, Marker, "") == Marker
  {
    RejoiningFront();
    ReplaceSkipsPrefix(Rejoining, Marker, "", 0, 2);
    RejoiningRest();
  }

  /** Two source buckets of one host whose ids differ only by a trailing
      `-synced` share one mirror bucket. */
  lemma MarkedAndPlainIdsShareMirror(id: string, hostname: string)
    requires forall i :: MatchesAt(id + Marker, Marker, i) ==> i == |id|
    ensures DestinationId(id + Marker, hostname) == DestinationId(id, hostname)
  {
    assert id + Marker + "" == id + Marker;
    ReplaceSingleOccurrence(id, Marker, "", "");
    forall i | 0 <= i ensures !MatchesAt(id, Marker, i) {
      if MatchesAt(id, Marker, i) {
        assert (id + Marker)[i..i + |Marker|] == id[i..i + |Marker|];
        assert MatchesAt(id + Marker, Marker, i);
      }
    }
    ReplaceWithoutMatch(id, Marker, "");
  }

  /** The bucket `create_bucket` is handed: the source bucket under the
      mirror id, with its hostname and id recorded as provenance. */
  function WithProvenance(src: Bucket, newId: string): (r: Bucket)
    ensures r.id == newId && r.bucketType == src.bucketType
    ensures r.client == src.client && r.hostname == src.hostname
    ensures r.data.Keys == src.data.Keys + {OriginKey, IdKey}
    ensures r.data[OriginKey] == JsonString(src.hostname) && r.data[IdKey] == JsonString(src.id)
    ensures forall k :: k in src.data && k != OriginKey && k != IdKey ==> r.data[k] == src.data[k]
  {
    src.(id := newId, data := src.data[OriginKey := JsonString(src.hostname)][IdKey := JsonString(src.id)])
  }

  /** The store after creating the mirror bucket of `src` in `to`. */
  function Created(to: Store, src: Bucket): Store
  {
    var newId := DestinationId(src.id, src.hostname);
    to.(entries := to.entries[newId := Entry(Stored(to.backend, WithProvenance(src, newId)), [])])
  }

  /** `to'` is `to` with the mirror bucket of `src` present: the bucket it
      already held, with its events, or else a new, empty one; nothing
      else differs. */
  predicate MirrorOpened(to: Store, src: Bucket, to': Store)
  {
    var newId := DestinationId(src.id, src.hostname);
    && newId !in to.failing
    && to'.backend == to.backend && to'.failing == to.failing && to'.listingFails == to.listingFails
    && to'.entries.Keys == to.entries.Keys + {newId}
    && (forall k :: k in to.entries && k != newId ==> to'.entries[k] == to.entries[k])
    && to'.entries[newId]
       == (if newId in to.entries then to.entries[newId]
           else Entry(Stored(to.backend, WithProvenance(src, newId)), []))
  }

  /** Through the client, a newly created mirror is the bucket the server
      builds from id and type alone: the provenance keys are not in it. */
  lemma ClientMirrorLacksProvenance(src: Bucket, to: Store)
    requires to.backend.Client?
    requires var newId := DestinationId(src.id, src.hostname); newId !in to.failing && newId !in to.entries
    ensures var r := GetOrCreateSyncBucket(src, to);
      && r.Success? && r.value.0.id == DestinationId(src.id, src.hostname) && r.value.0.bucketType == src.bucketType
      && OriginKey !in r.value.0.data && IdKey !in r.value.0.data
  {
  }

  /** `get_or_create_sync_bucket`: the mirror bucket of `src` and the
      destination store afterwards. */
  function GetOrCreateSyncBucket(src: Bucket, to: Store): (r: Result<(Bucket, Store), StoreError>)
    ensures var newId := DestinationId(src.id, src.hostname);
      && (newId in to.failing ==> r == Failure(BackendFailure))
      && (newId !in to.failing && newId in to.entries ==> r == Success((to.entries[newId].bucket, to)))
      && (newId !in to.failing && newId !in to.entries ==>
            r == Success((Created(to, src).entries[newId].bucket, Created(to, src))))
    ensures var newId := DestinationId(src.id, src.hostname);
      to.backend == Datastore && newId !in to.failing && newId !in to.entries ==>
        r.Success? && r.value.0 == WithProvenance(src, newId)
    ensures Valid(to) && r.Success? ==> Valid(r.value.1) && r.value.0.id == DestinationId(src.id, src.hostname)
    ensures r.Success? ==> MirrorOpened(to, src, r.value.1)
  {
    var newId := DestinationId(src.id, src.hostname);
    match GetBucket(to, newId)
    case Success(b) => Success((b, to))
    case Failure(NoSuchBucket) =>
      (match CreateBucket(to, WithProvenance(src, newId))
       case Failure(e) => Failure(e)
       case Success(to') =>
         match GetBucket(to', newId)
         case Failure(e) => Failure(e)
         case Success(b) => Success((b, to')))
    case Failure(e) => Failure(e)
  }
}
