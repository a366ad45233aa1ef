/** Stable sorting of events by timestamp, Rust's `sort_by` with a
    timestamp comparison: equal timestamps keep their relative order. */
module Sorting {
  import opened Model

  /** Non-decreasing by timestamp. */
  predicate Sorted(s: seq<Event>)
  {
    forall i, j :: 0 <= i < j < |s| ==> s[i].timestamp <= s[j].timestamp
  }

  /** The events of `s` with timestamp `t`, in their order in `s`. */
  function WithTimestamp(s: seq<Event>, t: int): (r: seq<Event>)
  {
    if |s| == 0 then []
    else (if s[0].timestamp == t then [s[0]] else []) + WithTimestamp(s[1..], t)
  }

  /** Inserts `e` into `s` after every event whose timestamp is not later
      than `e`'s. */
  function Insert(s: seq<Event>, e: Event): (r: seq<Event>)
    ensures |r| == |s| + 1
  {
    if |s| == 0 then [e]
    else if e.timestamp < s[0].timestamp then [e] + s
    else [s[0]] + Insert(s[1..], e)
  }

  /** `Insert` adds `e` and keeps everything else. */
  lemma {:induction false} InsertPermutes(s: seq<Event>, e: Event)
    ensures multiset(Insert(s, e)) == multiset(s) + multiset{e}
    decreases |s|
  {
    if |s| > 0 && e.timestamp >= s[0].timestamp {
      InsertPermutes(s[1..], e);
      assert s == [s[0]] + s[1..];
    }
  }

  /** Every event of `Insert(s, e)` is `e` or an event of `s`. */
  lemma InsertMembers(s: seq<Event>, e: Event, k: int)
    requires 0 <= k < |s| + 1
    ensures Insert(s, e)[k] == e || Insert(s, e)[k] in s
  {
    var r := Insert(s, e);
    InsertPermutes(s, e);
    assert r[k] in multiset(r);
  }

  /** The tail of a sorted sequence is sorted. */
  lemma SortedTail(s: seq<Event>)
    requires Sorted(s) && |s| > 0
    ensures Sorted(s[1..])
  {
    forall i, j | 0 <= i < j < |s| - 1 ensures s[1..][i].timestamp <= s[1..][j].timestamp {
      assert s[1..][i] == s[i + 1] && s[1..][j] == s[j + 1];
    }
  }

  /** Every suffix of a sorted sequence is sorted. */
  lemma SortedSuffix(s: seq<Event>, d: nat)
    requires Sorted(s) && d <= |s|
    ensures Sorted(s[d..])
  {
    var r := s[d..];
    forall i, j | 0 <= i < j < |r| ensures r[i].timestamp <= r[j].timestamp {
      assert r[i] == s[d + i] && r[j] == s[d + j];
    }
  }

  /** An event no later than any event of a sorted sequence can go in front. */
  lemma SortedCons(x: Event, rest: seq<Event>)
    requires Sorted(rest)
    requires forall k :: 0 <= k < |rest| ==> x.timestamp <= rest[k].timestamp
    ensures Sorted([x] + rest)
  {
    var r := [x] + rest;
    forall i, j | 0 <= i < j < |r| ensures r[i].timestamp <= r[j].timestamp {
      assert r[j] == rest[j - 1];
      if i > 0 {
        assert r[i] == rest[i - 1];
      }
    }
  }

  /** Inserting into a sorted sequence keeps it sorted. */
  lemma {:induction false} InsertKeepsSorted(s: seq<Event>, e: Event)
    requires Sorted(s)
    ensures Sorted(Insert(s, e))
    decreases |s|
  {
    if |s| == 0 {
    } else if e.timestamp < s[0].timestamp {
      SortedCons(e, s);
    } else {
      var rest := Insert(s[1..], e);
      SortedTail(s);
      InsertKeepsSorted(s[1..], e);
      forall k | 0 <= k < |rest| ensures s[0].timestamp <= rest[k].timestamp {
        InsertMembers(s[1..], e, k);
      }
      SortedCons(s[0], rest);
    }
  }

  /** Insertion sort, inserting the events of `s` from first to last. */
  function Sort(s: seq<Event>): (r: seq<Event>)
    ensures Sorted(r) && |r| == |s|
    decreases |s|
  {
    if |s| == 0 then []
    else
      var init := Sort(s[..|s| - 1]);
      InsertKeepsSorted(init, s[|s| - 1]);
      Insert(init, s[|s| - 1])
  }

  /** The sort is a permutation. */
  lemma {:induction false} SortPermutes(s: seq<Event>)
    ensures multiset(Sort(s)) == multiset(s)
    decreases |s|
  {
    if |s| > 0 {
      SortPermutes(s[..|s| - 1]);
      InsertPermutes(Sort(s[..|s| - 1]), s[|s| - 1]);
      SplitLast(s);
    }
  }

  /** A non-empty sequence is its front followed by its last element. */
  lemma SplitLast<T>(s: seq<T>)
    requires |s| > 0
    ensures s == s[..|s| - 1] + [s[|s| - 1]]
  {
  }

  /** Where `Insert` puts `e`: at the first index past every event not later
      than `e`. */
  lemma {:induction false} InsertAt(s: seq<Event>, e: Event, j: nat)
    requires Sorted(s) && j <= |s|
    requires j == 0 || s[j - 1].timestamp <= e.timestamp
    requires forall k :: j <= k < |s| ==> s[k].timestamp > e.timestamp
    ensures Insert(s, e) == s[..j] + [e] + s[j..]
    decreases |s|
  {
    if |s| == 0 {
    } else if e.timestamp < s[0].timestamp {
      assert j == 0;
    } else {
      assert j >= 1;
      var t := s[1..];
      SortedTail(s);
      assert forall k :: j - 1 <= k < |t| ==> t[k] == s[k + 1];
      InsertAt(t, e, j - 1);
      ConsSplit(s, j, [e]);
    }
  }

  /** `s` split at `j >= 1` around `mid`, seen from its tail. */
  lemma ConsSplit<T>(s: seq<T>, j: nat, mid: seq<T>)
    requires 1 <= j <= |s|
    ensures [s[0]] + (s[1..][..j - 1] + mid + s[1..][j - 1..]) == s[..j] + mid + s[j..]
  {
    assert s[1..][..j - 1] == s[1..j];
    assert s[1..][j - 1..] == s[j..];
    assert [s[0]] + s[1..j] == s[..j];
  }

  /** Filtering by timestamp distributes over concatenation. */
  lemma {:induction false} WithTimestampAppend(a: seq<Event>, b: seq<Event>, t: int)
    ensures WithTimestamp(a + b, t) == WithTimestamp(a, t) + WithTimestamp(b, t)
    decreases |a|
  {
    if |a| == 0 {
      assert a + b == b;
    } else {
      var head := if a[0].timestamp == t then [a[0]] else [];
      assert (a + b)[0] == a[0];
      assert (a + b)[1..] == a[1..] + b;
      assert WithTimestamp(a + b, t) == head + WithTimestamp(a[1..] + b, t);
      WithTimestampAppend(a[1..], b, t);
      assert WithTimestamp(a, t) == head + WithTimestamp(a[1..], t);
    }
  }

  /** When every event of `s` is later than `t`, none has timestamp `t`. */
  lemma {:induction false} WithTimestampAllLater(s: seq<Event>, t: int)
    requires forall k :: 0 <= k < |s| ==> s[k].timestamp > t
    ensures WithTimestamp(s, t) == []
    decreases |s|
  {
    if |s| > 0 {
      WithTimestampAllLater(s[1..], t);
    }
  }

  /** Inserting `e` appends it to the events with its timestamp, so events
      with equal timestamps stay in insertion order. */
  lemma {:induction false} InsertStable(s: seq<Event>, e: Event, t: int)
    requires Sorted(s)
    ensures WithTimestamp(Insert(s, e), t)
         == WithTimestamp(s, t) + (if e.timestamp == t then [e] else [])
    decreases |s|
  {
    var mark := if e.timestamp == t then [e] else [];
    if |s| == 0 {
    } else if e.timestamp < s[0].timestamp {
      assert ([e] + s)[1..] == s;
      assert WithTimestamp(Insert(s, e), t) == mark + WithTimestamp(s, t);
      if e.timestamp == t {
        forall k | 0 <= k < |s| ensures s[k].timestamp > t {
          assert k == 0 || s[0].timestamp <= s[k].timestamp;
        }
        WithTimestampAllLater(s, t);
      }
    } else {
      var head := if s[0].timestamp == t then [s[0]] else [];
      SortedTail(s);
      InsertStable(s[1..], e, t);
      assert ([s[0]] + Insert(s[1..], e))[1..] == Insert(s[1..], e);
      assert WithTimestamp(Insert(s, e), t) == head + (WithTimestamp(s[1..], t) + mark);
      assert WithTimestamp(s, t) == head + WithTimestamp(s[1..], t);
    }
  }

  /** The sort is stable: for every timestamp, the events carrying it come
      out in the order they went in. */
  lemma {:induction false} SortStable(s: seq<Event>, t: int)
    ensures WithTimestamp(Sort(s), t) == WithTimestamp(s, t)
    decreases |s|
  {
    if |s| > 0 {
      var init, last := s[..|s| - 1], s[|s| - 1];
      SortStable(init, t);
      InsertStable(Sort(init), last, t);
      assert s == init + [last];
      WithTimestampAppend(init, [last], t);
      assert WithTimestamp([last], t) == (if last.timestamp == t then [last] else []);
    }
  }

  /** Sorting an already sorted sequence changes nothing. */
  lemma {:induction false} SortOfSorted(s: seq<Event>)
    requires Sorted(s)
    ensures Sort(s) == s
    decreases |s|
  {
    if |s| > 0 {
      var init := s[..|s| - 1];
      SortOfSorted(init);
      InsertAt(init, s[|s| - 1], |init|);
      assert init[..|init|] == init && init[|init|..] == [];
      SplitLast(s);
    }
  }

  /** Walks back from the end of sorted `r` past every event later than
      `e`, stopping at the index where `Insert` puts `e`. */
  method InsertionPoint(r: seq<Event>, e: Event) returns (j: nat)
    requires Sorted(r)
    ensures j <= |r|
    ensures j == 0 || r[j - 1].timestamp <= e.timestamp
    ensures forall k :: j <= k < |r| ==> r[k].timestamp > e.timestamp
    ensures Insert(r, e) == r[..j] + [e] + r[j..]
  {
    j := |r|;
    while j > 0 && r[j - 1].timestamp > e.timestamp
      invariant 0 <= j <= |r|
      invariant forall k :: j <= k < |r| ==> r[k].timestamp > e.timestamp
    {
      j := j - 1;
    }
    InsertAt(r, e, j);
  }

  /** Taking one more element of `s` as a prefix. */
  lemma PrefixStep<T>(s: seq<T>, i: nat)
    requires i < |s|
    ensures s[..i + 1] == s[..i] + [s[i]] && s[..i + 1][..i] == s[..i]
  {
  }

  /** Insertion sort over a growing sorted prefix, the shape of the
      `sort_by` call in `sync_datastores`: sorted, a permutation, and stable (it is
      `Sort`). */
  method SortEvents(s: seq<Event>) returns (r: seq<Event>)
    ensures Sorted(r)
    ensures multiset(r) == multiset(s)
    ensures r == Sort(s)
  {
    SortPermutes(s);
    r := [];
    var i := 0;
    while i < |s|
      invariant 0 <= i <= |s|
      invariant r == Sort(s[..i])
    {
      var j := InsertionPoint(r, s[i]);
      r := r[..j] + [s[i]] + r[j..];
      PrefixStep(s, i);
      i := i + 1;
    }
    assert s[..|s|] == s;
  }
}
