/** Rust's `str::replace`: one left-to-right scan that replaces every
    non-overlapping occurrence of a pattern, taking the leftmost match
    first and resuming the scan just after it. */
module Text {

  /** `pat` occurs in `s` starting at index `i`. */
  predicate MatchesAt(s: string, pat: string, i: int)
  {
    0 <= i && i + |pat| <= |s| && s[i..i + |pat|] == pat
  }

  /** `pat` occurs somewhere in `s`. */
  predicate Contains(s: string, pat: string)
  {
    exists i :: 0 <= i <= |s| && MatchesAt(s, pat, i)
  }

  /** `s[i..].replace(pat, rep)`: scanning from index `i`, a match of a
      non-empty pattern is replaced and the scan resumes just past it,
      any other character is copied; an empty pattern matches before
      every character and at the end, as in Rust. */
  function ReplaceFrom(s: string, pat: string, rep: string, i: nat): string
    requires i <= |s|
    decreases |s| - i
  {
    if |pat| == 0 then
      if i == |s| then rep else rep + [s[i]] + ReplaceFrom(s, pat, rep, i + 1)
    else if |s| - i < |pat| then s[i..]
    else if MatchesAt(s, pat, i) then rep + ReplaceFrom(s, pat, rep, i + |pat|)
    else [s[i]] + ReplaceFrom(s, pat, rep, i + 1)
  }

  /** `s.replace(pat, rep)`. */
  function Replace(s: string, pat: string, rep: string): string
  {
    ReplaceFrom(s, pat, rep, 0)
  }

  /** From an index past which no match starts, the rest is copied. */
  lemma {:induction false} CopiesUnmatched(s: string, pat: string, rep: string, i: nat)
    requires |pat| > 0 && i <= |s|
    requires forall j :: i <= j ==> !MatchesAt(s, pat, j)
    ensures ReplaceFrom(s, pat, rep, i) == s[i..]
    decreases |s| - i
  {
    if |s| - i >= |pat| {
      assert !MatchesAt(s, pat, i);
      CopiesUnmatched(s, pat, rep, i + 1);
      assert [s[i]] + s[i + 1..] == s[i..];
    }
  }

  /** With no occurrence of a non-empty pattern, `replace` changes nothing. */
  lemma ReplaceWithoutMatch(s: string, pat: string, rep: string)
    requires |pat| > 0 && !Contains(s, pat)
    ensures Replace(s, pat, rep) == s
  {
    assert forall j :: 0 <= j ==> !MatchesAt(s, pat, j);
    CopiesUnmatched(s, pat, rep, 0);
    assert s[0..] == s;
  }

  /** A stretch in which no match starts is copied through unchanged. */
  lemma {:induction false} ReplaceSkipsPrefix(s: string, pat: string, rep: string, i: nat, k: nat)
    requires |pat| > 0 && i <= k <= |s|
    requires forall j :: i <= j < k ==> !MatchesAt(s, pat, j)
    ensures ReplaceFrom(s, pat, rep, i) == s[i..k] + ReplaceFrom(s, pat, rep, k)
    decreases k - i
  {
    if i < k {
      ReplaceSkipsPrefix(s, pat, rep, i + 1, k);
      assert !MatchesAt(s, pat, i);
      if |s| - i < |pat| {
        assert s[i..k] + s[k..] == s[i..];
      } else {
        var tail := ReplaceFrom(s, pat, rep, k);
        assert [s[i]] + (s[i + 1..k] + tail) == ([s[i]] + s[i + 1..k]) + tail;
        assert [s[i]] + s[i + 1..k] == s[i..k];
      }
    }
  }

  /** When `pat` occurs in `s` at `a` and nowhere else, `replace` swaps
      exactly that occurrence. */
  lemma ReplaceOnlyMatch(s: string, pat: string, rep: string, a: nat)
    requires |pat| > 0 && MatchesAt(s, pat, a)
    requires forall i :: MatchesAt(s, pat, i) ==> i == a
    ensures Replace(s, pat, rep) == s[..a] + rep + s[a + |pat|..]
  {
    var k := a + |pat|;
    assert Replace(s, pat, rep) == s[..a] + ReplaceFrom(s, pat, rep, a) by {
      ReplaceSkipsPrefix(s, pat, rep, 0, a);
    }
    assert ReplaceFrom(s, pat, rep, k) == s[k..] by {
      CopiesUnmatched(s, pat, rep, k);
    }
  }

  /** When the only occurrence of `pat` in `x + pat + y` is the one between
      `x` and `y`, `replace` swaps exactly that one. */
  lemma ReplaceSingleOccurrence(x: string, pat: string, rep: string, y: string)
    requires |pat| > 0
    requires forall i :: MatchesAt(x + pat + y, pat, i) ==> i == |x|
    ensures Replace(x + pat + y, pat, rep) == x + rep + y
  {
    var s := x + pat + y;
    assert s[..|x|] == x && s[|x|..|x| + |pat|] == pat && s[|x| + |pat|..] == y;
    ReplaceOnlyMatch(s, pat, rep, |x|);
  }

  /** The scan has emitted `r` and stands at index `i`: what is left to
      emit is the replacement of the rest. */
  ghost predicate Scanned(s: string, pat: string, rep: string, target: string, r: string, i: nat)
  {
    i <= |s| && target == r + ReplaceFrom(s, pat, rep, i)
  }

  /** The scan for the empty pattern: the replacement before every
      character and once more at the end. */
  method ScanEmptyPattern(s: string, pat: string, rep: string) returns (r: string)
    requires |pat| == 0
    ensures r == Replace(s, pat, rep)
  {
    ghost var target := Replace(s, pat, rep);
    r := [];
    var i: nat := 0;
    while i < |s|
      invariant Scanned(s, pat, rep, target, r, i)
    {
      r := r + rep + [s[i]];
      i := i + 1;
    }
    r := r + rep;
  }

  /** One step of the scan for a non-empty pattern: the replacement over
      a match at `i`, else the character at `i`. */
  method ScanOnce(s: string, pat: string, rep: string, ghost target: string, r: string, i: nat)
      returns (r': string, i': nat)
    requires |pat| > 0 && i + |pat| <= |s|
    requires Scanned(s, pat, rep, target, r, i)
    ensures Scanned(s, pat, rep, target, r', i') && i < i'
  {
    if MatchesAt(s, pat, i) {
      r', i' := r + rep, i + |pat|;
    } else {
      r', i' := r + [s[i]], i + 1;
    }
  }

  /** The scan for a non-empty pattern: left to right, each match is
      replaced and the scan resumes just past it; characters outside
      matches are copied. */
  method ScanPattern(s: string, pat: string, rep: string) returns (r: string)
    requires |pat| > 0
    ensures r == Replace(s, pat, rep)
  {
    ghost var target := Replace(s, pat, rep);
    r := [];
    var i: nat := 0;
    while i + |pat| <= |s|
      invariant Scanned(s, pat, rep, target, r, i)
      decreases |s| - i
    {
      r, i := ScanOnce(s, pat, rep, target, r, i);
    }
    r := r + s[i..];
  }

  /** `replace` computed by the scan Rust's library performs. */
  method ReplaceScan(s: string, pat: string, rep: string) returns (r: string)
    ensures r == Replace(s, pat, rep)
  {
    if |pat| == 0 {
      r := ScanEmptyPattern(s, pat, rep);
    } else {
      r := ScanPattern(s, pat, rep);
    }
  }
}
