/** The shared contract of the exact matchers: where does a pattern occur in a text.
    Texts and patterns are byte strings, written as sequences of integers in [0, 256). */
module Occurrences {

  /** Every element is a byte value, so it can index a 256-entry table. */
  predicate IsBytes(s: seq<int>) {
    forall k :: 0 <= k < |s| ==> 0 <= s[k] < 256
  }

  /** The pattern `p` occurs in the text `t` at offset `i`. */
  predicate Occ(t: seq<int>, p: seq<int>, i: int) {
    0 <= i && i + |p| <= |t| && forall j :: 0 <= j < |p| ==> t[i + j] == p[j]
  }

  predicate StrictlyAscending(s: seq<int>) {
    forall a, b :: 0 <= a < b < |s| ==> s[a] < s[b]
  }

  /** The occurrences at offsets below `k`, in ascending order, as a scan that appends
      each offset it confirms builds them. */
  function OccBelow(t: seq<int>, p: seq<int>, k: int): seq<int>
    decreases k
  {
    if k <= 0 then [] else OccBelow(t, p, k - 1) + (if Occ(t, p, k - 1) then [k - 1] else [])
  }

  /** All occurrences: the candidate offsets are 0 .. |t| - |p|. */
  function AllOcc(t: seq<int>, p: seq<int>): seq<int> {
    OccBelow(t, p, |t| - |p| + 1)
  }

  /** Appending an offset above every listed one, or nothing, keeps a list ascending. */
  lemma SnocAscending(prev: seq<int>, tail: seq<int>, x: int)
    requires StrictlyAscending(prev) && (forall y :: y in prev ==> y < x)
    requires tail == [] || tail == [x]
    ensures StrictlyAscending(prev + tail)
    ensures forall y :: y in prev + tail <==> y in prev || y in tail
  {
    var s := prev + tail;
    forall a, b | 0 <= a < b < |s|
      ensures s[a] < s[b]
    {
      assert s[a] == prev[a] && prev[a] in prev;
      if b < |prev| {
        assert s[b] == prev[b];
      } else {
        assert s[b] == x;
      }
    }
  }

  /** A list of occurrences below `k`, in ascending order. */
  predicate SoundBelow(t: seq<int>, p: seq<int>, s: seq<int>, k: int) {
    StrictlyAscending(s) && forall x :: x in s ==> Occ(t, p, x) && x < k
  }

  /** Appending the occurrence at `k`, or nothing, keeps the list sound one offset further. */
  lemma SoundSnoc(t: seq<int>, p: seq<int>, s: seq<int>, k: int, found: bool)
    requires SoundBelow(t, p, s, k) && (found ==> Occ(t, p, k))
    ensures SoundBelow(t, p, s + (if found then [k] else []), k + 1)
  {
    var tail := if found then [k] else [];
    SnocAscending(s, tail, k);
  }

  lemma {:induction false} OccBelowMembers(t: seq<int>, p: seq<int>, k: int)
    ensures forall i :: i in OccBelow(t, p, k) <==> 0 <= i < k && Occ(t, p, i)
    ensures StrictlyAscending(OccBelow(t, p, k))
    decreases k
  {
    if k > 0 {
      OccBelowMembers(t, p, k - 1);
      var prev := OccBelow(t, p, k - 1);
      var tail := if Occ(t, p, k - 1) then [k - 1] else [];
      assert OccBelow(t, p, k) == prev + tail;
      SnocAscending(prev, tail, k - 1);
    }
  }

  /** AllOcc lists exactly the offsets where the pattern occurs, each once, in ascending
      order, and nothing when the pattern is longer than the text. */
  lemma AllOccSpec(t: seq<int>, p: seq<int>)
    ensures forall i :: i in AllOcc(t, p) <==> Occ(t, p, i)
    ensures StrictlyAscending(AllOcc(t, p))
    ensures |p| > |t| ==> AllOcc(t, p) == []
  {
    OccBelowMembers(t, p, |t| - |p| + 1);
  }

  /** Offsets that are not occurrences can be skipped without changing the list. */
  lemma {:induction false} OccBelowSkip(t: seq<int>, p: seq<int>, a: int, b: int)
    requires a <= b
    requires forall k :: a <= k < b ==> !Occ(t, p, k)
    ensures OccBelow(t, p, b) == OccBelow(t, p, a)
    decreases b - a
  {
    if a < b {
      OccBelowSkip(t, p, a, b - 1);
      if b > 0 {
        assert !Occ(t, p, b - 1);
      }
    }
  }

  /** Past the last candidate offset the list is complete. */
  lemma OccBelowBeyond(t: seq<int>, p: seq<int>, k: int)
    requires k >= |t| - |p| + 1
    ensures OccBelow(t, p, k) == AllOcc(t, p)
  {
    OccBelowSkip(t, p, |t| - |p| + 1, k);
  }

  /** The last index of `c` in `p`, or -1 when `c` does not occur (C++ `rfind`). */
  function LastIndexOf(p: seq<int>, c: int): (r: int)
    ensures -1 <= r < |p|
    ensures r >= 0 ==> p[r] == c
    ensures forall k :: r < k < |p| ==> p[k] != c
  {
    if |p| == 0 then -1
    else if p[|p| - 1] == c then |p| - 1
    else LastIndexOf(p[..|p| - 1], c)
  }

  /** The brute-force inner comparison loop shared by every matcher: it returns the
      length of the longest prefix of `p` that agrees with `t` from offset `i`. */
  method MatchLength(t: seq<int>, p: seq<int>, i: int) returns (j: int)
    requires 0 <= i && i + |p| <= |t|
    ensures 0 <= j <= |p|
    ensures forall x :: 0 <= x < j ==> t[i + x] == p[x]
    ensures j < |p| ==> t[i + j] != p[j]
    ensures Occ(t, p, i) <==> j == |p|
  {
    j := 0;
    while j < |p| && t[i + j] == p[j]
      invariant 0 <= j <= |p|
      invariant forall x :: 0 <= x < j ==> t[i + x] == p[x]
    {
      j := j + 1;
    }
  }
}
