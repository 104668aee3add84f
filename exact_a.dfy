/** The six exact matchers of Project1/Part1_A/Part1_A.cpp. Each takes a text and a
    pattern and returns the offsets it reports, in the order it appends them. Three of
    them (bruteForce, sunday, kmp) return exactly AllOcc; the other three are modelled as
    the code is written and are only partially correct. */
module ExactA {
  import opened Occurrences
  import opened Borders
  import opened Modular
  import RollingHash

  /** bruteForce: try every offset 0 .. n - m and compare byte by byte. */
  method BruteForce(t: seq<int>, p: seq<int>) returns (matches: seq<int>)
    ensures matches == AllOcc(t, p)
  {
    var n, m := |t|, |p|;
    matches := [];
    var i := 0;
    while i <= n - m
      invariant 0 <= i <= n - m + 1 || (i == 0 && n - m < 0)
      invariant matches == OccBelow(t, p, i)
    {
      var j := MatchLength(t, p, i);
      if j == m {
        matches := matches + [i];
      }
      i := i + 1;
    }
  }

  /** The Sunday shift for the byte `c` that follows the window: one past the pattern
      when `c` is absent, otherwise the distance from the last `c` to the pattern's end. */
  function SundayShift(p: seq<int>, c: int): (s: int)
    ensures 1 <= s <= |p| + 1
    ensures s == |p| + 1 <==> c !in p
  {
    var last := LastIndexOf(p, c);
    assert last < 0 ==> c !in p;
    |p| - last
  }

  /** The preprocessing of sunday: a 256-entry table, default m + 1, where a later
      pattern position overwrites an earlier one. */
  method ShiftTable(p: seq<int>) returns (shift: array<int>)
    requires IsBytes(p)
    ensures shift.Length == 256
    ensures forall c :: 0 <= c < 256 ==> shift[c] == SundayShift(p, c)
  {
    var m := |p|;
    shift := new int[256](_ => m + 1);
    for i := 0 to m
      invariant forall c :: 0 <= c < 256 ==> shift[c] == m - LastIndexOf(p[..i], c)
    {
      assert p[..i + 1][..i] == p[..i];
      shift[p[i]] := m - i;
    }
    assert p[..m] == p;
  }

  /** No occurrence starts strictly between the current offset and the offset the
      Sunday shift moves to. */
  lemma SundaySkip(t: seq<int>, p: seq<int>, i: int)
    requires 0 <= i && i + |p| < |t|
    ensures forall k :: i < k < i + SundayShift(p, t[i + |p|]) ==> !Occ(t, p, k)
  {
    var m, c := |p|, t[i + |p|];
    forall k | i < k < i + SundayShift(p, c)
      ensures !Occ(t, p, k)
    {
      assert t[k + (i + m - k)] != p[i + m - k];
    }
  }

  /** Jumping by the Sunday shift leaves the list of occurrences found so far unchanged. */
  lemma SundayAdvance(t: seq<int>, p: seq<int>, i: int)
    requires 0 <= i && i + |p| < |t|
    ensures OccBelow(t, p, i + SundayShift(p, t[i + |p|])) == OccBelow(t, p, i + 1)
  {
    SundaySkip(t, p, i);
    OccBelowSkip(t, p, i + 1, i + SundayShift(p, t[i + |p|]));
  }

  /** sunday: after each window, jump by the shift of the byte just past the window;
      stop when no byte follows the window. */
  method Sunday(t: seq<int>, p: seq<int>) returns (matches: seq<int>)
    requires IsBytes(t) && IsBytes(p)
    ensures matches == AllOcc(t, p)
  {
    var n, m := |t|, |p|;
    var shift := ShiftTable(p);
    matches := [];
    var i := 0;
    while i <= n - m
      invariant 0 <= i
      invariant matches == OccBelow(t, p, i)
      invariant forall c :: 0 <= c < 256 ==> shift[c] == SundayShift(p, c)
    {
      var j := MatchLength(t, p, i);
      if j == m {
        matches := matches + [i];
      }
      assert matches == OccBelow(t, p, i + 1);
      if i + m < n {
        var s := shift[t[i + m]];
        SundayAdvance(t, p, i);
        i := i + s;
      } else {
        OccBelowBeyond(t, p, i + 1);
        return;
      }
    }
    OccBelowBeyond(t, p, i);
  }

  /** The first `i` entries of `f` are the longest proper borders of the prefixes they
      stand for. */
  predicate FailuresUpTo(p: seq<int>, f: seq<int>, i: int) {
    |f| == |p| && 0 <= i <= |p| && forall k :: 0 <= k < i ==> LongestBorder(p, k + 1, f[k])
  }

  /** Writing the longest border of p[..i + 1] at index i extends the filled part. */
  lemma FailuresGrow(p: seq<int>, f: seq<int>, i: int, v: int)
    requires FailuresUpTo(p, f, i) && i < |p| && LongestBorder(p, i + 1, v)
    ensures FailuresUpTo(p, f[i := v], i + 1)
  {
    var g := f[i := v];
    forall k | 0 <= k < i + 1
      ensures LongestBorder(p, k + 1, g[k])
    {
      if k < i {
        assert g[k] == f[k];
      }
    }
  }

  /** The failure function of kmp: failure[k] is the length of the longest proper border
      of pattern[0..k]. The source's `--i` in the rewinding branch cancels the loop's
      `++i`, so that branch keeps `i` and only shortens `j`. */
  method FailureTable(p: seq<int>) returns (failure: array<int>)
    ensures failure.Length == |p|
    ensures forall k :: 0 <= k < |p| ==> LongestBorder(p, k + 1, failure[k])
    ensures forall k :: 0 <= k < |p| ==> 0 <= failure[k] <= k
  {
    var m := |p|;
    failure := new int[m](_ => 0);
    if m == 0 {
      return;
    }
    var i, j := 1, 0;
    assert LongestBorder(p, 1, 0);
    assert FailuresUpTo(p, failure[..], 1);
    while i < m
      invariant 1 <= i <= m && failure.Length == m
      invariant 0 <= j < i
      invariant FailuresUpTo(p, failure[..], i)
      invariant Border(p, i, j)
      invariant i < m ==> NoLongerExtends(p, i, j)
      decreases m - i, j
    {
      ghost var before := failure[..];
      if p[i] == p[j] {
        FailureExtend(p, i, j);
        FailuresGrow(p, before, i, j + 1);
        j := j + 1;
        failure[i] := j;
        assert failure[..] == before[i := j];
        i := i + 1;
      } else if j > 0 {
        assert LongestBorder(p, (j - 1) + 1, before[j - 1]);
        FailureRewind(p, i, j, failure[j - 1]);
        j := failure[j - 1];
      } else {
        FailureNone(p, i);
        FailuresGrow(p, before, i, 0);
        failure[i] := 0;
        assert failure[..] == before[i := 0];
        i := i + 1;
      }
    }
    forall k | 0 <= k < |p|
      ensures LongestBorder(p, k + 1, failure[k]) && 0 <= failure[k] <= k
    {
      assert LongestBorder(p, k + 1, failure[..][k]);
    }
  }

  /** kmp: compare from the start of the pattern at each offset; after `j` agreeing bytes
      move on by j - failure[j - 1] (or by one when nothing agreed), which keeps
      overlapping occurrences. */
  method Kmp(t: seq<int>, p: seq<int>) returns (matches: seq<int>)
    ensures matches == AllOcc(t, p)
  {
    var n, m := |t|, |p|;
    var failure := FailureTable(p);
    matches := [];
    var i := 0;
    while i <= n - m
      invariant 0 <= i
      invariant matches == OccBelow(t, p, i)
      invariant forall k :: 0 <= k < m ==> LongestBorder(p, k + 1, failure[k])
    {
      var j := MatchLength(t, p, i);
      if j == m {
        matches := matches + [i];
      }
      if j == 0 {
        i := i + 1;
      } else {
        assert LongestBorder(p, (j - 1) + 1, failure[j - 1]);
        KmpSkip(t, p, i, j, failure[j - 1]);
        OccBelowSkip(t, p, i + 1, i + j - failure[j - 1]);
        i := i + j - failure[j - 1];
      }
    }
    OccBelowBeyond(t, p, i);
  }

  // ---------------------------------------------------------------------------------
  // rabinKarp as written: the first hashes are plain sums, the roll is base 2.

  const PRIME := 101

  /** patternHash / textHash after the first `k` steps of the preprocessing loop:
      (hash + s[i]) % prime, a sum of bytes. */
  function SumHash(s: seq<int>, k: int): int
    requires 0 <= k <= |s|
  {
    if k == 0 then 0 else CRem(SumHash(s, k - 1) + s[k - 1], PRIME)
  }

  /** `power` after the preprocessing loop: doubled on every step but the last. */
  function PowerA(m: int): int {
    if m <= 0 then 1 else Pow(2, m - 1) % PRIME
  }

  /** textHash at the top of iteration `i` of the scan, as the code computes it. */
  function RollA(t: seq<int>, m: nat, i: nat): (h: int)
    requires i + m <= |t|
    ensures i > 0 ==> 0 <= h < PRIME
  {
    if i == 0 then SumHash(t, m)
    else Normalize(CRem(2 * (RollA(t, m, i - 1) - t[i - 1] * PowerA(m)) + t[i - 1 + m], PRIME), PRIME)
  }

  /** Iteration `i` reports its offset: the window hash equals the pattern hash and
      the byte-by-byte check passes. */
  predicate RkAAccepts(t: seq<int>, p: seq<int>, i: int)
    requires 0 <= i <= |t| - |p|
  {
    RollA(t, |p|, i) == SumHash(p, |p|) && Occ(t, p, i)
  }

  /** The offsets reported at iterations below `k`. */
  function RkAHits(t: seq<int>, p: seq<int>, k: int): seq<int>
    requires k <= |t| - |p| + 1
    decreases k
  {
    if k <= 0 then [] else RkAHits(t, p, k - 1) + (if RkAAccepts(t, p, k - 1) then [k - 1] else [])
  }

  /** rabinKarp of Part1_A. The source reads text[0..m) before any length check, so the
      caller must supply m <= n. */
  method RabinKarp(t: seq<int>, p: seq<int>) returns (matches: seq<int>)
    requires |p| <= |t|
    ensures matches == RkAHits(t, p, |t| - |p| + 1)
  {
    var n, m := |t|, |p|;
    var prime := PRIME;
    var patternHash, textHash, power := 0, 0, 1;
    for i := 0 to m
      invariant patternHash == SumHash(p, i) && textHash == SumHash(t, i)
      invariant power == (if i < m then Pow(2, i) % PRIME else PowerA(m))
    {
      patternHash := CRem(patternHash + p[i], prime);
      textHash := CRem(textHash + t[i], prime);
      if i != m - 1 {
        PowStepMod(2, i, PRIME);
        assert Pow(2, i) % PRIME * 2 == 2 * (Pow(2, i) % PRIME);
        power := CRem(power * 2, prime);
      }
    }
    matches := [];
    for i := 0 to n - m + 1
      invariant i <= n - m ==> textHash == RollA(t, m, i)
      invariant matches == RkAHits(t, p, i)
    {
      if patternHash == textHash {
        var j := MatchLength(t, p, i);
        if j == m {
          matches := matches + [i];
        }
      }
      if i < n - m {
        textHash := CRem(2 * (textHash - t[i] * power) + t[i + m], prime);
        if textHash < 0 {
          textHash := textHash + prime;
        }
      }
    }
  }

  /** What rabinKarp does promise: it reports exactly the offsets whose hashes agree and
      whose bytes match, in ascending order, so its result is a sub-list of AllOcc. */
  lemma {:induction false} RkAHitsMembers(t: seq<int>, p: seq<int>, k: int)
    requires k <= |t| - |p| + 1
    ensures forall x :: x in RkAHits(t, p, k) <==> 0 <= x < k && RkAAccepts(t, p, x)
    ensures StrictlyAscending(RkAHits(t, p, k))
    decreases k
  {
    if k > 0 {
      RkAHitsMembers(t, p, k - 1);
      var prev := RkAHits(t, p, k - 1);
      var tail := if RkAAccepts(t, p, k - 1) then [k - 1] else [];
      assert RkAHits(t, p, k) == prev + tail;
      SnocAscending(prev, tail, k - 1);
    }
  }

  lemma RabinKarpSound(t: seq<int>, p: seq<int>)
    requires |p| <= |t|
    ensures forall x :: x in RkAHits(t, p, |t| - |p| + 1) ==> x in AllOcc(t, p)
    ensures StrictlyAscending(RkAHits(t, p, |t| - |p| + 1))
  {
    RkAHitsMembers(t, p, |t| - |p| + 1);
    AllOccSpec(t, p);
  }

  /** The sum hash and the base-2 roll disagree: on "aaaa" / "aa" the window at offset 1
      hashes to 97 and the one at offset 2 to 4, never to the pattern's 93, so only
      offset 0 is reported although AllOcc is [0, 1, 2]. */
  lemma RabinKarpMissesOverlaps()
    ensures RkAHits([97, 97, 97, 97], [97, 97], 3) == [0]
    ensures AllOcc([97, 97, 97, 97], [97, 97]) == [0, 1, 2]
  {
    var t, p := [97, 97, 97, 97], [97, 97];
    assert SumHash(p, 2) == 93;
    assert PowerA(2) == 2;
    assert RollA(t, 2, 0) == 93;
    assert RollA(t, 2, 1) == 97;
    assert RollA(t, 2, 2) == 4;
    assert Occ(t, p, 0) && Occ(t, p, 1) && Occ(t, p, 2);
    assert !Occ(t, p, 3) && !Occ(t, p, -1);
  }

  /** rabinKarp with the first hashes computed by the same base-2 polynomial the roll
      assumes: it then reports every occurrence. */
  method RabinKarpCorrected(t: seq<int>, p: seq<int>) returns (matches: seq<int>)
    requires IsBytes(t) && IsBytes(p) && |p| <= |t|
    ensures forall x :: x in matches ==> Occ(t, p, x)
    ensures 1 <= |p| ==> matches == AllOcc(t, p)
  {
    matches := RollingHash.Search(t, p, 2);
  }

  // ---------------------------------------------------------------------------------
  // gusfieldZ as written: the scan over pattern + "$" + text with its own reuse step.

  const DOLLAR := 36

  /** The state of the Z scan at the top of an iteration: the z vector and the window. */
  datatype ZScan = ZScan(z: seq<int>, left: int, right: int)

  /** The direct comparison loop: the first `j` from `from` where s[j] and s[j + k]
      differ or the end of the string is reached. */
  function NaiveLcp(s: seq<int>, k: int, from: int): (j: int)
    requires 1 <= k <= |s| && 0 <= from <= |s| - k
    ensures from <= j <= |s| - k
    ensures j < |s| - k ==> s[j] != s[j + k]
    decreases |s| - k - from
  {
    if from < |s| - k && s[from] == s[from + k] then NaiveLcp(s, k, from + 1) else from
  }

  /** Every position the direct comparison passed over agrees. */
  lemma {:induction false} NaiveLcpAgrees(s: seq<int>, k: int, from: int, x: int)
    requires 1 <= k <= |s| && 0 <= from <= |s| - k && from <= x < NaiveLcp(s, k, from)
    ensures s[x] == s[x + k]
    decreases |s| - k - from
  {
    if from < x {
      NaiveLcpAgrees(s, k, from + 1, x);
    }
  }

  /** Starting the direct comparison past positions known to agree gives the same result. */
  lemma {:induction false} NaiveLcpSkip(s: seq<int>, k: int, a: int)
    requires 1 <= k <= |s| && 0 <= a <= |s| - k
    requires s[..a] == s[k..k + a]
    ensures NaiveLcp(s, k, a) == NaiveLcp(s, k, 0)
    decreases a
  {
    if a > 0 {
      assert s[..a - 1] == s[..a][..a - 1];
      assert s[k..k + a - 1] == s[k..k + a][..a - 1];
      NaiveLcpSkip(s, k, a - 1);
      assert s[..a][a - 1] == s[k..k + a][a - 1];
    }
  }

  /** The direct comparison from 0 computes the longest common prefix. */
  lemma NaiveLcpIsLcp(s: seq<int>, k: int)
    requires 1 <= k <= |s|
    ensures IsLcp(s, k, NaiveLcp(s, k, 0))
  {
    var v := NaiveLcp(s, k, 0);
    forall x | 0 <= x < v
      ensures s[..v][x] == s[k..k + v][x]
    {
      NaiveLcpAgrees(s, k, 0, x);
    }
  }

  /** The reuse loop: it compares s[right + j] with s[right + j + q] for j from `from`
      while j < remaining. The model also stops at the end of the string. */
  function ReuseExt(s: seq<int>, right: int, q: int, remaining: int, from: int): (j: int)
    requires 0 <= right && 1 <= q && 1 <= from
    ensures from <= j
    ensures j < remaining && right + j + q < |s| ==> s[right + j] != s[right + j + q]
    decreases remaining - from
  {
    if from < remaining && right + from + q < |s| && s[right + from] == s[right + from + q]
    then ReuseExt(s, right, q, remaining, from + 1)
    else from
  }

  /** Iteration `k` of the scan, as the code performs it. */
  function ZStepA(s: seq<int>, st: ZScan, k: int): (r: ZScan)
    requires 1 <= k < |s| == |st.z| && 0 <= st.left < k && 0 <= st.right
    ensures |r.z| == |s| && 0 <= r.left <= k && st.right <= r.right
    ensures forall x :: 0 <= x < |s| && x != k ==> r.z[x] == st.z[x]
  {
    if k > st.right then
      var j := NaiveLcp(s, k, 0);
      if j > 0 then ZScan(st.z[k := j], k, k + j - 1) else ZScan(st.z[k := j], st.left, st.right)
    else
      var q := k - st.left;
      var remaining := st.right - k + 1;
      if st.z[q] < remaining then ZScan(st.z[k := st.z[q]], st.left, st.right)
      else
        var j := ReuseExt(s, st.right, q, remaining, 1);
        var zk := remaining + j - 1;
        ZScan(st.z[k := zk], k, st.right + zk - 1)
  }

  /** The scan state at the top of iteration `k`. */
  function ZRunA(s: seq<int>, k: int): (st: ZScan)
    requires 1 <= k <= |s|
    ensures |st.z| == |s| && 0 <= st.left < k && 0 <= st.right
    decreases k
  {
    if k == 1 then ZScan(seq(|s|, _ => 0), 0, 0) else ZStepA(s, ZRunA(s, k - 1), k - 1)
  }

  /** The offsets reported by iterations 1 .. k - 1: k' - m - 1 whenever z[k'] == m. */
  function ZHitsA(s: seq<int>, m: int, k: int): seq<int>
    requires 1 <= k <= |s|
    decreases k
  {
    if k == 1 then []
    else ZHitsA(s, m, k - 1) + (if ZRunA(s, k).z[k - 1] == m then [k - 1 - m - 1] else [])
  }

  /** The direct comparison loop of gusfieldZ: j runs from 0 while j < n - k and
      str[j] == str[j + k]. */
  method DirectLength(str: seq<int>, k: int) returns (j: int)
    requires 1 <= k <= |str|
    ensures j == NaiveLcp(str, k, 0)
  {
    var n := |str|;
    j := 0;
    while j < n - k && str[j] == str[j + k]
      invariant 0 <= j <= n - k
      invariant NaiveLcp(str, k, j) == NaiveLcp(str, k, 0)
    {
      j := j + 1;
    }
  }

  /** The reuse loop of gusfieldZ: j runs from 1 while j < remaining and
      str[right + j] == str[right + j + q]. */
  method ReuseLength(str: seq<int>, right: int, q: int, remaining: int) returns (j: int)
    requires 0 <= right && 1 <= q
    ensures j == ReuseExt(str, right, q, remaining, 1)
  {
    var n := |str|;
    j := 1;
    while j < remaining && right + j + q < n && str[right + j] == str[right + j + q]
      invariant 1 <= j
      invariant ReuseExt(str, right, q, remaining, j) == ReuseExt(str, right, q, remaining, 1)
      decreases remaining - j
    {
      j := j + 1;
    }
  }

  /** One iteration of gusfieldZ's loop on the z array and the window [left, right]. */
  method ZStep(str: seq<int>, z: array<int>, left: int, right: int, k: int)
      returns (left': int, right': int)
    requires 1 <= k < |str| == z.Length
    requires ZRunA(str, k) == ZScan(z[..], left, right)
    modifies z
    ensures ZRunA(str, k + 1) == ZScan(z[..], left', right')
  {
    var n := |str|;
    ghost var st := ZScan(z[..], left, right);
    assert ZRunA(str, k + 1) == ZStepA(str, st, k);
    left', right' := left, right;
    if k > right {
      var j := DirectLength(str, k);
      z[k] := j;
      assert z[..] == st.z[k := j];
      if j > 0 {
        left' := k;
        right' := k + j - 1;
      }
      assert ZStepA(str, st, k) == ZScan(z[..], left', right');
    } else {
      var q := k - left;
      var remaining := right - k + 1;
      if z[q] < remaining {
        z[k] := z[q];
        assert z[..] == st.z[k := st.z[q]];
        assert ZStepA(str, st, k) == ZScan(z[..], left', right');
      } else {
        var j := ReuseLength(str, right, q, remaining);
        z[k] := remaining + j - 1;
        assert z[..] == st.z[k := remaining + j - 1];
        left' := k;
        right' := right + z[k] - 1;
        assert ZStepA(str, st, k) == ZScan(z[..], left', right');
      }
    }
  }

  /** The loop of gusfieldZ over str = pattern + "$" + text; its body is ZStep. */
  method ZScanA(str: seq<int>, m: int) returns (matches: seq<int>)
    requires 1 <= |str|
    ensures matches == ZHitsA(str, m, |str|)
  {
    var n := |str|;
    var z := new int[n](_ => 0);
    var left, right := 0, 0;
    matches := [];
    assert z[..] == seq(n, _ => 0);
    for k := 1 to n
      invariant ZRunA(str, k) == ZScan(z[..], left, right)
      invariant matches == ZHitsA(str, m, k)
    {
      left, right := ZStep(str, z, left, right, k);
      if z[k] == m {
        matches := matches + [k - m - 1];
      }
    }
  }

  /** gusfieldZ of Part1_A. */
  method GusfieldZ(t: seq<int>, p: seq<int>) returns (matches: seq<int>)
    ensures matches == ZHitsA(p + [DOLLAR] + t, |p|, |p| + 1 + |t|)
  {
    matches := ZScanA(p + [DOLLAR] + t, |p|);
  }

  /** The reported offsets ascend and lie in [-m - 1, k - m - 1). */
  lemma {:induction false} ZHitsAAscending(s: seq<int>, m: int, k: int)
    requires 1 <= k <= |s|
    ensures StrictlyAscending(ZHitsA(s, m, k))
    ensures forall x :: x in ZHitsA(s, m, k) ==> -m - 1 <= x < k - m - 1
    decreases k
  {
    if k > 1 {
      ZHitsAAscending(s, m, k - 1);
      var prev := ZHitsA(s, m, k - 1);
      assert forall a :: 0 <= a < |prev| ==> prev[a] in prev;
    }
  }

  /** s[k..] and s agree on their first `v` elements and not on one more. */
  predicate IsLcp(s: seq<int>, k: int, v: int) {
    0 <= k && 0 <= v <= |s| - k && s[..v] == s[k..k + v] && (k + v < |s| ==> s[v] != s[k + v])
  }

  /** The agreement IsLcp states, one element at a time. */
  lemma LcpAgrees(s: seq<int>, k: int, v: int, x: int)
    requires IsLcp(s, k, v) && 0 <= x < v
    ensures s[x] == s[k + x]
  {
    assert s[..v][x] == s[k..k + v][x];
  }

  /** When the position lies outside the window, z[k] is the exact longest common prefix
      of the string and its suffix at k, and the window becomes [k, k + z[k] - 1]. */
  lemma ZDirectExact(s: seq<int>, k: int)
    requires 1 <= k < |s| && k > ZRunA(s, k).right
    ensures IsLcp(s, k, ZRunA(s, k + 1).z[k])
    ensures ZRunA(s, k + 1).z[k] > 0 ==>
              ZRunA(s, k + 1).left == k && ZRunA(s, k + 1).right == k + ZRunA(s, k + 1).z[k] - 1
  {
    assert ZRunA(s, k + 1).z[k] == NaiveLcp(s, k, 0);
    NaiveLcpIsLcp(s, k);
  }

  /** No position of the pattern part has the whole pattern as its common prefix: the
      comparison would reach the separator with a pattern byte. */
  lemma DollarSeparates(p: seq<int>, t: seq<int>)
    requires DOLLAR !in p
    ensures forall k :: 1 <= k <= |p| ==> !IsLcp(p + [DOLLAR] + t, k, |p|)
  {
    var s, m := p + [DOLLAR] + t, |p|;
    forall k | 1 <= k <= m
      ensures !IsLcp(s, k, m)
    {
      assert s[m - k] == p[m - k];
      assert s[m - k] != s[k + (m - k)];
      if k + m <= |s| {
        assert s[..m][m - k] != s[k..k + m][m - k];
      }
    }
  }

  /** A hit reported from a direct comparison is a real occurrence when '$' is not a
      pattern byte. */
  lemma ZDirectHitSound(t: seq<int>, p: seq<int>, k: int)
    requires DOLLAR !in p
    requires 1 <= k < |p| + 1 + |t|
    requires k > ZRunA(p + [DOLLAR] + t, k).right
    requires ZRunA(p + [DOLLAR] + t, k + 1).z[k] == |p|
    ensures Occ(t, p, k - |p| - 1)
  {
    var s, m := p + [DOLLAR] + t, |p|;
    ZDirectExact(s, k);
    assert IsLcp(s, k, m);
    DollarSeparates(p, t);
    assert k > m;
    forall x | 0 <= x < m
      ensures t[k - m - 1 + x] == p[x]
    {
      LcpAgrees(s, k, m, x);
      assert s[k + x] == t[k - m - 1 + x];
    }
  }

  /** The window rule of the reuse branch is wrong: on "aa" / "aaaa" the position of the
      occurrence at offset 1 gets z = 1 instead of 2, so the result is [0, 2] although
      AllOcc is [0, 1, 2]. */
  lemma GusfieldZMissesOccurrence()
    ensures ZHitsA([97, 97, DOLLAR, 97, 97, 97, 97], 2, 7) == [0, 2]
    ensures AllOcc([97, 97, 97, 97], [97, 97]) == [0, 1, 2]
  {
    var s := [97, 97, DOLLAR, 97, 97, 97, 97];
    assert ZRunA(s, 1) == ZScan([0, 0, 0, 0, 0, 0, 0], 0, 0);
    assert NaiveLcp(s, 1, 0) == 1;
    assert ZRunA(s, 2) == ZScan([0, 1, 0, 0, 0, 0, 0], 1, 1);
    assert NaiveLcp(s, 2, 0) == 0;
    assert ZRunA(s, 3) == ZScan([0, 1, 0, 0, 0, 0, 0], 1, 1);
    assert NaiveLcp(s, 3, 2) == 2;
    assert NaiveLcp(s, 3, 0) == 2;
    assert ZRunA(s, 4) == ZScan([0, 1, 0, 2, 0, 0, 0], 3, 4);
    assert ZRunA(s, 5) == ZScan([0, 1, 0, 2, 1, 0, 0], 4, 4);
    assert NaiveLcp(s, 5, 0) == 2;
    assert ZRunA(s, 6) == ZScan([0, 1, 0, 2, 1, 2, 0], 5, 6);
    assert ZRunA(s, 7) == ZScan([0, 1, 0, 2, 1, 2, 1], 6, 6);
    var t, p := [97, 97, 97, 97], [97, 97];
    assert Occ(t, p, 0) && Occ(t, p, 1) && Occ(t, p, 2);
  }

  // ---------------------------------------------------------------------------------
  // fsm as written: the transition table only ever advances on the next pattern byte.

  /** The transition the table records: the next pattern byte advances, anything else,
      and any byte in the final state, goes back to state 0. */
  function FsmNext(p: seq<int>, s: int, c: int): (r: int)
    ensures 0 <= r <= |p|
    ensures r > 0 <==> 0 <= s < |p| && c == p[s]
  {
    if 0 <= s < |p| && c == p[s] then s + 1 else 0
  }

  /** The table-building loop of fsm. Its `state` is always `i` when row `i` is filled, so
      every entry not set to i + 1 is copied from the row being filled and stays 0. */
  method BuildTransition(p: seq<int>) returns (transition: array2<int>)
    requires IsBytes(p)
    ensures transition.Length0 == |p| + 1 && transition.Length1 == 256
    ensures forall s, c :: 0 <= s <= |p| && 0 <= c < 256 ==> transition[s, c] == FsmNext(p, s, c)
  {
    var m := |p|;
    transition := new int[m + 1, 256]((_, _) => 0);
    var state := 0;
    for i := 0 to m + 1
      invariant i <= m ==> state == i
      invariant forall s, c :: 0 <= s < i && 0 <= c < 256 ==> transition[s, c] == FsmNext(p, s, c)
      invariant forall s, c :: i <= s <= m && 0 <= c < 256 ==> transition[s, c] == 0
    {
      for j := 0 to 256
        invariant forall s, c :: 0 <= s < i && 0 <= c < 256 ==> transition[s, c] == FsmNext(p, s, c)
        invariant forall c :: 0 <= c < j ==> transition[i, c] == FsmNext(p, i, c)
        invariant forall s, c :: i <= s <= m && 0 <= c < 256 && (s != i || j <= c) ==> transition[s, c] == 0
      {
        if i < m && j == p[i] {
          transition[i, j] := i + 1;
        } else {
          transition[i, j] := transition[state, j];
        }
      }
      if i < m {
        state := transition[state, p[i]];
      }
    }
  }

  /** The state after reading the first `k` bytes of `t`. */
  function FsmState(t: seq<int>, p: seq<int>, k: int): int
    requires 0 <= k <= |t|
  {
    if k == 0 then 0 else FsmNext(p, FsmState(t, p, k - 1), t[k - 1])
  }

  /** The offsets reported after reading the first `k` bytes. */
  function FsmHits(t: seq<int>, p: seq<int>, k: int): seq<int>
    requires 0 <= k <= |t|
  {
    if k == 0 then []
    else FsmHits(t, p, k - 1) + (if FsmState(t, p, k) == |p| then [k - 1 - |p| + 1] else [])
  }

  /** fsm of Part1_A. */
  method Fsm(t: seq<int>, p: seq<int>) returns (matches: seq<int>)
    requires IsBytes(t) && IsBytes(p)
    ensures matches == FsmHits(t, p, |t|)
  {
    var n, m := |t|, |p|;
    var transition := BuildTransition(p);
    matches := [];
    var currentState := 0;
    for i := 0 to n
      invariant currentState == FsmState(t, p, i)
      invariant matches == FsmHits(t, p, i)
      invariant forall s, c :: 0 <= s <= m && 0 <= c < 256 ==> transition[s, c] == FsmNext(p, s, c)
    {
      currentState := transition[currentState, t[i]];
      if currentState == m {
        matches := matches + [i - m + 1];
      }
    }
  }

  /** In state `s` the last `s` bytes read spell the first `s` bytes of the pattern. */
  lemma {:induction false} FsmStateSpellsPrefix(t: seq<int>, p: seq<int>, k: int)
    requires 0 <= k <= |t|
    ensures 0 <= FsmState(t, p, k) <= |p| && FsmState(t, p, k) <= k
    ensures forall x :: 0 <= x < FsmState(t, p, k) ==> t[k - FsmState(t, p, k) + x] == p[x]
    decreases k
  {
    if k > 0 {
      FsmStateSpellsPrefix(t, p, k - 1);
    }
  }

  /** For a non-empty pattern every reported offset is an occurrence, and the offsets
      ascend; fsm can still miss occurrences. */
  lemma {:induction false} FsmHitsSound(t: seq<int>, p: seq<int>, k: int)
    requires 1 <= |p| && 0 <= k <= |t|
    ensures forall x :: x in FsmHits(t, p, k) ==> Occ(t, p, x) && x + |p| <= k
    ensures StrictlyAscending(FsmHits(t, p, k))
    decreases k
  {
    if k > 0 {
      FsmHitsSound(t, p, k - 1);
      FsmStateSpellsPrefix(t, p, k);
      var prev := FsmHits(t, p, k - 1);
      assert forall a :: 0 <= a < |prev| ==> prev[a] in prev;
      if FsmState(t, p, k) == |p| {
        assert forall x :: 0 <= x < |p| ==> t[k - |p| + x] == p[x];
      }
    }
  }

  /** With the empty pattern every state is final, so fsm reports 1 .. n instead of 0 .. n. */
  lemma {:induction false} FsmEmptyPattern(t: seq<int>, k: int)
    requires 0 <= k <= |t|
    ensures FsmHits(t, [], k) == seq(k, x => x + 1)
    decreases k
  {
    if k > 0 {
      FsmEmptyPattern(t, k - 1);
    }
  }

  /** After a full match the machine restarts from state 0, so on "aaaa" / "aa" it reports
      only [0] although AllOcc is [0, 1, 2]. */
  lemma FsmMissesOverlaps()
    ensures FsmHits([97, 97, 97, 97], [97, 97], 4) == [0]
    ensures AllOcc([97, 97, 97, 97], [97, 97]) == [0, 1, 2]
  {
    var t, p := [97, 97, 97, 97], [97, 97];
    assert FsmState(t, p, 2) == 2;
    assert FsmState(t, p, 3) == 0;
    assert FsmState(t, p, 4) == 1;
    assert Occ(t, p, 0) && Occ(t, p, 1) && Occ(t, p, 2);
    assert !Occ(t, p, 3) && !Occ(t, p, -1);
  }

  /** A failed partial match also falls back to state 0 without re-reading its own bytes,
      so an occurrence starting inside it is lost even when nothing overlaps: on "aab" /
      "ab" the state runs 1, 0, 0 and fsm reports nothing, although AllOcc is [1]. */
  lemma FsmMissesAfterPartialMatch()
    ensures FsmHits([97, 97, 98], [97, 98], 3) == []
    ensures AllOcc([97, 97, 98], [97, 98]) == [1]
  {
    var t, p := [97, 97, 98], [97, 98];
    assert FsmState(t, p, 1) == 1;
    assert FsmState(t, p, 2) == 0;
    assert FsmState(t, p, 3) == 0;
    assert !Occ(t, p, 0) && Occ(t, p, 1) && !Occ(t, p, 2) && !Occ(t, p, -1);
  }
}
