/** The four exact matchers of Project1/Part1_B/Part1_B.cpp. binarySunday and kmp are the
    same code as sunday and kmp in Part1_A; gusfieldZ and rabinKarp are the textbook
    algorithms and report every occurrence. */
module ExactB {
  import opened Occurrences
  import ExactA
  import RollingHash

  /** binarySunday: the Sunday scan with a 256-entry shift table. */
  method BinarySunday(t: seq<int>, p: seq<int>) returns (matches: seq<int>)
    requires IsBytes(t) && IsBytes(p)
    ensures matches == AllOcc(t, p)
  {
    matches := ExactA.Sunday(t, p);
  }

  /** kmp: the failure-function scan. */
  method Kmp(t: seq<int>, p: seq<int>) returns (matches: seq<int>)
    ensures matches == AllOcc(t, p)
  {
    matches := ExactA.Kmp(t, p);
  }

  /** rabinKarp with d = 256 and q = 101. The source reads text[0..m) before any length
      check, so the caller must supply m <= n. */
  method RabinKarp(t: seq<int>, p: seq<int>) returns (matches: seq<int>)
    requires IsBytes(t) && IsBytes(p) && |p| <= |t|
    ensures forall x :: x in matches ==> Occ(t, p, x)
    ensures StrictlyAscending(matches)
    ensures 1 <= |p| ==> matches == AllOcc(t, p)
  {
    matches := RollingHash.Search(t, p, 256);
  }

  // ---------------------------------------------------------------------------------
  // gusfieldZ: the textbook Z algorithm over pattern + "$" + text.

  function Min(a: int, b: int): (r: int)
    ensures r <= a && r <= b && (r == a || r == b)
  {
    if a <= b then a else b
  }

  /** Inside the window [l, l + zl - 1] the suffix at i agrees with the string for
      min(window rest, z[i - l]) elements: the textbook initial value of Z[i]. */
  lemma ZWindow(s: seq<int>, l: int, i: int, zl: int, zk: int)
    requires 1 <= l < i <= l + zl - 1
    requires ExactA.IsLcp(s, l, zl) && ExactA.IsLcp(s, i - l, zk)
    ensures s[..Min(l + zl - i, zk)] == s[i..i + Min(l + zl - i, zk)]
  {
    var k, w := i - l, Min(l + zl - i, zk);
    forall x | 0 <= x < w
      ensures s[..w][x] == s[i..i + w][x]
    {
      ExactA.LcpAgrees(s, l, zl, k + x);
      ExactA.LcpAgrees(s, k, zk, x);
    }
  }

  /** Two values that are both the longest common prefix at k are equal. */
  lemma LcpUnique(s: seq<int>, k: int, v: int, w: int)
    requires ExactA.IsLcp(s, k, v) && ExactA.IsLcp(s, k, w)
    ensures v == w
  {
    if v < w {
      ExactA.LcpAgrees(s, k, w, v);
    } else if w < v {
      ExactA.LcpAgrees(s, k, v, w);
    }
  }

  /** The longest common prefix of the string and its suffix at k. */
  function Lcp(s: seq<int>, k: int): (v: int)
    requires 1 <= k <= |s|
    ensures 0 <= v <= |s| - k
  {
    ExactA.NaiveLcp(s, k, 0)
  }

  lemma LcpIsLcp(s: seq<int>, k: int)
    requires 1 <= k <= |s|
    ensures ExactA.IsLcp(s, k, Lcp(s, k))
  {
    ExactA.NaiveLcpIsLcp(s, k);
  }

  /** The offsets reported by iterations 1 .. k - 1: i - m - 1 whenever the longest common
      prefix at i is m. */
  function LcpHits(s: seq<int>, m: int, k: int): seq<int>
    requires 1 <= k <= |s|
    decreases k
  {
    if k == 1 then [] else LcpHits(s, m, k - 1) + (if Lcp(s, k - 1) == m then [k - 1 - m - 1] else [])
  }

  /** Inside the window the textbook initial value min(r - i + 1, Z[i - l]) is a safe
      starting point for the direct comparison at i. */
  lemma ZStart(s: seq<int>, l: int, i: int, zl: int, zk: int)
    requires 1 <= l < i <= l + zl - 1 && i < |s|
    requires zl == Lcp(s, l) && zk == Lcp(s, i - l)
    ensures 0 <= Min(l + zl - i, zk) <= |s| - i
    ensures ExactA.NaiveLcp(s, i, Min(l + zl - i, zk)) == Lcp(s, i)
  {
    LcpIsLcp(s, l);
    LcpIsLcp(s, i - l);
    ZWindow(s, l, i, zl, zk);
    ExactA.NaiveLcpSkip(s, i, Min(l + zl - i, zk));
  }

  /** The computation of Z[i] in gusfieldZ: start from min(r - i + 1, Z[i - l]) inside the
      window, from 0 outside it, and extend by direct comparison. The result is the exact
      longest common prefix at i. */
  method ZValue(str: seq<int>, z: array<int>, l: int, r: int, i: int) returns (zi: int)
    requires z.Length == |str| && 1 <= i < |str| && 0 <= l < i
    requires (l == 0 && r == 0) || (1 <= l && r == l + z[l] - 1)
    requires forall x :: 1 <= x < i ==> z[x] == Lcp(str, x)
    ensures zi == Lcp(str, i)
  {
    var n := |str|;
    zi := 0;
    if i <= r {
      assert 1 <= l && 1 <= i - l < i;
      ZStart(str, l, i, z[l], z[i - l]);
      zi := Min(r - i + 1, z[i - l]);
    }
    while i + zi < n && str[i + zi] == str[zi]
      invariant 0 <= zi <= n - i
      invariant ExactA.NaiveLcp(str, i, zi) == Lcp(str, i)
    {
      zi := zi + 1;
    }
  }

  /** The loop of gusfieldZ over str = pattern + "$" + text: Z[i] is the exact longest
      common prefix at every position, and i - m - 1 is reported whenever it equals m. */
  method ZScanMatches(str: seq<int>, m: int) returns (matches: seq<int>)
    requires 1 <= |str|
    ensures matches == LcpHits(str, m, |str|)
  {
    var n := |str|;
    var z := new int[n](_ => 0);
    var l, r := 0, 0;
    matches := [];
    for i := 1 to n
      invariant 0 <= l < i
      invariant (l == 0 && r == 0) || (1 <= l && r == l + z[l] - 1)
      invariant forall x :: 1 <= x < i ==> z[x] == Lcp(str, x)
      invariant matches == LcpHits(str, m, i)
    {
      var zi := ZValue(str, z, l, r, i);
      z[i] := zi;
      if i + z[i] - 1 > r {
        l := i;
        r := i + z[i] - 1;
      }
      if z[i] == m {
        matches := matches + [i - m - 1];
      }
    }
  }

  /** gusfieldZ of Part1_B. */
  method GusfieldZ(t: seq<int>, p: seq<int>) returns (matches: seq<int>)
    ensures matches == LcpHits(p + [ExactA.DOLLAR] + t, |p|, |p| + 1 + |t|)
  {
    var str := p + [ExactA.DOLLAR] + t;
    matches := ZScanMatches(str, |p|);
  }

  /** The reported offsets always ascend. */
  lemma {:induction false} LcpHitsAscending(s: seq<int>, m: int, k: int)
    requires 1 <= k <= |s|
    ensures StrictlyAscending(LcpHits(s, m, k))
    ensures forall x :: x in LcpHits(s, m, k) ==> x < k - m - 1
    decreases k
  {
    if k > 1 {
      LcpHitsAscending(s, m, k - 1);
      var prev := LcpHits(s, m, k - 1);
      assert forall a :: 0 <= a < |prev| ==> prev[a] in prev;
    }
  }

  /** Past the separator, a common prefix of length exactly m is an occurrence, provided
      '$' occurs in neither string. */
  lemma LcpOcc(t: seq<int>, p: seq<int>, k: int)
    requires ExactA.DOLLAR !in p && ExactA.DOLLAR !in t
    requires |p| < k < |p| + 1 + |t|
    ensures Lcp(p + [ExactA.DOLLAR] + t, k) == |p| <==> Occ(t, p, k - |p| - 1)
  {
    var s, m := p + [ExactA.DOLLAR] + t, |p|;
    var i := k - m - 1;
    if Occ(t, p, i) {
      forall x | 0 <= x < m
        ensures s[..m][x] == s[k..k + m][x]
      {
        assert s[x] == p[x] && s[k + x] == t[i + x];
      }
      if k + m < |s| {
        assert s[m] == ExactA.DOLLAR && s[k + m] == t[i + m];
      }
      LcpIsLcp(s, k);
      LcpUnique(s, k, m, Lcp(s, k));
    }
    LcpIsLcp(s, k);
    if Lcp(s, k) == m {
      forall x | 0 <= x < m
        ensures t[i + x] == p[x]
      {
        ExactA.LcpAgrees(s, k, m, x);
        assert s[k + x] == t[i + x];
      }
    }
  }

  /** Before the separator no position has a common prefix of length m. */
  lemma {:induction false} LcpHitsBeforeSeparator(t: seq<int>, p: seq<int>, k: int)
    requires ExactA.DOLLAR !in p
    requires 1 <= k <= |p| + 1
    ensures LcpHits(p + [ExactA.DOLLAR] + t, |p|, k) == []
    decreases k
  {
    if k > 1 {
      LcpHitsBeforeSeparator(t, p, k - 1);
      ExactA.DollarSeparates(p, t);
      LcpIsLcp(p + [ExactA.DOLLAR] + t, k - 1);
    }
  }

  lemma {:induction false} LcpHitsAreOccBelow(t: seq<int>, p: seq<int>, k: int)
    requires ExactA.DOLLAR !in p && ExactA.DOLLAR !in t
    requires |p| + 1 <= k <= |p| + 1 + |t|
    ensures LcpHits(p + [ExactA.DOLLAR] + t, |p|, k) == OccBelow(t, p, k - |p| - 1)
    decreases k
  {
    if k == |p| + 1 {
      LcpHitsBeforeSeparator(t, p, k);
    } else {
      LcpHitsAreOccBelow(t, p, k - 1);
      LcpOcc(t, p, k - 1);
    }
  }

  /** With a non-empty pattern and no '$' in either string, gusfieldZ reports exactly the
      occurrences. */
  lemma GusfieldZComplete(t: seq<int>, p: seq<int>)
    requires 1 <= |p| && ExactA.DOLLAR !in p && ExactA.DOLLAR !in t
    ensures LcpHits(p + [ExactA.DOLLAR] + t, |p|, |p| + 1 + |t|) == AllOcc(t, p)
  {
    LcpHitsAreOccBelow(t, p, |p| + 1 + |t|);
    OccBelowBeyond(t, p, |t|);
  }
}
