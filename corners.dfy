/** The right-band duplicate-corner detector of Project1/Part3/Part3.cpp. The picture is a
    grid of integers; the detector indexes the K×K blocks anchored in column N-K by a
    hash rolled down that column, then hashes single rows of the band and confirms each
    candidate anchor cell by cell. Hashes are unbounded integers here: they only decide
    which anchors are compared. */
module Corners {
  import opened Modular

  const PRIME := 31

  /** Rows 0 .. M-1 exist and each holds at least N cells. */
  predicate Grid(pic: seq<seq<int>>, M: int, N: int) {
    0 <= M <= |pic| && forall r :: 0 <= r < M ==> N <= |pic[r]|
  }

  /** The K×K block with top-left cell (x, y) lies inside the picture. */
  predicate InBounds(pic: seq<seq<int>>, x: int, y: int, K: int) {
    K <= 0 || (0 <= x && x + K <= |pic| && 0 <= y && forall r :: x <= r < x + K ==> y + K <= |pic[r]|)
  }

  /** The cell `i` rows below and `j` columns right of (x, y), or 0 off the picture. */
  function Cell(pic: seq<seq<int>>, x: int, y: int, i: int, j: int): int {
    if 0 <= x + i < |pic| && 0 <= y + j < |pic[x + i]| then pic[x + i][y + j] else 0
  }

  /** The K×K blocks at (x1, y1) and (x2, y2) lie inside the picture and agree cell by cell. */
  predicate CornersEqual(pic: seq<seq<int>>, x1: int, y1: int, x2: int, y2: int, K: int) {
    InBounds(pic, x1, y1, K) && InBounds(pic, x2, y2, K) &&
    forall i, j :: 0 <= i < K && 0 <= j < K ==> Cell(pic, x1, y1, i, j) == Cell(pic, x2, y2, i, j)
  }

  /** compareCorner: the nested comparison loops, returning at the first differing cell.
      The relation it decides is symmetric and reflexive. */
  method CompareCorner(pic: seq<seq<int>>, x1: int, y1: int, x2: int, y2: int, K: int) returns (equal: bool)
    requires InBounds(pic, x1, y1, K) && InBounds(pic, x2, y2, K)
    ensures equal == CornersEqual(pic, x1, y1, x2, y2, K)
    ensures equal == CornersEqual(pic, x2, y2, x1, y1, K)
    ensures x1 == x2 && y1 == y2 ==> equal
  {
    var i := 0;
    while i < K
      invariant 0 <= i && (i <= K || K <= 0)
      invariant forall a, b :: 0 <= a < i && 0 <= b < K ==> Cell(pic, x1, y1, a, b) == Cell(pic, x2, y2, a, b)
    {
      for j := 0 to K
        invariant forall a, b :: 0 <= a < i && 0 <= b < K ==> Cell(pic, x1, y1, a, b) == Cell(pic, x2, y2, a, b)
        invariant forall b :: 0 <= b < j ==> Cell(pic, x1, y1, i, b) == Cell(pic, x2, y2, i, b)
      {
        if pic[x1 + i][y1 + j] != pic[x2 + i][y2 + j] {
          assert Cell(pic, x1, y1, i, j) != Cell(pic, x2, y2, i, j);
          return false;
        }
      }
      i := i + 1;
    }
    equal := true;
  }

  // ---------------------------------------------------------------------------------
  // The hashes, as unbounded integers.

  /** The guard of checkDuplicateCorner has passed and the band can be read. */
  predicate Band(pic: seq<seq<int>>, M: int, N: int, K: int) {
    1 <= K && K < M && K < N && Grid(pic, M, N)
  }

  /** The cells pic[r][c0 .. c0 + j) weighted by PRIME^e, PRIME^(e+1), ... */
  function RowPart(pic: seq<seq<int>>, r: int, c0: int, j: int, e: nat): int
    requires 0 <= r < |pic| && 0 <= c0 && 0 <= j && c0 + j <= |pic[r]|
  {
    if j == 0 then 0 else RowPart(pic, r, c0, j - 1, e) + pic[r][c0 + j - 1] * Pow(PRIME, e + j - 1)
  }

  /** The hash of the top-right corner restricted to its first i rows: cell (r, c) of the
      corner carries weight PRIME^(r*K + c). */
  function BlockHash(pic: seq<seq<int>>, M: int, N: int, K: int, i: int): int
    requires Band(pic, M, N, K) && 0 <= i <= K
  {
    if i == 0 then 0 else BlockHash(pic, M, N, K, i - 1) + RowPart(pic, i - 1, N - K, K, (i - 1) * K)
  }

  /** The value of `firstRowHash` once the anchor of row r has been hashed: the corner
      hash for r = 0, then rolled down column N-K only. */
  function AnchorHash(pic: seq<seq<int>>, M: int, N: int, K: int, r: int): int
    requires Band(pic, M, N, K) && 0 <= r <= M - K
  {
    if r == 0 then BlockHash(pic, M, N, K, K)
    else (AnchorHash(pic, M, N, K, r - 1) - pic[r - 1][N - K] * Pow(PRIME, K * K)) * PRIME + pic[r + K - 1][N - K]
  }

  /** The probe hash of row i: its K band cells weighted 1, PRIME, PRIME^2, ... */
  function ProbeHash(pic: seq<seq<int>>, M: int, N: int, K: int, i: int): int
    requires Band(pic, M, N, K) && 0 <= i < M
  {
    RowPart(pic, i, N - K, K, 0)
  }

  /** `cornerHashes[h].push_back(a)`: a missing key starts as an empty list. */
  function Push(idx: map<int, seq<(int, int)>>, h: int, a: (int, int)): map<int, seq<(int, int)>> {
    idx[h := (if h in idx then idx[h] else []) + [a]]
  }

  /** The index after the anchors of rows 0 .. r-1 have been pushed. */
  function Index(pic: seq<seq<int>>, M: int, N: int, K: int, r: int): map<int, seq<(int, int)>>
    requires Band(pic, M, N, K) && 0 <= r <= M - K + 1
  {
    if r == 0 then map[] else Push(Index(pic, M, N, K, r - 1), AnchorHash(pic, M, N, K, r - 1), (r - 1, N - K))
  }

  /** The anchor rows of a list strictly ascend, so no anchor is listed twice. */
  predicate RowsAscend(anchors: seq<(int, int)>) {
    forall a, b :: 0 <= a < b < |anchors| ==> anchors[a].0 < anchors[b].0
  }

  /** Every anchor in the index is (r', N-K) for a row r' < r, listed under its rolled hash. */
  lemma {:induction false} IndexSound(pic: seq<seq<int>>, M: int, N: int, K: int, r: int)
    requires Band(pic, M, N, K) && 0 <= r <= M - K + 1
    ensures forall h, a :: h in Index(pic, M, N, K, r) && a in Index(pic, M, N, K, r)[h] ==>
      a.1 == N - K && 0 <= a.0 < r && h == AnchorHash(pic, M, N, K, a.0)
    decreases r
  {
    if r > 0 {
      IndexSound(pic, M, N, K, r - 1);
      var prev, h, a := Index(pic, M, N, K, r - 1), AnchorHash(pic, M, N, K, r - 1), (r - 1, N - K);
      var old_ := if h in prev then prev[h] else [];
      var cur := Index(pic, M, N, K, r);
      assert cur == prev[h := old_ + [a]];
      forall h', b: (int, int) | h' in cur && b in cur[h']
        ensures b.1 == N - K && 0 <= b.0 < r && h' == AnchorHash(pic, M, N, K, b.0)
      {
        if h' == h {
          if b != a {
            assert b in old_;
          }
        } else {
          assert b in prev[h'];
        }
      }
    }
  }

  /** Every row 0 .. r-1 has its anchor in the index, under its rolled hash. */
  lemma {:induction false} IndexComplete(pic: seq<seq<int>>, M: int, N: int, K: int, r: int)
    requires Band(pic, M, N, K) && 0 <= r <= M - K + 1
    ensures forall x :: 0 <= x < r ==>
      AnchorHash(pic, M, N, K, x) in Index(pic, M, N, K, r) && (x, N - K) in Index(pic, M, N, K, r)[AnchorHash(pic, M, N, K, x)]
    decreases r
  {
    if r > 0 {
      IndexComplete(pic, M, N, K, r - 1);
      var prev, h, a := Index(pic, M, N, K, r - 1), AnchorHash(pic, M, N, K, r - 1), (r - 1, N - K);
      var old_ := if h in prev then prev[h] else [];
      var cur := Index(pic, M, N, K, r);
      assert cur == prev[h := old_ + [a]];
      forall x | 0 <= x < r
        ensures AnchorHash(pic, M, N, K, x) in cur && (x, N - K) in cur[AnchorHash(pic, M, N, K, x)]
      {
        var hx := AnchorHash(pic, M, N, K, x);
        if x < r - 1 {
          assert (x, N - K) in prev[hx];
          if hx == h {
            assert (x, N - K) in old_;
          }
        }
      }
    }
  }

  /** Within each list the anchor rows strictly ascend, so no anchor is listed twice. */
  lemma {:induction false} IndexAscending(pic: seq<seq<int>>, M: int, N: int, K: int, r: int)
    requires Band(pic, M, N, K) && 0 <= r <= M - K + 1
    ensures forall h :: h in Index(pic, M, N, K, r) ==> RowsAscend(Index(pic, M, N, K, r)[h])
    decreases r
  {
    if r > 0 {
      IndexAscending(pic, M, N, K, r - 1);
      IndexSound(pic, M, N, K, r - 1);
      var prev, h, a := Index(pic, M, N, K, r - 1), AnchorHash(pic, M, N, K, r - 1), (r - 1, N - K);
      var old_ := if h in prev then prev[h] else [];
      var cur := Index(pic, M, N, K, r);
      assert cur == prev[h := old_ + [a]];
      forall h' | h' in cur
        ensures RowsAscend(cur[h'])
      {
        if h' == h {
          assert forall k :: 0 <= k < |old_| ==> old_[k] in old_;
          AppendAscending(old_, a);
        } else {
          assert cur[h'] == prev[h'];
        }
      }
    }
  }

  lemma AppendAscending(anchors: seq<(int, int)>, a: (int, int))
    requires RowsAscend(anchors) && forall b :: b in anchors ==> b.0 < a.0
    ensures RowsAscend(anchors + [a])
  {
    assert forall k :: 0 <= k < |anchors| ==> anchors[k] in anchors;
  }

  /** Rows r and i are at least K apart, so their K×K blocks do not overlap. */
  predicate Apart(r: int, i: int, K: int) {
    r + K <= i || i + K <= r
  }

  /** The anchor `a` from the list of row i's probe hash passes compareCorner; with
      `apart` the anchor row must also be at least K rows away from the probe row. */
  predicate Confirms(pic: seq<seq<int>>, a: (int, int), i: int, y: int, K: int, apart: bool) {
    (!apart || Apart(a.0, i, K)) && CornersEqual(pic, a.0, a.1, i, y, K)
  }

  /** Probe row i finds a confirmed anchor in the list under its hash. */
  predicate ProbeHit(pic: seq<seq<int>>, M: int, N: int, K: int, i: int, apart: bool)
    requires Band(pic, M, N, K) && 0 <= i < M
  {
    var idx, h := Index(pic, M, N, K, M - K + 1), ProbeHash(pic, M, N, K, i);
    h in idx && exists a :: a in idx[h] && Confirms(pic, a, i, N - K, K, apart)
  }

  /** What checkDuplicateCorner answers: false at the guard, otherwise whether some probe
      row K .. M-K confirms an anchor. */
  predicate Duplicate(pic: seq<seq<int>>, M: int, N: int, K: int, apart: bool)
    requires M <= K || N <= K || Band(pic, M, N, K)
  {
    if M <= K || N <= K then false
    else exists i :: K <= i <= M - K && ProbeHit(pic, M, N, K, i, apart)
  }

  /** The blocks anchored at rows r and i of column N-K are equal. */
  predicate BandBlocksEqual(pic: seq<seq<int>>, N: int, K: int, r: int, i: int) {
    CornersEqual(pic, r, N - K, i, N - K, K)
  }

  // ---------------------------------------------------------------------------------
  // The loops of checkDuplicateCorner.

  /** The inner hash loop, shared by the corner hash and the probe hash: it adds the K
      band cells of row r with weights PRIME^e, PRIME^(e+1), ... and multiplies `power`
      by PRIME for each. */
  method AccumulateRow(pic: seq<seq<int>>, r: int, c0: int, K: int, e: nat, acc0: int, power0: int)
    returns (acc: int, power: int)
    requires 0 <= r < |pic| && 0 <= c0 && 0 <= K && c0 + K <= |pic[r]|
    requires power0 == Pow(PRIME, e)
    ensures acc == acc0 + RowPart(pic, r, c0, K, e)
    ensures power == Pow(PRIME, e + K)
  {
    acc, power := acc0, power0;
    for j := 0 to K
      invariant acc == acc0 + RowPart(pic, r, c0, j, e)
      invariant power == Pow(PRIME, e + j)
    {
      acc := acc + pic[r][c0 + j] * power;
      power := power * PRIME;
    }
  }

  /** The first nested loop: the hash of the top-right corner and the final `power`. */
  method CornerHash(pic: seq<seq<int>>, M: int, N: int, K: int) returns (cornerHash: int, power: int)
    requires Band(pic, M, N, K)
    ensures cornerHash == AnchorHash(pic, M, N, K, 0)
    ensures power == Pow(PRIME, K * K)
  {
    cornerHash, power := 0, 1;
    for i := 0 to K
      invariant cornerHash == BlockHash(pic, M, N, K, i)
      invariant power == Pow(PRIME, i * K)
    {
      assert i * K >= 0;
      cornerHash, power := AccumulateRow(pic, i, N - K, K, i * K, cornerHash, power);
      assert i * K + K == (i + 1) * K;
    }
  }

  /** The rolling loop: one anchor per row 0 .. M-K, all in column N-K. */
  method BuildIndex(pic: seq<seq<int>>, M: int, N: int, K: int) returns (cornerHashes: map<int, seq<(int, int)>>)
    requires Band(pic, M, N, K)
    ensures cornerHashes == Index(pic, M, N, K, M - K + 1)
  {
    var cornerHash, power := CornerHash(pic, M, N, K);
    var firstRowHash := cornerHash;
    cornerHashes := Push(map[], firstRowHash, (0, N - K));
    for i := 1 to M - K + 1
      invariant firstRowHash == AnchorHash(pic, M, N, K, i - 1)
      invariant cornerHashes == Index(pic, M, N, K, i)
    {
      firstRowHash := firstRowHash - pic[i - 1][N - K] * power;
      firstRowHash := firstRowHash * PRIME;
      firstRowHash := firstRowHash + pic[i + K - 1][N - K];
      cornerHashes := Push(cornerHashes, firstRowHash, (i, N - K));
    }
  }

  /** The per-row probe hash loop. */
  method RowHash(pic: seq<seq<int>>, M: int, N: int, K: int, i: int) returns (cornerHash: int)
    requires Band(pic, M, N, K) && 0 <= i < M
    ensures cornerHash == ProbeHash(pic, M, N, K, i)
  {
    var power;
    cornerHash, power := AccumulateRow(pic, i, N - K, K, 0, 0, 1);
  }

  /** The loop over the anchors listed under a probe hash, returning at the first one
      compareCorner confirms. */
  method ConfirmAny(pic: seq<seq<int>>, anchors: seq<(int, int)>, i: int, y: int, K: int, apart: bool)
    returns (found: bool)
    requires InBounds(pic, i, y, K)
    requires forall a :: a in anchors ==> InBounds(pic, a.0, a.1, K)
    ensures found == exists a :: a in anchors && Confirms(pic, a, i, y, K, apart)
  {
    for k := 0 to |anchors|
      invariant forall x :: 0 <= x < k ==> !Confirms(pic, anchors[x], i, y, K, apart)
    {
      var corner := anchors[k];
      if !apart || Apart(corner.0, i, K) {
        var equal := CompareCorner(pic, corner.0, corner.1, i, y, K);
        if equal {
          assert corner in anchors && Confirms(pic, corner, i, y, K, apart);
          return true;
        }
      }
    }
    found := false;
  }

  /** The probe loop over rows K .. M-K. */
  method Probe(pic: seq<seq<int>>, M: int, N: int, K: int, cornerHashes: map<int, seq<(int, int)>>, apart: bool)
    returns (dup: bool)
    requires Band(pic, M, N, K) && cornerHashes == Index(pic, M, N, K, M - K + 1)
    ensures dup == Duplicate(pic, M, N, K, apart)
  {
    IndexSound(pic, M, N, K, M - K + 1);
    var i := K;
    while i <= M - K
      invariant K <= i
      invariant forall x :: K <= x < i && x <= M - K ==> !ProbeHit(pic, M, N, K, x, apart)
    {
      var cornerHash := RowHash(pic, M, N, K, i);
      if cornerHash in cornerHashes {
        var found := ConfirmAny(pic, cornerHashes[cornerHash], i, N - K, K, apart);
        if found {
          assert ProbeHit(pic, M, N, K, i, apart);
          return true;
        }
      }
      i := i + 1;
    }
    dup := false;
  }

  /** checkDuplicateCorner: false at the guard M <= K or N <= K; otherwise true exactly
      when some probe row finds a confirmed anchor under its hash. A true answer rests on
      a cell-by-cell comparison, but the anchor may be the probe row itself or a row
      fewer than K away, so the last clause already holds with r == i: all the content
      is in `dup == Duplicate(..)`, and the examples SelfMatch and OverlapMatch show
      what it lets through. */
  method CheckDuplicateCorner(pic: seq<seq<int>>, M: int, N: int, K: int) returns (dup: bool)
    requires M <= K || N <= K || (1 <= K && Grid(pic, M, N))
    ensures dup == Duplicate(pic, M, N, K, false)
    ensures M <= K || N <= K ==> !dup
    ensures dup ==> exists r, i :: 0 <= r <= M - K && K <= i <= M - K && BandBlocksEqual(pic, N, K, r, i)
  {
    if M <= K || N <= K {
      return false;
    }
    var cornerHashes := BuildIndex(pic, M, N, K);
    dup := Probe(pic, M, N, K, cornerHashes, false);
    DuplicateSound(pic, M, N, K, false);
  }

  /** The detector with probes confirming only anchors at least K rows away: a true answer
      now names two non-overlapping blocks of the band that are equal cell by cell. */
  method CheckDuplicateCornerApart(pic: seq<seq<int>>, M: int, N: int, K: int) returns (dup: bool)
    requires M <= K || N <= K || (1 <= K && Grid(pic, M, N))
    ensures dup == Duplicate(pic, M, N, K, true)
    ensures M <= K || N <= K ==> !dup
    ensures dup ==> exists r, i :: 0 <= r <= M - K && K <= i <= M - K && Apart(r, i, K) && BandBlocksEqual(pic, N, K, r, i)
  {
    if M <= K || N <= K {
      return false;
    }
    var cornerHashes := BuildIndex(pic, M, N, K);
    dup := Probe(pic, M, N, K, cornerHashes, true);
    DuplicateSound(pic, M, N, K, true);
  }

  /** Soundness: a hit is a verified equality between an indexed anchor and a probe row
      of the band, the two rows at least K apart when `apart` is set. */
  lemma DuplicateSound(pic: seq<seq<int>>, M: int, N: int, K: int, apart: bool)
    requires Band(pic, M, N, K)
    ensures Duplicate(pic, M, N, K, apart) ==>
      exists r, i :: 0 <= r <= M - K && K <= i <= M - K && (!apart || Apart(r, i, K)) && BandBlocksEqual(pic, N, K, r, i)
  {
    if Duplicate(pic, M, N, K, apart) {
      var idx := Index(pic, M, N, K, M - K + 1);
      IndexSound(pic, M, N, K, M - K + 1);
      var i :| K <= i <= M - K && ProbeHit(pic, M, N, K, i, apart);
      var h := ProbeHash(pic, M, N, K, i);
      var a :| a in idx[h] && Confirms(pic, a, i, N - K, K, apart);
      assert 0 <= a.0 <= M - K && a.1 == N - K;
      assert BandBlocksEqual(pic, N, K, a.0, i);
    }
  }

  /** On the 2×2 picture [[5, 0], [7, 3]] with K = 1 the band is the column [0, 3], whose
      two cells differ, yet the probe of row 1 hashes to 3, the rolled hash of anchor row
      1, and compares that anchor with itself: the detector answers true. The apart
      variant answers false. */
  lemma SelfMatch()
    ensures Duplicate([[5, 0], [7, 3]], 2, 2, 1, false)
    ensures !Duplicate([[5, 0], [7, 3]], 2, 2, 1, true)
    ensures !exists r, i :: 0 <= r <= 1 && 0 <= i <= 1 && r != i && BandBlocksEqual([[5, 0], [7, 3]], 2, 1, r, i)
  {
    var pic := [[5, 0], [7, 3]];
    assert RowPart(pic, 0, 1, 1, 0) == 0 && RowPart(pic, 1, 1, 1, 0) == 3;
    assert AnchorHash(pic, 2, 2, 1, 0) == 0;
    assert Pow(PRIME, 1) == 31;
    assert AnchorHash(pic, 2, 2, 1, 1) == 3;
    assert Index(pic, 2, 2, 1, 0) == map[];
    assert [] + [(0, 1)] == [(0, 1)];
    assert Index(pic, 2, 2, 1, 1) == map[0 := [(0, 1)]];
    assert [] + [(1, 1)] == [(1, 1)];
    assert Index(pic, 2, 2, 1, 2) == Push(map[0 := [(0, 1)]], 3, (1, 1));
    assert Index(pic, 2, 2, 1, 2) == map[0 := [(0, 1)], 3 := [(1, 1)]];
    assert ProbeHash(pic, 2, 2, 1, 1) == 3;
    assert CornersEqual(pic, 1, 1, 1, 1, 1);
    assert (1, 1) in Index(pic, 2, 2, 1, 2)[3];
    assert ProbeHit(pic, 2, 2, 1, 1, false);
    assert Cell(pic, 0, 1, 0, 0) != Cell(pic, 1, 1, 0, 0);
    assert !BandBlocksEqual(pic, 2, 1, 0, 1) && !BandBlocksEqual(pic, 2, 1, 1, 0);
    DuplicateSound(pic, 2, 2, 1, true);
  }

  /** On the 4×3 picture below with K = 2 the probe of row 2 hashes to 31, the rolled hash
      of anchor row 1, and the blocks of rows 1 and 2 are equal, so the detector answers
      true. Those blocks overlap; the only pair at least K rows apart, rows 0 and 2,
      differs, and the apart variant answers false. */
  lemma OverlapMatch()
    ensures Duplicate([[0, 1, 28830], [0, 0, 1], [0, 0, 1], [0, 0, 1]], 4, 3, 2, false)
    ensures !Duplicate([[0, 1, 28830], [0, 0, 1], [0, 0, 1], [0, 0, 1]], 4, 3, 2, true)
    ensures BandBlocksEqual([[0, 1, 28830], [0, 0, 1], [0, 0, 1], [0, 0, 1]], 3, 2, 1, 2)
    ensures !(exists r, i :: 0 <= r <= 2 && 2 <= i <= 2 && Apart(r, i, 2) &&
                BandBlocksEqual([[0, 1, 28830], [0, 0, 1], [0, 0, 1], [0, 0, 1]], 3, 2, r, i))
  {
    var pic := [[0, 1, 28830], [0, 0, 1], [0, 0, 1], [0, 0, 1]];
    assert Pow(PRIME, 1) == 31 && Pow(PRIME, 2) == 961 && Pow(PRIME, 3) == 29791 && Pow(PRIME, 4) == 923521;
    assert RowPart(pic, 0, 1, 2, 0) == 893731;
    assert RowPart(pic, 1, 1, 2, 2) == 29791;
    assert BlockHash(pic, 4, 3, 2, 2) == 923522;
    assert AnchorHash(pic, 4, 3, 2, 1) == 31;
    assert [] + [(0, 1)] == [(0, 1)] && [] + [(1, 1)] == [(1, 1)];
    assert Index(pic, 4, 3, 2, 1) == map[923522 := [(0, 1)]];
    assert Index(pic, 4, 3, 2, 2) == map[923522 := [(0, 1)], 31 := [(1, 1)]];
    assert ProbeHash(pic, 4, 3, 2, 2) == 31;
    assert CornersEqual(pic, 1, 1, 2, 1, 2);
    IndexComplete(pic, 4, 3, 2, 3);
    assert (1, 1) in Index(pic, 4, 3, 2, 3)[31];
    assert ProbeHit(pic, 4, 3, 2, 2, false);
    assert Cell(pic, 0, 1, 0, 1) != Cell(pic, 2, 1, 0, 1);
    assert !BandBlocksEqual(pic, 3, 2, 0, 2);
    DuplicateSound(pic, 4, 3, 2, true);
  }
}
