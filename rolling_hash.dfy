/** The Rabin-Karp scan with a polynomial hash of base `d` modulo 101: the window hash
    is rolled by removing the leading byte's weight d^(m-1), shifting and adding the next
    byte, and a hash hit is confirmed byte by byte. */
module RollingHash {
  import opened Occurrences
  import opened Modular

  const Q := 101

  /** The hash of a window: its base-`d` value reduced modulo Q. */
  function WindowHash(d: int, s: seq<int>): (h: int)
    ensures 0 <= h < Q
  {
    Poly(d, s) % Q
  }

  /** Equal windows hash equally, so a hash miss rules an offset out. */
  lemma EqualWindowsHashEqually(d: int, t: seq<int>, p: seq<int>, i: int)
    requires Occ(t, p, i)
    ensures WindowHash(d, t[i..i + |p|]) == WindowHash(d, p)
  {
    assert t[i..i + |p|] == p;
  }

  /** One step of the roll keeps the hash equal to the hash of the window. */
  lemma RollStep(d: int, t: seq<int>, m: int, i: int, th: int, h: int)
    requires 1 <= m && 0 <= i && i + m < |t|
    requires th == WindowHash(d, t[i..i + m]) && h == Pow(d, m - 1) % Q
    ensures Normalize(CRem(d * (th - t[i] * h) + t[i + m], Q), Q) == WindowHash(d, t[i + 1..i + 1 + m])
  {
    var w := t[i..i + m];
    NormalizedRem(d * (th - t[i] * h) + t[i + m], Q);
    assert th % Q == Poly(d, w) % Q;
    assert h % Q == Pow(d, m - 1) % Q;
    RollMod(d, th, Poly(d, w), t[i], h, Pow(d, m - 1), t[i + m], Q);
    PolyRoll(d, w, t[i + m]);
    assert w[1..] + [t[i + m]] == t[i + 1..i + 1 + m];
  }

  /** A hash miss rules an offset out. */
  lemma HashMissRulesOut(d: int, t: seq<int>, p: seq<int>, i: int)
    requires 0 <= i && i + |p| <= |t|
    requires WindowHash(d, t[i..i + |p|]) != WindowHash(d, p)
    ensures !Occ(t, p, i)
  {
    if Occ(t, p, i) {
      EqualWindowsHashEqually(d, t, p, i);
      assert false;
    }
  }

  /** The first loop of rabinKarp: h = d^(m-1) mod Q, built by repeated `(h * d) % q`. */
  method HighOrderWeight(d: int, m: int) returns (h: int)
    requires d >= 0
    ensures 1 <= m ==> h == Pow(d, m - 1) % Q
  {
    h := 1;
    var k := 0;
    while k < m - 1
      invariant 0 <= k && (k <= m - 1 || k == 0)
      invariant h == Pow(d, k) % Q
    {
      PowStepMod(d, k, Q);
      h := CRem(h * d, Q);
      k := k + 1;
    }
  }

  /** The second loop of rabinKarp: Horner's rule over the first m bytes, reducing
      modulo Q after every step. */
  method PrefixHash(s: seq<int>, d: int, m: int) returns (hash: int)
    requires IsBytes(s) && d >= 0 && 0 <= m <= |s|
    ensures hash == WindowHash(d, s[..m])
  {
    hash := 0;
    for k := 0 to m
      invariant hash == WindowHash(d, s[..k])
    {
      HornerMod(d, Poly(d, s[..k]), s[k], Q);
      assert s[..k + 1][..k] == s[..k];
      assert d * hash >= 0;
      hash := CRem(d * hash + s[k], Q);
    }
  }

  /** The rabinKarp scan with base `d`: every reported offset is an occurrence, the
      offsets ascend, and for a non-empty pattern all occurrences are reported. The
      source computes both prefix hashes in one loop; PrefixHash is that loop for one
      string. */
  method Search(t: seq<int>, p: seq<int>, d: int) returns (matches: seq<int>)
    requires IsBytes(t) && IsBytes(p) && d >= 0
    requires |p| <= |t|
    ensures forall x :: x in matches ==> Occ(t, p, x)
    ensures StrictlyAscending(matches)
    ensures 1 <= |p| ==> matches == AllOcc(t, p)
  {
    var n, m := |t|, |p|;
    var h := HighOrderWeight(d, m);
    var ph := PrefixHash(p, d, m);
    var th := PrefixHash(t, d, m);
    assert p[..m] == p && t[..m] == t[0..0 + m];
    matches := [];
    for i := 0 to n - m + 1
      invariant 1 <= m && i <= n - m ==> th == WindowHash(d, t[i..i + m])
      invariant SoundBelow(t, p, matches, i)
      invariant 1 <= m ==> matches == OccBelow(t, p, i)
    {
      var found := false;
      if ph == th {
        var j := MatchLength(t, p, i);
        found := j == m;
      } else if 1 <= m {
        HashMissRulesOut(d, t, p, i);
      }
      SoundSnoc(t, p, matches, i, found);
      matches := matches + (if found then [i] else []);
      if i < n - m {
        if 1 <= m {
          RollStep(d, t, m, i, th, h);
        }
        th := CRem(d * (th - t[i] * h) + t[i + m], Q);
        if th < 0 {
          th := th + Q;
        }
      }
    }
    if 1 <= m {
      OccBelowBeyond(t, p, n - m + 1);
    }
    assert SoundBelow(t, p, matches, n - m + 1);
  }
}
