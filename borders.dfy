/** Borders of pattern prefixes: the facts behind the KMP failure function. */
module Borders {
  import opened Occurrences

  /** `b` is the length of a proper border of p[..n]: the first `b` bytes equal the last `b`. */
  predicate Border(p: seq<int>, n: int, b: int) {
    0 <= b < n <= |p| && p[..b] == p[n - b..n]
  }

  /** The agreement a border states, one position at a time. */
  lemma BorderAt(p: seq<int>, n: int, b: int, x: int)
    requires Border(p, n, b) && 0 <= x < b
    ensures p[x] == p[n - b + x]
  {
    assert p[..b][x] == p[n - b..n][x];
  }

  /** A border is established position by position. */
  lemma BorderFrom(p: seq<int>, n: int, b: int)
    requires 0 <= b < n <= |p|
    requires forall x :: 0 <= x < b ==> p[x] == p[n - b + x]
    ensures Border(p, n, b)
  {
    assert forall x :: 0 <= x < b ==> p[..b][x] == p[n - b..n][x];
  }

  /** `b` is the longest proper border of p[..n]. */
  predicate LongestBorder(p: seq<int>, n: int, b: int) {
    Border(p, n, b) && forall b' :: b < b' < n ==> !Border(p, n, b')
  }

  /** A border of p[..n+1] of length b+1 is a border of p[..n] of length b extended by p[n]. */
  lemma BorderShrink(p: seq<int>, n: int, b: int)
    requires 0 <= b && Border(p, n + 1, b + 1)
    ensures Border(p, n, b) && p[b] == p[n]
  {
    assert p[..b] == p[..b + 1][..b];
    assert p[n - b..n] == p[n - b..n + 1][..b];
    assert p[..b + 1][b] == p[n - b..n + 1][b];
  }

  /** Conversely a border of p[..n] extends when the next bytes agree. */
  lemma BorderExtend(p: seq<int>, n: int, b: int)
    requires Border(p, n, b) && n < |p| && p[b] == p[n]
    ensures Border(p, n + 1, b + 1)
  {
    assert p[..b + 1] == p[..b] + [p[b]];
    assert p[n - b..n + 1] == p[n - b..n] + [p[n]];
  }

  /** A border of a border is a border. */
  lemma BorderTrans(p: seq<int>, n: int, b: int, c: int)
    requires Border(p, n, b) && Border(p, b, c)
    ensures Border(p, n, c)
  {
    assert p[n - c..n] == p[n - b..n][b - c..b];
    assert p[b - c..b] == p[..b][b - c..b];
  }

  /** Of two borders of the same prefix, the shorter is a border of the longer. */
  lemma BorderOfBorder(p: seq<int>, n: int, b: int, c: int)
    requires Border(p, n, b) && Border(p, n, c) && c < b
    ensures Border(p, b, c)
  {
    assert p[b - c..b] == p[..b][b - c..b];
    assert p[n - c..n] == p[n - b..n][b - c..b];
  }

  /** The KMP shift is safe: when the first `j` bytes of `p` agree with `t` at offset `i`
      and `f` is the longest border of p[..j], no occurrence starts strictly between
      `i` and `i + j - f`. */
  lemma KmpSkip(t: seq<int>, p: seq<int>, i: int, j: int, f: int)
    requires 0 <= i && 1 <= j <= |p| && i + j <= |t|
    requires forall x :: 0 <= x < j ==> t[i + x] == p[x]
    requires LongestBorder(p, j, f)
    ensures forall k :: i < k < i + j - f ==> !Occ(t, p, k)
  {
    forall k | i < k < i + j - f
      ensures !Occ(t, p, k)
    {
      if Occ(t, p, k) {
        var b := i + j - k;
        forall y | 0 <= y < b
          ensures p[y] == p[j - b + y]
        {
          assert t[k + y] == p[y];
          assert t[i + (k - i + y)] == p[k - i + y];
        }
        BorderFrom(p, j, b);
        assert false;
      }
    }
  }

  /** No border of p[..i] longer than `j` extends by p[i]. */
  predicate NoLongerExtends(p: seq<int>, i: int, j: int)
    requires 0 <= i < |p|
  {
    forall b :: j < b < i && Border(p, i, b) ==> p[b] != p[i]
  }

  /** The matching step of the failure-function loop: the candidate border `j` is the
      longest one that extends, so j + 1 is the longest border of p[..i + 1]. */
  lemma FailureExtend(p: seq<int>, i: int, j: int)
    requires 0 <= i < |p| && Border(p, i, j) && NoLongerExtends(p, i, j) && p[i] == p[j]
    ensures LongestBorder(p, i + 1, j + 1)
  {
    BorderExtend(p, i, j);
    var next := i + 1;
    forall b' | j + 1 < b' < next
      ensures !Border(p, next, b')
    {
      if Border(p, i + 1, b') {
        BorderShrink(p, i, b' - 1);
      }
    }
  }

  /** The rewinding step: when border `j` does not extend, the next candidate is the
      longest border of p[..j], and nothing between it and `j` extends either. */
  lemma FailureRewind(p: seq<int>, i: int, j: int, f: int)
    requires 0 <= i < |p| && 0 < j && Border(p, i, j) && NoLongerExtends(p, i, j) && p[i] != p[j]
    requires LongestBorder(p, j, f)
    ensures Border(p, i, f) && NoLongerExtends(p, i, f) && f < j
  {
    BorderTrans(p, i, j, f);
    forall b | f < b < i && Border(p, i, b)
      ensures p[b] != p[i]
    {
      if b < j {
        BorderOfBorder(p, i, j, b);
      }
    }
  }

  /** The failing step: when not even the empty border extends, p[..i + 1] has no
      proper border but the empty one. */
  lemma FailureNone(p: seq<int>, i: int)
    requires 0 < i < |p| && NoLongerExtends(p, i, 0) && p[i] != p[0]
    ensures LongestBorder(p, i + 1, 0)
  {
    var next := i + 1;
    forall b' | 0 < b' < next
      ensures !Border(p, next, b')
    {
      if Border(p, i + 1, b') {
        BorderShrink(p, i, b' - 1);
      }
    }
  }
}
