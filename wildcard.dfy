/** The single-character wildcard search of Project1/Part2/Part2.cpp: '?' in the pattern
    matches any one byte, every other byte (including '*' and '\') matches itself. Both
    searches answer whether some window matches. */
module Wildcard {
  import opened Occurrences

  const QUESTION := 63

  /** The window of `t` at offset `i` matches `p`, '?' matching anything. */
  predicate WildAt(t: seq<int>, p: seq<int>, i: int) {
    0 <= i && i + |p| <= |t| && forall j :: 0 <= j < |p| ==> p[j] == QUESTION || p[j] == t[i + j]
  }

  /** Some window matches. */
  predicate HasWild(t: seq<int>, p: seq<int>) {
    exists i :: 0 <= i <= |t| - |p| && WildAt(t, p, i)
  }

  /** The comparison loop of both searches: the number of leading pattern positions that
      match the window at `i`. */
  method WildMatchLength(t: seq<int>, p: seq<int>, i: int) returns (j: int)
    requires 0 <= i && i + |p| <= |t|
    ensures 0 <= j <= |p|
    ensures WildAt(t, p, i) <==> j == |p|
  {
    j := 0;
    while j < |p| && (p[j] == QUESTION || p[j] == t[i + j])
      invariant 0 <= j <= |p|
      invariant forall x :: 0 <= x < j ==> p[x] == QUESTION || p[x] == t[i + x]
    {
      j := j + 1;
    }
  }

  /** bruteForceWildcard: try every offset, return at the first matching window. */
  method BruteForceWildcard(t: seq<int>, p: seq<int>) returns (found: bool)
    ensures found == HasWild(t, p)
  {
    var n, m := |t|, |p|;
    var i := 0;
    while i <= n - m
      invariant 0 <= i
      invariant forall k :: 0 <= k < i ==> !WildAt(t, p, k)
    {
      var j := WildMatchLength(t, p, i);
      if j == m {
        return true;
      }
      i := i + 1;
    }
    found := false;
  }

  /** The shift of sundayWildcard for the byte `c` after the window: one past the pattern
      when `c` is '?' or absent from the pattern, otherwise the distance from its last
      occurrence to the pattern's end. Wildcard positions of the pattern are ignored. */
  function WildShift(p: seq<int>, c: int): (s: int)
    ensures 1 <= s <= |p| + 1
    ensures s == |p| + 1 <== c == QUESTION || c !in p
  {
    if c == QUESTION || c !in p then |p| + 1 else |p| - LastIndexOf(p, c)
  }

  /** The answer sundayWildcard gives when its scan reaches offset `i`. */
  function SundayWildFrom(t: seq<int>, p: seq<int>, i: int): bool
    requires 0 <= i
    decreases |t| - i
  {
    if i > |t| - |p| then false
    else if WildAt(t, p, i) then true
    else if i + |p| < |t| then SundayWildFrom(t, p, i + WildShift(p, t[i + |p|]))
    else false
  }

  /** sundayWildcard of Part2: sound always, complete when the pattern holds no '?'. */
  method SundayWildcard(t: seq<int>, p: seq<int>) returns (found: bool)
    ensures found == SundayWildFrom(t, p, 0)
    ensures found ==> HasWild(t, p)
    ensures QUESTION !in p ==> found == HasWild(t, p)
  {
    SundayWildSound(t, p, 0);
    if QUESTION !in p {
      SundayWildComplete(t, p, 0);
    }
    var n, m := |t|, |p|;
    var i := 0;
    while i <= n - m
      invariant 0 <= i
      invariant SundayWildFrom(t, p, i) == SundayWildFrom(t, p, 0)
      decreases n - i
    {
      var j := WildMatchLength(t, p, i);
      if j == m {
        return true;
      }
      if i + m < n {
        var nextChar := t[i + m];
        if nextChar == QUESTION || nextChar !in p {
          i := i + m + 1;
        } else {
          i := i + m - LastIndexOf(p, nextChar);
        }
      } else {
        break;
      }
    }
    found := false;
  }

  /** A true answer comes from a window that passed the wildcard test. */
  lemma {:induction false} SundayWildSound(t: seq<int>, p: seq<int>, i: int)
    requires 0 <= i
    ensures SundayWildFrom(t, p, i) ==> HasWild(t, p)
    decreases |t| - i
  {
    if i <= |t| - |p| && !WildAt(t, p, i) && i + |p| < |t| {
      SundayWildSound(t, p, i + WildShift(p, t[i + |p|]));
    }
  }

  /** Without '?' in the pattern, no window strictly inside a shift matches: the pattern
      byte aligned with the byte after the window would have to equal it. */
  lemma SundayWildSkip(t: seq<int>, p: seq<int>, i: int)
    requires QUESTION !in p && 0 <= i && i + |p| < |t|
    ensures forall k :: i < k < i + WildShift(p, t[i + |p|]) ==> !WildAt(t, p, k)
  {
    var m, c := |p|, t[i + |p|];
    forall k | i < k < i + WildShift(p, c)
      ensures !WildAt(t, p, k)
    {
      assert p[i + m - k] != QUESTION;
      assert p[i + m - k] != t[k + (i + m - k)];
    }
  }

  /** Without '?' in the pattern the scan finds a match exactly when one exists at or
      after the current offset. */
  lemma {:induction false} SundayWildComplete(t: seq<int>, p: seq<int>, i: int)
    requires QUESTION !in p && 0 <= i
    ensures SundayWildFrom(t, p, i) <==> exists k :: i <= k && WildAt(t, p, k)
    decreases |t| - i
  {
    if i <= |t| - |p| && !WildAt(t, p, i) {
      if i + |p| < |t| {
        var s := WildShift(p, t[i + |p|]);
        SundayWildSkip(t, p, i);
        SundayWildComplete(t, p, i + s);
        if k :| i <= k && WildAt(t, p, k) {
          assert i + s <= k;
        }
      } else {
        assert forall k :: i <= k && WildAt(t, p, k) ==> k == i;
      }
    }
  }

  /** A window cannot match unless every literal pattern byte occurs in the text: a
      pattern with '*' or '\' never matches a text without them. */
  lemma LiteralMustOccur(t: seq<int>, p: seq<int>, j: int)
    requires 0 <= j < |p| && p[j] != QUESTION && p[j] !in t
    ensures !HasWild(t, p)
  {
    forall i | 0 <= i <= |t| - |p|
      ensures !WildAt(t, p, i)
    {
      assert t[i + j] in t;
      assert p[j] != t[i + j] && p[j] != QUESTION;
    }
  }

  /** The empty pattern matches at offset 0, and a pattern longer than the text never
      matches, for both searches. */
  lemma EdgeCases(t: seq<int>, p: seq<int>)
    ensures |p| == 0 ==> HasWild(t, p) && SundayWildFrom(t, p, 0)
    ensures |p| > |t| ==> !HasWild(t, p) && !SundayWildFrom(t, p, 0)
  {
    if |p| == 0 {
      assert WildAt(t, p, 0);
    }
  }

  /** The Sunday shift skips windows that only a '?' would let match: on "xab" / "a?" the
      byte after the first window, 'b', is not in the pattern, so the scan jumps past
      offset 1, where "a?" matches. */
  lemma SundayWildMissesMatch()
    ensures HasWild([120, 97, 98], [97, QUESTION])
    ensures !SundayWildFrom([120, 97, 98], [97, QUESTION], 0)
  {
    var t, p := [120, 97, 98], [97, QUESTION];
    assert WildAt(t, p, 1);
    assert p[0] != t[0] && p[0] != QUESTION;
    assert WildShift(p, 98) == 3;
  }

  /** "abc" matches "a?c" and does not match "a?d", for both searches. */
  lemma SmallExamples()
    ensures HasWild([97, 98, 99], [97, QUESTION, 99]) && SundayWildFrom([97, 98, 99], [97, QUESTION, 99], 0)
    ensures !HasWild([97, 98, 99], [97, QUESTION, 100]) && !SundayWildFrom([97, 98, 99], [97, QUESTION, 100], 0)
  {
    assert WildAt([97, 98, 99], [97, QUESTION, 99], 0);
    LiteralMustOccur([97, 98, 99], [97, QUESTION, 100], 2);
    SundayWildSound([97, 98, 99], [97, QUESTION, 100], 0);
  }

  /** The bytes of a character string. */
  function Bytes(s: string): (r: seq<int>)
    ensures |r| == |s| && forall k :: 0 <= k < |s| ==> r[k] == s[k] as int
  {
    seq(|s|, k requires 0 <= k < |s| => s[k] as int)
  }

  lemma AbsentByte(s: string, c: char)
    requires c !in s
    ensures c as int !in Bytes(s)
  {
    forall k | 0 <= k < |s|
      ensures Bytes(s)[k] != c as int
    {
      assert s[k] in s;
    }
  }

  const SENTENCE := "The quick brown fox jumps over the lazy dog."

  /** On the sample sentence of Part2, "j?mps" is found, while "quick*brown", "l?zy*dog"
      and "\\*fox" are not: '*' is an ordinary byte and the sentence holds none. */
  lemma SampleQueries()
    ensures HasWild(Bytes(SENTENCE), Bytes("j?mps"))
    ensures !HasWild(Bytes(SENTENCE), Bytes("quick*brown"))
    ensures !HasWild(Bytes(SENTENCE), Bytes("l?zy*dog"))
    ensures !HasWild(Bytes(SENTENCE), Bytes("\\*fox"))
  {
    var t := Bytes(SENTENCE);
    assert WildAt(t, Bytes("j?mps"), 20);
    AbsentByte(SENTENCE, '*');
    LiteralMustOccur(t, Bytes("quick*brown"), 5);
    LiteralMustOccur(t, Bytes("l?zy*dog"), 4);
    LiteralMustOccur(t, Bytes("\\*fox"), 1);
  }

  /** sundayWildcard gives the same four answers on the sample sentence: it reaches the
      match of "j?mps" at offset 20 after shifts 6, 6, 6 and 2, and being sound it finds
      none of the other three. */
  lemma SampleSundayQueries()
    ensures SundayWildFrom(Bytes(SENTENCE), Bytes("j?mps"), 0)
    ensures !SundayWildFrom(Bytes(SENTENCE), Bytes("quick*brown"), 0)
    ensures !SundayWildFrom(Bytes(SENTENCE), Bytes("l?zy*dog"), 0)
    ensures !SundayWildFrom(Bytes(SENTENCE), Bytes("\\*fox"), 0)
  {
    SampleQueries();
    SundayWildSound(Bytes(SENTENCE), Bytes("quick*brown"), 0);
    SundayWildSound(Bytes(SENTENCE), Bytes("l?zy*dog"), 0);
    SundayWildSound(Bytes(SENTENCE), Bytes("\\*fox"), 0);
    SampleSundayTrace();
  }

  /** The bytes of the sample that the trace of "j?mps" reads. */
  lemma SampleBytes()
    ensures Bytes(SENTENCE)[0] == 84 && Bytes(SENTENCE)[5] == 117
    ensures Bytes(SENTENCE)[6] == 105 && Bytes(SENTENCE)[11] == 114
    ensures Bytes(SENTENCE)[12] == 111 && Bytes(SENTENCE)[17] == 111
    ensures Bytes(SENTENCE)[18] == 120 && Bytes(SENTENCE)[23] == 112
    ensures Bytes("j?mps") == [106, 63, 109, 112, 115]
  {
    assert SENTENCE[0] == 'T';
  }

  /** The trace of sundayWildcard for "j?mps": offsets 0 and 6 fail on their first byte,
      and the bytes after them ('u', 'r') give shifts of 6 each. */
  lemma SampleSundayTrace()
    ensures SundayWildFrom(Bytes(SENTENCE), Bytes("j?mps"), 0)
  {
    var t, p := Bytes(SENTENCE), Bytes("j?mps");
    SampleBytes();
    SampleSundayFrom12();
    assert WildShift(p, t[11]) == 6;
    SundayWildNext(t, p, 6);
    assert WildShift(p, t[5]) == 6;
    SundayWildNext(t, p, 0);
  }

  /** The rest of the trace: offsets 12 and 18 fail on their first byte, 'o' gives a
      shift of 6 and 'p' one of 2, and the window at 20 matches. */
  lemma SampleSundayFrom12()
    ensures SundayWildFrom(Bytes(SENTENCE), Bytes("j?mps"), 12)
  {
    var t, p := Bytes(SENTENCE), Bytes("j?mps");
    SampleBytes();
    assert WildAt(t, p, 20);
    assert SundayWildFrom(t, p, 20);
    assert LastIndexOf(p, 112) == 3;
    assert WildShift(p, t[23]) == 2;
    SundayWildNext(t, p, 18);
    assert WildShift(p, t[17]) == 6;
    SundayWildNext(t, p, 12);
  }

  /** A window whose first byte differs from a literal first pattern byte fails, and the
      scan continues at the shifted offset. */
  lemma SundayWildNext(t: seq<int>, p: seq<int>, i: int)
    requires 0 <= i && i + |p| < |t| && 1 <= |p| && p[0] != QUESTION && p[0] != t[i]
    ensures SundayWildFrom(t, p, i) == SundayWildFrom(t, p, i + WildShift(p, t[i + |p|]))
  {
    assert !WildAt(t, p, i);
  }

  // ---------------------------------------------------------------------------------
  // The shift with wildcard positions taken into account.

  /** The shift that also stops at the last '?' of the pattern: a '?' can be aligned with
      any byte, so the window may move only past the later of the two positions. */
  function FixedWildShift(p: seq<int>, c: int): (s: int)
    ensures 1 <= s <= |p| + 1
  {
    var a, b := LastIndexOf(p, c), LastIndexOf(p, QUESTION);
    |p| - (if a < b then b else a)
  }

  function SundayWildFixedFrom(t: seq<int>, p: seq<int>, i: int): bool
    requires 0 <= i
    decreases |t| - i
  {
    if i > |t| - |p| then false
    else if WildAt(t, p, i) then true
    else if i + |p| < |t| then SundayWildFixedFrom(t, p, i + FixedWildShift(p, t[i + |p|]))
    else false
  }

  lemma FixedWildSkip(t: seq<int>, p: seq<int>, i: int)
    requires 0 <= i && i + |p| < |t|
    ensures forall k :: i < k < i + FixedWildShift(p, t[i + |p|]) ==> !WildAt(t, p, k)
  {
    var m, c := |p|, t[i + |p|];
    forall k | i < k < i + FixedWildShift(p, c)
      ensures !WildAt(t, p, k)
    {
      assert p[i + m - k] != QUESTION;
      assert p[i + m - k] != t[k + (i + m - k)];
    }
  }

  lemma {:induction false} SundayWildFixedExact(t: seq<int>, p: seq<int>, i: int)
    requires 0 <= i
    ensures SundayWildFixedFrom(t, p, i) <==> exists k :: i <= k && WildAt(t, p, k)
    decreases |t| - i
  {
    if i <= |t| - |p| && !WildAt(t, p, i) {
      if i + |p| < |t| {
        var s := FixedWildShift(p, t[i + |p|]);
        FixedWildSkip(t, p, i);
        SundayWildFixedExact(t, p, i + s);
        if k :| i <= k && WildAt(t, p, k) {
          assert i + s <= k;
        }
      } else {
        assert forall k :: i <= k && WildAt(t, p, k) ==> k == i;
      }
    }
  }

  /** sundayWildcard with the shift that respects '?': it answers exactly HasWild. */
  method SundayWildcardFixed(t: seq<int>, p: seq<int>) returns (found: bool)
    ensures found == HasWild(t, p)
  {
    SundayWildFixedExact(t, p, 0);
    var n, m := |t|, |p|;
    var i := 0;
    while i <= n - m
      invariant 0 <= i
      invariant SundayWildFixedFrom(t, p, i) == SundayWildFixedFrom(t, p, 0)
      decreases n - i
    {
      var j := WildMatchLength(t, p, i);
      if j == m {
        return true;
      }
      if i + m < n {
        i := i + FixedWildShift(p, t[i + m]);
      } else {
        break;
      }
    }
    found := false;
  }
}
