/** Integer arithmetic as the C++ source performs it, and the polynomial hash that the
    Rabin-Karp matchers roll. */
module Modular {

  /** C++ `%` on `int`: the quotient truncates toward zero, so a negative dividend leaves
      a remainder in (-b, 0]. Dafny's own `%` is Euclidean and never negative. */
  function CRem(a: int, b: int): (r: int)
    requires b > 0
    ensures -b < r < b
    ensures a >= 0 ==> r == a % b
  {
    if a >= 0 then a % b else -((-a) % b)
  }

  /** The source's fix-up `if (x < 0) x += q` after a C++ remainder. */
  function Normalize(r: int, q: int): int {
    if r < 0 then r + q else r
  }

  /** q * w for w >= 1 is at least q. */
  lemma {:induction false} MulAtLeast(q: int, w: int)
    requires q > 0 && w >= 1
    ensures q * w >= q
    decreases w
  {
    if w > 1 {
      MulAtLeast(q, w - 1);
      assert q * w == q * (w - 1) + q;
    }
  }

  /** Euclidean division is unique: any decomposition u == q * z + r with 0 <= r < q
      is the one Dafny's `/` and `%` give. */
  lemma DivModUnique(u: int, q: int, z: int, r: int)
    requires q > 0 && 0 <= r < q && u == q * z + r
    ensures u % q == r && u / q == z
  {
    var z', r' := u / q, u % q;
    assert u == q * z' + r';
    assert q * (z - z') == r' - r;
    if z - z' >= 1 {
      MulAtLeast(q, z - z');
    } else if z' - z >= 1 {
      assert q * (z' - z) == r - r';
      MulAtLeast(q, z' - z);
    }
  }

  /** A congruence between two numbers is witnessed by their difference. */
  lemma ModOfMultipleDifference(u: int, v: int, q: int, k: int)
    requires q > 0 && u - v == q * k
    ensures u % q == v % q
  {
    var dv, rv := v / q, v % q;
    assert v == q * dv + rv;
    assert u == q * (dv + k) + rv;
    DivModUnique(u, q, dv + k, rv);
  }

  /** The truncating remainder followed by the fix-up is the Euclidean remainder: the two
      rolling-hash updates land exactly on `a % q`. */
  lemma {:induction false} NormalizedRem(a: int, q: int)
    requires q > 0
    ensures Normalize(CRem(a, q), q) == a % q
    ensures 0 <= Normalize(CRem(a, q), q) < q
  {
    if a < 0 {
      var u := -a;
      var w := u % q;
      assert u == q * (u / q) + w;
      if w == 0 {
        DivModUnique(a, q, -(u / q), 0);
      } else {
        DivModUnique(a, q, -(u / q) - 1, q - w);
      }
    }
  }

  function Pow(b: int, e: nat): int {
    if e == 0 then 1 else b * Pow(b, e - 1)
  }

  /** The base-`d` value of `s`, most significant element first (Horner's rule). */
  function Poly(d: int, s: seq<int>): int {
    if |s| == 0 then 0 else d * Poly(d, s[..|s| - 1]) + s[|s| - 1]
  }

  lemma Distribute(d: int, a: int, w: int, r: int)
    ensures d * (a * w + r) == a * (d * w) + d * r
  {
  }

  /** The leading element carries weight d^(|s|-1). */
  lemma {:induction false} PolyLeading(d: int, s: seq<int>)
    requires |s| >= 1
    ensures Poly(d, s) == s[0] * Pow(d, |s| - 1) + Poly(d, s[1..])
    decreases |s|
  {
    if |s| > 1 {
      var init := s[..|s| - 1];
      PolyLeading(d, init);
      assert init[1..] == s[1..][..|s| - 2];
      var a, w, r := s[0], Pow(d, |s| - 2), Poly(d, init[1..]);
      assert Poly(d, init) == a * w + r;
      Distribute(d, a, w, r);
      assert Poly(d, s[1..]) == d * r + s[|s| - 1];
    } else {
      assert s[1..] == [];
      assert s[..0] == [];
    }
  }

  /** Dropping the leading element and appending `c` is the textbook rolling update. */
  lemma PolyRoll(d: int, s: seq<int>, c: int)
    requires |s| >= 1
    ensures Poly(d, s[1..] + [c]) == d * (Poly(d, s) - s[0] * Pow(d, |s| - 1)) + c
  {
    PolyLeading(d, s);
    assert (s[1..] + [c])[..|s| - 1] == s[1..];
  }

  /** Horner's step may reduce the accumulator modulo `q` first. */
  lemma HornerMod(d: int, x: int, c: int, q: int)
    requires q > 0
    ensures (d * (x % q) + c) % q == (d * x + c) % q
  {
    assert x == q * (x / q) + x % q;
    assert (d * x + c) - (d * (x % q) + c) == q * (d * (x / q));
    ModOfMultipleDifference(d * x + c, d * (x % q) + c, q, d * (x / q));
  }

  /** The rolling update respects congruence in both the old hash and the high-order weight. */
  lemma RollMod(d: int, x: int, x': int, a: int, y: int, y': int, c: int, q: int)
    requires q > 0 && x % q == x' % q && y % q == y' % q
    ensures (d * (x - a * y) + c) % q == (d * (x' - a * y') + c) % q
  {
    var kx := x / q - x' / q;
    var ky := y / q - y' / q;
    assert x == q * (x / q) + x % q;
    assert x' == q * (x' / q) + x' % q;
    assert y == q * (y / q) + y % q;
    assert y' == q * (y' / q) + y' % q;
    assert x - x' == q * kx;
    assert y - y' == q * ky;
    assert a * y - a * y' == q * (a * ky);
    assert (d * (x - a * y) + c) - (d * (x' - a * y') + c) == d * ((x - x') - (a * y - a * y'));
    assert d * ((x - x') - (a * y - a * y')) == q * (d * (kx - a * ky));
    ModOfMultipleDifference(d * (x - a * y) + c, d * (x' - a * y') + c, q, d * (kx - a * ky));
  }

  /** Each step of the source's `h = (h * d) % q` loop keeps `h` congruent to a power of `d`. */
  lemma PowStepMod(d: int, e: nat, q: int)
    requires q > 0
    ensures ((Pow(d, e) % q) * d) % q == Pow(d, e + 1) % q
  {
    HornerMod(d, Pow(d, e), 0, q);
    assert Pow(d, e + 1) == d * Pow(d, e);
    assert (Pow(d, e) % q) * d == d * (Pow(d, e) % q);
  }
}
