/** The three hash tables of Project2/Part3/Part3.cpp, with the key type fixed to `int`
    (the instantiation the benchmark uses) and the standard hash function passed in as
    `hashOf`. `Key{}` is the integer 0: an open-addressing slot whose key is 0 counts as
    empty. */
module HashTables {
  import opened Modular

  /** The value-initialised key `Key{}`. */
  const EMPTY := 0

  datatype Option<T> = None | Some(value: T)

  // ---------------------------------------------------------------------------------
  // Separate chaining.

  /** The value of the earliest entry for `key` in a bucket, as the search loop finds it. */
  function Lookup<V>(bucket: seq<(int, V)>, key: int): (r: Option<V>)
    ensures r.None? <==> forall x :: 0 <= x < |bucket| ==> bucket[x].0 != key
    ensures r.Some? ==> exists x :: (0 <= x < |bucket| && bucket[x] == (key, r.value) &&
                                     forall y :: 0 <= y < x ==> bucket[y].0 != key)
  {
    if |bucket| == 0 then None
    else if bucket[0].0 == key then Some(bucket[0].1)
    else Lookup(bucket[1..], key)
  }

  /** Appending an entry changes the lookup of its own key only, and only when the key was
      not in the bucket yet: an earlier entry for the key keeps shadowing the new one. */
  lemma {:induction false} LookupAppend<V>(bucket: seq<(int, V)>, k: int, v: V, key: int)
    ensures Lookup(bucket + [(k, v)], key) ==
      if key == k && Lookup(bucket, key).None? then Some(v) else Lookup(bucket, key)
    decreases |bucket|
  {
    if |bucket| > 0 {
      assert (bucket + [(k, v)])[1..] == bucket[1..] + [(k, v)];
      LookupAppend(bucket[1..], k, v, key);
    }
  }

  class SeparateChainingHashTable<V> {
    const hashOf: int -> nat
    const table: array<seq<(int, V)>>
    var size: nat

    ghost predicate Valid() {
      table.Length >= 1
    }

    constructor (capacity: nat, hashOf: int -> nat)
      requires capacity >= 1
      ensures Valid() && this.hashOf == hashOf && table.Length == capacity && fresh(table)
      ensures size == 0 && forall b :: 0 <= b < capacity ==> table[b] == []
    {
      this.hashOf := hashOf;
      table := new seq<(int, V)>[capacity](_ => []);
      size := 0;
    }

    /** hash: the bucket of a key, always a valid index. */
    function Hash(key: int): (b: nat)
      requires Valid()
      ensures b < table.Length
    {
      hashOf(key) % table.Length
    }

    /** insert appends to the key's bucket only, with no duplicate check. */
    method Insert(key: int, value: V)
      requires Valid()
      modifies this, table
      ensures Valid()
      ensures table[..] == old(table[..])[Hash(key) := old(table[Hash(key)]) + [(key, value)]]
      ensures size == old(size) + 1
    {
      var index := Hash(key);
      table[index] := table[index] + [(key, value)];
      size := size + 1;
    }

    /** search scans the key's bucket and reports the earliest entry; on a miss the value
        passed in is left as it was. */
    method Search(key: int, value0: V) returns (found: bool, value: V)
      requires Valid()
      ensures found == Lookup(table[Hash(key)], key).Some?
      ensures found ==> value == Lookup(table[Hash(key)], key).value
      ensures !found ==> value == value0
    {
      var bucket := table[Hash(key)];
      for k := 0 to |bucket|
        invariant forall x :: 0 <= x < k ==> bucket[x].0 != key
      {
        if bucket[k].0 == key {
          return true, bucket[k].1;
        }
      }
      return false, value0;
    }
  }

  /** After insert(k, v) a search for k in the new buckets succeeds, and yields v unless
      the bucket already held an entry for k. */
  lemma ChainInsertThenSearch<V>(buckets: seq<seq<(int, V)>>, b: int, k: int, v: V)
    requires 0 <= b < |buckets|
    ensures Lookup(buckets[b := buckets[b] + [(k, v)]][b], k).Some?
    ensures Lookup(buckets[b := buckets[b] + [(k, v)]][b], k) ==
      if Lookup(buckets[b], k).None? then Some(v) else Lookup(buckets[b], k)
  {
    LookupAppend(buckets[b], k, v, k);
  }

  // ---------------------------------------------------------------------------------
  // Open addressing, for any probe sequence `probe(0), probe(1), ...` of slot indexes.

  /** Every probe step names a slot. */
  ghost predicate InRange<V>(slots: seq<(int, V)>, probe: nat -> nat) {
    forall i :: probe(i) < |slots|
  }

  /** The first i probe steps all land on occupied slots. */
  predicate Passes<V>(slots: seq<(int, V)>, probe: nat -> nat, i: nat)
    requires InRange(slots, probe)
  {
    forall j: nat :: j < i ==> slots[probe(j)].0 != EMPTY
  }

  /** insert stops at probe step i: the first empty slot on the sequence. */
  predicate StopsAt<V>(slots: seq<(int, V)>, probe: nat -> nat, i: nat)
    requires InRange(slots, probe)
  {
    Passes(slots, probe, i) && slots[probe(i)].0 == EMPTY
  }

  /** search returns at probe step i: the first slot holding `key`, before any empty slot. */
  predicate FindsAt<V>(slots: seq<(int, V)>, probe: nat -> nat, key: int, i: nat)
    requires InRange(slots, probe)
  {
    key != EMPTY && Passes(slots, probe, i) && slots[probe(i)].0 == key &&
    forall j: nat :: j < i ==> slots[probe(j)].0 != key
  }

  /** Some probe step lands on an empty slot, so insert and search terminate. */
  ghost predicate Reachable<V>(slots: seq<(int, V)>, probe: nat -> nat)
    requires InRange(slots, probe)
  {
    exists i: nat :: slots[probe(i)].0 == EMPTY
  }

  /** Some probe step lands on an empty slot or on the key, so search terminates: it
      stops at the first of them. */
  ghost predicate SearchEnds<V>(slots: seq<(int, V)>, probe: nat -> nat, key: int)
    requires InRange(slots, probe)
  {
    exists i: nat :: slots[probe(i)].0 == EMPTY || slots[probe(i)].0 == key
  }

  /** A slot holding the key, reached before any empty slot, makes search succeed at the
      first such step. */
  lemma {:induction false} FirstHit<V>(slots: seq<(int, V)>, probe: nat -> nat, key: int, i: nat)
    requires InRange(slots, probe) && key != EMPTY
    requires Passes(slots, probe, i) && slots[probe(i)].0 == key
    ensures exists j: nat :: j <= i && FindsAt(slots, probe, key, j)
    decreases i
  {
    if j: nat :| j < i && slots[probe(j)].0 == key {
      FirstHit(slots, probe, key, j);
    } else {
      assert FindsAt(slots, probe, key, i);
    }
  }

  /** Insert-then-search: after writing (key, v) at the first empty slot, a search for
      key succeeds no later than that step, and returns v there when the key was not met
      earlier on its probe sequence. */
  lemma OpenInsertThenSearch<V>(slots: seq<(int, V)>, slots': seq<(int, V)>, probe: nat -> nat, key: int, v: V, i: nat)
    requires InRange(slots, probe) && key != EMPTY && StopsAt(slots, probe, i)
    requires slots' == slots[probe(i) := (key, v)]
    ensures InRange(slots', probe)
    ensures exists j: nat :: j <= i && FindsAt(slots', probe, key, j)
    ensures (forall j: nat :: j < i ==> slots[probe(j)].0 != key) ==> FindsAt(slots', probe, key, i) && slots'[probe(i)].1 == v
  {
    forall j: nat | j < i
      ensures slots'[probe(j)] == slots[probe(j)]
    {
      assert slots[probe(j)].0 != EMPTY;
    }
    FirstHit(slots', probe, key, i);
  }

  /** `size_t` arithmetic wraps at 2^64; `std::hash` returns a `size_t`. */
  const WORD := 0x1_0000_0000_0000_0000

  /** hash(key, i) of linear probing: the `size_t` sum hash(key) + i, then reduced modulo
      the capacity n. */
  function LinearProbe(h: nat, i: nat, n: nat): (s: nat)
    requires n >= 1
    ensures s < n
  {
    ((h + i) % WORD) % n
  }

  /** insert and search need a reachable empty slot. For linear probing every slot s is on
      every probe sequence: step (s - h) mod 2^64 lands on it, since the capacity is a
      `size_t` and so at most 2^64. */
  lemma LinearCoverage(h: nat, n: nat, s: nat)
    requires 1 <= n <= WORD && s < n
    ensures LinearProbe(h, (s - h) % WORD, n) == s
  {
    var i, q := (s - h) % WORD, (s - h) / WORD;
    assert s - h == WORD * q + i;
    assert (h + i) - s == WORD * -q;
    ModOfMultipleDifference(h + i, s, WORD, -q);
    DivModUnique(s, WORD, 0, s);
    DivModUnique(s, n, 0, s);
  }

  /** The wrap matters near the top of the `size_t` range: with hash 2^64 - 1 and capacity
      3 the first three probes are slots 0, 0 and 1, so n consecutive steps need not visit
      every slot. */
  lemma LinearWrap()
    ensures LinearProbe(WORD - 1, 0, 3) == 0
    ensures LinearProbe(WORD - 1, 1, 3) == 0
    ensures LinearProbe(WORD - 1, 2, 3) == 1
  {
  }

  class LinearProbingHashTable<V> {
    const hashOf: int -> nat
    const table: array<(int, V)>
    var size: nat

    /** The capacity is a `size_t`. */
    ghost predicate Valid() {
      1 <= table.Length < WORD
    }

    /** The slots of a new table hold `Key{}` paired with the value-initialised `blank`. */
    constructor (capacity: nat, hashOf: int -> nat, blank: V)
      requires 1 <= capacity < WORD
      ensures Valid() && this.hashOf == hashOf && table.Length == capacity && fresh(table)
      ensures size == 0 && forall s :: 0 <= s < capacity ==> table[s] == (EMPTY, blank)
    {
      this.hashOf := hashOf;
      table := new (int, V)[capacity](_ => (EMPTY, blank));
      size := 0;
    }

    /** hash(key, i) = (hash(key) + i) mod capacity, the sum taken in `size_t`. */
    function Hash(key: int, i: nat): (s: nat)
      ensures Valid() ==> s < table.Length
    {
      if table.Length == 0 then 0 else LinearProbe(hashOf(key), i, table.Length)
    }

    /** The probe sequence of `key`. */
    function ProbeOf(key: int): nat -> nat {
      i => Hash(key, i)
    }

    /** On a table that is not full, every key's probe sequence reaches an empty slot. */
    lemma NotFullReachable(key: int)
      requires Valid() && exists s :: 0 <= s < table.Length && table[s].0 == EMPTY
      ensures InRange(table[..], ProbeOf(key)) && Reachable(table[..], ProbeOf(key))
    {
      var s :| 0 <= s < table.Length && table[s].0 == EMPTY;
      var n, h := table.Length, hashOf(key);
      LinearCoverage(h, n, s);
      assert ProbeOf(key)((s - h) % WORD) == s;
    }

    /** insert writes (key, value) into the first empty slot of the key's probe sequence
        and changes nothing else; a `Key{}` key leaves every slot looking as it did. */
    method Insert(key: int, value: V)
      requires Valid() && exists s :: 0 <= s < table.Length && table[s].0 == EMPTY
      modifies this, table
      ensures Valid() && InRange(old(table[..]), ProbeOf(key))
      ensures exists i: nat :: (StopsAt(old(table[..]), ProbeOf(key), i) &&
                                table[..] == old(table[..])[Hash(key, i) := (key, value)])
      ensures key == EMPTY ==> forall s :: 0 <= s < table.Length ==> table[s].0 == old(table[s].0)
      ensures size == old(size) + 1
    {
      NotFullReachable(key);
      ghost var w: nat :| table[Hash(key, w)].0 == EMPTY;
      var i: nat := 0;
      var index := Hash(key, i);
      while table[index].0 != EMPTY
        invariant i <= w && index == Hash(key, i)
        invariant Passes(table[..], ProbeOf(key), i)
        decreases w - i
      {
        i := i + 1;
        index := Hash(key, i);
      }
      table[index] := (key, value);
      size := size + 1;
    }

    /** search follows the same probe sequence and stops at the first empty slot: it
        succeeds exactly when the key is met first, and `Key{}` is never found. Since every
        slot is on the probe sequence, it terminates as soon as some slot is empty or holds
        the key, a full table included. */
    method Search(key: int, value0: V) returns (found: bool, value: V)
      requires Valid() && exists s :: 0 <= s < table.Length && (table[s].0 == EMPTY || table[s].0 == key)
      ensures InRange(table[..], ProbeOf(key))
      ensures found <==> exists i: nat :: FindsAt(table[..], ProbeOf(key), key, i)
      ensures found ==> exists i: nat :: FindsAt(table[..], ProbeOf(key), key, i) && value == table[Hash(key, i)].1
      ensures !found ==> value == value0
      ensures key == EMPTY ==> !found
    {
      var s :| 0 <= s < table.Length && (table[s].0 == EMPTY || table[s].0 == key);
      ghost var h := hashOf(key);
      ghost var w: nat := (s - h) % WORD;
      LinearCoverage(h, table.Length, s);
      assert Hash(key, w) == s;
      var i: nat := 0;
      var index := Hash(key, i);
      while table[index].0 != EMPTY
        invariant i <= w && index == Hash(key, i)
        invariant Passes(table[..], ProbeOf(key), i)
        invariant forall j: nat :: j < i ==> table[Hash(key, j)].0 != key
        decreases w - i
      {
        if table[index].0 == key {
          assert FindsAt(table[..], ProbeOf(key), key, i);
          return true, table[index].1;
        }
        i := i + 1;
        index := Hash(key, i);
      }
      NoFindPast(table[..], ProbeOf(key), key, i);
      return false, value0;
    }
  }

  /** A search that reaches an empty slot at step i, not having met the key, fails. */
  lemma NoFindPast<V>(slots: seq<(int, V)>, probe: nat -> nat, key: int, i: nat)
    requires InRange(slots, probe) && StopsAt(slots, probe, i)
    requires forall j: nat :: j < i ==> slots[probe(j)].0 != key
    ensures forall j: nat :: !FindsAt(slots, probe, key, j)
  {
    forall j: nat
      ensures !FindsAt(slots, probe, key, j)
    {
      if j > i {
        assert slots[probe(i)].0 == EMPTY;
      }
    }
  }

  class DoubleHashingHashTable<V> {
    const hashOf: int -> nat
    const table: array<(int, V)>
    var size: nat

    /** hash2 reduces modulo capacity - 1, so the capacity must be at least 2. */
    ghost predicate Valid() {
      table.Length >= 2
    }

    constructor (capacity: nat, hashOf: int -> nat, blank: V)
      requires capacity >= 2
      ensures Valid() && this.hashOf == hashOf && table.Length == capacity && fresh(table)
      ensures size == 0 && forall s :: 0 <= s < capacity ==> table[s] == (EMPTY, blank)
    {
      this.hashOf := hashOf;
      table := new (int, V)[capacity](_ => (EMPTY, blank));
      size := 0;
    }

    /** hash1: the home slot. */
    function Hash1(key: int): (s: nat)
      requires Valid()
      ensures s < table.Length
    {
      hashOf(key) % table.Length
    }

    /** hash2: the step, never 0 and below the capacity. */
    function Hash2(key: int): (d: nat)
      requires Valid()
      ensures 1 <= d < table.Length
    {
      1 + hashOf(key) % (table.Length - 1)
    }

    /** hash(key, i) = (hash1 + i * hash2) mod capacity. */
    function Hash(key: int, i: nat): (s: nat)
      ensures Valid() ==> s < table.Length
    {
      if table.Length < 2 then 0 else (Hash1(key) + i * Hash2(key)) % table.Length
    }

    function ProbeOf(key: int): nat -> nat {
      i => Hash(key, i)
    }

    lemma ProbeInRange(key: int)
      requires Valid()
      ensures InRange(table[..], ProbeOf(key))
    {
    }

    /** insert writes (key, value) into the first empty slot of the key's probe sequence
        and changes nothing else; a `Key{}` key leaves every slot looking as it did. */
    method Insert(key: int, value: V)
      requires Valid() && InRange(table[..], ProbeOf(key)) && Reachable(table[..], ProbeOf(key))
      modifies this, table
      ensures Valid()
      ensures exists i: nat :: (StopsAt(old(table[..]), ProbeOf(key), i) &&
                                table[..] == old(table[..])[Hash(key, i) := (key, value)])
      ensures key == EMPTY ==> forall s :: 0 <= s < table.Length ==> table[s].0 == old(table[s].0)
      ensures size == old(size) + 1
    {
      ghost var w: nat :| table[Hash(key, w)].0 == EMPTY;
      var i: nat := 0;
      var index := Hash(key, i);
      while table[index].0 != EMPTY
        invariant i <= w && index == Hash(key, i)
        invariant Passes(table[..], ProbeOf(key), i)
        decreases w - i
      {
        i := i + 1;
        index := Hash(key, i);
      }
      table[index] := (key, value);
      size := size + 1;
    }

    /** search follows the same probe sequence and stops at the first empty slot or at the
        key, whichever comes first, so it also terminates on a full table holding the key. */
    method Search(key: int, value0: V) returns (found: bool, value: V)
      requires Valid() && InRange(table[..], ProbeOf(key)) && SearchEnds(table[..], ProbeOf(key), key)
      ensures found <==> exists i: nat :: FindsAt(table[..], ProbeOf(key), key, i)
      ensures found ==> exists i: nat :: FindsAt(table[..], ProbeOf(key), key, i) && value == table[Hash(key, i)].1
      ensures !found ==> value == value0
      ensures key == EMPTY ==> !found
    {
      ghost var w: nat :| table[Hash(key, w)].0 == EMPTY || table[Hash(key, w)].0 == key;
      var i: nat := 0;
      var index := Hash(key, i);
      while table[index].0 != EMPTY
        invariant i <= w && index == Hash(key, i)
        invariant Passes(table[..], ProbeOf(key), i)
        invariant forall j: nat :: j < i ==> table[Hash(key, j)].0 != key
        decreases w - i
      {
        if table[index].0 == key {
          assert FindsAt(table[..], ProbeOf(key), key, i);
          return true, table[index].1;
        }
        i := i + 1;
        index := Hash(key, i);
      }
      NoFindPast(table[..], ProbeOf(key), key, i);
      return false, value0;
    }
  }
}
