/** The seating scheme of Project2/Part2/Part2.cpp: tables are filled one by one by
    backtracking, each table taking the first guest (in ascending order) that passes the
    conflict test against the tables already filled. `seating[t]` is the guest at table t,
    -1 while unassigned. The conflict test reads the `dislikes` matrix at
    `[i][table]`, where i is the index of an earlier TABLE holding the same guest. */
module Seating {

  datatype Option<T> = None | Some(value: T)

  const UNSEATED := -1

  /** The rows and columns of `dislikes` that a scheme for n tables can read. */
  predicate Shaped(dislikes: seq<seq<int>>, n: int) {
    0 <= n <= |dislikes| && forall i :: 0 <= i < n ==> n <= |dislikes[i]|
  }

  /** isValidSeat over the whole seating vector: no table i holds `guest` while
      dislikes[i][table] is 1. */
  predicate ValidSeat(guest: int, table: int, dislikes: seq<seq<int>>, seating: seq<int>)
    requires Shaped(dislikes, |seating|) && 0 <= table < |seating|
  {
    forall i :: 0 <= i < |seating| ==> !(seating[i] == guest && dislikes[i][table] == 1)
  }

  /** The same test when only the tables before |prefix| are filled. */
  predicate SeatOk(dislikes: seq<seq<int>>, n: int, prefix: seq<int>, guest: int)
    requires Shaped(dislikes, n) && |prefix| < n
  {
    forall i :: 0 <= i < |prefix| ==> !(prefix[i] == guest && dislikes[i][|prefix|] == 1)
  }

  /** A (partial) scheme the search accepts: every entry is a guest, and no two tables
      i < t with dislikes[i][t] == 1 hold the same guest. */
  predicate Arrangement(dislikes: seq<seq<int>>, n: int, s: seq<int>)
    requires Shaped(dislikes, n) && |s| <= n
  {
    (forall t :: 0 <= t < |s| ==> 0 <= s[t] < |dislikes|) &&
    forall i, t :: 0 <= i < t < |s| ==> !(s[i] == s[t] && dislikes[i][t] == 1)
  }

  /** `s` is at most `t` in lexicographic order. */
  predicate LexLeq(s: seq<int>, t: seq<int>)
    requires |s| == |t|
  {
    s == t || exists k :: 0 <= k < |s| && s[..k] == t[..k] && s[k] < t[k]
  }

  /** The search of dfs from table |prefix| with the tables before it filled by `prefix`:
      the first scheme, guests tried in ascending order, or None. */
  function Complete(dislikes: seq<seq<int>>, n: int, prefix: seq<int>): (r: Option<seq<int>>)
    requires Shaped(dislikes, n) && |prefix| <= n
    ensures r.Some? ==> |r.value| == n && r.value[..|prefix|] == prefix
    decreases n - |prefix|, |dislikes| + 1
  {
    if |prefix| == n then Some(prefix) else Try(dislikes, n, prefix, 0)
  }

  /** The loop over guests g, g + 1, ... at table |prefix|. */
  function Try(dislikes: seq<seq<int>>, n: int, prefix: seq<int>, g: int): (r: Option<seq<int>>)
    requires Shaped(dislikes, n) && |prefix| < n && 0 <= g <= |dislikes|
    ensures r.Some? ==> |r.value| == n && r.value[..|prefix|] == prefix
    ensures r.Some? ==> g <= r.value[|prefix|] < |dislikes|
    decreases n - |prefix|, |dislikes| - g
  {
    if g == |dislikes| then None
    else if SeatOk(dislikes, n, prefix, g) && Complete(dislikes, n, prefix + [g]).Some? then
      var s := Complete(dislikes, n, prefix + [g]).value;
      assert s[..|prefix|] == (prefix + [g])[..|prefix|];
      assert s[|prefix|] == (prefix + [g])[|prefix|];
      Complete(dislikes, n, prefix + [g])
    else Try(dislikes, n, prefix, g + 1)
  }

  /** Extending an arrangement by one table is an arrangement exactly when the new
      guest exists and passes the seat test. */
  lemma ArrangementSnoc(dislikes: seq<seq<int>>, n: int, prefix: seq<int>, g: int)
    requires Shaped(dislikes, n) && |prefix| < n
    ensures Arrangement(dislikes, n, prefix + [g]) <==>
            Arrangement(dislikes, n, prefix) && 0 <= g < |dislikes| && SeatOk(dislikes, n, prefix, g)
  {
    var s := prefix + [g];
    if Arrangement(dislikes, n, s) {
      forall i, t | 0 <= i < t < |prefix|
        ensures !(prefix[i] == prefix[t] && dislikes[i][t] == 1)
      {
        assert s[i] == prefix[i] && s[t] == prefix[t];
      }
      forall i | 0 <= i < |prefix|
        ensures !(prefix[i] == g && dislikes[i][|prefix|] == 1)
      {
        assert s[i] == prefix[i] && s[|prefix|] == g;
      }
      forall t | 0 <= t < |prefix|
        ensures 0 <= prefix[t] < |dislikes|
      {
        assert s[t] == prefix[t];
      }
      assert s[|prefix|] == g;
      assert Arrangement(dislikes, n, prefix);
    }
    if Arrangement(dislikes, n, prefix) && 0 <= g < |dislikes| && SeatOk(dislikes, n, prefix, g) {
      forall t | 0 <= t < |s|
        ensures 0 <= s[t] < |dislikes|
      {
        if t < |prefix| {
          assert s[t] == prefix[t];
        }
      }
      forall i, t | 0 <= i < t < |s|
        ensures !(s[i] == s[t] && dislikes[i][t] == 1)
      {
        assert s[i] == prefix[i];
        if t < |prefix| {
          assert s[t] == prefix[t];
        } else {
          assert s[t] == g;
        }
      }
      assert Arrangement(dislikes, n, s);
    }
  }

  /** The prefix of an arrangement is one. */
  lemma ArrangementPrefix(dislikes: seq<seq<int>>, n: int, t: seq<int>, k: int)
    requires Shaped(dislikes, n) && |t| <= n && 0 <= k <= |t| && Arrangement(dislikes, n, t)
    ensures Arrangement(dislikes, n, t[..k])
  {
  }

  /** What the search returns is an arrangement extending the prefix. */
  lemma {:induction false} CompleteSound(dislikes: seq<seq<int>>, n: int, prefix: seq<int>)
    requires Shaped(dislikes, n) && |prefix| <= n && Arrangement(dislikes, n, prefix)
    requires Complete(dislikes, n, prefix).Some?
    ensures Arrangement(dislikes, n, Complete(dislikes, n, prefix).value)
    decreases n - |prefix|, |dislikes| + 1
  {
    if |prefix| < n {
      TrySound(dislikes, n, prefix, 0);
    }
  }

  lemma {:induction false} TrySound(dislikes: seq<seq<int>>, n: int, prefix: seq<int>, g: int)
    requires Shaped(dislikes, n) && |prefix| < n && 0 <= g <= |dislikes| && Arrangement(dislikes, n, prefix)
    requires Try(dislikes, n, prefix, g).Some?
    ensures Arrangement(dislikes, n, Try(dislikes, n, prefix, g).value)
    decreases n - |prefix|, |dislikes| - g
  {
    if SeatOk(dislikes, n, prefix, g) && Complete(dislikes, n, prefix + [g]).Some? {
      ArrangementSnoc(dislikes, n, prefix, g);
      CompleteSound(dislikes, n, prefix + [g]);
    } else {
      TrySound(dislikes, n, prefix, g + 1);
    }
  }

  /** `t` is a full arrangement that agrees with `prefix` on the filled tables. */
  predicate Extends(dislikes: seq<seq<int>>, n: int, prefix: seq<int>, t: seq<int>)
    requires Shaped(dislikes, n)
  {
    |t| == n && |prefix| <= n && t[..|prefix|] == prefix && Arrangement(dislikes, n, t)
  }

  /** One table further along `t`. */
  lemma ExtendsStep(dislikes: seq<seq<int>>, n: int, prefix: seq<int>, t: seq<int>)
    requires Shaped(dislikes, n) && Extends(dislikes, n, prefix, t) && |prefix| < n
    ensures Extends(dislikes, n, prefix + [t[|prefix|]], t)
    ensures SeatOk(dislikes, n, prefix, t[|prefix|]) && 0 <= t[|prefix|] < |dislikes|
  {
    assert t[..|prefix| + 1] == prefix + [t[|prefix|]];
    ArrangementPrefix(dislikes, n, t, |prefix| + 1);
    ArrangementPrefix(dislikes, n, t, |prefix|);
    ArrangementSnoc(dislikes, n, prefix, t[|prefix|]);
  }

  /** If an arrangement extends the prefix, the search finds one. */
  lemma {:induction false} CompleteFinds(dislikes: seq<seq<int>>, n: int, prefix: seq<int>, t: seq<int>)
    requires Shaped(dislikes, n) && Extends(dislikes, n, prefix, t)
    ensures Complete(dislikes, n, prefix).Some?
    decreases n - |prefix|, |dislikes| + 1
  {
    if |prefix| < n {
      ExtendsStep(dislikes, n, prefix, t);
      TryFinds(dislikes, n, prefix, 0, t);
    }
  }

  lemma {:induction false} TryFinds(dislikes: seq<seq<int>>, n: int, prefix: seq<int>, g: int, t: seq<int>)
    requires Shaped(dislikes, n) && Extends(dislikes, n, prefix, t) && |prefix| < n
    requires 0 <= g <= t[|prefix|] < |dislikes|
    ensures Try(dislikes, n, prefix, g).Some?
    decreases n - |prefix|, |dislikes| - g
  {
    if g == t[|prefix|] {
      ExtendsStep(dislikes, n, prefix, t);
      CompleteFinds(dislikes, n, prefix + [g], t);
    } else if !(SeatOk(dislikes, n, prefix, g) && Complete(dislikes, n, prefix + [g]).Some?) {
      TryFinds(dislikes, n, prefix, g + 1, t);
    }
  }

  /** Seating `t[|prefix|]` at the next table always lets the search succeed. */
  lemma TakenByT(dislikes: seq<seq<int>>, n: int, prefix: seq<int>, t: seq<int>)
    requires Shaped(dislikes, n) && Extends(dislikes, n, prefix, t) && |prefix| < n
    ensures SeatOk(dislikes, n, prefix, t[|prefix|])
    ensures Complete(dislikes, n, prefix + [t[|prefix|]]).Some?
  {
    ExtendsStep(dislikes, n, prefix, t);
    CompleteFinds(dislikes, n, prefix + [t[|prefix|]], t);
  }

  /** Lexicographic order from a common prefix: a smaller entry right after it decides. */
  lemma LexAt(s: seq<int>, t: seq<int>, k: int)
    requires |s| == |t| && 0 <= k < |s| && s[..k] == t[..k] && s[k] < t[k]
    ensures LexLeq(s, t)
  {
  }

  /** The search returns the lexicographically least arrangement extending the prefix. */
  lemma {:induction false} CompleteLeast(dislikes: seq<seq<int>>, n: int, prefix: seq<int>, t: seq<int>)
    requires Shaped(dislikes, n) && Extends(dislikes, n, prefix, t)
    requires Complete(dislikes, n, prefix).Some?
    ensures LexLeq(Complete(dislikes, n, prefix).value, t)
    decreases n - |prefix|, |dislikes| + 1
  {
    if |prefix| < n {
      ExtendsStep(dislikes, n, prefix, t);
      TryLeast(dislikes, n, prefix, 0, t);
    } else {
      assert t == t[..|prefix|];
    }
  }

  lemma {:induction false} TryLeast(dislikes: seq<seq<int>>, n: int, prefix: seq<int>, g: int, t: seq<int>)
    requires Shaped(dislikes, n) && Extends(dislikes, n, prefix, t) && |prefix| < n
    requires 0 <= g <= t[|prefix|] < |dislikes|
    requires Try(dislikes, n, prefix, g).Some?
    ensures LexLeq(Try(dislikes, n, prefix, g).value, t)
    decreases n - |prefix|, |dislikes| - g
  {
    var s := Try(dislikes, n, prefix, g).value;
    if SeatOk(dislikes, n, prefix, g) && Complete(dislikes, n, prefix + [g]).Some? {
      if g == t[|prefix|] {
        ExtendsStep(dislikes, n, prefix, t);
        CompleteLeast(dislikes, n, prefix + [g], t);
      } else {
        assert s[..|prefix|] == prefix == t[..|prefix|];
        LexAt(s, t, |prefix|);
      }
    } else {
      TakenByT(dislikes, n, prefix, t);
      TryLeast(dislikes, n, prefix, g + 1, t);
    }
  }

  // ---------------------------------------------------------------------------------
  // The imperative search over the seating vector.

  /** The seating vector: the tables before `table` hold `prefix`, the rest are -1. */
  predicate Padded(seating: seq<int>, prefix: seq<int>)
  {
    |prefix| <= |seating| && seating[..|prefix|] == prefix &&
    forall k :: |prefix| <= k < |seating| ==> seating[k] == UNSEATED
  }

  /** On a padded vector, isValidSeat of a guest is the test on the filled tables. */
  lemma PaddedSeat(dislikes: seq<seq<int>>, seating: seq<int>, prefix: seq<int>, guest: int)
    requires Shaped(dislikes, |seating|) && Padded(seating, prefix) && |prefix| < |seating| && guest >= 0
    ensures ValidSeat(guest, |prefix|, dislikes, seating) == SeatOk(dislikes, |seating|, prefix, guest)
  {
    forall i | 0 <= i < |prefix|
      ensures seating[i] == prefix[i]
    {
      assert seating[..|prefix|][i] == seating[i];
    }
  }

  /** isValidSeat. */
  method IsValidSeat(guest: int, table: int, dislikes: seq<seq<int>>, seating: array<int>) returns (ok: bool)
    requires Shaped(dislikes, seating.Length) && 0 <= table < seating.Length
    ensures ok == ValidSeat(guest, table, dislikes, seating[..])
  {
    for i := 0 to seating.Length
      invariant forall j :: 0 <= j < i ==> !(seating[j] == guest && dislikes[j][table] == 1)
    {
      if seating[i] == guest && dislikes[i][table] == 1 {
        return false;
      }
    }
    return true;
  }

  /** dfs: fills the tables from `table` on. It succeeds exactly when the search
      specified by Complete does, leaving its scheme in `seating`, and on failure leaves
      `seating` as it found it. */
  method Dfs(dislikes: seq<seq<int>>, seating: array<int>, table: int) returns (found: bool)
    requires Shaped(dislikes, seating.Length) && 0 <= table <= seating.Length
    requires forall k :: table <= k < seating.Length ==> seating[k] == UNSEATED
    modifies seating
    ensures found == Complete(dislikes, seating.Length, old(seating[..table])).Some?
    ensures found ==> seating[..] == Complete(dislikes, seating.Length, old(seating[..table])).value
    ensures !found ==> seating[..] == old(seating[..])
    decreases seating.Length - table
  {
    ghost var n := seating.Length;
    ghost var prefix := seating[..table];
    if table == seating.Length {
      assert seating[..] == prefix;
      return true;
    }
    ghost var initial := seating[..];
    assert Padded(initial, prefix);
    for guest := 0 to |dislikes|
      invariant seating[..] == initial
      invariant Complete(dislikes, n, prefix) == Try(dislikes, n, prefix, guest)
    {
      var ok := IsValidSeat(guest, table, dislikes, seating);
      PaddedSeat(dislikes, initial, prefix, guest);
      if ok {
        seating[table] := guest;
        assert seating[..table + 1] == prefix + [guest];
        found := Dfs(dislikes, seating, table + 1);
        if found {
          return true;
        }
        seating[table] := UNSEATED;
        assert seating[..] == initial;
      }
    }
    return false;
  }

  /** setSittingScheme: the scheme dfs finds for numTables tables, or the empty vector
      when there is none. For numTables == 0 the scheme found is itself empty. */
  method SetSittingScheme(dislikes: seq<seq<int>>, numTables: nat) returns (result: seq<int>)
    requires Shaped(dislikes, numTables)
    ensures result == [] || |result| == numTables
    ensures result != [] ==> Arrangement(dislikes, numTables, result)
    ensures result == [] <==> numTables == 0 || !exists t :: Extends(dislikes, numTables, [], t)
    ensures forall t :: Extends(dislikes, numTables, [], t) ==> result == t || (result != [] && LexLeq(result, t))
  {
    var seating := new int[numTables](_ => UNSEATED);
    assert seating[..0] == [];
    var found := Dfs(dislikes, seating, 0);
    if found {
      result := seating[..];
    } else {
      result := [];
    }
    SchemeFacts(dislikes, numTables, found, result);
  }

  /** The properties of setSittingScheme's answer, derived from the search. */
  lemma SchemeFacts(dislikes: seq<seq<int>>, n: nat, found: bool, result: seq<int>)
    requires Shaped(dislikes, n)
    requires found == Complete(dislikes, n, []).Some?
    requires result == if found then Complete(dislikes, n, []).value else []
    ensures result == [] || |result| == n
    ensures result != [] ==> Arrangement(dislikes, n, result)
    ensures result == [] <==> n == 0 || !exists t :: Extends(dislikes, n, [], t)
    ensures forall t :: Extends(dislikes, n, [], t) ==> result == t || (result != [] && LexLeq(result, t))
  {
    if found {
      CompleteSound(dislikes, n, []);
      assert Extends(dislikes, n, [], result);
    }
    forall t | Extends(dislikes, n, [], t)
      ensures result == t || (result != [] && LexLeq(result, t))
    {
      CompleteFinds(dislikes, n, [], t);
      CompleteLeast(dislikes, n, [], t);
      if n == 0 {
        assert t == [] == result;
      }
    }
  }

  /** The sample party: five guests, two tables. Guest 0 takes table 0; guest 0 is then
      refused table 1 because dislikes[0][1] == 1, and guest 1 takes it. */
  lemma SampleParty()
    ensures Shaped([[0, 1, 1, 0, 0], [1, 0, 0, 1, 1], [1, 0, 0, 1, 0], [0, 1, 1, 0, 1], [0, 1, 0, 1, 0]], 2)
    ensures Complete([[0, 1, 1, 0, 0], [1, 0, 0, 1, 1], [1, 0, 0, 1, 0], [0, 1, 1, 0, 1], [0, 1, 0, 1, 0]], 2, []) == Some([0, 1])
  {
    var d := [[0, 1, 1, 0, 0], [1, 0, 0, 1, 1], [1, 0, 0, 1, 0], [0, 1, 1, 0, 1], [0, 1, 0, 1, 0]];
    assert SeatOk(d, 2, [], 0);
    assert [0][0] == 0 && d[0][1] == 1;
    assert !SeatOk(d, 2, [0], 0);
    assert SeatOk(d, 2, [0], 1);
    assert [0] + [1] == [0, 1];
    assert Complete(d, 2, [0, 1]) == Some([0, 1]);
    assert Try(d, 2, [0], 1) == Some([0, 1]);
    assert Try(d, 2, [0], 0) == Some([0, 1]);
    assert [] + [0] == [0];
    assert Try(d, 2, [], 0) == Some([0, 1]);
  }

  /** The test only looks at earlier tables holding the same guest through the table
      pair's entry, so with no dislikes at all one guest is seated at every table. */
  lemma OneGuestEverywhere()
    ensures Shaped([[0, 0], [0, 0]], 2)
    ensures Complete([[0, 0], [0, 0]], 2, []) == Some([0, 0])
  {
    var d := [[0, 0], [0, 0]];
    assert SeatOk(d, 2, [], 0);
    assert SeatOk(d, 2, [0], 0);
    assert [0] + [0] == [0, 0];
    assert Complete(d, 2, [0, 0]) == Some([0, 0]);
    assert Try(d, 2, [0], 0) == Some([0, 0]);
    assert [] + [0] == [0];
    assert Try(d, 2, [], 0) == Some([0, 0]);
  }
}
