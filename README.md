# Advanced_Algorithms, verified model

This project models in Dafny the algorithm exercises of the Advanced_Algorithms
repository. It has four components:

- **Exact substring search.**
  - `Project1/Part1_A` provides bruteForce, sunday, kmp, rabinKarp, gusfieldZ and fsm.
  - `Project1/Part1_B` provides binarySunday, gusfieldZ, kmp and rabinKarp.
  - Each takes a text and a pattern and returns the offsets where it reports the
    pattern.
  - The reference is `Occurrences.AllOcc`: every offset at which the pattern occurs,
    in ascending order.
  - Texts and patterns are byte strings, `seq<int>` with values in [0, 256).
- **Single-character wildcard search** (`Project1/Part2`). A `?` matches any one byte;
  every other byte matches only itself, `*` included. Both searches are modelled:
  bruteForceWildcard and sundayWildcard.
- **Right-band duplicate-corner detector** (`Project1/Part3`). It consists of
  compareCorner and checkDuplicateCorner:
  - it hashes the K×K blocks anchored in column N-K;
  - it probes the rows of the band;
  - it confirms each candidate cell by cell.
- **The Project2 exercises.**
  - Three hash tables (`Project2/Part3`): separate chaining, linear probing and double
    hashing. Each is a Dafny class whose `table` array and `size` counter are updated
    by `Insert`.
  - The Triwizard labyrinth (`Project2/Part1_B`), with three parts:
    - `IsValidPosition` is a predicate.
    - `FindShortestPath` is a breadth-first search. It uses a queue of (cell, distance)
      entries and a `visited` grid, held in an `array2`, that is marked in place.
    - `PredictWinner` chooses the wizard with the smallest total time.
  - The backtracking seat assignment (`Project2/Part2`): isValidSeat, dfs and
    setSittingScheme.

Each routine that works by loops and updates is a `method` with loop invariants. It is
proved against a specification function, and the lemmas beside that function state what
the source promises.

Shared modules:
- `Occurrences`: the occurrence oracle and the byte-by-byte comparison loop.
- `Borders`: the facts about pattern borders behind the KMP failure function.
- `Modular`: C++'s truncating `%` and the polynomial hash.
- `RollingHash`: the Rabin-Karp scan, parameterised by its base.

## Model

| member | source | states |
|---|---|---|
| Occurrences.OccBelowMembers | Project1/Part1_A/Part1_A.cpp:15-23 | the offsets below k that the scan reports are exactly the occurrences below k, strictly ascending |
| Occurrences.AllOccSpec | Project1/Part1_A/Part1_A.cpp:15-23 | the oracle lists exactly the occurrence offsets, each once, ascending, and nothing when the pattern is longer than the text |
| Occurrences.OccBelowSkip | Project1/Part1_A/Part1_A.cpp:49-53 | skipping offsets that are not occurrences leaves the reported list unchanged |
| Occurrences.OccBelowBeyond | Project1/Part1_A/Part1_A.cpp:40-54 | once no further window fits, the list reported so far is the full occurrence list |
| Occurrences.LastIndexOf | Project1/Part2/Part2.cpp:41 | `rfind`: -1 or an index holding the byte, with no later index holding it |
| Occurrences.MatchLength | Project1/Part1_A/Part1_A.cpp:16-21 | the inner comparison loop stops at the first mismatch; it reaches m exactly when the pattern occurs at the offset |
| Modular.CRem | Project1/Part1_A/Part1_A.cpp:133 | C++ `%` lies strictly between -q and q and agrees with the Euclidean remainder on non-negative operands |
| Modular.NormalizedRem | Project1/Part1_A/Part1_A.cpp:133-135 | the truncating remainder followed by the `if (t < 0) t += q` fix-up is the Euclidean remainder, in [0, q) |
| Modular.PowStepMod | Project1/Part1_B/Part1_B.cpp:113-114 | each step `h = (h * d) % q` keeps h congruent to the next power of d |
| Modular.HornerMod | Project1/Part1_B/Part1_B.cpp:120-123 | reducing the Horner accumulator modulo q at every step does not change the final residue |
| Modular.PolyRoll | Project1/Part1_B/Part1_B.cpp:136 | dropping the leading byte and appending the next one is the rolling update d·(t − text[i]·d^(m−1)) + text[i+m] |
| Modular.RollMod | Project1/Part1_B/Part1_B.cpp:136 | the rolling update respects congruence of both the old hash and the weight h |
| Borders.KmpSkip | Project1/Part1_A/Part1_A.cpp:91-95 | after j agreeing bytes, a shift of j − failure[j−1] jumps over no occurrence |
| Borders.FailureExtend | Project1/Part1_A/Part1_A.cpp:68-69 | when pattern[i] == pattern[j], j + 1 is the longest proper border of pattern[..i+1] |
| Borders.FailureRewind | Project1/Part1_A/Part1_A.cpp:71-73 | on a mismatch with j > 0, the rewind j = failure[j−1] yields a shorter candidate border, and no border longer than it extends |
| Borders.FailureNone | Project1/Part1_A/Part1_A.cpp:75-76 | on a mismatch with j == 0, failure[i] == 0 is the longest border |
| ExactA.BruteForce | Project1/Part1_A/Part1_A.cpp:10-26 | bruteForce returns exactly the ascending occurrence list |
| ExactA.SundayShift | Project1/Part1_A/Part1_A.cpp:35-37 | the shift for a byte lies in [1, m+1] and is m+1 exactly for a byte absent from the pattern |
| ExactA.ShiftTable | Project1/Part1_A/Part1_A.cpp:35-37 | the 256-entry table holds the Sunday shift of every byte (m minus the byte's last index, or m+1) |
| ExactA.SundaySkip | Project1/Part1_A/Part1_A.cpp:49-53 | no occurrence starts strictly inside the jump by the shift of the byte after the window |
| ExactA.SundayAdvance | Project1/Part1_A/Part1_A.cpp:49-51 | jumping by the shift of the byte after the window leaves the occurrences found so far unchanged |
| ExactA.Sunday | Project1/Part1_A/Part1_A.cpp:29-57 | sunday returns exactly the ascending occurrence list |
| ExactA.FailureTable | Project1/Part1_A/Part1_A.cpp:66-79 | failure[k] is the longest proper border of pattern[..k+1], hence in [0, k] |
| ExactA.Kmp | Project1/Part1_A/Part1_A.cpp:60-99 | kmp returns exactly the ascending occurrence list, overlaps included |
| ExactA.RollA | Project1/Part1_A/Part1_A.cpp:131-136 | after the fix-up the rolled text hash lies in [0, 101) |
| ExactA.RabinKarp | Project1/Part1_A/Part1_A.cpp:102-140 | rabinKarp returns the offsets whose sum hash and base-2 rolled hash agree and that pass the byte-by-byte check |
| ExactA.RkAHitsMembers | Project1/Part1_A/Part1_A.cpp:119-137 | a reported offset is exactly a candidate whose hashes agree and whose window matches; the list strictly ascends |
| ExactA.RabinKarpSound | Project1/Part1_A/Part1_A.cpp:119-129 | every offset rabinKarp reports is an occurrence, and the offsets ascend |
| ExactA.RabinKarpMissesOverlaps | Project1/Part1_A/Part1_A.cpp:109-136 | on "aaaa" / "aa" rabinKarp reports [0] while the occurrences are [0, 1, 2] |
| ExactA.RabinKarpCorrected | Project1/Part1_A/Part1_A.cpp:102-140 | with the first hashes built by the same base-2 polynomial as the roll, every report is an occurrence and, for m ≥ 1, all occurrences are reported |
| ExactA.NaiveLcp | Project1/Part1_A/Part1_A.cpp:153 | the direct comparison loop stops at the end of the string or at the first disagreeing pair |
| ExactA.NaiveLcpIsLcp | Project1/Part1_A/Part1_A.cpp:151-154 | the direct comparison from 0 computes the longest common prefix of str and str[k..] |
| ExactA.ReuseExt | Project1/Part1_A/Part1_A.cpp:168 | the reuse loop stops at `remaining` or at the first pair str[right+j] ≠ str[right+j+p] |
| ExactA.ZStepA | Project1/Part1_A/Part1_A.cpp:150-173 | one iteration writes only z[k], never moves `right` back, and keeps `left` at most k |
| ExactA.ZRunA | Project1/Part1_A/Part1_A.cpp:148-173 | the scan state before iteration k has a z vector of the string's length and a window with left < k |
| ExactA.DirectLength | Project1/Part1_A/Part1_A.cpp:152-154 | the direct loop computes the direct comparison length |
| ExactA.ReuseLength | Project1/Part1_A/Part1_A.cpp:167-169 | the reuse loop computes the reuse extension |
| ExactA.ZStep | Project1/Part1_A/Part1_A.cpp:150-173 | one iteration on the z array and the window moves the scan state one step, as written |
| ExactA.ZScanA | Project1/Part1_A/Part1_A.cpp:148-178 | the loop reports k − m − 1 for each k with z[k] == m, as the scan computes z |
| ExactA.GusfieldZ | Project1/Part1_A/Part1_A.cpp:143-181 | gusfieldZ of Part1_A reports the offsets its own z vector over pattern + "$" + text yields |
| ExactA.ZHitsAAscending | Project1/Part1_A/Part1_A.cpp:175-177 | the reported offsets strictly ascend and lie in [−m−1, k−m−1) |
| ExactA.ZDirectExact | Project1/Part1_A/Part1_A.cpp:151-158 | in the k > right branch, z[k] is the exact longest common prefix, and the window moves to [k, k+z[k]−1] |
| ExactA.DollarSeparates | Project1/Part1_A/Part1_A.cpp:145 | with no '$' in the pattern, no position inside the pattern part has the whole pattern as its common prefix |
| ExactA.ZDirectHitSound | Project1/Part1_A/Part1_A.cpp:151-177 | a hit from the direct branch is a real occurrence at k − m − 1 |
| ExactA.GusfieldZMissesOccurrence | Project1/Part1_A/Part1_A.cpp:160-172 | on "aaaa" / "aa" gusfieldZ reports [0, 2] while the occurrences are [0, 1, 2] |
| ExactA.FsmNext | Project1/Part1_A/Part1_A.cpp:191-200 | a built transition lies in [0, m] and is non-zero exactly when the byte is the next pattern byte |
| ExactA.BuildTransition | Project1/Part1_A/Part1_A.cpp:189-200 | the table has m+1 rows of 256 entries, each equal to the transition as built |
| ExactA.Fsm | Project1/Part1_A/Part1_A.cpp:183-211 | fsm reports i − m + 1 whenever the state after byte i is m |
| ExactA.FsmStateSpellsPrefix | Project1/Part1_A/Part1_A.cpp:203-205 | in state s, the last s bytes read spell the first s bytes of the pattern |
| ExactA.FsmHitsSound | Project1/Part1_A/Part1_A.cpp:204-208 | for m ≥ 1 every reported offset is an occurrence, and the offsets strictly ascend |
| ExactA.FsmEmptyPattern | Project1/Part1_A/Part1_A.cpp:204-208 | with the empty pattern fsm reports 1 .. n |
| ExactA.FsmMissesOverlaps | Project1/Part1_A/Part1_A.cpp:191-208 | on "aaaa" / "aa" fsm reports [0] while the occurrences are [0, 1, 2] |
| ExactA.FsmMissesAfterPartialMatch | Project1/Part1_A/Part1_A.cpp:191-208 | on "aab" / "ab" fsm reports nothing while the occurrences are [1]: a failed partial match drops an occurrence starting inside it |
| ExactB.BinarySunday | Project1/Part1_B/Part1_B.cpp:7-35 | binarySunday returns exactly the ascending occurrence list |
| ExactB.Kmp | Project1/Part1_B/Part1_B.cpp:63-102 | kmp returns exactly the ascending occurrence list |
| ExactB.RabinKarp | Project1/Part1_B/Part1_B.cpp:105-143 | every reported offset is an occurrence, the offsets ascend, and for m ≥ 1 the list is every occurrence |
| ExactB.Min | Project1/Part1_B/Part1_B.cpp:48 | `std::min`: a lower bound of both arguments that equals one of them |
| ExactB.ZWindow | Project1/Part1_B/Part1_B.cpp:47-48 | inside the window [l, r], str[i..] agrees with str on its first min(r−i+1, Z[i−l]) bytes |
| ExactB.Lcp | Project1/Part1_B/Part1_B.cpp:49-50 | the common-prefix length at i lies in [0, |str| − i] |
| ExactB.LcpIsLcp | Project1/Part1_B/Part1_B.cpp:49-50 | Lcp is the longest common prefix of str and str[i..] |
| ExactB.ZStart | Project1/Part1_B/Part1_B.cpp:47-48 | inside the window, min(r − i + 1, Z[i − l]) is a safe starting point: extending from it yields the exact common prefix |
| ExactB.ZValue | Project1/Part1_B/Part1_B.cpp:47-50 | starting from the window bound and extending, Z[i] becomes the exact longest common prefix |
| ExactB.ZScanMatches | Project1/Part1_B/Part1_B.cpp:44-57 | the loop keeps Z[x] exact for x < i and reports i − m − 1 whenever Z[i] == m |
| ExactB.GusfieldZ | Project1/Part1_B/Part1_B.cpp:38-60 | gusfieldZ of Part1_B reports i − m − 1 for each i whose exact common prefix is m |
| ExactB.LcpHitsAscending | Project1/Part1_B/Part1_B.cpp:55-56 | the reported offsets strictly ascend |
| ExactB.LcpOcc | Project1/Part1_B/Part1_B.cpp:55-56 | past the '$', Z[i] == m exactly when i − m − 1 is an occurrence |
| ExactB.LcpHitsBeforeSeparator | Project1/Part1_B/Part1_B.cpp:42-56 | no position before the separator is reported |
| ExactB.LcpHitsAreOccBelow | Project1/Part1_B/Part1_B.cpp:42-56 | the hits up to i are exactly the occurrences below i − m − 1 |
| ExactB.GusfieldZComplete | Project1/Part1_B/Part1_B.cpp:38-60 | for m ≥ 1 and no '$' in either string, gusfieldZ returns exactly the ascending occurrence list |
| RollingHash.WindowHash | Project1/Part1_B/Part1_B.cpp:116-123 | the window hash lies in [0, 101) |
| RollingHash.EqualWindowsHashEqually | Project1/Part1_B/Part1_B.cpp:125-134 | equal windows hash equally, so an occurrence always passes the hash test |
| RollingHash.RollStep | Project1/Part1_B/Part1_B.cpp:135-139 | the roll with its fix-up equals the hash of the next window computed from scratch |
| RollingHash.HashMissRulesOut | Project1/Part1_B/Part1_B.cpp:126 | a hash mismatch rules the offset out |
| RollingHash.HighOrderWeight | Project1/Part1_B/Part1_B.cpp:112-114 | h == d^(m−1) mod 101 |
| RollingHash.PrefixHash | Project1/Part1_B/Part1_B.cpp:119-123 | the initial loop computes the hash of the first m bytes |
| RollingHash.Search | Project1/Part1_B/Part1_B.cpp:105-143 | every reported offset is an occurrence, the offsets ascend, and for m ≥ 1 all occurrences are reported |
| Wildcard.WildMatchLength | Project1/Part2/Part2.cpp:9-13 | the comparison loop reaches m exactly when every pattern byte is '?' or equals the text byte |
| Wildcard.BruteForceWildcard | Project1/Part2/Part2.cpp:4-19 | bruteForceWildcard is true exactly when some window matches |
| Wildcard.WildShift | Project1/Part2/Part2.cpp:36-42 | the shift lies in [1, m+1] and is m+1 for '?' or a byte absent from the pattern, so the scan terminates |
| Wildcard.SundayWildcard | Project1/Part2/Part2.cpp:21-49 | sundayWildcard's answer implies a matching window, and with no '?' in the pattern it is exact |
| Wildcard.SundayWildSound | Project1/Part2/Part2.cpp:28-33 | a true answer comes from a window that passed the wildcard test |
| Wildcard.SundayWildSkip | Project1/Part2/Part2.cpp:36-42 | with no '?' in the pattern, no window strictly inside a shift matches |
| Wildcard.SundayWildComplete | Project1/Part2/Part2.cpp:25-46 | with no '?' in the pattern, the scan from i finds a match exactly when one exists at or after i |
| Wildcard.LiteralMustOccur | Project1/Part2/Part2.cpp:11 | a literal pattern byte that is absent from the text rules out every window |
| Wildcard.EdgeCases | Project1/Part2/Part2.cpp:4-49 | the empty pattern matches for both searches; a pattern longer than the text matches for neither |
| Wildcard.SundayWildMissesMatch | Project1/Part2/Part2.cpp:36-42 | on "xab" / "a?" a window matches but sundayWildcard answers false |
| Wildcard.SmallExamples | Project1/Part2/Part2.cpp:28-33 | "abc" matches "a?c" and does not match "a?d", for both searches |
| Wildcard.SampleQueries | Project1/Part2/Part2.cpp:51-62 | on the sample sentence "j?mps" matches, while "quick*brown", "l?zy*dog" and "\\*fox" do not |
| Wildcard.SampleSundayQueries | Project1/Part2/Part2.cpp:70-74 | sundayWildcard gives the same four answers on the sample sentence, finding "j?mps" at offset 20 after shifts 6, 6, 6 and 2 |
| Wildcard.FixedWildShift | Project1/Part2/Part2.cpp:36-42 | the corrected shift, which also stops at the last '?', lies in [1, m+1] |
| Wildcard.FixedWildSkip | Project1/Part2/Part2.cpp:36-42 | no window strictly inside a corrected shift matches, '?' or not |
| Wildcard.SundayWildFixedExact | Project1/Part2/Part2.cpp:21-49 | the corrected scan from i finds a match exactly when one exists at or after i |
| Wildcard.SundayWildcardFixed | Project1/Part2/Part2.cpp:21-49 | the corrected sundayWildcard answers exactly whether some window matches |
| Corners.CompareCorner | Project1/Part3/Part3.cpp:9-17 | compareCorner is true exactly when the two K×K blocks agree cell by cell; it is symmetric and reflexive |
| Corners.IndexSound | Project1/Part3/Part3.cpp:37-51 | every indexed anchor is (r, N−K) for an anchor row r, listed under that row's rolled hash |
| Corners.IndexComplete | Project1/Part3/Part3.cpp:37-51 | every anchor row 0 .. M−K is listed under its rolled hash |
| Corners.IndexAscending | Project1/Part3/Part3.cpp:37-51 | within each list the anchor rows strictly ascend, so no anchor is listed twice |
| Corners.AccumulateRow | Project1/Part3/Part3.cpp:27-30 | the inner loop adds K cells weighted by successive powers of 31 and advances `power` by 31^K |
| Corners.CornerHash | Project1/Part3/Part3.cpp:24-31 | the nested loops compute the hash of the top-right corner and power == 31^(K·K) |
| Corners.BuildIndex | Project1/Part3/Part3.cpp:34-51 | the rolling loop builds the index of all M−K+1 anchors in column N−K |
| Corners.RowHash | Project1/Part3/Part3.cpp:55-60 | the probe loop computes the weighted hash of row i's K band cells |
| Corners.ConfirmAny | Project1/Part3/Part3.cpp:63-69 | the loop over a hash's anchors is true exactly when some anchor passes compareCorner |
| Corners.Probe | Project1/Part3/Part3.cpp:54-70 | the probe loop over rows K .. M−K answers whether some probe row confirms an anchor listed under its hash |
| Corners.CheckDuplicateCorner | Project1/Part3/Part3.cpp:19-73 | false when M ≤ K or N ≤ K; otherwise true exactly when some probe row confirms an anchor under its hash, the anchor possibly being the probe's own row or an overlapping one |
| Corners.CheckDuplicateCornerApart | Project1/Part3/Part3.cpp:19-73 | with probes confirming only anchors at least K rows away, true only when two non-overlapping blocks (r + K ≤ i or i + K ≤ r) are equal |
| Corners.DuplicateSound | Project1/Part3/Part3.cpp:54-72 | a true answer is a verified block equality between an indexed anchor and a probe row, at least K rows apart in the corrected detector; a hash equality alone never decides |
| Corners.SelfMatch | Project1/Part3/Part3.cpp:54-70 | on [[5, 0], [7, 3]] with K = 1 the detector answers true, with no two distinct equal blocks |
| Corners.OverlapMatch | Project1/Part3/Part3.cpp:54-70 | on a 4×3 picture with K = 2 the detector answers true through the overlapping blocks of rows 1 and 2, while the only pair K apart differs and the corrected detector answers false |
| HashTables.Lookup | Project2/Part3/Part3.cpp:24-33 | the bucket scan finds nothing exactly when no entry has the key; otherwise it finds the earliest entry's value |
| HashTables.LookupAppend | Project2/Part3/Part3.cpp:18-33 | appending an entry changes only the lookup of its own key, and only when the key was absent |
| HashTables.SeparateChainingHashTable.constructor | Project2/Part3/Part3.cpp:12 | a new table has `capacity` empty buckets and size 0 |
| HashTables.SeparateChainingHashTable.Hash | Project2/Part3/Part3.cpp:14-16 | the bucket index is below the capacity |
| HashTables.SeparateChainingHashTable.Insert | Project2/Part3/Part3.cpp:18-22 | insert appends (key, value) to the key's bucket only, with no duplicate check, and increments size |
| HashTables.SeparateChainingHashTable.Search | Project2/Part3/Part3.cpp:24-33 | search is read-only and returns the value of the earliest entry for the key in its bucket, or false |
| HashTables.ChainInsertThenSearch | Project2/Part3/Part3.cpp:18-33 | after insert(k, v), search(k) succeeds, with v unless k was already in the bucket |
| HashTables.FirstHit | Project2/Part3/Part3.cpp:64-76 | a slot holding the key reached before any empty slot makes search succeed at or before that step |
| HashTables.OpenInsertThenSearch | Project2/Part3/Part3.cpp:53-76 | after insert writes (k, v) at the first empty probe slot, search(k) succeeds, with v when k was not met earlier |
| HashTables.NoFindPast | Project2/Part3/Part3.cpp:67-75 | a search that reaches an empty slot without meeting the key fails |
| HashTables.LinearProbe | Project2/Part3/Part3.cpp:49-51 | the `size_t` sum hash(key) + i, wrapped at 2^64, reduced below the capacity |
| HashTables.LinearCoverage | Project2/Part3/Part3.cpp:49-51 | with the wrap, probe step (s − h) mod 2^64 lands on slot s, so every slot is on every probe sequence |
| HashTables.LinearWrap | Project2/Part3/Part3.cpp:49-51 | with hash 2^64 − 1 and capacity 3 the first probes are slots 0, 0 and 1 |
| HashTables.LinearProbingHashTable.constructor | Project2/Part3/Part3.cpp:47 | a new table has `capacity` slots holding `Key{}`, and size 0; the capacity is a `size_t` |
| HashTables.LinearProbingHashTable.Hash | Project2/Part3/Part3.cpp:49-51 | hash(key, i) is LinearProbe of the key's hash, below the capacity |
| HashTables.LinearProbingHashTable.NotFullReachable | Project2/Part3/Part3.cpp:53-59 | on a table with an empty slot, every key's probe sequence reaches an empty slot |
| HashTables.LinearProbingHashTable.Insert | Project2/Part3/Part3.cpp:53-62 | insert writes exactly the first empty slot on the key's probe sequence, changes no other slot, and increments size |
| HashTables.LinearProbingHashTable.Search | Project2/Part3/Part3.cpp:64-76 | search is read-only and succeeds exactly when the key is met before an empty slot, a full table holding the key included; search(`Key{}`) fails |
| HashTables.DoubleHashingHashTable.constructor | Project2/Part3/Part3.cpp:90 | a new table (capacity ≥ 2) has `capacity` slots holding `Key{}`, and size 0 |
| HashTables.DoubleHashingHashTable.Hash1 | Project2/Part3/Part3.cpp:92-94 | hash1 is below the capacity |
| HashTables.DoubleHashingHashTable.Hash2 | Project2/Part3/Part3.cpp:96-98 | hash2 lies in [1, capacity − 1] |
| HashTables.DoubleHashingHashTable.Hash | Project2/Part3/Part3.cpp:100-102 | hash(key, i) is below the capacity |
| HashTables.DoubleHashingHashTable.ProbeInRange | Project2/Part3/Part3.cpp:100-102 | every probe step names a slot |
| HashTables.DoubleHashingHashTable.Insert | Project2/Part3/Part3.cpp:104-113 | insert writes exactly the first empty slot on the key's probe sequence, changes no other slot, and increments size |
| HashTables.DoubleHashingHashTable.Search | Project2/Part3/Part3.cpp:115-127 | search is read-only and succeeds exactly when the key is met before an empty slot, whenever the probe sequence reaches an empty slot or the key; search(`Key{}`) fails |
| Labyrinth.IsValidPosition | Project2/Part1_B/Part1_B.cpp:22-24 | true iff 0 ≤ row < rows and 0 ≤ col < cols |
| Labyrinth.MinExitExists | Project2/Part1_B/Part1_B.cpp:36-64 | if any walk through open cells reaches an exit, one of minimal length does |
| Labyrinth.ShortestPath | Project2/Part1_B/Part1_B.cpp:27-65 | the specification: the minimal number of moves to an exit, or rows·cols when none is reachable |
| Labyrinth.Mark | Project2/Part1_B/Part1_B.cpp:58 | marking a cell visited sets that cell and changes no other |
| Labyrinth.PushKeeps | Project2/Part1_B/Part1_B.cpp:54-59 | enqueuing an open, unvisited neighbour at distance d + 1 and marking it keeps the search invariant |
| Labyrinth.PopKeeps | Project2/Part1_B/Part1_B.cpp:36-60 | popping a non-exit cell whose open neighbours are all queued keeps the invariant: distances exact, non-decreasing, within 1 of each other |
| Labyrinth.QueueBound | Project2/Part1_B/Part1_B.cpp:54-59 | each cell is enqueued at most once, so the queue holds at most rows·cols entries |
| Labyrinth.InitialInv | Project2/Part1_B/Part1_B.cpp:30-34 | the queue [(start, 0)] with only the start marked satisfies the invariant |
| Labyrinth.ExitAtFront | Project2/Part1_B/Part1_B.cpp:42-43 | the first exit dequeued is at the shortest distance, below rows·cols, and 0 when the start is the exit |
| Labyrinth.ExhaustedNoExit | Project2/Part1_B/Part1_B.cpp:63-64 | an exhausted queue means no exit is reachable, and the answer rows·cols is the specification's |
| Labyrinth.MarkVisited | Project2/Part1_B/Part1_B.cpp:58 | marking in place turns the visited grid into its marked copy |
| Labyrinth.VisitNeighbor | Project2/Part1_B/Part1_B.cpp:55-59 | one turn of the neighbour loop keeps the invariant and leaves that neighbour queued if it is open |
| Labyrinth.VisitNeighbors | Project2/Part1_B/Part1_B.cpp:47-60 | after the neighbour loop every open neighbour of the popped cell is queued and the invariant holds |
| Labyrinth.NewVisited | Project2/Part1_B/Part1_B.cpp:30-34 | the fresh visited grid, with only the start marked, matches the initial queue |
| Labyrinth.FindShortestPath | Project2/Part1_B/Part1_B.cpp:27-65 | the result is the shortest distance to an exit; it is rows·cols exactly when no exit is reachable, and 0 when the start is an exit |
| Labyrinth.WizardTime | Project2/Part1_B/Part1_B.cpp:74-75 | time / speed is the wizard's total time, in [0, rows·cols] |
| Labyrinth.PredictWinner | Project2/Part1_B/Part1_B.cpp:68-84 | −1 exactly for no wizards; otherwise the first wizard with the smallest total time |
| Labyrinth.UnreachableCanWin | Project2/Part1_B/Part1_B.cpp:63-80 | a wizard who cannot reach the exit scores rows·cols / speed and can still win |
| Seating.Complete | Project2/Part2/Part2.cpp:16-34 | the search result, when there is one, fills all tables and extends the prefix |
| Seating.Try | Project2/Part2/Part2.cpp:21-31 | the guest loop's result, when there is one, extends the prefix with a guest ≥ g at the next table |
| Seating.ArrangementSnoc | Project2/Part2/Part2.cpp:21-27 | seating g at the next table keeps an arrangement exactly when g is a guest that passes the seat test |
| Seating.CompleteSound | Project2/Part2/Part2.cpp:16-34 | from a conflict-free prefix the search returns a conflict-free arrangement |
| Seating.TrySound | Project2/Part2/Part2.cpp:21-31 | the guest loop returns a conflict-free arrangement |
| Seating.CompleteFinds | Project2/Part2/Part2.cpp:16-34 | if some arrangement extends the prefix, the search succeeds |
| Seating.TryFinds | Project2/Part2/Part2.cpp:21-31 | the guest loop from g succeeds when an arrangement places a guest ≥ g next |
| Seating.CompleteLeast | Project2/Part2/Part2.cpp:16-34 | the search returns the lexicographically least arrangement extending the prefix |
| Seating.TryLeast | Project2/Part2/Part2.cpp:21-31 | the guest loop returns an arrangement at most every arrangement placing a guest ≥ g next |
| Seating.PaddedSeat | Project2/Part2/Part2.cpp:6-13 | on a seating vector padded with −1, isValidSeat looks only at the filled tables |
| Seating.IsValidSeat | Project2/Part2/Part2.cpp:6-13 | false exactly when some table i holds the guest and dislikes[i][table] == 1 |
| Seating.Dfs | Project2/Part2/Part2.cpp:16-34 | dfs succeeds exactly when the search does, leaving its arrangement in `seating`; on failure `seating` is unchanged |
| Seating.SetSittingScheme | Project2/Part2/Part2.cpp:37-46 | empty or numTables entries; a conflict-free arrangement; empty exactly when numTables == 0 or none exists; lexicographically least |
| Seating.SchemeFacts | Project2/Part2/Part2.cpp:37-46 | the same properties, derived from the search specification |
| Seating.SampleParty | Project2/Part2/Part2.cpp:48-60 | on the sample 5×5 dislikes matrix with two tables the scheme is [0, 1] |
| Seating.OneGuestEverywhere | Project2/Part2/Part2.cpp:6-13 | with no dislikes, guest 0 is seated at every table |

## Left out

- Every `main`, the timing helpers `measureExecutionTime` and all console output. They
  are wall-clock and I/O.
- `generatePattern`. It draws from a random generator.
- Project2/Part1_A/Part1_A.cpp is not part of this model:
  - `loadDictionary` is file I/O;
  - the spelling checks are single calls into the standard set containers.
- `loadFactor` of the three hash tables. It is float division.
- The standard hash function is a parameter `hashOf: int -> nat` of each table. Linear
  probing takes its sum with i modulo 2^64, as `size_t` arithmetic does.
- HashTables.DoubleHashingHashTable.Hash: the `size_t` wrap of hash1 + i·hash2 at 2^64
  is not modelled. The product is unbounded here, so for large i the model can name a
  different slot from the source's.
- The keys are `int`, the instantiation the benchmark uses. `Key{}` is 0.
- `Value{}` is a parameter `blank` of the open-addressing constructors.
- Byte strings are restricted to [0, 256) (`IsBytes`). A negative `char` used as a table
  index is undefined behaviour in the source.
- ExactA.RabinKarp, ExactB.RabinKarp and RollingHash.Search require m ≤ n. The source
  reads text[0..m) before any length check, which reads past the text when m > n.
- ExactA.RabinKarp: only soundness and ascending order are stated. The as-written
  hashes make completeness false (see Findings).
- ExactA.GusfieldZ: only the partial invariants are stated. The reuse branch makes
  completeness false (see Findings).
- ExactA.ReuseExt: bounds guard. The reuse loop also stops when right + j + p would
  pass the end of the string; the source would read out of range there.
- ExactA.Fsm: only soundness for m ≥ 1 and ascending order are stated. Every
  transition that does not advance goes back to state 0, so any failed or completed
  partial match loses an occurrence starting inside it, overlapping or not
  (ExactA.FsmMissesOverlaps, ExactA.FsmMissesAfterPartialMatch). A corrected automaton
  is not part of this model.
- Corners.CheckDuplicateCorner: completeness is not stated.
  - The column roll and the single-row probe hash are different functions, so a
    duplicate can go unnoticed.
  - Hashes are unbounded integers; the 32-bit overflow of 31^(K·K) is not modelled.
    Hashes only choose which anchors get compared.
- Corners.CheckDuplicateCorner requires an M×N grid with K ≥ 1 once the guard passes.
  That is the shape the source indexes.
- HashTables.LinearProbingHashTable.Insert requires an empty slot, and
  HashTables.DoubleHashingHashTable.Insert requires that the key's probe sequence
  reaches one. On a full table the source's insert loops forever.
- HashTables.LinearProbingHashTable.Search requires a slot that is empty or holds the
  key, and HashTables.DoubleHashingHashTable.Search requires that the key's probe
  sequence reaches such a slot. The source's search loops forever only when it meets
  neither; on a full table holding the key it stops with true, and the model covers
  that case.
- HashTables.DoubleHashingHashTable: there is no statement that the probe sequence
  visits every slot when gcd(hash2, capacity) == 1 (for example a prime capacity).
  Insert and Search take reachability as a precondition instead.
- Labyrinth.FindShortestPath requires a rectangular, non-empty labyrinth and a start
  inside it. The source reads `labyrinth[0]` and indexes `visited` at the start.
- Labyrinth.FindShortestPath keeps the BFS queue as a sequence with a head index.
  Popped entries stay in the sequence.
- Labyrinth.PredictWinner requires:
  - positive speeds and valid start positions, because the source divides by the speed
    and searches from each start;
  - rows·cols < INT_MAX, so that any wizard beats the initial `INT_MAX`.
- Seating.Dfs and Seating.SetSittingScheme require that `dislikes` has at least
  numTables rows, each with at least numTables entries. isValidSeat reads
  dislikes[i][table] for table indices i; the source indexes out of range otherwise.
- Helper methods split off from a source loop body keep each proof small:
  - Labyrinth.VisitNeighbor, Labyrinth.MarkVisited and Labyrinth.NewVisited;
  - Corners.AccumulateRow, Corners.RowHash and Corners.ConfirmAny;
  - ExactA.ZStep, ExactA.DirectLength and ExactA.ReuseLength;
  - ExactB.ZValue.

## Findings

| source | as written | input that shows it | evidently intended | confidence | as-written member | corrected member |
|---|---|---|---|---|---|---|
| Project1/Part1_A/Part1_A.cpp:112-133 | the first hashes are plain sums mod 101, but the roll treats them as base-2 polynomials | text "aaaa", pattern "aa": reports [0], occurrences are [0, 1, 2] | the first hashes use the same base-2 polynomial as the roll, so every occurrence is reported | high (proved; not executed) | ExactA.RabinKarpMissesOverlaps | ExactA.RabinKarpCorrected |
| Project1/Part1_A/Part1_A.cpp:160-172 | the reuse branch compares the text against the text beyond `right` and sets `right` from the old `right` | text "aaaa", pattern "aa": reports [0, 2], occurrences are [0, 1, 2] | Z[k] is the exact longest common prefix (the textbook Z algorithm of Part1_B), so every occurrence is reported | high (proved; not executed) | ExactA.GusfieldZMissesOccurrence | ExactB.GusfieldZComplete |
| Project1/Part2/Part2.cpp:36-42 | the Sunday shift ignores the '?' positions of the pattern | text "xab", pattern "a?": window 1 matches, sundayWildcard answers false | the shift stops at the last '?' as well, so no matching window is skipped | high (proved; not executed) | Wildcard.SundayWildMissesMatch | Wildcard.SundayWildFixedExact |
| Project1/Part3/Part3.cpp:54-67 | a probe row i is compared with any anchor under its hash, including its own row | picture [[5, 0], [7, 3]], K = 1: answers true, yet no two distinct blocks are equal | a probe confirms only against an anchor at least K rows away | medium (proved; not executed) | Corners.SelfMatch | Corners.CheckDuplicateCornerApart |
| Project1/Part3/Part3.cpp:54-67 | a probe row i is compared with any anchor under its hash, including rows fewer than K away whose blocks overlap its own | picture [[0, 1, 28830], [0, 0, 1], [0, 0, 1], [0, 0, 1]], K = 2: answers true through the overlapping rows 1 and 2, while rows 0 and 2 differ | a probe confirms only against an anchor at least K rows away, so overlapping blocks are never reported | high (proved; not executed) | Corners.OverlapMatch | Corners.CheckDuplicateCornerApart |
