/** The Triwizard labyrinth of Project2/Part1_B/Part1_B.cpp: a breadth-first search for the
    nearest exit 'E' through the cells that are not walls '#', and the choice of the
    wizard who gets out first given each one's speed. */
module Labyrinth {
  import opened Modular

  datatype Position = Position(row: int, col: int)

  datatype Wizard = Wizard(position: Position, speed: int)

  const WALL := '#'
  const EXIT := 'E'

  /** The largest `int`, the initial shortest time of predictWinner. */
  const INT_MAX := 2147483647

  /** A non-empty grid whose rows all have the width of the first. */
  predicate Rectangular(lab: seq<seq<char>>) {
    |lab| >= 1 && forall r :: 0 <= r < |lab| ==> |lab[r]| == |lab[0]|
  }

  /** isValidPosition: inside the rows × cols grid. */
  predicate IsValidPosition(pos: Position, rows: int, cols: int) {
    pos.row >= 0 && pos.row < rows && pos.col >= 0 && pos.col < cols
  }

  /** A cell inside the grid that is not a wall. */
  predicate Open(lab: seq<seq<char>>, p: Position)
    requires Rectangular(lab)
  {
    IsValidPosition(p, |lab|, |lab[0]|) && lab[p.row][p.col] != WALL
  }

  predicate IsExit(lab: seq<seq<char>>, p: Position)
    requires Rectangular(lab)
  {
    IsValidPosition(p, |lab|, |lab[0]|) && lab[p.row][p.col] == EXIT
  }

  /** Up, down, left, right, in the order the search tries them. */
  function Neighbors(p: Position): seq<Position> {
    [Position(p.row - 1, p.col), Position(p.row + 1, p.col), Position(p.row, p.col - 1), Position(p.row, p.col + 1)]
  }

  /** A walk from `start` through open 4-neighbours; it makes |path| - 1 moves. */
  ghost predicate IsPath(lab: seq<seq<char>>, start: Position, path: seq<Position>)
    requires Rectangular(lab)
  {
    |path| >= 1 && path[0] == start &&
    forall k :: 1 <= k < |path| ==> path[k] in Neighbors(path[k - 1]) && Open(lab, path[k])
  }

  /** The cell `c` can be reached in exactly d moves. */
  ghost predicate Reach(lab: seq<seq<char>>, start: Position, c: Position, d: int)
    requires Rectangular(lab)
  {
    exists path :: IsPath(lab, start, path) && |path| == d + 1 && path[d] == c
  }

  /** No walk reaches `c` in fewer than d moves. */
  ghost predicate NoShorter(lab: seq<seq<char>>, start: Position, c: Position, d: int)
    requires Rectangular(lab)
  {
    forall path :: IsPath(lab, start, path) && path[|path| - 1] == c ==> |path| - 1 >= d
  }

  ghost predicate ExitReachable(lab: seq<seq<char>>, start: Position)
    requires Rectangular(lab)
  {
    exists path :: IsPath(lab, start, path) && IsExit(lab, path[|path| - 1])
  }

  /** d is the least number of moves to some exit. */
  ghost predicate MinExit(lab: seq<seq<char>>, start: Position, d: int)
    requires Rectangular(lab)
  {
    (exists path :: IsPath(lab, start, path) && |path| == d + 1 && IsExit(lab, path[d])) &&
    forall path :: IsPath(lab, start, path) && IsExit(lab, path[|path| - 1]) ==> |path| - 1 >= d
  }

  /** A reachable exit has a nearest one. */
  lemma {:induction false} MinExitExists(lab: seq<seq<char>>, start: Position, path: seq<Position>)
    requires Rectangular(lab) && IsPath(lab, start, path) && IsExit(lab, path[|path| - 1])
    ensures exists d :: MinExit(lab, start, d)
    decreases |path|
  {
    if p :| IsPath(lab, start, p) && IsExit(lab, p[|p| - 1]) && |p| < |path| {
      MinExitExists(lab, start, p);
    } else {
      assert MinExit(lab, start, |path| - 1);
    }
  }

  /** What findShortestPath answers: the least number of moves to an exit, or
      rows * cols when no exit can be reached. */
  ghost function ShortestPath(lab: seq<seq<char>>, start: Position): (d: int)
    requires Rectangular(lab)
    ensures ExitReachable(lab, start) ==> MinExit(lab, start, d)
    ensures !ExitReachable(lab, start) ==> d == |lab| * |lab[0]|
  {
    if ExitReachable(lab, start) then
      var path :| IsPath(lab, start, path) && IsExit(lab, path[|path| - 1]);
      MinExitExists(lab, start, path);
      var d :| MinExit(lab, start, d); d
    else |lab| * |lab[0]|
  }

  /** The nearest-exit distance is unique. */
  lemma MinExitUnique(lab: seq<seq<char>>, start: Position, d1: int, d2: int)
    requires Rectangular(lab) && MinExit(lab, start, d1) && MinExit(lab, start, d2)
    ensures d1 == d2
  {
    var p1 :| IsPath(lab, start, p1) && |p1| == d1 + 1 && IsExit(lab, p1[d1]);
    var p2 :| IsPath(lab, start, p2) && |p2| == d2 + 1 && IsExit(lab, p2[d2]);
    assert d1 <= |p2| - 1 && d2 <= |p1| - 1;
  }

  // ---------------------------------------------------------------------------------
  // The queue of the search. It is kept whole: `queue[head..]` is what std::queue holds,
  // `queue[..head]` has been popped.

  type Entry = (Position, int)

  /** `c` is among the first n queued positions. */
  ghost predicate InQueue(queue: seq<Entry>, n: int, c: Position) {
    exists k :: 0 <= k < n && k < |queue| && queue[k].0 == c
  }

  /** The start comes first; every queued cell is in the grid, and the k-th distance is
      between 0 and k. */
  ghost predicate Cells(lab: seq<seq<char>>, start: Position, queue: seq<Entry>) {
    Rectangular(lab) && |queue| >= 1 && queue[0] == (start, 0) &&
    forall k :: 0 <= k < |queue| ==> CellAt(lab, queue, k)
  }

  ghost predicate CellAt(lab: seq<seq<char>>, queue: seq<Entry>, k: int)
    requires Rectangular(lab) && 0 <= k < |queue|
  {
    IsValidPosition(queue[k].0, |lab|, |lab[0]|) && 0 <= queue[k].1 <= k
  }

  /** Cells are queued at most once, in order of distance. */
  ghost predicate Ordered(queue: seq<Entry>) {
    forall a, b :: 0 <= a < b < |queue| ==> Before(queue, a, b)
  }

  ghost predicate Before(queue: seq<Entry>, a: int, b: int)
    requires 0 <= a < b < |queue|
  {
    queue[a].0 != queue[b].0 && queue[a].1 <= queue[b].1
  }

  /** The entries still queued span at most one step. */
  ghost predicate Span(queue: seq<Entry>, head: int) {
    0 <= head <= |queue| && (head < |queue| ==> queue[|queue| - 1].1 <= queue[head].1 + 1)
  }

  ghost predicate Shape(lab: seq<seq<char>>, start: Position, queue: seq<Entry>, head: int) {
    Cells(lab, start, queue) && Ordered(queue) && Span(queue, head)
  }

  /** The k-th queued distance is exact: reachable in that many moves and not fewer. */
  ghost predicate ExactAt(lab: seq<seq<char>>, start: Position, queue: seq<Entry>, k: int)
    requires Rectangular(lab) && 0 <= k < |queue|
  {
    Reach(lab, start, queue[k].0, queue[k].1) && NoShorter(lab, start, queue[k].0, queue[k].1)
  }

  ghost predicate Exact(lab: seq<seq<char>>, start: Position, queue: seq<Entry>)
    requires Rectangular(lab)
  {
    forall k :: 0 <= k < |queue| ==> ExactAt(lab, start, queue, k)
  }

  /** The open neighbours of the k-th cell are queued. */
  ghost predicate ClosedAt(lab: seq<seq<char>>, queue: seq<Entry>, k: int)
    requires Rectangular(lab) && 0 <= k < |queue|
  {
    forall n :: n in Neighbors(queue[k].0) && Open(lab, n) ==> InQueue(queue, |queue|, n)
  }

  /** The open neighbours of every popped cell are queued. */
  ghost predicate Closed(lab: seq<seq<char>>, queue: seq<Entry>, head: int)
    requires Rectangular(lab) && 0 <= head <= |queue|
  {
    forall k :: 0 <= k < head ==> ClosedAt(lab, queue, k)
  }

  /** No popped cell is an exit. */
  ghost predicate NoExitPopped(lab: seq<seq<char>>, queue: seq<Entry>, head: int)
    requires Rectangular(lab) && 0 <= head <= |queue|
  {
    forall k :: 0 <= k < head ==> !IsExit(lab, queue[k].0)
  }

  /** Every cell reachable in fewer moves than the front's distance has been popped. */
  ghost predicate Complete(lab: seq<seq<char>>, start: Position, queue: seq<Entry>, head: int)
    requires Rectangular(lab) && 0 <= head <= |queue|
  {
    head < |queue| ==> forall path :: IsPath(lab, start, path) && |path| - 1 < queue[head].1 ==> InQueue(queue, head, path[|path| - 1])
  }

  ghost predicate Frontier(lab: seq<seq<char>>, start: Position, queue: seq<Entry>, head: int)
    requires Rectangular(lab) && 0 <= head <= |queue|
  {
    Closed(lab, queue, head) && NoExitPopped(lab, queue, head) && Complete(lab, start, queue, head)
  }

  /** `visited`, a grid of the labyrinth's shape, marks exactly the queued cells. */
  ghost predicate Marks(visited: seq<seq<bool>>, lab: seq<seq<char>>, queue: seq<Entry>)
    requires Rectangular(lab)
  {
    |visited| == |lab| && (forall r :: 0 <= r < |lab| ==> |visited[r]| == |lab[0]|) &&
    forall r, c :: 0 <= r < |lab| && 0 <= c < |lab[0]| ==> MarkedAt(visited, queue, r, c)
  }

  ghost predicate MarkedAt(visited: seq<seq<bool>>, queue: seq<Entry>, r: int, c: int)
    requires 0 <= r < |visited| && 0 <= c < |visited[r]|
  {
    visited[r][c] <==> InQueue(queue, |queue|, Position(r, c))
  }

  /** The whole loop invariant of the search. */
  ghost predicate Inv(lab: seq<seq<char>>, start: Position, queue: seq<Entry>, head: int, visited: seq<seq<bool>>) {
    Shape(lab, start, queue, head) && Exact(lab, start, queue) && Frontier(lab, start, queue, head) &&
    Marks(visited, lab, queue)
  }

  function Mark(visited: seq<seq<bool>>, p: Position): (v: seq<seq<bool>>)
    requires 0 <= p.row < |visited| && 0 <= p.col < |visited[p.row]|
    ensures |v| == |visited| && forall r :: 0 <= r < |v| ==> |v[r]| == |visited[r]|
    ensures v[p.row][p.col]
    ensures forall r, c :: 0 <= r < |v| && 0 <= c < |v[r]| && (r, c) != (p.row, p.col) ==> v[r][c] == visited[r][c]
  {
    visited[p.row := visited[p.row][p.col := true]]
  }

  lemma ExtendPath(lab: seq<seq<char>>, start: Position, path: seq<Position>, n: Position)
    requires Rectangular(lab) && IsPath(lab, start, path)
    requires n in Neighbors(path[|path| - 1]) && Open(lab, n)
    ensures IsPath(lab, start, path + [n])
  {
  }

  lemma PathPrefix(lab: seq<seq<char>>, start: Position, path: seq<Position>)
    requires Rectangular(lab) && IsPath(lab, start, path) && |path| >= 2
    ensures IsPath(lab, start, path[..|path| - 1])
    ensures path[|path| - 1] in Neighbors(path[|path| - 2]) && Open(lab, path[|path| - 1])
  {
  }

  /** A walk of at most d moves, d the front's distance, ends on a queued cell. */
  lemma ShortWalkQueued(lab: seq<seq<char>>, start: Position, queue: seq<Entry>, head: int, path: seq<Position>)
    requires Cells(lab, start, queue) && 0 <= head < |queue|
    requires Closed(lab, queue, head) && Complete(lab, start, queue, head)
    requires IsPath(lab, start, path) && |path| - 1 <= queue[head].1
    ensures InQueue(queue, |queue|, path[|path| - 1])
  {
    if |path| == 1 {
      assert queue[0].0 == path[0];
    } else {
      PathPrefix(lab, start, path);
      var pre := path[..|path| - 1];
      assert InQueue(queue, head, pre[|pre| - 1]);
      var k :| 0 <= k < head && queue[k].0 == pre[|pre| - 1];
      assert ClosedAt(lab, queue, k);
      assert path[|path| - 1] in Neighbors(queue[k].0);
    }
  }

  /** A neighbour queued while popping entry `head` gets the exact distance d + 1. */
  lemma NewEntryExact(lab: seq<seq<char>>, start: Position, queue: seq<Entry>, head: int, n: Position)
    requires Cells(lab, start, queue) && 0 <= head < |queue| && Exact(lab, start, queue)
    requires Closed(lab, queue, head) && Complete(lab, start, queue, head)
    requires n in Neighbors(queue[head].0) && Open(lab, n) && !InQueue(queue, |queue|, n)
    ensures Reach(lab, start, n, queue[head].1 + 1) && NoShorter(lab, start, n, queue[head].1 + 1)
  {
    var d := queue[head].1;
    assert ExactAt(lab, start, queue, head);
    var path :| IsPath(lab, start, path) && |path| == d + 1 && path[d] == queue[head].0;
    ExtendPath(lab, start, path, n);
    assert (path + [n])[d + 1] == n;
    forall p | IsPath(lab, start, p) && |p| - 1 <= d
      ensures InQueue(queue, |queue|, p[|p| - 1])
    {
      ShortWalkQueued(lab, start, queue, head, p);
    }
  }

  /** Appending an entry keeps every membership and adds just the new cell. */
  lemma InQueueAppend(queue: seq<Entry>, e: Entry, n: int)
    requires 0 <= n <= |queue|
    ensures forall c :: InQueue(queue, n, c) ==> InQueue(queue + [e], n, c)
    ensures forall c :: InQueue(queue + [e], |queue| + 1, c) <==> InQueue(queue, |queue|, c) || c == e.0
  {
    var q' := queue + [e];
    forall c | InQueue(queue, n, c)
      ensures InQueue(q', n, c)
    {
      var k :| 0 <= k < n && k < |queue| && queue[k].0 == c;
      assert q'[k] == queue[k];
    }
    forall c | InQueue(queue, |queue|, c)
      ensures InQueue(q', |queue| + 1, c)
    {
      var k :| 0 <= k < |queue| && queue[k].0 == c;
      assert q'[k] == queue[k];
    }
    assert q'[|queue|].0 == e.0;
    forall c | InQueue(q', |queue| + 1, c)
      ensures InQueue(queue, |queue|, c) || c == e.0
    {
      var k :| 0 <= k < |queue| + 1 && k < |q'| && q'[k].0 == c;
      if k < |queue| {
        assert queue[k].0 == c;
      }
    }
  }

  lemma PushShape(lab: seq<seq<char>>, start: Position, queue: seq<Entry>, head: int, n: Position)
    requires Shape(lab, start, queue, head) && head < |queue|
    requires IsValidPosition(n, |lab|, |lab[0]|) && !InQueue(queue, |queue|, n)
    ensures Shape(lab, start, queue + [(n, queue[head].1 + 1)], head)
  {
    var e := (n, queue[head].1 + 1);
    var q' := queue + [e];
    forall a, b | 0 <= a < b < |q'|
      ensures Before(q', a, b)
    {
      if b < |queue| {
        assert Before(queue, a, b);
      } else if a >= head && a < |queue| - 1 {
        assert Before(queue, a, |queue| - 1);
      } else if a < head {
        assert Before(queue, a, head);
      }
    }
    assert CellAt(lab, queue, head);
    forall k | 0 <= k < |q'|
      ensures CellAt(lab, q', k)
    {
      if k < |queue| {
        assert CellAt(lab, queue, k);
      }
    }
  }

  lemma PushExact(lab: seq<seq<char>>, start: Position, queue: seq<Entry>, head: int, n: Position)
    requires Cells(lab, start, queue) && 0 <= head < |queue| && Exact(lab, start, queue)
    requires Closed(lab, queue, head) && Complete(lab, start, queue, head)
    requires n in Neighbors(queue[head].0) && Open(lab, n) && !InQueue(queue, |queue|, n)
    ensures Exact(lab, start, queue + [(n, queue[head].1 + 1)])
  {
    var q' := queue + [(n, queue[head].1 + 1)];
    NewEntryExact(lab, start, queue, head, n);
    forall k | 0 <= k < |q'|
      ensures ExactAt(lab, start, q', k)
    {
      if k < |queue| {
        assert ExactAt(lab, start, queue, k);
        assert q'[k] == queue[k];
      }
    }
  }

  lemma PushFrontier(lab: seq<seq<char>>, start: Position, queue: seq<Entry>, head: int, e: Entry)
    requires Rectangular(lab) && 0 <= head < |queue| && Frontier(lab, start, queue, head)
    ensures Frontier(lab, start, queue + [e], head)
  {
    InQueueAppend(queue, e, head);
    InQueueAppend(queue, e, |queue|);
    assert (queue + [e])[head] == queue[head];
    forall k | 0 <= k < head
      ensures ClosedAt(lab, queue + [e], k)
    {
      assert ClosedAt(lab, queue, k);
      assert (queue + [e])[k] == queue[k];
    }
  }

  lemma PushMarks(lab: seq<seq<char>>, queue: seq<Entry>, visited: seq<seq<bool>>, e: Entry)
    requires Rectangular(lab) && Marks(visited, lab, queue) && IsValidPosition(e.0, |lab|, |lab[0]|)
    ensures Marks(Mark(visited, e.0), lab, queue + [e])
  {
    InQueueAppend(queue, e, |queue|);
    forall r, c | 0 <= r < |lab| && 0 <= c < |lab[0]|
      ensures MarkedAt(Mark(visited, e.0), queue + [e], r, c)
    {
      assert MarkedAt(visited, queue, r, c);
    }
  }

  /** Pushing a fresh neighbour of the front and marking it keeps the invariant. */
  lemma PushKeeps(lab: seq<seq<char>>, start: Position, queue: seq<Entry>, head: int, visited: seq<seq<bool>>, n: Position)
    requires Inv(lab, start, queue, head, visited) && head < |queue|
    requires n in Neighbors(queue[head].0) && Open(lab, n) && !visited[n.row][n.col]
    ensures Inv(lab, start, queue + [(n, queue[head].1 + 1)], head, Mark(visited, n))
    ensures forall c :: InQueue(queue, |queue|, c) ==> InQueue(queue + [(n, queue[head].1 + 1)], |queue| + 1, c)
    ensures InQueue(queue + [(n, queue[head].1 + 1)], |queue| + 1, n)
  {
    assert MarkedAt(visited, queue, n.row, n.col);
    PushShape(lab, start, queue, head, n);
    PushExact(lab, start, queue, head, n);
    PushFrontier(lab, start, queue, head, (n, queue[head].1 + 1));
    PushMarks(lab, queue, visited, (n, queue[head].1 + 1));
    InQueueAppend(queue, (n, queue[head].1 + 1), |queue|);
  }

  /** Popping the front, whose distance is d, leaves only walks of d moves or more to
      account for; those end on cells queued at distance d, hence at or after the front. */
  lemma PopCompleteWalk(lab: seq<seq<char>>, start: Position, queue: seq<Entry>, head: int, path: seq<Position>)
    requires Cells(lab, start, queue) && Ordered(queue) && Span(queue, head) && Exact(lab, start, queue) && head + 1 < |queue|
    requires Closed(lab, queue, head) && Complete(lab, start, queue, head)
    requires IsPath(lab, start, path) && |path| - 1 < queue[head + 1].1
    ensures InQueue(queue, head + 1, path[|path| - 1])
  {
    var c := path[|path| - 1];
    if |path| - 1 < queue[head].1 {
      assert InQueue(queue, head, c);
      var k :| 0 <= k < head && queue[k].0 == c;
      assert k < head + 1;
    } else {
      if head + 1 < |queue| - 1 {
        assert Before(queue, head + 1, |queue| - 1);
      }
      ShortWalkQueued(lab, start, queue, head, path);
      var k :| 0 <= k < |queue| && queue[k].0 == c;
      assert ExactAt(lab, start, queue, k);
      assert queue[k].1 < queue[head + 1].1;
      forall b | head + 1 < b < |queue|
        ensures queue[head + 1].1 <= queue[b].1
      {
        assert Before(queue, head + 1, b);
      }
      assert k < head + 1;
    }
  }

  lemma PopComplete(lab: seq<seq<char>>, start: Position, queue: seq<Entry>, head: int)
    requires Shape(lab, start, queue, head) && Exact(lab, start, queue) && head < |queue|
    requires Closed(lab, queue, head) && Complete(lab, start, queue, head)
    ensures Complete(lab, start, queue, head + 1)
  {
    if head + 1 < |queue| {
      forall path | IsPath(lab, start, path) && |path| - 1 < queue[head + 1].1
        ensures InQueue(queue, head + 1, path[|path| - 1])
      {
        PopCompleteWalk(lab, start, queue, head, path);
      }
    }
  }

  /** Once the front's neighbours are queued, popping it keeps the invariants. */
  lemma PopKeeps(lab: seq<seq<char>>, start: Position, queue: seq<Entry>, head: int, visited: seq<seq<bool>>)
    requires Inv(lab, start, queue, head, visited)
    requires head < |queue| && !IsExit(lab, queue[head].0)
    requires QueuedUpTo(lab, queue, Neighbors(queue[head].0), 4)
    ensures Inv(lab, start, queue, head + 1, visited)
  {
    PopComplete(lab, start, queue, head);
    if head + 1 < |queue| {
      assert Before(queue, head, head + 1);
    }
    var neighbors := Neighbors(queue[head].0);
    forall n | n in neighbors && Open(lab, n)
      ensures InQueue(queue, |queue|, n)
    {
      var j :| 0 <= j < 4 && neighbors[j] == n;
    }
    assert ClosedAt(lab, queue, head);
    if head + 1 < |queue| {
      assert queue[head].1 <= queue[head + 1].1;
    }
    assert Span(queue, head + 1);
  }

  /** With the queue exhausted, every walk ends on a queued cell. */
  lemma {:induction false} ExhaustedCoversWalks(lab: seq<seq<char>>, start: Position, queue: seq<Entry>, path: seq<Position>)
    requires Cells(lab, start, queue) && Closed(lab, queue, |queue|)
    requires IsPath(lab, start, path)
    ensures InQueue(queue, |queue|, path[|path| - 1])
    decreases |path|
  {
    if |path| == 1 {
      assert queue[0].0 == path[0];
    } else {
      PathPrefix(lab, start, path);
      var pre := path[..|path| - 1];
      ExhaustedCoversWalks(lab, start, queue, pre);
      var k :| 0 <= k < |queue| && queue[k].0 == pre[|pre| - 1];
      assert ClosedAt(lab, queue, k);
      assert path[|path| - 1] in Neighbors(queue[k].0);
    }
  }

  // ---------------------------------------------------------------------------------
  // At most rows * cols distinct cells can be queued.

  /** Distinct values in [0, N) number at most N. */
  lemma {:induction false} DistinctBounded(s: seq<int>, N: nat)
    requires forall k :: 0 <= k < |s| ==> 0 <= s[k] < N
    requires forall a, b :: 0 <= a < b < |s| ==> s[a] != s[b]
    ensures |s| <= N
    decreases |s|
  {
    if |s| > 0 {
      var x := s[|s| - 1];
      // drop the last value and rename N - 1 to it
      var s' := seq(|s| - 1, k requires 0 <= k < |s| - 1 => if s[k] == N - 1 then x else s[k]);
      forall k | 0 <= k < |s'|
        ensures 0 <= s'[k] < N - 1
      {
        assert s[k] != x;
      }
      forall a, b | 0 <= a < b < |s'|
        ensures s'[a] != s'[b]
      {
        assert s[a] != s[b] && s[a] != x && s[b] != x;
      }
      DistinctBounded(s', N - 1);
    }
  }

  function CellIndex(p: Position, cols: int): int {
    p.row * cols + p.col
  }

  lemma CellIndexFacts(p: Position, q: Position, rows: int, cols: int)
    requires IsValidPosition(p, rows, cols) && IsValidPosition(q, rows, cols)
    ensures 0 <= CellIndex(p, cols) < rows * cols
    ensures CellIndex(p, cols) == CellIndex(q, cols) ==> p == q
  {
    assert (rows - p.row) * cols >= cols by {
      MulAtLeast(cols, rows - p.row);
    }
    assert rows * cols == p.row * cols + (rows - p.row) * cols;
    if CellIndex(p, cols) == CellIndex(q, cols) {
      DivModUnique(CellIndex(p, cols), cols, p.row, p.col);
      DivModUnique(CellIndex(q, cols), cols, q.row, q.col);
    }
  }

  lemma QueueBound(lab: seq<seq<char>>, start: Position, queue: seq<Entry>)
    requires Cells(lab, start, queue) && Ordered(queue)
    ensures |queue| <= |lab| * |lab[0]|
  {
    var rows, cols := |lab|, |lab[0]|;
    var s := seq(|queue|, k requires 0 <= k < |queue| => CellIndex(queue[k].0, cols));
    forall a, b | 0 <= a < b < |s|
      ensures s[a] != s[b]
    {
      assert CellAt(lab, queue, a) && CellAt(lab, queue, b);
      CellIndexFacts(queue[a].0, queue[b].0, rows, cols);
      assert Before(queue, a, b);
    }
    forall k | 0 <= k < |s|
      ensures 0 <= s[k] < rows * cols
    {
      assert CellAt(lab, queue, k);
      CellIndexFacts(queue[k].0, queue[k].0, rows, cols);
    }
    DistinctBounded(s, rows * cols);
  }

  /** The queue holding only the start, marked, satisfies the invariant. */
  lemma InitialInv(lab: seq<seq<char>>, start: Position, visited: seq<seq<bool>>)
    requires Rectangular(lab) && IsValidPosition(start, |lab|, |lab[0]|)
    requires |visited| == |lab| && forall r :: 0 <= r < |lab| ==> |visited[r]| == |lab[0]|
    requires forall r, c :: 0 <= r < |lab| && 0 <= c < |lab[0]| ==> (visited[r][c] <==> (r, c) == (start.row, start.col))
    ensures Inv(lab, start, [(start, 0)], 0, visited)
  {
    var queue := [(start, 0)];
    assert IsPath(lab, start, [start]);
    assert Reach(lab, start, start, 0);
    assert InQueue(queue, 1, start);
    forall r, c | 0 <= r < |lab| && 0 <= c < |lab[0]|
      ensures MarkedAt(visited, queue, r, c)
    {
      if InQueue(queue, |queue|, Position(r, c)) {
        assert queue[0].0 == Position(r, c);
      }
    }
  }

  /** The front is an exit: its distance is the answer. */
  lemma ExitAtFront(lab: seq<seq<char>>, start: Position, queue: seq<Entry>, head: int)
    requires Shape(lab, start, queue, head) && Exact(lab, start, queue) && Frontier(lab, start, queue, head)
    requires head < |queue| && IsExit(lab, queue[head].0)
    ensures ExitReachable(lab, start) && ShortestPath(lab, start) == queue[head].1
    ensures 0 <= queue[head].1 < |lab| * |lab[0]|
    ensures IsExit(lab, start) ==> queue[head].1 == 0
  {
    var d := queue[head].1;
    QueueBound(lab, start, queue);
    assert CellAt(lab, queue, head) && ExactAt(lab, start, queue, head);
    var path :| IsPath(lab, start, path) && |path| == d + 1 && path[d] == queue[head].0;
    forall p | IsPath(lab, start, p) && |p| - 1 < d
      ensures !IsExit(lab, p[|p| - 1])
    {
      assert InQueue(queue, head, p[|p| - 1]);
      var k :| 0 <= k < head && queue[k].0 == p[|p| - 1];
    }
    assert MinExit(lab, start, d);
    MinExitUnique(lab, start, d, ShortestPath(lab, start));
    if IsExit(lab, start) {
      assert IsPath(lab, start, [start]);
    }
  }

  /** The queue ran dry without meeting an exit: none can be reached. */
  lemma ExhaustedNoExit(lab: seq<seq<char>>, start: Position, queue: seq<Entry>)
    requires Cells(lab, start, queue) && Closed(lab, queue, |queue|) && NoExitPopped(lab, queue, |queue|)
    ensures !ExitReachable(lab, start) && ShortestPath(lab, start) == |lab| * |lab[0]| > 0
  {
    assert CellAt(lab, queue, 0);
    CellIndexFacts(start, start, |lab|, |lab[0]|);
    forall path | IsPath(lab, start, path)
      ensures !IsExit(lab, path[|path| - 1])
    {
      ExhaustedCoversWalks(lab, start, queue, path);
    }
  }

  // ---------------------------------------------------------------------------------
  // The search.

  /** The open ones among the first i neighbours are queued. */
  ghost predicate QueuedUpTo(lab: seq<seq<char>>, queue: seq<Entry>, neighbors: seq<Position>, i: int)
    requires Rectangular(lab) && 0 <= i <= |neighbors|
  {
    forall j :: 0 <= j < i && Open(lab, neighbors[j]) ==> InQueue(queue, |queue|, neighbors[j])
  }

  lemma QueuedAppend(lab: seq<seq<char>>, queue: seq<Entry>, neighbors: seq<Position>, i: int, e: Entry)
    requires Rectangular(lab) && 0 <= i <= |neighbors| && QueuedUpTo(lab, queue, neighbors, i)
    ensures QueuedUpTo(lab, queue + [e], neighbors, i)
  {
    InQueueAppend(queue, e, |queue|);
  }

  lemma QueuedExtend(lab: seq<seq<char>>, queue: seq<Entry>, neighbors: seq<Position>, i: int)
    requires Rectangular(lab) && 0 <= i < |neighbors| && QueuedUpTo(lab, queue, neighbors, i)
    requires Open(lab, neighbors[i]) ==> InQueue(queue, |queue|, neighbors[i])
    ensures QueuedUpTo(lab, queue, neighbors, i + 1)
  {
  }

  /** A neighbour already marked is queued. */
  lemma MarkedQueued(lab: seq<seq<char>>, queue: seq<Entry>, visited: seq<seq<bool>>, n: Position)
    requires Rectangular(lab) && Marks(visited, lab, queue) && IsValidPosition(n, |lab|, |lab[0]|)
    requires visited[n.row][n.col]
    ensures InQueue(queue, |queue|, n)
  {
    assert MarkedAt(visited, queue, n.row, n.col);
  }

  /** The contents of the `visited` array, row by row. */
  ghost function Snapshot(visited: array2<bool>): (s: seq<seq<bool>>)
    reads visited
    ensures |s| == visited.Length0 && forall r :: 0 <= r < |s| ==> |s[r]| == visited.Length1
    ensures forall r, c :: 0 <= r < visited.Length0 && 0 <= c < visited.Length1 ==> s[r][c] == visited[r, c]
  {
    seq(visited.Length0, r reads visited => seq(visited.Length1, c reads visited =>
      if 0 <= r < visited.Length0 && 0 <= c < visited.Length1 then visited[r, c] else false))
  }

  /** Two grids of the same shape that agree cell by cell are equal. */
  lemma SameGrid(s: seq<seq<bool>>, t: seq<seq<bool>>)
    requires |s| == |t| && forall r :: 0 <= r < |s| ==> |s[r]| == |t[r]|
    requires forall r, c :: 0 <= r < |s| && 0 <= c < |s[r]| ==> s[r][c] == t[r][c]
    ensures s == t
  {
    forall r | 0 <= r < |s|
      ensures s[r] == t[r]
    {
    }
  }

  /** `visited[r][c] = true`. */
  method MarkVisited(visited: array2<bool>, p: Position)
    requires 0 <= p.row < visited.Length0 && 0 <= p.col < visited.Length1
    modifies visited
    ensures Snapshot(visited) == Mark(old(Snapshot(visited)), p)
  {
    ghost var before := Snapshot(visited);
    visited[p.row, p.col] := true;
    SameGrid(Snapshot(visited), Mark(before, p));
  }

  /** One turn of the neighbour loop: an open, unvisited neighbour is queued with
      distance + 1 and marked visited. */
  method VisitNeighbor(lab: seq<seq<char>>, start: Position, queue: seq<Entry>, head: int, visited: array2<bool>,
                       ghost grid: seq<seq<bool>>, neighbors: seq<Position>, i: int)
    returns (queue': seq<Entry>, ghost grid': seq<seq<bool>>)
    requires grid == Snapshot(visited) && Inv(lab, start, queue, head, grid) && head < |queue|
    requires visited.Length0 == |lab| && visited.Length1 == |lab[0]|
    requires neighbors == Neighbors(queue[head].0) && 0 <= i < 4 && QueuedUpTo(lab, queue, neighbors, i)
    modifies visited
    ensures grid' == Snapshot(visited) && Inv(lab, start, queue', head, grid')
    ensures |queue| <= |queue'| && queue'[head] == queue[head] && QueuedUpTo(lab, queue', neighbors, i + 1)
  {
    var neighbor, distance := neighbors[i], queue[head].1;
    queue', grid' := queue, grid;
    if IsValidPosition(neighbor, |lab|, |lab[0]|) && lab[neighbor.row][neighbor.col] != WALL &&
       !visited[neighbor.row, neighbor.col] {
      PushKeeps(lab, start, queue, head, grid, neighbor);
      QueuedAppend(lab, queue, neighbors, i, (neighbor, distance + 1));
      queue' := queue + [(neighbor, distance + 1)];
      MarkVisited(visited, neighbor);
      grid' := Mark(grid, neighbor);
    } else if IsValidPosition(neighbor, |lab|, |lab[0]|) && lab[neighbor.row][neighbor.col] != WALL {
      MarkedQueued(lab, queue, grid, neighbor);
    }
    QueuedExtend(lab, queue', neighbors, i);
  }

  /** The neighbour loop of findShortestPath, up, down, left, right. */
  method VisitNeighbors(lab: seq<seq<char>>, start: Position, queue: seq<Entry>, head: int, visited: array2<bool>)
    returns (queue': seq<Entry>)
    requires Inv(lab, start, queue, head, Snapshot(visited)) && head < |queue|
    requires visited.Length0 == |lab| && visited.Length1 == |lab[0]|
    modifies visited
    ensures Inv(lab, start, queue', head, Snapshot(visited)) && |queue| <= |queue'| && queue'[head] == queue[head]
    ensures QueuedUpTo(lab, queue', Neighbors(queue[head].0), 4)
  {
    var neighbors := Neighbors(queue[head].0);
    queue' := queue;
    ghost var grid := Snapshot(visited);
    for i := 0 to 4
      invariant grid == Snapshot(visited)
      invariant Inv(lab, start, queue', head, grid) && |queue| <= |queue'| && queue'[head] == queue[head]
      invariant QueuedUpTo(lab, queue', neighbors, i)
    {
      queue', grid := VisitNeighbor(lab, start, queue', head, visited, grid, neighbors, i);
    }
  }

  /** The `visited` grid of findShortestPath, all false but the start. */
  method NewVisited(lab: seq<seq<char>>, start: Position) returns (visited: array2<bool>)
    requires Rectangular(lab) && IsValidPosition(start, |lab|, |lab[0]|)
    ensures fresh(visited) && visited.Length0 == |lab| && visited.Length1 == |lab[0]|
    ensures Inv(lab, start, [(start, 0)], 0, Snapshot(visited))
  {
    visited := new bool[|lab|, |lab[0]|]((_, _) => false);
    visited[start.row, start.col] := true;
    InitialInv(lab, start, Snapshot(visited));
  }

  /** findShortestPath: breadth-first search from `start`. It answers the least number of
      moves to an exit, 0 when the start is an exit, and rows * cols exactly when no exit
      can be reached. */
  method FindShortestPath(lab: seq<seq<char>>, start: Position) returns (dist: int)
    requires Rectangular(lab) && IsValidPosition(start, |lab|, |lab[0]|)
    ensures dist == ShortestPath(lab, start)
    ensures 0 <= dist <= |lab| * |lab[0]|
    ensures dist == |lab| * |lab[0]| <==> !ExitReachable(lab, start)
    ensures IsExit(lab, start) ==> dist == 0
  {
    var rows, cols := |lab|, |lab[0]|;
    var visited := NewVisited(lab, start);
    var queue: seq<Entry> := [(start, 0)];
    var head := 0;
    while head < |queue|
      invariant visited.Length0 == rows && visited.Length1 == cols
      invariant Inv(lab, start, queue, head, Snapshot(visited))
      decreases rows * cols - head
    {
      QueueBound(lab, start, queue);
      assert CellAt(lab, queue, head);
      var currPos, distance := queue[head].0, queue[head].1;
      if lab[currPos.row][currPos.col] == EXIT {
        ExitAtFront(lab, start, queue, head);
        return distance;
      }
      queue := VisitNeighbors(lab, start, queue, head, visited);
      PopKeeps(lab, start, queue, head, Snapshot(visited));
      head := head + 1;
    }
    ExhaustedNoExit(lab, start, queue);
    return rows * cols;
  }

  // ---------------------------------------------------------------------------------
  // The winner.

  /** A wizard's time: moves to the nearest exit divided by speed, truncated. */
  ghost function TotalTime(lab: seq<seq<char>>, w: Wizard): int
    requires Rectangular(lab) && w.speed > 0
  {
    ShortestPath(lab, w.position) / w.speed
  }

  predicate WellPlaced(lab: seq<seq<char>>, wizards: seq<Wizard>)
    requires Rectangular(lab)
  {
    forall i :: 0 <= i < |wizards| ==> IsValidPosition(wizards[i].position, |lab|, |lab[0]|) && wizards[i].speed > 0
  }

  /** w is the first wizard with the least time. */
  ghost predicate FirstFastest(lab: seq<seq<char>>, wizards: seq<Wizard>, w: int)
    requires Rectangular(lab) && WellPlaced(lab, wizards)
  {
    0 <= w < |wizards| &&
    (forall j :: 0 <= j < w ==> TotalTime(lab, wizards[j]) > TotalTime(lab, wizards[w])) &&
    (forall j :: w < j < |wizards| ==> TotalTime(lab, wizards[j]) >= TotalTime(lab, wizards[w]))
  }

  /** The time of one wizard, as the loop body of predictWinner computes it. */
  method WizardTime(lab: seq<seq<char>>, wizard: Wizard) returns (totalTime: int)
    requires Rectangular(lab) && IsValidPosition(wizard.position, |lab|, |lab[0]|) && wizard.speed > 0
    ensures totalTime == TotalTime(lab, wizard)
    ensures 0 <= totalTime <= |lab| * |lab[0]|
  {
    var time := FindShortestPath(lab, wizard.position);
    totalTime := time / wizard.speed;
    DivAtMost(time, wizard.speed);
  }

  lemma DivAtMost(a: int, b: int)
    requires a >= 0 && b > 0
    ensures 0 <= a / b <= a
  {
    var q, r := a / b, a % b;
    assert a == b * q + r;
    assert q >= 0;
    if q >= 1 {
      MulAtLeast(q, b);
      assert q * b == b * q;
    }
  }

  /** predictWinner: -1 for no wizards, otherwise the first wizard with the least time;
      a wizard who cannot reach an exit scores rows * cols / speed and still competes. */
  method PredictWinner(lab: seq<seq<char>>, wizards: seq<Wizard>) returns (winner: int)
    requires Rectangular(lab) && WellPlaced(lab, wizards)
    requires |lab| * |lab[0]| < INT_MAX
    ensures winner == -1 <==> |wizards| == 0
    ensures |wizards| > 0 ==> FirstFastest(lab, wizards, winner)
  {
    winner := -1;
    var shortestTime := INT_MAX;
    for i := 0 to |wizards|
      invariant winner == -1 <==> i == 0
      invariant -1 <= winner < i
      invariant winner == -1 ==> shortestTime == INT_MAX
      invariant winner >= 0 ==> shortestTime == TotalTime(lab, wizards[winner])
      invariant winner >= 0 ==> forall j :: 0 <= j < winner ==> TotalTime(lab, wizards[j]) > shortestTime
      invariant winner >= 0 ==> forall j :: winner < j < i ==> TotalTime(lab, wizards[j]) >= shortestTime
    {
      var totalTime := WizardTime(lab, wizards[i]);
      if totalTime < shortestTime {
        shortestTime := totalTime;
        winner := i;
      }
    }
  }

  /** Walks from the far end of "E#.." never get left of the wall. */
  lemma {:induction false} StaysRight(path: seq<Position>, k: int)
    requires IsPath([['E', '#', '.', '.']], Position(0, 3), path) && 0 <= k < |path|
    ensures path[k].col >= 2
    decreases k
  {
    if k > 0 {
      StaysRight(path, k - 1);
      assert path[k] in Neighbors(path[k - 1]) && Open([['E', '#', '.', '.']], path[k]);
    }
  }

  /** In the one-row labyrinth "E#.." a wizard at the far end, walled off from the exit,
      scores 4 / 5 = 0 and ties with a wizard standing on the exit; the tie goes to the
      lower index, so the wizard who cannot get out wins. */
  lemma UnreachableCanWin()
    ensures Rectangular([['E', '#', '.', '.']])
    ensures !ExitReachable([['E', '#', '.', '.']], Position(0, 3))
    ensures WellPlaced([['E', '#', '.', '.']], [Wizard(Position(0, 3), 5), Wizard(Position(0, 0), 1)])
    ensures FirstFastest([['E', '#', '.', '.']], [Wizard(Position(0, 3), 5), Wizard(Position(0, 0), 1)], 0)
  {
    var lab := [['E', '#', '.', '.']];
    var far, home := Position(0, 3), Position(0, 0);
    forall path: seq<Position> | IsPath(lab, far, path)
      ensures path[|path| - 1].col >= 2
    {
      StaysRight(path, |path| - 1);
    }
    assert !ExitReachable(lab, far);
    assert IsPath(lab, home, [home]);
    assert MinExit(lab, home, 0);
    MinExitUnique(lab, home, 0, ShortestPath(lab, home));
  }
}
