/**
 * Calculator.java: hex connectivity and the static board score.
 *
 * RED owns the first index: it wins by joining a RED cell (0, y) to a cell
 * with x == N-1.  BLUE owns the second index: it wins by joining a BLUE
 * cell (x, 0) to a cell with y == N-1.  No operation here writes to the
 * board it is given.
 */
module Calculator {
  import opened Boards

  const WIN: int := 100
  const LOSS: int := -100
  const MULTIPLIER: int := 10
  const NO_WIN: int := 100

  /** The six neighbour offsets of a hex cell, in the order they are tried. */
  const Offsets: seq<Pos> := [(0, -1), (1, -1), (-1, 0), (1, 0), (-1, 1), (0, 1)]

  function Shift(p: Pos, off: Pos): Pos {
    (p.0 + off.0, p.1 + off.1)
  }

  /** d is one of the six offsets, written out. */
  predicate IsOffset(d: Pos) {
    d == (0, -1) || d == (1, -1) || d == (-1, 0) || d == (1, 0) || d == (-1, 1) || d == (0, 1)
  }

  /** q is one of the six hex neighbours of p. */
  predicate Adjacent(p: Pos, q: Pos) {
    IsOffset((q.0 - p.0, q.1 - p.1))
  }

  /** The offsets list is exactly the six hex directions. */
  lemma OffsetIndex(d: Pos) returns (j: int)
    requires IsOffset(d)
    ensures 0 <= j < |Offsets| && Offsets[j] == d
  {
    j := if d == (0, -1) then 0 else if d == (1, -1) then 1 else if d == (-1, 0) then 2
         else if d == (1, 0) then 3 else if d == (-1, 1) then 4 else 5;
  }

  /** The hex directions are closed under negation, so adjacency is symmetric. */
  lemma AdjacencySymmetric(p: Pos, q: Pos)
    ensures Adjacent(p, q) <==> Adjacent(q, p)
  {
  }

  /** A same-colour chain of hex-adjacent cells on the board. */
  ghost predicate IsPath(b: Board, n: int, path: seq<Pos>)
    requires IsBoard(b, n)
  {
    && |path| > 0
    && (forall i :: 0 <= i < |path| ==> InBounds(path[i], n))
    && (forall i :: 0 <= i < |path| ==>
          InBounds(path[i], n) && InBounds(path[0], n) && b[path[i].0][path[i].1] == b[path[0].0][path[0].1])
    && (forall i :: 0 <= i < |path| - 1 ==> Adjacent(path[i], path[i + 1]))
  }

  ghost predicate Reaches(b: Board, n: int, s: Pos, t: Pos)
    requires IsBoard(b, n)
  {
    exists path :: IsPath(b, n, path) && path[0] == s && path[|path| - 1] == t
  }

  /** The edge a flood from the start edge is looking for. */
  predicate FarEdge(p: Pos, n: int, horizontal: bool) {
    if horizontal then p.0 == n - 1 else p.1 == n - 1
  }

  /**
   * Some cell other than the start, on the far edge, is joined to the
   * start by a same-colour chain.  The start itself is never tested, as in
   * the source, which tests only the neighbours it discovers.
   */
  ghost predicate ConnectsFarEdge(b: Board, n: int, x: int, y: int, horizontal: bool)
    requires IsBoard(b, n)
  {
    exists t: Pos :: t != (x, y) && InBounds(t, n) && FarEdge(t, n, horizontal) && Reaches(b, n, (x, y), t)
  }

  /**
   * What connectedToEndBy returns: 0 for a blank start, 0 when the far edge
   * is reached (the path-length walk never takes a step, see
   * ConnectedToEndBy), and -N otherwise.
   */
  ghost function ConnectedScore(b: Board, n: int, x: int, y: int, horizontal: bool): int
    requires IsBoard(b, n) && 0 <= x < n && 0 <= y < n
  {
    if b[x][y] == Blank then 0
    else if ConnectsFarEdge(b, n, x, y, horizontal) then 0
    else -n
  }

  ghost function Grid(n: int): set<Pos> {
    set x, y | 0 <= x < n && 0 <= y < n :: (x, y)
  }

  ghost function Elems(q: seq<Pos>): set<Pos> {
    set p | p in q
  }

  /** The neighbour of p in direction `off`, when on the board and of p's colour, is in s. */
  ghost predicate NeighbourIn(b: Board, n: int, p: Pos, off: Pos, s: set<Pos>)
    requires IsBoard(b, n) && InBounds(p, n)
  {
    var q := Shift(p, off);
    InBounds(q, n) && b[q.0][q.1] == b[p.0][p.1] ==> q in s
  }

  /** Every same-colour in-bounds neighbour of p is in s. */
  ghost predicate Closed(b: Board, n: int, p: Pos, s: set<Pos>)
    requires IsBoard(b, n) && InBounds(p, n)
  {
    forall i :: 0 <= i < |Offsets| ==> NeighbourIn(b, n, p, Offsets[i], s)
  }

  /** Some cell of s other than the start lies on the far edge. */
  ghost predicate HitsFar(s: set<Pos>, start: Pos, n: int, horizontal: bool) {
    exists p :: p in s && p != start && FarEdge(p, n, horizontal)
  }

  /** paths[p] is a recorded chain from the start to p. */
  ghost predicate Traced(b: Board, n: int, start: Pos, paths: map<Pos, seq<Pos>>, p: Pos)
    requires IsBoard(b, n)
  {
    p in paths && IsPath(b, n, paths[p]) && paths[p][0] == start && paths[p][|paths[p]| - 1] == p
  }

  lemma PathFront(b: Board, n: int, path: seq<Pos>)
    requires IsBoard(b, n) && IsPath(b, n, path) && |path| > 1
    ensures IsPath(b, n, path[..|path| - 1])
  {
    var front := path[..|path| - 1];
    forall i | 0 <= i < |front| - 1 ensures Adjacent(front[i], front[i + 1]) {
      assert front[i] == path[i] && front[i + 1] == path[i + 1];
    }
    forall i | 0 <= i < |front|
      ensures InBounds(front[i], n) && b[front[i].0][front[i].1] == b[front[0].0][front[0].1]
    {
      assert front[i] == path[i];
    }
  }

  /** A chain extended by a same-colour neighbour of its last cell is a chain. */
  lemma PathExtend(b: Board, n: int, path: seq<Pos>, q: Pos)
    requires IsBoard(b, n) && IsPath(b, n, path)
    requires InBounds(q, n) && Adjacent(path[|path| - 1], q) && b[q.0][q.1] == b[path[0].0][path[0].1]
    ensures IsPath(b, n, path + [q]) && (path + [q])[0] == path[0]
  {
    var ext := path + [q];
    forall i | 0 <= i < |ext| - 1 ensures Adjacent(ext[i], ext[i + 1]) {
      if i < |path| - 1 {
        assert ext[i] == path[i] && ext[i + 1] == path[i + 1];
      }
    }
  }

  /** A set closed under same-colour adjacency holds every cell a chain from it reaches. */
  lemma {:induction false} ClosedHoldsPath(b: Board, n: int, s: set<Pos>, path: seq<Pos>)
    requires IsBoard(b, n) && IsPath(b, n, path) && path[0] in s
    requires forall p :: p in s ==> InBounds(p, n) && Closed(b, n, p, s)
    ensures path[|path| - 1] in s
  {
    if |path| > 1 {
      var front := path[..|path| - 1];
      PathFront(b, n, path);
      ClosedHoldsPath(b, n, s, front);
      var p, q := path[|path| - 2], path[|path| - 1];
      assert front[|front| - 1] == p;
      assert Adjacent(p, q);
      var j := OffsetIndex((q.0 - p.0, q.1 - p.1));
      assert Shift(p, Offsets[j]) == q;
      assert NeighbourIn(b, n, p, Offsets[j], s);
    }
  }

  /** Flood-fill completeness and soundness: a closed flood of traced cells decides ConnectsFarEdge. */
  lemma ClosedFloodDecides(b: Board, n: int, x: int, y: int, horizontal: bool,
                           s: set<Pos>, paths: map<Pos, seq<Pos>>)
    requires IsBoard(b, n) && 0 <= x < n && 0 <= y < n && (x, y) in s
    requires forall p :: p in s ==> InBounds(p, n) && Closed(b, n, p, s)
    requires forall p :: p in s ==> Traced(b, n, (x, y), paths, p)
    ensures ConnectsFarEdge(b, n, x, y, horizontal) <==> HitsFar(s, (x, y), n, horizontal)
  {
    if ConnectsFarEdge(b, n, x, y, horizontal) {
      var t: Pos :| t != (x, y) && InBounds(t, n) && FarEdge(t, n, horizontal) && Reaches(b, n, (x, y), t);
      var path :| IsPath(b, n, path) && path[0] == (x, y) && path[|path| - 1] == t;
      ClosedHoldsPath(b, n, s, path);
      assert t in s;
    }
    if HitsFar(s, (x, y), n, horizontal) {
      var t :| t in s && t != (x, y) && FarEdge(t, n, horizontal);
      assert Traced(b, n, (x, y), paths, t);
      assert Reaches(b, n, (x, y), t);
    }
  }

  lemma OffsetsAreHexDirections()
    ensures forall i :: 0 <= i < |Offsets| ==> IsOffset(Offsets[i])
  {
  }

  /** Growing the set keeps a cell's neighbourhood inside it. */
  lemma ClosedGrows(b: Board, n: int, p: Pos, s: set<Pos>, s': set<Pos>)
    requires IsBoard(b, n) && InBounds(p, n) && Closed(b, n, p, s) && s <= s'
    ensures Closed(b, n, p, s')
  {
    forall i | 0 <= i < |Offsets| ensures NeighbourIn(b, n, p, Offsets[i], s') {
      assert NeighbourIn(b, n, p, Offsets[i], s);
    }
  }

  lemma NeighboursGrow(b: Board, n: int, cur: Pos, k: int, s: set<Pos>, s': set<Pos>)
    requires IsBoard(b, n) && InBounds(cur, n) && s <= s' && 0 <= k <= |Offsets|
    requires forall j :: 0 <= j < k ==> NeighbourIn(b, n, cur, Offsets[j], s)
    ensures forall j :: 0 <= j < k ==> NeighbourIn(b, n, cur, Offsets[j], s')
  {
  }

  lemma NeighboursNext(b: Board, n: int, cur: Pos, k: int, s: set<Pos>)
    requires IsBoard(b, n) && InBounds(cur, n) && 0 <= k < |Offsets|
    requires forall j :: 0 <= j < k ==> NeighbourIn(b, n, cur, Offsets[j], s)
    requires NeighbourIn(b, n, cur, Offsets[k], s)
    ensures forall j :: 0 <= j <= k ==> NeighbourIn(b, n, cur, Offsets[j], s)
  {
  }

  lemma HitsFarAdd(seen: set<Pos>, q: Pos, start: Pos, n: int, horizontal: bool)
    ensures HitsFar(seen + {q}, start, n, horizontal) <==>
      HitsFar(seen, start, n, horizontal) || (q != start && FarEdge(q, n, horizontal))
  {
    if HitsFar(seen + {q}, start, n, horizontal) {
      var p :| p in seen + {q} && p != start && FarEdge(p, n, horizontal);
      if p != q {
        assert HitsFar(seen, start, n, horizontal);
      }
    }
    if q != start && FarEdge(q, n, horizontal) {
      assert q in seen + {q};
    }
    if HitsFar(seen, start, n, horizontal) {
      var p :| p in seen && p != start && FarEdge(p, n, horizontal);
      assert p in seen + {q};
    }
  }

  /** Java's Map.getOrDefault. */
  function GetOrDefault(m: map<int, int>, k: int, d: int): (v: int)
    ensures k in m ==> v == m[k]
    ensures k !in m ==> v == d
  {
    if k in m then m[k] else d
  }

  /** The linear indices x*n+y of the cells of s: the keys of the source's parent map. */
  ghost function LinearKeys(s: set<Pos>, n: int): set<int> {
    set p | p in s :: p.0 * n + p.1
  }

  lemma LinearKeyHit(s: set<Pos>, n: int, p: Pos)
    requires p in s
    ensures p.0 * n + p.1 in LinearKeys(s, n)
  {
  }

  lemma LinearKeysGrow(s: set<Pos>, s': set<Pos>, n: int)
    requires s <= s'
    ensures LinearKeys(s, n) <= LinearKeys(s', n)
  {
  }

  /** Linear indices of on-board cells are distinct. */
  lemma LinearKeyMiss(s: set<Pos>, n: int, q: Pos)
    requires forall p :: p in s ==> InBounds(p, n)
    requires InBounds(q, n) && q !in s
    ensures q.0 * n + q.1 !in LinearKeys(s, n)
  {
    if q.0 * n + q.1 in LinearKeys(s, n) {
      var p :| p in s && p.0 * n + p.1 == q.0 * n + q.1;
      IndexDivMod(p.0, p.1, n);
      IndexDivMod(q.0, q.1, n);
      assert false;
    }
  }

  /**
   * The state of a flood from `start`: every seen cell is on the board and
   * joined to the start by a recorded chain, and every expanded cell has
   * all its same-colour neighbours seen.  The triggers keep the two
   * quantified facts from being unfolded unless a proof names them.
   */
  ghost predicate Flood(b: Board, n: int, start: Pos, seen: set<Pos>, done: set<Pos>,
                        paths: map<Pos, seq<Pos>>)
  {
    && IsBoard(b, n)
    && start in seen && done <= seen
    && (forall p :: p in seen ==> InBounds(p, n))
    && (forall p {:trigger Closed(b, n, p, seen)} :: p in done ==> InBounds(p, n) && Closed(b, n, p, seen))
    && (forall p {:trigger Traced(b, n, start, paths, p)} :: p in seen ==> Traced(b, n, start, paths, p))
  }

  /** Discovering a same-colour neighbour of a seen cell keeps the flood state. */
  lemma FloodDiscover(b: Board, n: int, start: Pos, seen: set<Pos>, done: set<Pos>,
                      paths: map<Pos, seq<Pos>>, cur: Pos, i: int)
    requires Flood(b, n, start, seen, done, paths) && cur in seen && 0 <= i < |Offsets|
    requires Traced(b, n, start, paths, cur)
    requires InBounds(Shift(cur, Offsets[i]), n)
    requires b[Shift(cur, Offsets[i]).0][Shift(cur, Offsets[i]).1] == b[cur.0][cur.1]
    ensures var q := Shift(cur, Offsets[i]);
      Flood(b, n, start, seen + {q}, done, paths[q := paths[cur] + [q]])
  {
    var q := Shift(cur, Offsets[i]);
    OffsetsAreHexDirections();
    var path := paths[cur];
    assert b[path[0].0][path[0].1] == b[cur.0][cur.1] by {
      assert path[|path| - 1] == cur;
    }
    PathExtend(b, n, path, q);
    var paths' := paths[q := path + [q]];
    forall p | p in seen + {q} ensures Traced(b, n, start, paths', p) {
      if p != q {
        assert Traced(b, n, start, paths, p);
      }
    }
    forall p | p in done ensures Closed(b, n, p, seen + {q}) {
      assert Closed(b, n, p, seen);
      ClosedGrows(b, n, p, seen, seen + {q});
    }
  }

  /** Once every neighbour of cur is seen, cur counts as expanded. */
  lemma FloodExpand(b: Board, n: int, start: Pos, seen: set<Pos>, done: set<Pos>,
                    paths: map<Pos, seq<Pos>>, cur: Pos)
    requires Flood(b, n, start, seen, done, paths) && cur in seen
    requires forall j :: 0 <= j < |Offsets| ==> NeighbourIn(b, n, cur, Offsets[j], seen)
    ensures Flood(b, n, start, seen, done + {cur}, paths)
  {
    forall p | p in done + {cur} ensures Closed(b, n, p, seen) {
      if p != cur {
        assert Closed(b, n, p, seen);
      }
    }
  }

  /** A finished flood: nothing is left to expand, so the hits decide the connection. */
  lemma FloodDecides(b: Board, n: int, x: int, y: int, horizontal: bool,
                     seen: set<Pos>, paths: map<Pos, seq<Pos>>)
    requires 0 <= x < n && 0 <= y < n && Flood(b, n, (x, y), seen, seen, paths)
    ensures ConnectsFarEdge(b, n, x, y, horizontal) <==> HitsFar(seen, (x, y), n, horizontal)
  {
    forall p | p in seen ensures InBounds(p, n) && Closed(b, n, p, seen) && Traced(b, n, (x, y), paths, p) {
      assert Closed(b, n, p, seen);
      assert Traced(b, n, (x, y), paths, p);
    }
    ClosedFloodDecides(b, n, x, y, horizontal, seen, paths);
  }

  /** visited[i, j] is set exactly for the seen cells. */
  ghost predicate Marks(visited: array2<bool>, n: int, seen: set<Pos>)
    reads visited
  {
    && visited.Length0 == n && visited.Length1 == n
    && forall i, j :: 0 <= i < n && 0 <= j < n ==> (visited[i, j] <==> (i, j) in seen)
  }

  /** The search state kept by connectedToEndBy between steps. */
  ghost predicate Search(b: Board, n: int, horizontal: bool, start: Pos, seen: set<Pos>, done: set<Pos>,
                         paths: map<Pos, seq<Pos>>, parentMap: map<int, int>, score: int, unreached: int)
  {
    && Flood(b, n, start, seen, done, paths)
    && parentMap.Keys <= LinearKeys(seen, n)
    && score == (if HitsFar(seen, start, n, horizontal) then 0 else unreached)
  }

  /**
   * One pass of the inner loop of connectedToEndBy: the neighbour of cur
   * in direction Offsets[i] is skipped when off the board, and otherwise,
   * when of cur's colour and not yet visited, gets a parent link, is
   * tested against the far edge, queued and marked visited.
   *
   * On reaching the far edge the source walks the parent links from the
   * new cell to measure the path.  That cell is unvisited, so it is never
   * a key of the parent map (the keys are the start and expanded cells):
   * the walk takes no step, the score becomes 0, and the early return for a
   * score between N and N+1 cannot fire.
   */
  method VisitNeighbour(field: array2<MyColor>, n: int, horizontal: bool, visited: array2<bool>,
                        cur: Pos, i: int, queue: seq<Pos>, parentMap: map<int, int>, score: int,
                        ghost b: Board, ghost start: Pos, ghost seen: set<Pos>, ghost done: set<Pos>,
                        ghost paths: map<Pos, seq<Pos>>, ghost unreached: int)
    returns (queue': seq<Pos>, parentMap': map<int, int>, score': int,
             ghost seen': set<Pos>, ghost paths': map<Pos, seq<Pos>>)
    requires field.Length0 == n && field.Length1 == n && b == Snapshot(field)
    requires cur in seen && 0 <= i < |Offsets| && 0 < unreached
    requires Marks(visited, n, seen)
    requires Search(b, n, horizontal, start, seen, done, paths, parentMap, score, unreached)
    modifies visited
    ensures Marks(visited, n, seen')
    ensures Search(b, n, horizontal, start, seen', done, paths', parentMap', score', unreached)
    ensures seen <= seen' && Elems(queue') == Elems(queue) + (seen' - seen)
    ensures seen' == seen ==> queue' == queue
    ensures seen' != seen ==> Grid(n) - seen' < Grid(n) - seen
    ensures NeighbourIn(b, n, cur, Offsets[i], seen')
  {
    queue', parentMap', score', seen', paths' := queue, parentMap, score, seen, paths;
    var row, col := cur.0 + Offsets[i].0, cur.1 + Offsets[i].1;
    if row < 0 || row >= n || col < 0 || col >= n {
      return;
    }
    if field[cur.0, cur.1] == field[row, col] && !visited[row, col] {
      var q := (row, col);
      assert Shift(cur, Offsets[i]) == q && q !in seen;
      assert Traced(b, n, start, paths, cur);
      LinearKeyHit(seen, n, cur);
      parentMap' := parentMap[cur.0 * n + cur.1 := row * n + col];
      HitsFarAdd(seen, q, start, n, horizontal);
      if (horizontal && row == n - 1) || (!horizontal && col == n - 1) {
        LinearKeyMiss(seen, n, q);
        var val := GetOrDefault(parentMap', row * n + col, -1);
        assert val == -1;
        var pathLength := 0;
        score' := if score < pathLength then score else pathLength;
      }
      queue' := queue + [q];
      assert Elems(queue') == Elems(queue) + {q};
      MarkVisited(visited, n, seen, q);
      assert q in Grid(n) - seen;
      FloodDiscover(b, n, start, seen, done, paths, cur, i);
      LinearKeysGrow(seen, seen + {q}, n);
      paths' := paths[q := paths[cur] + [q]];
      seen' := seen + {q};
      assert seen' - seen == {q};
    }
  }

  /** `visited[row][col] = true` for a newly queued cell q. */
  method MarkVisited(visited: array2<bool>, n: int, ghost seen: set<Pos>, q: Pos)
    requires Marks(visited, n, seen) && InBounds(q, n)
    modifies visited
    ensures Marks(visited, n, seen + {q})
  {
    visited[q.0, q.1] := true;
    forall i, j | 0 <= i < n && 0 <= j < n ensures visited[i, j] <==> (i, j) in seen + {q} {
      if (i, j) != q {
        assert visited[i, j] == old(visited[i, j]);
      }
    }
  }

  /** The inner loop of connectedToEndBy: the six neighbours of cur, in the order of Offsets. */
  method ExpandCell(field: array2<MyColor>, n: int, horizontal: bool, visited: array2<bool>,
                    cur: Pos, queue: seq<Pos>, parentMap: map<int, int>, score: int,
                    ghost b: Board, ghost start: Pos, ghost seen: set<Pos>, ghost done: set<Pos>,
                    ghost paths: map<Pos, seq<Pos>>, ghost unreached: int)
    returns (queue': seq<Pos>, parentMap': map<int, int>, score': int,
             ghost seen': set<Pos>, ghost paths': map<Pos, seq<Pos>>)
    requires field.Length0 == n && field.Length1 == n && b == Snapshot(field)
    requires cur in seen && 0 < unreached
    requires Marks(visited, n, seen)
    requires Search(b, n, horizontal, start, seen, done, paths, parentMap, score, unreached)
    modifies visited
    ensures Marks(visited, n, seen')
    ensures Search(b, n, horizontal, start, seen', done + {cur}, paths', parentMap', score', unreached)
    ensures seen <= seen' && Elems(queue') == Elems(queue) + (seen' - seen)
    ensures seen' == seen ==> queue' == queue
    ensures seen' != seen ==> Grid(n) - seen' < Grid(n) - seen
  {
    queue', parentMap', score', seen', paths' := queue, parentMap, score, seen, paths;
    for i := 0 to |Offsets|
      invariant Marks(visited, n, seen')
      invariant Search(b, n, horizontal, start, seen', done, paths', parentMap', score', unreached)
      invariant seen <= seen' && Elems(queue') == Elems(queue) + (seen' - seen)
      invariant forall j :: 0 <= j < i ==> NeighbourIn(b, n, cur, Offsets[j], seen')
      invariant seen' == seen ==> queue' == queue
      invariant seen' != seen ==> Grid(n) - seen' < Grid(n) - seen
    {
      ghost var prev, queue0 := seen', queue';
      queue', parentMap', score', seen', paths' :=
        VisitNeighbour(field, n, horizontal, visited, cur, i, queue', parentMap', score',
                       b, start, seen', done, paths', unreached);
      NeighboursGrow(b, n, cur, i, prev, seen');
      NeighboursNext(b, n, cur, i, seen');
    }
    FloodExpand(b, n, start, seen', done, paths', cur);
  }

  /** The while loop of connectedToEndBy: expand queued cells until the queue is empty. */
  method DrainQueue(field: array2<MyColor>, n: int, horizontal: bool, visited: array2<bool>,
                    queue0: seq<Pos>, parentMap0: map<int, int>, score0: int,
                    ghost b: Board, ghost start: Pos, ghost seen0: set<Pos>,
                    ghost paths0: map<Pos, seq<Pos>>, ghost unreached: int)
    returns (parentMap: map<int, int>, score: int, ghost seen: set<Pos>, ghost paths: map<Pos, seq<Pos>>)
    requires field.Length0 == n && field.Length1 == n && b == Snapshot(field) && 0 < unreached
    requires Marks(visited, n, seen0)
    requires Search(b, n, horizontal, start, seen0, {}, paths0, parentMap0, score0, unreached)
    requires seen0 == Elems(queue0)
    modifies visited
    ensures Search(b, n, horizontal, start, seen, seen, paths, parentMap, score, unreached)
  {
    var queue := queue0;
    parentMap, score, seen, paths := parentMap0, score0, seen0, paths0;
    ghost var done: set<Pos> := {};
    while queue != []
      invariant Marks(visited, n, seen)
      invariant Search(b, n, horizontal, start, seen, done, paths, parentMap, score, unreached)
      invariant seen == done + Elems(queue)
      decreases Grid(n) - seen, |queue|
    {
      var cur := queue[0];
      queue := queue[1..];
      assert cur in seen;
      queue, parentMap, score, seen, paths :=
        ExpandCell(field, n, horizontal, visited, cur, queue, parentMap, score,
                   b, start, seen, done, paths, unreached);
      done := done + {cur};
    }
  }

  /**
   * connectedToEndBy: a breadth-first flood over the cells of the start's
   * colour, from (x, y), reporting whether it reaches the far edge.
   */
  method ConnectedToEndBy(field: array2<MyColor>, n: int, x: int, y: int, horizontal: bool)
    returns (score: int)
    requires field.Length0 == n && field.Length1 == n
    requires 0 <= x < n && 0 <= y < n
    ensures score == ConnectedScore(Snapshot(field), n, x, y, horizontal)
    ensures field[x, y] == Blank ==> score == 0
    ensures score == 0 || score == -n
  {
    ghost var b := Snapshot(field);
    if field[x, y] == Blank {
      return 0;
    }
    var start := (x, y);
    var queue: seq<Pos> := [start];
    var visited := new bool[n, n]((i, j) => false);
    visited[x, y] := true;
    score := n * n * 2;
    ghost var unreached := score;
    assert 1 <= n * n < unreached by {
      MulNonneg(n - 1, n);
    }
    var parentMap: map<int, int> := map[x * n + y := -1];
    ghost var seen: set<Pos> := {start};
    ghost var paths: map<Pos, seq<Pos>> := map[start := [start]];
    LinearKeyHit(seen, n, start);
    assert Traced(b, n, start, paths, start);
    assert !HitsFar(seen, start, n, horizontal);

    assert seen == Elems(queue);
    parentMap, score, seen, paths :=
      DrainQueue(field, n, horizontal, visited, queue, parentMap, score, b, start, seen, paths, unreached);
    FloodDecides(b, n, x, y, horizontal, seen, paths);
    if score < n * n {
      return score;
    }
    return -n;
  }

  /* ---- calcBoardScore, getGameWinner and getBoardScore ---- */

  /** The result of one player's edge scan: an early win, or the final (negScore, posScore). */
  datatype ScanResult = Won | Scanned(neg: int, pos: int)

  /** The i-th start cell of a player's edge holds that player's stone: (0, i) for RED, (i, 0) for BLUE. */
  ghost predicate Owned(b: Board, n: int, red: bool, i: int)
    requires IsBoard(b, n) && 0 <= i < n
  {
    if red then b[0][i] == Red else b[i][0] == Blue
  }

  /** connectedToEndBy from the i-th start cell, horizontal for RED and vertical for BLUE. */
  ghost function StartScore(b: Board, n: int, red: bool, i: int): int
    requires IsBoard(b, n) && 0 <= i < n
  {
    if red then ConnectedScore(b, n, 0, i, true) else ConnectedScore(b, n, i, 0, false)
  }

  /** The i-th start cell is the player's and joins the opposite edge. */
  ghost predicate Connects(b: Board, n: int, red: bool, i: int)
    requires IsBoard(b, n) && 0 <= i < n
  {
    Owned(b, n, red, i) && (if red then ConnectsFarEdge(b, n, 0, i, true) else ConnectsFarEdge(b, n, i, 0, false))
  }

  /** Some start cell from index i on joins the opposite edge. */
  ghost predicate EdgeWins(b: Board, n: int, red: bool, i: int)
    requires IsBoard(b, n) && 0 <= i
  {
    exists j :: i <= j < n && Connects(b, n, red, j)
  }

  /** RED has a chain from the edge x == 0 to the edge x == N-1. */
  ghost predicate RedWins(b: Board, n: int)
    requires IsBoard(b, n)
  {
    EdgeWins(b, n, true, 0)
  }

  /** BLUE has a chain from the edge y == 0 to the edge y == N-1. */
  ghost predicate BlueWins(b: Board, n: int)
    requires IsBoard(b, n)
  {
    EdgeWins(b, n, false, 0)
  }

  /** One of the two loops of calcBoardScore, from start index i with the running scores. */
  ghost function EdgeScan(b: Board, n: int, red: bool, noOptimization: bool, i: int, neg: int, pos: int): ScanResult
    requires IsBoard(b, n) && 0 <= i <= n
    decreases n - i
  {
    if i == n then Scanned(neg, pos)
    else if !Owned(b, n, red, i) then EdgeScan(b, n, red, noOptimization, i + 1, neg, pos)
    else
      var s := StartScore(b, n, red, i);
      var neg' := if s < 0 then (if neg < s then s else neg) else neg;
      var pos' := if s < 0 then pos else (if s < pos then s else pos);
      if noOptimization && pos' != NO_WIN then Won
      else if pos' == n then Scanned(neg', pos')
      else EdgeScan(b, n, red, noOptimization, i + 1, neg', pos')
  }

  /** The pair calcBoardScore returns: (n, 0) or (0, n) on an early win, else NO_WIN minus each posScore. */
  ghost function BoardScores(b: Board, n: int, noOptimization: bool): (int, int)
    requires IsBoard(b, n)
  {
    match EdgeScan(b, n, true, noOptimization, 0, -NO_WIN, NO_WIN)
    case Won => (n, 0)
    case Scanned(_, redPos) =>
      match EdgeScan(b, n, false, noOptimization, 0, -NO_WIN, NO_WIN)
      case Won => (0, n)
      case Scanned(_, bluePos) => (NO_WIN - redPos, NO_WIN - bluePos)
  }

  /** An owned start scores 0 exactly when it connects, and -N otherwise. */
  lemma StartScoreCases(b: Board, n: int, red: bool, i: int)
    requires IsBoard(b, n) && 0 <= i < n && Owned(b, n, red, i)
    ensures StartScore(b, n, red, i) == (if Connects(b, n, red, i) then 0 else -n)
  {
  }

  /** Whatever the board, a scan that does not stop early ends with posScore 0 or NO_WIN. */
  lemma {:induction false} EdgeScanRange(b: Board, n: int, red: bool, noOptimization: bool, i: int, neg: int, pos: int)
    requires IsBoard(b, n) && 0 <= i <= n && (pos == 0 || pos == NO_WIN)
    ensures EdgeScan(b, n, red, noOptimization, i, neg, pos).Scanned? ==>
      (EdgeScan(b, n, red, noOptimization, i, neg, pos).pos == 0 ||
       EdgeScan(b, n, red, noOptimization, i, neg, pos).pos == NO_WIN)
    ensures !noOptimization ==> EdgeScan(b, n, red, noOptimization, i, neg, pos).Scanned?
    decreases n - i
  {
    if i < n {
      if Owned(b, n, red, i) {
        StartScoreCases(b, n, red, i);
        var s := StartScore(b, n, red, i);
        var neg' := if s < 0 then (if neg < s then s else neg) else neg;
        var pos' := if s < 0 then pos else (if s < pos then s else pos);
        EdgeScanRange(b, n, red, noOptimization, i + 1, neg', pos');
      } else {
        EdgeScanRange(b, n, red, noOptimization, i + 1, neg, pos);
      }
    }
  }

  lemma EdgeWinsStep(b: Board, n: int, red: bool, i: int)
    requires IsBoard(b, n) && 0 <= i < n
    ensures EdgeWins(b, n, red, i) <==> Connects(b, n, red, i) || EdgeWins(b, n, red, i + 1)
  {
    if EdgeWins(b, n, red, i) && !Connects(b, n, red, i) {
      var j :| i <= j < n && Connects(b, n, red, j);
      assert j != i;
    }
    if Connects(b, n, red, i) {
      assert i <= i < n;
    }
  }

  /**
   * For N other than NO_WIN the scan decides the player's win: with
   * noOptimization it stops early exactly when some start connects (and
   * otherwise posScore stays NO_WIN), and without it posScore ends at 0
   * exactly when one does.
   */
  lemma {:induction false} EdgeScanDecides(b: Board, n: int, red: bool, noOptimization: bool, i: int, neg: int, pos: int)
    requires IsBoard(b, n) && 0 <= i <= n && n != NO_WIN
    requires pos == NO_WIN || (pos == 0 && !noOptimization)
    ensures noOptimization ==>
      (EdgeScan(b, n, red, noOptimization, i, neg, pos) == Won <==> EdgeWins(b, n, red, i))
    ensures noOptimization && EdgeScan(b, n, red, noOptimization, i, neg, pos).Scanned? ==>
      EdgeScan(b, n, red, noOptimization, i, neg, pos).pos == NO_WIN
    ensures !noOptimization ==>
      (EdgeScan(b, n, red, noOptimization, i, neg, pos).Scanned? &&
       (EdgeScan(b, n, red, noOptimization, i, neg, pos).pos == 0 <==> pos == 0 || EdgeWins(b, n, red, i)))
    decreases n - i
  {
    if i < n {
      EdgeWinsStep(b, n, red, i);
      if Owned(b, n, red, i) {
        StartScoreCases(b, n, red, i);
        var s := StartScore(b, n, red, i);
        var neg' := if s < 0 then (if neg < s then s else neg) else neg;
        var pos' := if s < 0 then pos else (if s < pos then s else pos);
        if !(noOptimization && pos' != NO_WIN) {
          EdgeScanDecides(b, n, red, noOptimization, i + 1, neg', pos');
        }
      } else {
        EdgeScanDecides(b, n, red, noOptimization, i + 1, neg, pos);
      }
    }
  }

  /**
   * One loop of calcBoardScore: the start cells (0, y) for RED, scanned
   * horizontally, or (x, 0) for BLUE, scanned vertically.  Won stands for
   * the early return of a noOptimization call.
   */
  method ScanEdge(field: array2<MyColor>, n: int, red: bool, noOptimization: bool) returns (r: ScanResult)
    requires field.Length0 == n && field.Length1 == n
    ensures r == EdgeScan(Snapshot(field), n, red, noOptimization, 0, -NO_WIN, NO_WIN)
  {
    ghost var b := Snapshot(field);
    var negScore, posScore := -NO_WIN, NO_WIN;
    var i := 0;
    while i < n
      invariant 0 <= i <= n
      invariant EdgeScan(b, n, red, noOptimization, 0, -NO_WIN, NO_WIN)
             == EdgeScan(b, n, red, noOptimization, i, negScore, posScore)
    {
      var x, y := if red then 0 else i, if red then i else 0;
      if field[x, y] != (if red then Red else Blue) {
        i := i + 1;
        continue;
      }
      var score := ConnectedToEndBy(field, n, x, y, red);
      if score < 0 {
        negScore := if negScore < score then score else negScore;
      } else {
        posScore := if score < posScore then score else posScore;
      }
      if noOptimization && posScore != NO_WIN {
        return Won;
      }
      if posScore == n {
        break;
      }
      i := i + 1;
    }
    return Scanned(negScore, posScore);
  }

  /** calcBoardScore: RED's scan along x == 0, then BLUE's along y == 0. */
  method CalcBoardScore(field: array2<MyColor>, n: int, noOptimization: bool) returns (first: int, second: int)
    requires field.Length0 == n && field.Length1 == n
    ensures (first, second) == BoardScores(Snapshot(field), n, noOptimization)
  {
    var red := ScanEdge(field, n, true, noOptimization);
    if red.Won? {
      return n, 0;
    }
    var blue := ScanEdge(field, n, false, noOptimization);
    if blue.Won? {
      return 0, n;
    }
    return NO_WIN - red.pos, NO_WIN - blue.pos;
  }

  /** getGameWinner on a board value. */
  ghost function WinnerOf(b: Board, n: int): Option<MyColor>
    requires IsBoard(b, n)
  {
    var (first, second) := BoardScores(b, n, true);
    if first == n then Some(Red) else if second == n then Some(Blue) else None
  }

  /** getBoardScore on a board value. */
  ghost function BoardScoreOf(b: Board, n: int): int
    requires IsBoard(b, n)
  {
    var (first, second) := BoardScores(b, n, false);
    first * MULTIPLIER - second * MULTIPLIER
  }

  /** The static score is 1000, 0 or -1000 on every board. */
  lemma BoardScoreRange(b: Board, n: int)
    requires IsBoard(b, n)
    ensures BoardScoreOf(b, n) == 1000 || BoardScoreOf(b, n) == 0 || BoardScoreOf(b, n) == -1000
  {
    EdgeScanRange(b, n, true, false, 0, -NO_WIN, NO_WIN);
    EdgeScanRange(b, n, false, false, 0, -NO_WIN, NO_WIN);
  }

  /** For N other than NO_WIN the static score is 1000 per RED win minus 1000 per BLUE win. */
  lemma BoardScoreMeaning(b: Board, n: int)
    requires IsBoard(b, n) && n != NO_WIN
    ensures BoardScoreOf(b, n) == (if RedWins(b, n) then 1000 else 0) - (if BlueWins(b, n) then 1000 else 0)
  {
    EdgeScanRange(b, n, true, false, 0, -NO_WIN, NO_WIN);
    EdgeScanRange(b, n, false, false, 0, -NO_WIN, NO_WIN);
    EdgeScanDecides(b, n, true, false, 0, -NO_WIN, NO_WIN);
    EdgeScanDecides(b, n, false, false, 0, -NO_WIN, NO_WIN);
  }

  /** For 0 < N other than NO_WIN the winner is RED when RED is joined, else BLUE when BLUE is, else none. */
  lemma WinnerMeaning(b: Board, n: int)
    requires IsBoard(b, n) && 0 < n && n != NO_WIN
    ensures WinnerOf(b, n) == if RedWins(b, n) then Some(Red) else if BlueWins(b, n) then Some(Blue) else None
  {
    EdgeScanDecides(b, n, true, true, 0, -NO_WIN, NO_WIN);
    EdgeScanDecides(b, n, false, true, 0, -NO_WIN, NO_WIN);
  }

  /**
   * getGameWinner: RED when RED joins its two edges, else BLUE when BLUE
   * does, else no winner.  On the empty board (N = 0) the source's test
   * `first == N` holds trivially and it names RED.
   */
  method GetGameWinner(field: array2<MyColor>, n: int) returns (winner: Option<MyColor>)
    requires field.Length0 == n && field.Length1 == n
    ensures n == 0 ==> winner == Some(Red)
    ensures 0 < n && n != NO_WIN ==>
      && (winner == Some(Red) <==> RedWins(Snapshot(field), n))
      && (winner == Some(Blue) <==> !RedWins(Snapshot(field), n) && BlueWins(Snapshot(field), n))
      && (winner == None <==> !RedWins(Snapshot(field), n) && !BlueWins(Snapshot(field), n))
    ensures winner != Some(Blank)
    ensures winner == WinnerOf(Snapshot(field), n)
  {
    ghost var b := Snapshot(field);
    var first, second := CalcBoardScore(field, n, true);
    if 0 < n && n != NO_WIN {
      WinnerMeaning(b, n);
    }
    if first == n {
      return Some(Red);
    }
    if second == n {
      return Some(Blue);
    }
    return None;
  }

  /**
   * getBoardScore: MULTIPLIER times the difference of the two players'
   * scores, positive in RED's favour.  Each side contributes NO_WIN when it
   * has a winning chain and 0 otherwise.
   */
  method GetBoardScore(field: array2<MyColor>, n: int) returns (score: int)
    requires field.Length0 == n && field.Length1 == n
    ensures score == BoardScoreOf(Snapshot(field), n)
    ensures score == 1000 || score == 0 || score == -1000
    ensures n != NO_WIN ==>
      score == (if RedWins(Snapshot(field), n) then 1000 else 0) - (if BlueWins(Snapshot(field), n) then 1000 else 0)
  {
    ghost var b := Snapshot(field);
    var first, second := CalcBoardScore(field, n, false);
    BoardScoreRange(b, n);
    if n != NO_WIN {
      BoardScoreMeaning(b, n);
    }
    score := first * MULTIPLIER - second * MULTIPLIER;
  }
}
