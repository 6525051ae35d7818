/** The three searches of the labyrinth exercise: breadth-first with a
    first-in first-out queue, depth-first with a last-in first-out stack,
    and A* with a list sorted by `f` before each pick. Each returns the
    cells from the start to the end, or `None` when the queue runs empty.

    Every labyrinth here is `Walled` and every start is inside the border,
    so the neighbours the searches look at are always cells of the grid. */
module Searches {
  import opened Common
  import opened Labyrinth

  // ---------------------------------------------------------------------
  // Shared vocabulary
  // ---------------------------------------------------------------------

  /** All cells of a rectangular grid. */
  ghost function Cells(lab: Grid): set<Coord>
    requires |lab| > 0
  {
    set r, c | 0 <= r < |lab| && 0 <= c < |lab[0]| :: (r, c)
  }

  lemma InteriorInCells(lab: Grid, c: Coord)
    requires Interior(lab, c)
    ensures c in Cells(lab)
  {
    assert c == (c.0, c.1);
  }

  ghost function Elements(s: seq<Coord>): set<Coord>
  {
    set x | x in s
  }

  /** Marking a new cell of the grid visited leaves fewer cells unvisited. */
  lemma VisitShrinks(all: set<Coord>, seen: seq<Coord>, c: Coord)
    requires c in all && c !in seen
    ensures |all - Elements(seen + [c])| < |all - Elements(seen)|
  {
    assert Elements(seen + [c]) == Elements(seen) + {c};
    assert all - Elements(seen + [c]) == (all - Elements(seen)) - {c};
  }

  /** The cells of the vertices in `q`. */
  ghost function CoordsOf(q: seq<Vertex>): set<Coord>
  {
    set k | 0 <= k < |q| :: q[k].coords
  }

  /** The number of moves from the start to `v`. */
  function Depth(v: Vertex): nat
  {
    |Trail(v)| - 1
  }

  /** A vertex the searches may hold: inside the border, and its trail a
      walk from `start` to its cell. */
  ghost predicate Sound(lab: Grid, start: Coord, v: Vertex)
  {
    Interior(lab, v.coords) && IsWalk(lab, start, v.coords, Trail(v))
  }

  ghost predicate AllSound(lab: Grid, start: Coord, q: seq<Vertex>)
  {
    forall k :: 0 <= k < |q| ==> Sound(lab, start, q[k])
  }

  /** The vertices a search creates from `v` for the cells `ns`: one for
      each cell that is open and not yet visited, in order, each with `v`
      as its father. */
  function Children(lab: Grid, visited: seq<Coord>, v: Vertex, ns: seq<Coord>): (kids: seq<Vertex>)
    ensures |kids| <= |ns|
    ensures forall k :: 0 <= k < |kids| ==>
      kids[k].father == Some(v) && kids[k].coords in ns && Open(lab, kids[k].coords) && kids[k].coords !in visited
  {
    if ns == [] then []
    else
      var n := ns[|ns| - 1];
      var init := Children(lab, visited, v, ns[..|ns| - 1]);
      assert forall m :: m in ns[..|ns| - 1] ==> m in ns;
      var kids := init + (if Open(lab, n) && n !in visited then [Vertex(n, Some(v))] else []);
      assert forall k :: 0 <= k < |init| ==> kids[k] == init[k];
      kids
  }

  /** The inner loop of `bfs` and `dfs`: for each neighbour, in order, that
      is not visited and not a wall, a new vertex with `current` as its
      father is put in the queue (or on the stack), at the end. */
  method PutChildren(lab: Grid, visited: seq<Coord>, current: Vertex, neighbours: seq<Coord>,
                     q: seq<Vertex>) returns (q': seq<Vertex>)
    requires Walled(lab) && Interior(lab, current.coords)
    requires forall n :: n in neighbours ==> Adjacent(current.coords, n)
    ensures q' == q + Children(lab, visited, current, neighbours)
  {
    q' := q;
    for k := 0 to |neighbours|
      invariant q' == q + Children(lab, visited, current, neighbours[..k])
    {
      var n := neighbours[k];
      NeighbourInGrid(lab, current.coords, n);
      assert neighbours[..k + 1][..k] == neighbours[..k];
      if n !in visited && lab[n.0][n.1] != 1 {
        var nEdge := Vertex(n, None);
        nEdge := nEdge.(father := Some(current));
        q' := q' + [nEdge];
      }
    }
    assert neighbours[..|neighbours|] == neighbours;
  }

  /** Every open, unvisited cell of `ns` gets a child. */
  lemma {:induction false} ChildrenCover(lab: Grid, visited: seq<Coord>, v: Vertex, ns: seq<Coord>)
    ensures forall n :: n in ns && Open(lab, n) && n !in visited ==> n in CoordsOf(Children(lab, visited, v, ns))
    decreases |ns|
  {
    if ns != [] {
      var init, kids := ns[..|ns| - 1], Children(lab, visited, v, ns);
      var initKids := Children(lab, visited, v, init);
      ChildrenCover(lab, visited, v, init);
      assert forall k :: 0 <= k < |initKids| ==> kids[k] == initKids[k];
      forall n | n in ns && Open(lab, n) && n !in visited ensures n in CoordsOf(kids) {
        if n in init {
          var k :| 0 <= k < |initKids| && initKids[k].coords == n;
          assert kids[k].coords == n;
        } else {
          assert n == ns[|ns| - 1];
          assert kids[|kids| - 1].coords == n;
        }
      }
    }
  }

  /** Dropping the first vertex and adding sound ones keeps all sound. */
  lemma AllSoundDequeueEnqueue(lab: Grid, start: Coord, q: seq<Vertex>, kids: seq<Vertex>)
    requires AllSound(lab, start, q) && AllSound(lab, start, kids) && q != []
    ensures AllSound(lab, start, q[1..] + kids)
  {
    var r := q[1..] + kids;
    forall k | 0 <= k < |r| ensures Sound(lab, start, r[k]) {
      if k < |q| - 1 {
        assert r[k] == q[k + 1];
      } else {
        assert r[k] == kids[k - (|q| - 1)];
      }
    }
  }

  /** A child is one move deeper than its father, and sound when its
      father is. */
  lemma ChildSound(lab: Grid, start: Coord, visited: seq<Coord>, v: Vertex, kid: Vertex)
    requires Walled(lab) && Sound(lab, start, v)
    requires kid.father == Some(v) && kid.coords in Neighbours(v.coords) && Open(lab, kid.coords)
    ensures Sound(lab, start, kid) && Depth(kid) == Depth(v) + 1
  {
    assert Trail(kid) == Trail(v) + [kid.coords];
    OpenIsInterior(lab, kid.coords);
    WalkExtend(lab, start, v.coords, Trail(v), kid.coords);
  }

  /** Every child of a sound vertex is sound and one move deeper. */
  lemma ChildrenSound(lab: Grid, start: Coord, visited: seq<Coord>, v: Vertex)
    requires Walled(lab) && Sound(lab, start, v)
    ensures var kids := Children(lab, visited, v, Neighbours(v.coords));
      AllSound(lab, start, kids) && forall k :: 0 <= k < |kids| ==> Depth(kids[k]) == Depth(v) + 1
  {
    var kids := Children(lab, visited, v, Neighbours(v.coords));
    forall k | 0 <= k < |kids| ensures Sound(lab, start, kids[k]) && Depth(kids[k]) == Depth(v) + 1 {
      ChildSound(lab, start, visited, v, kids[k]);
    }
  }

  // ---------------------------------------------------------------------
  // bfs
  // ---------------------------------------------------------------------

  /** The queue of a breadth-first search: sorted by depth, and no vertex
      more than one move deeper than the first. */
  ghost predicate DepthOrdered(q: seq<Vertex>)
  {
    && (forall i, j :: 0 <= i < j < |q| ==> Depth(q[i]) <= Depth(q[j]))
    && (q != [] ==> Depth(q[|q| - 1]) <= Depth(q[0]) + 1)
  }

  /** The cells of the queued vertices at most `d` moves deep. */
  ghost function QueuedWithin(q: seq<Vertex>, d: int): set<Coord>
  {
    set k | 0 <= k < |q| && Depth(q[k]) <= d :: q[k].coords
  }

  /** A cell queued within `d` moves means the first of the queue is. */
  lemma FrontWithin(q: seq<Vertex>, x: Coord, d: int)
    requires DepthOrdered(q) && x in QueuedWithin(q, d)
    ensures q != [] && Depth(q[0]) <= d
  {
    var k :| 0 <= k < |q| && Depth(q[k]) <= d && q[k].coords == x;
    if k > 0 {
      assert Depth(q[0]) <= Depth(q[k]);
    }
  }

  /** Cell `n`, an open neighbour of the visited cell `x`, is visited at
      most one move further than `x`, or queued at most one move further. */
  ghost predicate Covered(dist: map<Coord, nat>, q: seq<Vertex>, x: Coord, n: Coord)
    requires x in dist
  {
    (n in dist && dist[n] <= dist[x] + 1) || n in QueuedWithin(q, dist[x] + 1)
  }

  /** No open neighbour of a visited cell is left behind. */
  ghost predicate BfsClosed(lab: Grid, dist: map<Coord, nat>, q: seq<Vertex>)
  {
    forall x, n :: x in dist && Adjacent(x, n) && Open(lab, n) ==> Covered(dist, q, x, n)
  }

  /** What holds at the head of each round of `bfs`. `dist` maps each
      visited cell to the depth at which it was visited. */
  ghost predicate BfsInv(lab: Grid, start: Coord, end: Coord, q: seq<Vertex>,
                         visited: seq<Coord>, dist: map<Coord, nat>)
  {
    && Walled(lab)
    && Elements(visited) == dist.Keys
    && AllSound(lab, start, q)
    && DepthOrdered(q)
    && (visited == [] ==> q == [Vertex(start, None)])
    && (visited != [] ==> start in dist && dist[start] == 0)
    && end !in dist
    && (q != [] ==> forall x :: x in dist ==> dist[x] <= Depth(q[0]))
    && BfsClosed(lab, dist, q)
  }

  /** Following a walk from the start, each cell is visited no deeper than
      its position along the walk, unless the first of the queue is already
      at least that deep. */
  lemma {:induction false} WalkCovered(lab: Grid, start: Coord, to: Coord, w: seq<Coord>,
                                       q: seq<Vertex>, dist: map<Coord, nat>)
    requires BfsClosed(lab, dist, q) && DepthOrdered(q) && start in dist && dist[start] == 0
    requires IsWalk(lab, start, to, w)
    ensures (to in dist && dist[to] <= |w| - 1) || (q != [] && Depth(q[0]) <= |w| - 1)
    decreases |w|
  {
    if |w| > 1 {
      var prev := w[|w| - 2];
      WalkPrefix(lab, start, to, w);
      WalkCovered(lab, start, prev, w[..|w| - 1], q, dist);
      if prev in dist && dist[prev] <= |w| - 2 {
        assert StepAt(lab, w, |w| - 1);
        assert Covered(dist, q, prev, to);
        if to in QueuedWithin(q, dist[prev] + 1) {
          FrontWithin(q, to, dist[prev] + 1);
        }
      }
    }
  }

  /** When the end is dequeued, no walk from the start to the end is
      shorter than the dequeued vertex's trail. */
  lemma BfsFound(lab: Grid, start: Coord, end: Coord, q: seq<Vertex>,
                 visited: seq<Coord>, dist: map<Coord, nat>)
    requires BfsInv(lab, start, end, q, visited, dist) && q != [] && q[0].coords == end
    ensures IsWalk(lab, start, end, Trail(q[0]))
    ensures forall w :: IsWalk(lab, start, end, w) ==> |Trail(q[0])| <= |w|
    ensures start == end ==> Trail(q[0]) == [start]
  {
    assert Sound(lab, start, q[0]);
    forall w | IsWalk(lab, start, end, w) ensures |Trail(q[0])| <= |w| {
      if visited != [] {
        WalkCovered(lab, start, end, w, q, dist);
      }
    }
  }

  /** Dequeuing a vertex whose cell is already visited keeps the
      invariant. */
  lemma BfsSkip(lab: Grid, start: Coord, end: Coord, q: seq<Vertex>,
                visited: seq<Coord>, dist: map<Coord, nat>)
    requires BfsInv(lab, start, end, q, visited, dist) && q != [] && q[0].coords in visited
    ensures BfsInv(lab, start, end, q[1..], visited, dist)
  {
    var c, rest := q[0].coords, q[1..];
    assert c in Elements(visited);
    assert forall k :: 0 <= k < |rest| ==> rest[k] == q[k + 1];
    forall x, n | x in dist && Adjacent(x, n) && Open(lab, n) ensures Covered(dist, rest, x, n) {
      assert Covered(dist, q, x, n);
      if !(n in dist && dist[n] <= dist[x] + 1) {
        var k :| 0 <= k < |q| && Depth(q[k]) <= dist[x] + 1 && q[k].coords == n;
        assert k != 0;
        assert rest[k - 1].coords == n;
      }
    }
    if rest != [] {
      assert Depth(q[0]) <= Depth(rest[0]);
    }
  }

  /** Dequeuing the first vertex and queuing vertices one move deeper
      keeps the depth order, and the new first vertex is no shallower. */
  lemma ExpandOrdered(q: seq<Vertex>, kids: seq<Vertex>)
    requires DepthOrdered(q) && q != []
    requires forall k :: 0 <= k < |kids| ==> Depth(kids[k]) == Depth(q[0]) + 1
    ensures DepthOrdered(q[1..] + kids)
    ensures q[1..] + kids != [] ==> Depth(q[0]) <= Depth((q[1..] + kids)[0])
  {
    var r := q[1..] + kids;
    ExpandBounds(q, kids, r);
    ExpandPairs(q, kids, r);
  }

  /** After the first vertex leaves and its children join, every queued
      vertex is as deep as the first was, or one move deeper. */
  lemma ExpandBounds(q: seq<Vertex>, kids: seq<Vertex>, r: seq<Vertex>)
    requires DepthOrdered(q) && q != [] && r == q[1..] + kids
    requires forall k :: 0 <= k < |kids| ==> Depth(kids[k]) == Depth(q[0]) + 1
    ensures forall i :: 0 <= i < |r| ==> Depth(q[0]) <= Depth(r[i]) <= Depth(q[0]) + 1
  {
    forall i | 0 <= i < |r| ensures Depth(q[0]) <= Depth(r[i]) <= Depth(q[0]) + 1 {
      if i < |q| - 1 {
        assert r[i] == q[i + 1];
        assert Depth(q[i + 1]) <= Depth(q[|q| - 1]);
      } else {
        assert r[i] == kids[i - (|q| - 1)];
      }
    }
  }

  /** After the first vertex leaves and its children join, the queue is
      still sorted by depth. */
  lemma ExpandPairs(q: seq<Vertex>, kids: seq<Vertex>, r: seq<Vertex>)
    requires DepthOrdered(q) && q != [] && r == q[1..] + kids
    requires forall k :: 0 <= k < |kids| ==> Depth(kids[k]) == Depth(q[0]) + 1
    ensures forall i, j :: 0 <= i < j < |r| ==> Depth(r[i]) <= Depth(r[j])
  {
    forall i, j | 0 <= i < j < |r| ensures Depth(r[i]) <= Depth(r[j]) {
      if j < |q| - 1 {
        assert r[i] == q[i + 1] && r[j] == q[j + 1];
      } else {
        assert r[j] == kids[j - (|q| - 1)];
        if i < |q| - 1 {
          assert r[i] == q[i + 1];
          assert Depth(q[i + 1]) <= Depth(q[|q| - 1]);
        } else {
          assert r[i] == kids[i - (|q| - 1)];
        }
      }
    }
  }

  /** Marking the first vertex's cell visited at its depth, after queuing
      a child for each open, unvisited neighbour, leaves no open neighbour
      of a visited cell behind. */
  lemma ExpandClosed(lab: Grid, q: seq<Vertex>, kids: seq<Vertex>, visited: seq<Coord>, dist: map<Coord, nat>)
    requires BfsClosed(lab, dist, q) && q != [] && Elements(visited) == dist.Keys
    requires q[0].coords !in dist
    requires forall x :: x in dist ==> dist[x] <= Depth(q[0])
    requires forall n :: n in Neighbours(q[0].coords) && Open(lab, n) && n !in visited ==> n in CoordsOf(kids)
    requires forall k :: 0 <= k < |kids| ==> Depth(kids[k]) == Depth(q[0]) + 1
    ensures BfsClosed(lab, dist[q[0].coords := Depth(q[0])], q[1..] + kids)
  {
    var c, d := q[0].coords, Depth(q[0]);
    var q', dist' := q[1..] + kids, dist[c := d];
    forall x, n | x in dist' && Adjacent(x, n) && Open(lab, n) ensures Covered(dist', q', x, n) {
      if x == c {
        if n !in dist {
          assert n in Neighbours(c);
          assert n !in visited by {
            assert n !in Elements(visited);
          }
          var kk :| 0 <= kk < |kids| && kids[kk].coords == n;
          assert q'[|q| - 1 + kk] == kids[kk];
        }
      } else {
        assert Covered(dist, q, x, n);
        if !(n in dist && dist[n] <= dist[x] + 1) {
          var k :| 0 <= k < |q| && Depth(q[k]) <= dist[x] + 1 && q[k].coords == n;
          if k > 0 {
            assert q'[k - 1] == q[k];
          }
        }
      }
    }
  }

  /** Dequeuing an unvisited vertex that is not at the end, queuing its
      children and marking its cell visited at its depth keeps the
      invariant. */
  lemma BfsExpand(lab: Grid, start: Coord, end: Coord, q: seq<Vertex>,
                  visited: seq<Coord>, dist: map<Coord, nat>)
    requires BfsInv(lab, start, end, q, visited, dist) && q != []
    requires q[0].coords !in visited && q[0].coords != end
    ensures BfsInv(lab, start, end, q[1..] + Children(lab, visited, q[0], Neighbours(q[0].coords)),
                   visited + [q[0].coords], dist[q[0].coords := Depth(q[0])])
  {
    var v := q[0];
    var c, d := v.coords, Depth(v);
    var kids := Children(lab, visited, v, Neighbours(c));
    var q', dist' := q[1..] + kids, dist[c := d];
    assert c !in dist by {
      assert c !in Elements(visited);
    }
    assert Elements(visited + [c]) == dist'.Keys by {
      assert Elements(visited + [c]) == Elements(visited) + {c};
    }
    assert Sound(lab, start, v);
    ChildrenSound(lab, start, visited, v);
    ChildrenCover(lab, visited, v, Neighbours(c));
    AllSoundDequeueEnqueue(lab, start, q, kids);
    ExpandOrdered(q, kids);
    ExpandClosed(lab, q, kids, visited, dist);
    assert visited == [] ==> v == Vertex(start, None);
    assert start in dist' && dist'[start] == 0;
    assert end !in dist';
    if q' != [] {
      DistStaysBelow(dist, c, d, Depth(q'[0]), dist');
    }
    assert visited + [c] != [];
  }

  /** Recording depth `d` keeps every recorded depth at most `e` when the
      old ones were at most `d` and `d` is at most `e`. */
  lemma DistStaysBelow(dist: map<Coord, nat>, c: Coord, d: nat, e: nat, dist': map<Coord, nat>)
    requires (forall x :: x in dist ==> dist[x] <= d) && d <= e && dist' == dist[c := d]
    ensures forall x :: x in dist' ==> dist'[x] <= e
  {
  }

  /** When the queue runs empty, no walk leads from the start to the end. */
  lemma BfsExhausted(lab: Grid, start: Coord, end: Coord, visited: seq<Coord>, dist: map<Coord, nat>)
    requires BfsInv(lab, start, end, [], visited, dist)
    ensures forall w :: !IsWalk(lab, start, end, w)
  {
    forall w | IsWalk(lab, start, end, w) ensures false {
      WalkCovered(lab, start, end, w, [], dist);
    }
  }

  /** `bfs`: a first-in first-out queue of vertices, starting with the start
      vertex. A dequeued vertex at the end gives its path; one whose cell is
      already visited is dropped; any other queues a child for each open,
      unvisited neighbour and marks its cell visited. The path found is a
      walk from the start to the end with no walk shorter, and `None` means
      there is no walk at all. */
  method Bfs(lab: Grid, start: Coord, end: Coord) returns (path: Option<seq<Coord>>)
    requires Walled(lab) && Interior(lab, start)
    ensures path.Some? ==> IsWalk(lab, start, end, path.value)
    ensures path.Some? ==> forall w :: IsWalk(lab, start, end, w) ==> |path.value| <= |w|
    ensures path.None? ==> forall w :: !IsWalk(lab, start, end, w)
    ensures start == end ==> path == Some([start])
  {
    var q := [Vertex(start, None)];
    var visited: seq<Coord> := [];
    ghost var dist: map<Coord, nat> := map[];
    assert IsWalk(lab, start, start, Trail(q[0]));
    while q != []
      invariant BfsInv(lab, start, end, q, visited, dist)
      decreases |Cells(lab) - Elements(visited)|, |q|
    {
      ghost var q0 := q;
      var current := q[0];
      q := q[1..];
      if current.coords == end {
        BfsFound(lab, start, end, q0, visited, dist);
        var p := GetPath(current);
        return Some(p);
      }
      if current.coords in visited {
        BfsSkip(lab, start, end, q0, visited, dist);
        continue;
      }
      var neighbours := GetNeighbours(current.coords);
      assert Sound(lab, start, current);
      q := PutChildren(lab, visited, current, neighbours, q);
      BfsExpand(lab, start, end, q0, visited, dist);
      InteriorInCells(lab, current.coords);
      VisitShrinks(Cells(lab), visited, current.coords);
      visited := visited + [current.coords];
      dist := dist[current.coords := Depth(current)];
    }
    BfsExhausted(lab, start, end, visited, dist);
    return None;
  }

  // ---------------------------------------------------------------------
  // dfs
  // ---------------------------------------------------------------------

  /** The number of cells of the grid not yet visited. */
  ghost function Unvisited(lab: Grid, visited: seq<Coord>): nat
    requires |lab| > 0
  {
    |Cells(lab) - Elements(visited)|
  }

  function Pow5(u: nat): (p: nat)
    ensures p >= 1
  {
    if u == 0 then 1 else 5 * Pow5(u - 1)
  }

  lemma {:induction false} Pow5Grows(a: nat, b: nat)
    requires a > b
    ensures Pow5(a) >= 5 * Pow5(b)
    decreases a
  {
    if a > b + 1 {
      Pow5Grows(a - 1, b);
    }
  }

  /** The weight of a stack whose entries were pushed when `ps[k]` cells
      were unvisited: an entry pushed earlier weighs more than any four
      pushed later. */
  ghost function Weight(ps: seq<nat>): nat
  {
    if ps == [] then 0 else Weight(ps[..|ps| - 1]) + Pow5(ps[|ps| - 1])
  }

  ghost function Repeat(u: nat, m: nat): (r: seq<nat>)
    ensures |r| == m && forall k :: 0 <= k < m ==> r[k] == u
  {
    seq(m, _ => u)
  }

  /** Pushing one entry adds its weight. */
  lemma WeightPush(r: seq<nat>, x: nat)
    ensures Weight(r + [x]) == Weight(r) + Pow5(x)
  {
    assert (r + [x])[..|r|] == r;
  }

  lemma RepeatPush(ps: seq<nat>, u: nat, m: nat)
    requires m > 0
    ensures ps + Repeat(u, m) == (ps + Repeat(u, m - 1)) + [u]
  {
    assert Repeat(u, m) == Repeat(u, m - 1) + [u];
  }

  lemma {:induction false} WeightRepeat(ps: seq<nat>, u: nat, m: nat)
    ensures Weight(ps + Repeat(u, m)) == Weight(ps) + m * Pow5(u)
    decreases m
  {
    if m == 0 {
      assert ps + Repeat(u, m) == ps;
    } else {
      RepeatPush(ps, u, m);
      WeightPush(ps + Repeat(u, m - 1), u);
      WeightRepeat(ps, u, m - 1);
      var p := Pow5(u);
      assert (m - 1) * p + p == m * p;
    }
  }

  /** No open neighbour of a visited cell is left unvisited and off the
      stack. */
  ghost predicate DfsClosed(lab: Grid, visited: seq<Coord>, q: seq<Vertex>)
  {
    forall x, n :: x in visited && Adjacent(x, n) && Open(lab, n) ==> n in visited || n in CoordsOf(q)
  }

  /** What holds at the head of each round of `dfs`. The stack's top is its
      last vertex; `pushedAt[k]` is the number of unvisited cells when
      vertex `k` was pushed, and a vertex pushed since the last new visit
      is at an unvisited cell. */
  ghost predicate DfsInv(lab: Grid, start: Coord, end: Coord, q: seq<Vertex>,
                         visited: seq<Coord>, pushedAt: seq<nat>)
  {
    && Walled(lab)
    && AllSound(lab, start, q)
    && |pushedAt| == |q|
    && (forall k :: 0 <= k < |q| ==> pushedAt[k] >= Unvisited(lab, visited))
    && (forall k :: 0 <= k < |q| && pushedAt[k] == Unvisited(lab, visited) ==> q[k].coords !in visited)
    && (visited == [] ==> q == [Vertex(start, None)])
    && (visited != [] ==> start in visited)
    && end !in visited
    && DfsClosed(lab, visited, q)
  }

  /** The stack holding only the start vertex, before any visit. */
  lemma DfsStart(lab: Grid, start: Coord, end: Coord)
    requires Walled(lab) && Interior(lab, start)
    ensures DfsInv(lab, start, end, [Vertex(start, None)], [], [Unvisited(lab, [])])
  {
    assert IsWalk(lab, start, start, Trail(Vertex(start, None)));
  }

  /** A walk from a visited cell stays among the visited cells when every
      open neighbour of a visited cell is visited. */
  lemma {:induction false} WalkStaysVisited(lab: Grid, start: Coord, to: Coord, w: seq<Coord>, visited: seq<Coord>)
    requires forall x, n :: x in visited && Adjacent(x, n) && Open(lab, n) ==> n in visited
    requires start in visited && IsWalk(lab, start, to, w)
    ensures to in visited
    decreases |w|
  {
    if |w| > 1 {
      WalkPrefix(lab, start, to, w);
      WalkStaysVisited(lab, start, w[|w| - 2], w[..|w| - 1], visited);
      assert StepAt(lab, w, |w| - 1);
    }
  }

  /** The vertex popped at the end carries a walk from the start. */
  lemma DfsFound(lab: Grid, start: Coord, end: Coord, q: seq<Vertex>, visited: seq<Coord>, pushedAt: seq<nat>)
    requires DfsInv(lab, start, end, q, visited, pushedAt) && q != [] && q[|q| - 1].coords == end
    ensures IsWalk(lab, start, end, Trail(q[|q| - 1]))
    ensures start == end ==> Trail(q[|q| - 1]) == [start]
  {
    assert Sound(lab, start, q[|q| - 1]);
  }

  /** Closure after a round: the popped cell is visited and its open,
      unvisited neighbours are on the stack. */
  lemma DfsStepClosed(lab: Grid, q: seq<Vertex>, kids: seq<Vertex>, visited: seq<Coord>)
    requires DfsClosed(lab, visited, q) && q != []
    requires forall n :: n in Neighbours(q[|q| - 1].coords) && Open(lab, n) && n !in visited ==> n in CoordsOf(kids)
    ensures DfsClosed(lab, visited + [q[|q| - 1].coords], q[..|q| - 1] + kids)
  {
    var c := q[|q| - 1].coords;
    var q', visited' := q[..|q| - 1] + kids, visited + [c];
    forall x, n | x in visited' && Adjacent(x, n) && Open(lab, n) ensures n in visited' || n in CoordsOf(q') {
      if n !in visited && n != c {
        if x == c {
          assert n in Neighbours(c);
          var kk :| 0 <= kk < |kids| && kids[kk].coords == n;
          assert q'[|q| - 1 + kk] == kids[kk];
        } else {
          assert x in visited;
          var k :| 0 <= k < |q| && q[k].coords == n;
          assert k < |q| - 1;
          assert q'[k] == q[k];
        }
      }
    }
  }

  /** The push-time counts after a round: the popped entry is gone and the
      children are recorded at the count before the round. */
  lemma DfsStepCounts(lab: Grid, q: seq<Vertex>, kids: seq<Vertex>, visited: seq<Coord>, pushedAt: seq<nat>)
    requires Walled(lab) && q != [] && |pushedAt| == |q| && Interior(lab, q[|q| - 1].coords)
    requires forall k :: 0 <= k < |q| ==> pushedAt[k] >= Unvisited(lab, visited)
    requires forall k :: 0 <= k < |q| && pushedAt[k] == Unvisited(lab, visited) ==> q[k].coords !in visited
    requires forall k :: 0 <= k < |kids| ==> kids[k].coords !in visited
    ensures var c, u := q[|q| - 1].coords, Unvisited(lab, visited);
      var q', p' := q[..|q| - 1] + kids, pushedAt[..|q| - 1] + Repeat(u, |kids|);
      && |p'| == |q'|
      && (forall k :: 0 <= k < |q'| ==> p'[k] >= Unvisited(lab, visited + [c]))
      && (forall k :: 0 <= k < |q'| && p'[k] == Unvisited(lab, visited + [c]) ==> q'[k].coords !in visited + [c])
  {
    var c, u := q[|q| - 1].coords, Unvisited(lab, visited);
    var q', p' := q[..|q| - 1] + kids, pushedAt[..|q| - 1] + Repeat(u, |kids|);
    var u' := Unvisited(lab, visited + [c]);
    if c in visited {
      assert Elements(visited + [c]) == Elements(visited);
    } else {
      InteriorInCells(lab, c);
      VisitShrinks(Cells(lab), visited, c);
    }
    forall k | 0 <= k < |q'| ensures p'[k] >= u' && (p'[k] == u' ==> q'[k].coords !in visited + [c]) {
      if k < |q| - 1 {
        assert p'[k] == pushedAt[k] && q'[k] == q[k];
      } else {
        assert p'[k] == u && q'[k] == kids[k - (|q| - 1)];
      }
    }
  }

  /** Each round either visits a new cell, or pops a cell visited before,
      and then the stack weighs less: the popped entry outweighs the at
      most four children pushed. */
  lemma DfsStepDecreases(lab: Grid, q: seq<Vertex>, kids: seq<Vertex>, visited: seq<Coord>, pushedAt: seq<nat>)
    requires Walled(lab) && q != [] && |pushedAt| == |q| && |kids| <= 4
    requires Interior(lab, q[|q| - 1].coords)
    requires pushedAt[|q| - 1] >= Unvisited(lab, visited)
    requires pushedAt[|q| - 1] == Unvisited(lab, visited) ==> q[|q| - 1].coords !in visited
    ensures var c, u := q[|q| - 1].coords, Unvisited(lab, visited);
      || Unvisited(lab, visited + [c]) < u
      || (Unvisited(lab, visited + [c]) == u && Weight(pushedAt[..|q| - 1] + Repeat(u, |kids|)) < Weight(pushedAt))
  {
    var c, u := q[|q| - 1].coords, Unvisited(lab, visited);
    if c !in visited {
      InteriorInCells(lab, c);
      VisitShrinks(Cells(lab), visited, c);
    } else {
      assert Elements(visited + [c]) == Elements(visited);
      var rest, top := pushedAt[..|q| - 1], pushedAt[|q| - 1];
      assert pushedAt == rest + [top];
      WeightPush(rest, top);
      WeightRepeat(rest, u, |kids|);
      PopPushLighter(Weight(rest), top, u, |kids|);
    }
  }

  /** An entry pushed when more cells were unvisited outweighs at most four
      entries pushed now. */
  lemma PopPushLighter(w: nat, top: nat, u: nat, k: nat)
    requires top > u && k <= 4
    ensures w + k * Pow5(u) < w + Pow5(top)
  {
    Pow5Grows(top, u);
    var p := Pow5(u);
    if k == 0 {
    } else if k == 1 {
    } else if k == 2 {
      assert k * p == p + p;
    } else if k == 3 {
      assert k * p == p + p + p;
    } else {
      assert k * p == p + p + p + p;
    }
  }

  /** A round of `dfs` that does not find the end keeps the invariant and
      decreases the measure: from stack `q`, visited cells `visited` and
      push-time counts `pushedAt` to `q'`, `visited'` and `pushedAt'`. */
  lemma DfsStep(lab: Grid, start: Coord, end: Coord, q: seq<Vertex>, visited: seq<Coord>, pushedAt: seq<nat>,
                q': seq<Vertex>, visited': seq<Coord>, pushedAt': seq<nat>)
    requires DfsInv(lab, start, end, q, visited, pushedAt) && q != [] && q[|q| - 1].coords != end
    requires var v := q[|q| - 1];
      var kids := Children(lab, visited, v, Neighbours(v.coords));
      && q' == q[..|q| - 1] + kids
      && visited' == visited + [v.coords]
      && pushedAt' == pushedAt[..|q| - 1] + Repeat(Unvisited(lab, visited), |kids|)
    ensures DfsInv(lab, start, end, q', visited', pushedAt')
    ensures || Unvisited(lab, visited') < Unvisited(lab, visited)
            || (Unvisited(lab, visited') == Unvisited(lab, visited) && Weight(pushedAt') < Weight(pushedAt))
  {
    var v := q[|q| - 1];
    var c := v.coords;
    var kids := Children(lab, visited, v, Neighbours(c));
    assert Sound(lab, start, v);
    ChildrenSound(lab, start, visited, v);
    ChildrenCover(lab, visited, v, Neighbours(c));
    AllSoundPopPush(lab, start, q, kids);
    DfsStepClosed(lab, q, kids, visited);
    DfsStepCounts(lab, q, kids, visited, pushedAt);
    DfsStepDecreases(lab, q, kids, visited, pushedAt);
    assert visited == [] ==> v == Vertex(start, None);
  }

  /** Dropping the top vertex and pushing sound ones keeps all sound. */
  lemma AllSoundPopPush(lab: Grid, start: Coord, q: seq<Vertex>, kids: seq<Vertex>)
    requires AllSound(lab, start, q) && AllSound(lab, start, kids) && q != []
    ensures AllSound(lab, start, q[..|q| - 1] + kids)
  {
    var r := q[..|q| - 1] + kids;
    forall k | 0 <= k < |r| ensures Sound(lab, start, r[k]) {
      if k < |q| - 1 {
        assert r[k] == q[k];
      } else {
        assert r[k] == kids[k - (|q| - 1)];
      }
    }
  }

  /** When the stack runs empty, no walk leads from the start to the end. */
  lemma DfsExhausted(lab: Grid, start: Coord, end: Coord, visited: seq<Coord>, pushedAt: seq<nat>)
    requires DfsInv(lab, start, end, [], visited, pushedAt)
    ensures forall w :: !IsWalk(lab, start, end, w)
  {
    assert CoordsOf([]) == {};
    forall w | IsWalk(lab, start, end, w) ensures false {
      WalkStaysVisited(lab, start, end, w, visited);
    }
  }

  /** The rest of a round of `dfs` once the popped vertex `current` is not
      at the end: pushes its children onto the rest `q` of the stack and
      marks its cell visited. */
  method DfsVisit(lab: Grid, start: Coord, end: Coord, current: Vertex, q: seq<Vertex>, visited: seq<Coord>,
                  ghost q0: seq<Vertex>, ghost pushedAt: seq<nat>)
    returns (q': seq<Vertex>, visited': seq<Coord>, ghost pushedAt': seq<nat>)
    requires DfsInv(lab, start, end, q0, visited, pushedAt) && q0 != []
    requires current == q0[|q0| - 1] && q == q0[..|q0| - 1] && current.coords != end
    ensures q' == q + Children(lab, visited, current, Neighbours(current.coords))
    ensures visited' == visited + [current.coords]
    ensures DfsInv(lab, start, end, q', visited', pushedAt')
    ensures || Unvisited(lab, visited') < Unvisited(lab, visited)
            || (Unvisited(lab, visited') == Unvisited(lab, visited) && Weight(pushedAt') < Weight(pushedAt))
  {
    var neighbours := GetNeighbours(current.coords);
    assert Sound(lab, start, current);
    ghost var kids := Children(lab, visited, current, neighbours);
    q' := PutChildren(lab, visited, current, neighbours, q);
    pushedAt' := pushedAt[..|q0| - 1] + Repeat(Unvisited(lab, visited), |kids|);
    visited' := visited + [current.coords];
    DfsStep(lab, start, end, q0, visited, pushedAt, q', visited', pushedAt');
  }

  /** `dfs`: a last-in first-out stack of vertices, starting with the start
      vertex. A popped vertex at the end gives its path; any other, visited
      before or not, pushes a child for each open, unvisited neighbour and
      marks its cell visited. The path found is a walk from the start to the
      end, and `None` means there is no walk at all. */
  method Dfs(lab: Grid, start: Coord, end: Coord) returns (path: Option<seq<Coord>>)
    requires Walled(lab) && Interior(lab, start)
    ensures path.Some? ==> IsWalk(lab, start, end, path.value)
    ensures path.None? ==> forall w :: !IsWalk(lab, start, end, w)
    ensures start == end ==> path == Some([start])
  {
    var q := [Vertex(start, None)];
    var visited: seq<Coord> := [];
    ghost var pushedAt: seq<nat> := [Unvisited(lab, [])];
    DfsStart(lab, start, end);
    while q != []
      invariant DfsInv(lab, start, end, q, visited, pushedAt)
      decreases Unvisited(lab, visited), Weight(pushedAt)
    {
      ghost var q0 := q;
      var current := q[|q| - 1];
      q := q[..|q| - 1];
      if current.coords == end {
        DfsFound(lab, start, end, q0, visited, pushedAt);
        var p := GetPath(current);
        return Some(p);
      }
      q, visited, pushedAt := DfsVisit(lab, start, end, current, q, visited, q0, pushedAt);
    }
    DfsExhausted(lab, start, end, visited, pushedAt);
    return None;
  }

  // ---------------------------------------------------------------------
  // a_star
  // ---------------------------------------------------------------------

  /** `f` of `a` is set and strictly below `f` of `b`. */
  predicate FBelow(a: VertexAStar, b: VertexAStar)
  {
    a.f.Some? && b.f.Some? && a.f.value < b.f.value
  }

  /** A list the sort can order: every `f` is set, or there is at most one
      vertex and nothing to compare (comparing an unset `f` would raise). */
  predicate KeyedOrSingle(s: seq<VertexAStar>)
  {
    |s| <= 1 || forall i :: 0 <= i < |s| ==> s[i].f.Some?
  }

  predicate FSorted(s: seq<VertexAStar>)
  {
    forall i, j :: 0 <= i < j < |s| ==> s[i].f.Some? && s[j].f.Some? && s[i].f.value <= s[j].f.value
  }

  /** Inserts `x` before the first vertex whose `f` is not below its own. */
  function InsertByF(x: VertexAStar, t: seq<VertexAStar>): (r: seq<VertexAStar>)
    requires t == [] || (x.f.Some? && forall i :: 0 <= i < |t| ==> t[i].f.Some?)
    ensures |r| == |t| + 1 && multiset(r) == multiset(t) + multiset{x}
  {
    if t == [] then [x]
    else if x.f.value <= t[0].f.value then [x] + t
    else
      assert forall i :: 0 <= i < |t[1..]| ==> t[1..][i] == t[i + 1];
      var rest := InsertByF(x, t[1..]);
      assert multiset(t) == multiset{t[0]} + multiset(t[1..]) by {
        assert t == [t[0]] + t[1..];
      }
      [t[0]] + rest
  }

  /** Every vertex of `s` has `f` set and at least `b`. */
  predicate AtLeast(b: int, s: seq<VertexAStar>)
  {
    forall k :: 0 <= k < |s| ==> s[k].f.Some? && b <= s[k].f.value
  }

  lemma {:induction false} InsertKeepsBound(x: VertexAStar, t: seq<VertexAStar>, b: int)
    requires t == [] || (x.f.Some? && forall i :: 0 <= i < |t| ==> t[i].f.Some?)
    requires AtLeast(b, t) && x.f.Some? && b <= x.f.value
    ensures AtLeast(b, InsertByF(x, t))
    decreases |t|
  {
    if t != [] && x.f.value > t[0].f.value {
      InsertKeepsBound(x, t[1..], b);
    }
  }

  lemma ConsSorted(a: VertexAStar, s: seq<VertexAStar>)
    requires a.f.Some? && AtLeast(a.f.value, s) && FSorted(s)
    ensures FSorted([a] + s)
  {
    var r := [a] + s;
    forall i, j | 0 <= i < j < |r| ensures r[i].f.Some? && r[j].f.Some? && r[i].f.value <= r[j].f.value {
      assert r[j] == s[j - 1];
      if i > 0 {
        assert r[i] == s[i - 1];
      }
    }
  }

  /** Inserting into a sorted list keeps it sorted. */
  lemma {:induction false} InsertByFSorted(x: VertexAStar, t: seq<VertexAStar>)
    requires t == [] || (x.f.Some? && forall i :: 0 <= i < |t| ==> t[i].f.Some?)
    requires FSorted(t)
    ensures FSorted(InsertByF(x, t))
    decreases |t|
  {
    if t == [] {
    } else if x.f.value <= t[0].f.value {
      ConsSorted(x, t);
    } else {
      InsertByFSorted(x, t[1..]);
      InsertKeepsBound(x, t[1..], t[0].f.value);
      ConsSorted(t[0], InsertByF(x, t[1..]));
    }
  }

  /** The stable sort `opened.sort(key=f)`: a permutation of `s`. That it
      is in non-decreasing `f` is `SortByFSorted`. */
  function SortByF(s: seq<VertexAStar>): (r: seq<VertexAStar>)
    requires KeyedOrSingle(s)
    ensures |r| == |s| && multiset(r) == multiset(s)
    ensures |s| <= 1 ==> r == s
  {
    if s == [] then []
    else
      var rest := SortByF(s[1..]);
      SortStep(s, rest);
      InsertByF(s[0], rest)
  }

  /** What one step of the sort needs of the sorted rest: its vertices all
      have `f` set when there is something to compare, and with the first
      vertex it holds what `s` holds. */
  lemma SortStep(s: seq<VertexAStar>, rest: seq<VertexAStar>)
    requires KeyedOrSingle(s) && s != [] && multiset(rest) == multiset(s[1..])
    ensures rest == [] || (s[0].f.Some? && forall i :: 0 <= i < |rest| ==> rest[i].f.Some?)
    ensures multiset(rest) + multiset{s[0]} == multiset(s)
  {
    assert s == [s[0]] + s[1..];
    forall i | 0 <= i < |rest| ensures rest[i].f.Some? {
      assert rest[i] in multiset(s[1..]);
    }
  }

  /** The sort leaves the list in non-decreasing `f`. */
  lemma {:induction false} SortByFSorted(s: seq<VertexAStar>)
    requires KeyedOrSingle(s)
    ensures FSorted(SortByF(s))
    decreases |s|
  {
    if s != [] {
      SortByFSorted(s[1..]);
      assert forall y :: y in s[1..] ==> y in s;
      InsertByFSorted(s[0], SortByF(s[1..]));
    }
  }

  /** The position of the first vertex of least `f` in `s`. */
  function EarliestLowestF(s: seq<VertexAStar>): (m: nat)
    requires |s| >= 1 && KeyedOrSingle(s)
    ensures m < |s|
    ensures forall i :: 0 <= i < m ==> FBelow(s[m], s[i])
    ensures forall i :: m < i < |s| ==> !FBelow(s[i], s[m])
  {
    if |s| == 1 then 0
    else
      var m' := EarliestLowestF(s[1..]);
      assert forall i :: 1 <= i < |s| ==> s[i] == s[1..][i - 1];
      if FBelow(s[1 + m'], s[0]) then 1 + m' else 0
  }

  /** After the sort, the first vertex, the one `pop(0)` takes, is the
      earliest vertex of least `f`: the sort is stable. */
  lemma {:induction false} SortFirstIsEarliestLowest(s: seq<VertexAStar>)
    requires |s| >= 1 && KeyedOrSingle(s)
    ensures SortByF(s)[0] == s[EarliestLowestF(s)]
    decreases |s|
  {
    if |s| > 1 {
      var t := s[1..];
      SortFirstIsEarliestLowest(t);
      var m' := EarliestLowestF(t);
      assert forall i :: 1 <= i < |s| ==> s[i] == t[i - 1];
      assert SortByF(t)[0] == s[1 + m'];
    }
  }

  /** The cells of the vertices in `openList`. */
  ghost function OpenCoords(openList: seq<VertexAStar>): set<Coord>
  {
    set v | v in openList :: v.vertex.coords
  }

  /** `h` and `f` as `calculate_h` and `calculate_f` set them. */
  ghost predicate Estimated(v: VertexAStar, end: Coord)
  {
    v.h == Some(MoveCost * Manhattan(end, v.vertex.coords)) && v.f == Some(v.g + v.h.value)
  }

  /** The vertices `a_star` creates from `v` for the cells `ns`: one for
      each cell that is open and not closed, in order, with `v` as father
      and `h` and `f` computed. */
  function AStarChildren(lab: Grid, closed: seq<Coord>, v: VertexAStar, end: Coord, ns: seq<Coord>)
    : (kids: seq<VertexAStar>)
    ensures |kids| <= |ns|
    ensures forall k :: 0 <= k < |kids| ==>
      && kids[k].vertex.father == Some(v.vertex) && kids[k].g == v.g + MoveCost && Estimated(kids[k], end)
      && kids[k].vertex.coords in ns && Open(lab, kids[k].vertex.coords) && kids[k].vertex.coords !in closed
  {
    if ns == [] then []
    else
      var n := ns[|ns| - 1];
      var init := AStarChildren(lab, closed, v, end, ns[..|ns| - 1]);
      assert forall m :: m in ns[..|ns| - 1] ==> m in ns;
      var kids := init + (if Open(lab, n) && n !in closed
                          then [CalculateF(CalculateH(NewVertexAStar(n, Some(v)), end))] else []);
      assert forall k :: 0 <= k < |init| ==> kids[k] == init[k];
      kids
  }

  /** Every open cell of `ns` that is not closed gets a child. */
  lemma {:induction false} AStarChildrenCover(lab: Grid, closed: seq<Coord>, v: VertexAStar, end: Coord, ns: seq<Coord>)
    ensures forall n :: n in ns && Open(lab, n) && n !in closed ==>
      n in OpenCoords(AStarChildren(lab, closed, v, end, ns))
    decreases |ns|
  {
    if ns != [] {
      var init, kids := ns[..|ns| - 1], AStarChildren(lab, closed, v, end, ns);
      var initKids := AStarChildren(lab, closed, v, end, init);
      AStarChildrenCover(lab, closed, v, end, init);
      assert forall k :: 0 <= k < |initKids| ==> kids[k] == initKids[k];
      forall n | n in ns && Open(lab, n) && n !in closed ensures n in OpenCoords(kids) {
        if n in init {
          var w :| w in initKids && w.vertex.coords == n;
          var k :| 0 <= k < |initKids| && initKids[k] == w;
          assert kids[k] == w;
        } else {
          assert n == ns[|ns| - 1];
          assert kids[|kids| - 1].vertex.coords == n;
        }
      }
    }
  }

  /** The inner loop of `a_star`: for each neighbour, in order, that is not
      closed and not a wall, a new vertex with `current` as its father, its
      `h` and then its `f` computed, is appended to `openList`. */
  method PutAStarChildren(lab: Grid, closed: seq<Coord>, current: VertexAStar, end: Coord,
                          neighbours: seq<Coord>, openList: seq<VertexAStar>)
    returns (openList': seq<VertexAStar>)
    requires Walled(lab) && Interior(lab, current.vertex.coords)
    requires forall n :: n in neighbours ==> Adjacent(current.vertex.coords, n)
    ensures openList' == openList + AStarChildren(lab, closed, current, end, neighbours)
  {
    openList' := openList;
    for k := 0 to |neighbours|
      invariant openList' == openList + AStarChildren(lab, closed, current, end, neighbours[..k])
    {
      var n := neighbours[k];
      NeighbourInGrid(lab, current.vertex.coords, n);
      assert neighbours[..k + 1][..k] == neighbours[..k];
      if n !in closed && lab[n.0][n.1] != 1 {
        var neighbourEdge := NewVertexAStar(n, Some(current));
        neighbourEdge := CalculateH(neighbourEdge, end);
        neighbourEdge := CalculateF(neighbourEdge);
        openList' := openList' + [neighbourEdge];
      }
    }
    assert neighbours[..|neighbours|] == neighbours;
  }

  /** No open neighbour of a closed cell is left unclosed and out of the
      open list. */
  ghost predicate AStarClosed(lab: Grid, closed: seq<Coord>, openList: seq<VertexAStar>)
  {
    forall x, n :: x in closed && Adjacent(x, n) && Open(lab, n) ==> n in closed || n in OpenCoords(openList)
  }

  /** What holds at the head of each round of `a_star`. */
  ghost predicate AStarInv(lab: Grid, start: Coord, end: Coord, openList: seq<VertexAStar>, closed: seq<Coord>)
  {
    && Walled(lab)
    && (forall v :: v in openList ==> Sound(lab, start, v.vertex) && CostIsTrail(v))
    && (closed == [] ==> openList == [NewVertexAStar(start, None)])
    && (closed != [] ==> start in closed && forall v :: v in openList ==> Estimated(v, end))
    && end !in closed
    && AStarClosed(lab, closed, openList)
  }

  /** Sorting changes no membership, so the invariant survives it. */
  lemma AStarSortKeeps(lab: Grid, start: Coord, end: Coord, openList: seq<VertexAStar>, closed: seq<Coord>)
    requires AStarInv(lab, start, end, openList, closed)
    ensures KeyedOrSingle(openList)
    ensures AStarInv(lab, start, end, SortByF(openList), closed)
  {
    if closed != [] {
      assert forall i :: 0 <= i < |openList| ==> openList[i] in openList;
    }
    var sorted := SortByF(openList);
    assert forall v :: v in sorted <==> v in openList by {
      assert forall v :: v in sorted <==> v in multiset(sorted);
    }
    assert OpenCoords(sorted) == OpenCoords(openList);
  }

  /** The vertex taken at the end carries a walk from the start. */
  lemma AStarFound(lab: Grid, start: Coord, end: Coord, openList: seq<VertexAStar>, closed: seq<Coord>)
    requires AStarInv(lab, start, end, openList, closed) && openList != [] && openList[0].vertex.coords == end
    ensures IsWalk(lab, start, end, Trail(openList[0].vertex))
    ensures start == end ==> Trail(openList[0].vertex) == [start]
  {
    assert openList[0] in openList;
  }

  /** Taking a vertex whose cell is already closed keeps the invariant. */
  lemma AStarSkip(lab: Grid, start: Coord, end: Coord, openList: seq<VertexAStar>, closed: seq<Coord>)
    requires AStarInv(lab, start, end, openList, closed) && openList != [] && openList[0].vertex.coords in closed
    ensures AStarInv(lab, start, end, openList[1..], closed)
  {
    var rest := openList[1..];
    assert forall v :: v in rest ==> v in openList;
    forall x, n | x in closed && Adjacent(x, n) && Open(lab, n) ensures n in closed || n in OpenCoords(rest) {
      if n !in closed {
        var w :| w in openList && w.vertex.coords == n;
        var k :| 0 <= k < |openList| && openList[k] == w;
        assert k != 0;
        assert rest[k - 1] == w;
      }
    }
  }

  /** Taking an unclosed vertex that is not at the end, appending its
      children and closing its cell keeps the invariant. */
  lemma AStarExpand(lab: Grid, start: Coord, end: Coord, openList: seq<VertexAStar>, closed: seq<Coord>)
    requires AStarInv(lab, start, end, openList, closed) && openList != []
    requires openList[0].vertex.coords !in closed && openList[0].vertex.coords != end
    ensures var v := openList[0];
      AStarInv(lab, start, end, openList[1..] + AStarChildren(lab, closed, v, end, Neighbours(v.vertex.coords)),
               closed + [v.vertex.coords])
  {
    var v := openList[0];
    var c := v.vertex.coords;
    var kids := AStarChildren(lab, closed, v, end, Neighbours(c));
    var o', closed' := openList[1..] + kids, closed + [c];
    assert v in openList;
    AStarChildrenCover(lab, closed, v, end, Neighbours(c));
    forall w | w in kids ensures Sound(lab, start, w.vertex) && CostIsTrail(w) {
      var k :| 0 <= k < |kids| && kids[k] == w;
      ChildSound(lab, start, [], v.vertex, w.vertex);
    }
    assert forall w :: w in o' ==> w in openList[1..] || w in kids;
    assert forall w :: w in openList[1..] ==> w in openList;
    AStarExpandClosed(lab, openList, closed, kids);
    assert closed == [] ==> v == NewVertexAStar(start, None) && openList[1..] == [];
  }

  /** Closing the first vertex's cell and appending children for all its
      open neighbours not closed keeps every open neighbour of a closed
      cell closed or in the open list. */
  lemma AStarExpandClosed(lab: Grid, openList: seq<VertexAStar>, closed: seq<Coord>, kids: seq<VertexAStar>)
    requires openList != [] && AStarClosed(lab, closed, openList)
    requires openList[0].vertex.coords !in closed
    requires forall n :: n in Neighbours(openList[0].vertex.coords) && Open(lab, n) && n !in closed ==>
      n in OpenCoords(kids)
    ensures AStarClosed(lab, closed + [openList[0].vertex.coords], openList[1..] + kids)
  {
    var c := openList[0].vertex.coords;
    var o', closed' := openList[1..] + kids, closed + [c];
    forall x, n | x in closed' && Adjacent(x, n) && Open(lab, n) ensures n in closed' || n in OpenCoords(o') {
      if n !in closed && n != c {
        if x == c {
          assert n in Neighbours(c);
          var w :| w in kids && w.vertex.coords == n;
          assert w in o';
        } else {
          assert x in closed;
          var w :| w in openList && w.vertex.coords == n;
          var k :| 0 <= k < |openList| && openList[k] == w;
          assert k != 0;
          assert o'[k - 1] == w;
        }
      }
    }
  }

  /** When the open list runs empty, no walk leads from the start to the
      end. */
  lemma AStarExhausted(lab: Grid, start: Coord, end: Coord, closed: seq<Coord>)
    requires AStarInv(lab, start, end, [], closed)
    ensures forall w :: !IsWalk(lab, start, end, w)
  {
    assert OpenCoords([]) == {};
    forall w | IsWalk(lab, start, end, w) ensures false {
      WalkStaysVisited(lab, start, end, w, closed);
    }
  }

  /** `a_star`: a list of opened vertices, starting with the start vertex.
      Each round sorts the list by `f` and takes its first vertex. A vertex
      at the end gives its path; one whose cell is closed is dropped; any
      other appends a child for each open neighbour not closed, with its
      costs, and closes its cell. The path found is a walk from the start
      to the end, and `None` means there is no walk at all. */
  method AStar(lab: Grid, start: Coord, end: Coord) returns (path: Option<seq<Coord>>)
    requires Walled(lab) && Interior(lab, start)
    ensures path.Some? ==> IsWalk(lab, start, end, path.value)
    ensures path.None? ==> forall w :: !IsWalk(lab, start, end, w)
    ensures start == end ==> path == Some([start])
  {
    var openList := [NewVertexAStar(start, None)];
    var closed: seq<Coord> := [];
    assert IsWalk(lab, start, start, Trail(openList[0].vertex));
    while openList != []
      invariant AStarInv(lab, start, end, openList, closed)
      decreases Unvisited(lab, closed), |openList|
    {
      AStarSortKeeps(lab, start, end, openList, closed);
      openList := SortByF(openList);
      ghost var sorted := openList;
      var current := openList[0];
      openList := openList[1..];
      if current.vertex.coords == end {
        AStarFound(lab, start, end, sorted, closed);
        var p := GetPath(current.vertex);
        return Some(p);
      }
      if current.vertex.coords in closed {
        AStarSkip(lab, start, end, sorted, closed);
        continue;
      }
      assert current in sorted;
      var neighbours := GetNeighbours(current.vertex.coords);
      openList := PutAStarChildren(lab, closed, current, end, neighbours, openList);
      AStarExpand(lab, start, end, sorted, closed);
      InteriorInCells(lab, current.vertex.coords);
      VisitShrinks(Cells(lab), closed, current.vertex.coords);
      closed := closed + [current.vertex.coords];
    }
    AStarExhausted(lab, start, end, closed);
    return None;
  }
}
