/** The labyrinth exercise: a grid of cells, some of them walls, and the
    vertices the searches build. A vertex is a cell and the vertex it was
    reached from; following the fathers back gives the path to the start.

    The source assigns a vertex's father, and an A* vertex's `h` and `f`,
    right after creating it and before any other code can see it, and never
    changes them afterwards; vertices are therefore values here. */
module Labyrinth {
  import opened Common

  /** A cell as (row, column), the tuple the source passes around. */
  type Coord = (int, int)

  /** A labyrinth: rows of cells; a cell holding 1 is a wall. */
  type Grid = seq<seq<int>>

  predicate InGrid(lab: Grid, c: Coord)
  {
    0 <= c.0 < |lab| && 0 <= c.1 < |lab[c.0]|
  }

  /** A cell of the grid that is not a wall: one the searches may enter. */
  predicate Open(lab: Grid, c: Coord)
  {
    InGrid(lab, c) && lab[c.0][c.1] != 1
  }

  /** The shape every labyrinth of the exercise has: rectangular, with a
      wall all around. With it, a neighbour of a cell inside the border is
      always a cell of the grid, so no index falls outside. */
  predicate Walled(lab: Grid)
  {
    && |lab| >= 3 && |lab[0]| >= 3
    && (forall r :: 0 <= r < |lab| ==> |lab[r]| == |lab[0]|)
    && (forall c :: 0 <= c < |lab[0]| ==> lab[0][c] == 1 && lab[|lab| - 1][c] == 1)
    && (forall r :: 0 <= r < |lab| ==> lab[r][0] == 1 && lab[r][|lab[0]| - 1] == 1)
  }

  /** A cell inside the border. */
  predicate Interior(lab: Grid, c: Coord)
  {
    |lab| > 0 && 1 <= c.0 < |lab| - 1 && 1 <= c.1 < |lab[0]| - 1
  }

  lemma OpenIsInterior(lab: Grid, c: Coord)
    requires Walled(lab) && Open(lab, c)
    ensures Interior(lab, c)
  {
    assert |lab[c.0]| == |lab[0]|;
    assert lab[c.0][0] == 1 && lab[c.0][|lab[0]| - 1] == 1;
    assert lab[0][c.1] == 1 && lab[|lab| - 1][c.1] == 1;
  }

  function Abs(x: int): nat
  {
    if x < 0 then -x else x
  }

  /** The number of horizontal and vertical moves between two cells. */
  function Manhattan(a: Coord, b: Coord): nat
  {
    Abs(a.0 - b.0) + Abs(a.1 - b.1)
  }

  /** Two cells one horizontal or vertical move apart. */
  predicate Adjacent(a: Coord, b: Coord)
  {
    Manhattan(a, b) == 1
  }

  // ---------------------------------------------------------------------
  // get_neighbours
  // ---------------------------------------------------------------------

  /** The neighbours of `c` in the order `get_neighbours` lists them: up,
      left, right, down. They are exactly the cells one move away. */
  function Neighbours(c: Coord): (ns: seq<Coord>)
    ensures |ns| == 4
    ensures forall n :: n in ns <==> Adjacent(c, n)
  {
    [(c.0 - 1, c.1), (c.0, c.1 - 1), (c.0, c.1 + 1), (c.0 + 1, c.1)]
  }

  /** The test `get_neighbours` applies to each candidate: same row or same
      column, and not the cell itself. */
  predicate Kept(c: Coord, n: Coord)
  {
    (n.0 == c.0 || n.1 == c.1) && n != c
  }

  /** The kept candidates of row offset `i`, for column offsets below `j`. */
  ghost function RowScan(c: Coord, i: int, j: int): seq<Coord>
    requires -1 <= j
    decreases j + 1
  {
    if j == -1 then []
    else
      var n := (c.0 + i, c.1 + j - 1);
      RowScan(c, i, j - 1) + (if Kept(c, n) then [n] else [])
  }

  /** The kept candidates of the row offsets below `i`. */
  ghost function Scan(c: Coord, i: int): seq<Coord>
    requires -1 <= i
    decreases i + 1
  {
    if i == -1 then [] else Scan(c, i - 1) + RowScan(c, i - 1, 2)
  }

  /** The inner loop of `get_neighbours`: scans the column offsets of row
      offset `i` and appends the kept candidates. */
  method ScanRow(c: Coord, i: int, acc: seq<Coord>) returns (acc': seq<Coord>)
    ensures acc' == acc + RowScan(c, i, 2)
  {
    acc' := acc;
    for j := -1 to 2
      invariant acc' == acc + RowScan(c, i, j)
    {
      var n := (c.0 + i, c.1 + j);
      assert RowScan(c, i, j + 1) == RowScan(c, i, j) + (if Kept(c, n) then [n] else []);
      if Kept(c, n) {
        acc' := acc' + [n];
      }
    }
  }

  /** `get_neighbours`: scans the offsets -1, 0, 1 in each direction, row
      offset first, and keeps the four horizontal and vertical moves. */
  method GetNeighbours(c: Coord) returns (neighbours: seq<Coord>)
    ensures neighbours == Neighbours(c)
  {
    neighbours := [];
    for i := -1 to 2
      invariant neighbours == Scan(c, i)
    {
      neighbours := ScanRow(c, i, neighbours);
      assert Scan(c, i + 1) == Scan(c, i) + RowScan(c, i, 2);
    }
    ScanIsNeighbours(c);
  }

  /** The whole scan keeps up, left, right and down, in that order. */
  lemma ScanIsNeighbours(c: Coord)
    ensures Scan(c, 2) == Neighbours(c)
  {
    assert RowScan(c, -1, 2) == [(c.0 - 1, c.1)];
    assert RowScan(c, 0, 2) == [(c.0, c.1 - 1), (c.0, c.1 + 1)];
    assert RowScan(c, 1, 2) == [(c.0 + 1, c.1)];
  }

  /** Every neighbour of a cell inside the border is a cell of the grid. */
  lemma NeighbourInGrid(lab: Grid, c: Coord, n: Coord)
    requires Walled(lab) && Interior(lab, c) && Adjacent(c, n)
    ensures InGrid(lab, n)
  {
    assert |lab[n.0]| == |lab[0]|;
  }

  // ---------------------------------------------------------------------
  // Vertex
  // ---------------------------------------------------------------------

  /** A vertex: its cell, and the vertex it was reached from (none for the
      start). */
  datatype Vertex = Vertex(coords: Coord, father: Option<Vertex>)

  /** The cells from the start vertex to `v`, start first. */
  function Trail(v: Vertex): (t: seq<Coord>)
    ensures |t| >= 1 && t[|t| - 1] == v.coords
    ensures v.father.None? ==> t == [v.coords]
    decreases v
  {
    match v.father
    case None => [v.coords]
    case Some(w) => Trail(w) + [v.coords]
  }

  /** The vertex at the top of `v`'s father chain, the one without a
      father. */
  function Root(v: Vertex): Vertex
    decreases v
  {
    match v.father
    case None => v
    case Some(w) => Root(w)
  }

  /** The number of vertices on `v`'s father chain, `v` included. */
  function ChainLength(v: Vertex): nat
    decreases v
  {
    match v.father
    case None => 1
    case Some(w) => 1 + ChainLength(w)
  }

  /** The trail begins at the root's cell and has one cell per vertex of
      the father chain. */
  lemma {:induction false} TrailFromRoot(v: Vertex)
    ensures Trail(v)[0] == Root(v).coords
    ensures |Trail(v)| == ChainLength(v)
    decreases v
  {
    match v.father
    case None =>
    case Some(w) =>
      TrailFromRoot(w);
  }

  /** `Vertex.__eq__`: vertices compare by their cell alone. */
  predicate SameCoords(v: Vertex, w: Vertex)
  {
    v.coords == w.coords
  }

  /** The trail of an optional father: empty when there is none. */
  function FatherTrail(father: Option<Vertex>): seq<Coord>
  {
    if father.Some? then Trail(father.value) else []
  }

  /** Moving the walk one father up: the father's cell leaves the trail
      still to be read and joins the collected cells. */
  lemma GetPathStep(f: Vertex, path: seq<Coord>)
    ensures FatherTrail(f.father) + Reversed(path + [f.coords]) == Trail(f) + Reversed(path)
  {
    ReversedAppend(path, f.coords);
    assert Trail(f) == FatherTrail(f.father) + [f.coords];
  }

  /** `get_path`: collects the cells from `v` back through the fathers,
      then reverses them, giving the cells from the start to `v`. */
  method GetPath(v: Vertex) returns (path: seq<Coord>)
    ensures path == Trail(v)
    ensures |path| >= 1 && path[|path| - 1] == v.coords
  {
    path := [v.coords];
    var father := v.father;
    while father.Some?
      invariant Trail(v) == FatherTrail(father) + Reversed(path)
      decreases |FatherTrail(father)|
    {
      var f := father.value;
      GetPathStep(f, path);
      path := path + [f.coords];
      father := f.father;
    }
    ReversedInvolution(path);
    path := Reversed(path);
  }

  // ---------------------------------------------------------------------
  // VertexAStar
  // ---------------------------------------------------------------------

  /** The cost of one horizontal or vertical move. */
  const MoveCost: int := 10

  /** An A* vertex: a vertex with `g`, the cost from the start, `h`, the
      estimated cost to the end, and `f`, their sum. `h` and `f` are unset
      (`None`) until computed. The fathers are kept as plain vertices: an
      ancestor's costs are read only while its child is created. */
  datatype VertexAStar = VertexAStar(vertex: Vertex, g: int, h: Option<int>, f: Option<int>)

  /** `VertexAStar.__init__`: a move from `father` costs `MoveCost` more
      than the father's `g`; the start costs nothing; `h` and `f` unset. */
  function NewVertexAStar(coords: Coord, father: Option<VertexAStar>): (v: VertexAStar)
    ensures v.vertex.coords == coords && v.h.None? && v.f.None?
    ensures father.None? ==> v.g == 0 && Trail(v.vertex) == [coords]
    ensures father.Some? ==> v.g == father.value.g + MoveCost
    ensures father.Some? ==> Trail(v.vertex) == Trail(father.value.vertex) + [coords]
  {
    match father
    case None => VertexAStar(Vertex(coords, None), 0, None, None)
    case Some(w) => VertexAStar(Vertex(coords, Some(w.vertex)), w.g + MoveCost, None, None)
  }

  /** `g` is the cost of the moves along the vertex's trail. */
  ghost predicate CostIsTrail(v: VertexAStar)
  {
    v.g == MoveCost * (|Trail(v.vertex)| - 1)
  }

  /** A vertex built from a father whose `g` is the cost of its trail has
      `g` the cost of its own trail; so has the start vertex. */
  lemma NewVertexCost(coords: Coord, father: Option<VertexAStar>)
    requires father.Some? ==> CostIsTrail(father.value)
    ensures CostIsTrail(NewVertexAStar(coords, father))
  {
  }

  /** `calculate_h`: the estimate is `MoveCost` per move of the Manhattan
      distance to `endCoords`. */
  function CalculateH(v: VertexAStar, endCoords: Coord): (w: VertexAStar)
    ensures w.vertex == v.vertex && w.g == v.g && w.f == v.f
    ensures w.h == Some(MoveCost * Manhattan(endCoords, v.vertex.coords))
  {
    v.(h := Some(MoveCost * Manhattan(endCoords, v.vertex.coords)))
  }

  /** `calculate_f`: `f` is `g + h`. The source calls it only after
      `calculate_h`; with `h` unset it would fail on `None`. */
  function CalculateF(v: VertexAStar): (w: VertexAStar)
    requires v.h.Some?
    ensures w.vertex == v.vertex && w.g == v.g && w.h == v.h
    ensures w.f == Some(v.g + v.h.value)
  {
    v.(f := Some(v.g + v.h.value))
  }

  // ---------------------------------------------------------------------
  // Walks
  // ---------------------------------------------------------------------

  /** Cell `i` of `w` is open and one move from cell `i - 1`. */
  predicate StepAt(lab: Grid, w: seq<Coord>, i: nat)
    requires 0 < i < |w|
  {
    Open(lab, w[i]) && Adjacent(w[i - 1], w[i])
  }

  /** A walk from `from` to `to`: each cell after the first is open and one
      move from the one before. The first cell may be anything, as the
      searches never test the start cell. */
  ghost predicate IsWalk(lab: Grid, from: Coord, to: Coord, w: seq<Coord>)
  {
    && |w| >= 1 && w[0] == from && w[|w| - 1] == to
    && forall i: nat :: 0 < i < |w| ==> StepAt(lab, w, i)
  }

  /** A walk without its last cell is a walk to the cell before it. */
  lemma WalkPrefix(lab: Grid, from: Coord, to: Coord, w: seq<Coord>)
    requires IsWalk(lab, from, to, w) && |w| > 1
    ensures IsWalk(lab, from, w[|w| - 2], w[..|w| - 1])
    ensures StepAt(lab, w, |w| - 1)
  {
    var u := w[..|w| - 1];
    forall i: nat | 0 < i < |u| ensures StepAt(lab, u, i) {
      assert StepAt(lab, w, i);
    }
  }

  /** A walk continued by an open cell one move from its end is a walk. */
  lemma WalkExtend(lab: Grid, from: Coord, to: Coord, w: seq<Coord>, n: Coord)
    requires IsWalk(lab, from, to, w) && Open(lab, n) && Adjacent(to, n)
    ensures IsWalk(lab, from, n, w + [n])
  {
    var u := w + [n];
    forall i: nat | 0 < i < |u| ensures StepAt(lab, u, i) {
      if i < |w| {
        assert StepAt(lab, w, i);
      }
    }
  }

  /** No walk is shorter than the Manhattan distance between its ends. */
  lemma {:induction false} WalkAtLeastManhattan(lab: Grid, from: Coord, to: Coord, w: seq<Coord>)
    requires IsWalk(lab, from, to, w)
    ensures Manhattan(from, to) <= |w| - 1
    decreases |w|
  {
    if |w| > 1 {
      WalkPrefix(lab, from, to, w);
      WalkAtLeastManhattan(lab, from, w[|w| - 2], w[..|w| - 1]);
    }
  }

  /** The estimate `h` never exceeds the cost of a walk from the vertex's
      cell to the end: the heuristic is admissible. */
  lemma HeuristicAdmissible(lab: Grid, v: VertexAStar, endCoords: Coord, w: seq<Coord>)
    requires IsWalk(lab, v.vertex.coords, endCoords, w)
    ensures CalculateH(v, endCoords).h.value <= MoveCost * (|w| - 1)
  {
    WalkAtLeastManhattan(lab, v.vertex.coords, endCoords, w);
  }

  /** For a vertex whose `g` is the cost of its trail, `f` never exceeds
      the cost of that trail continued by any walk to the end. */
  lemma FNeverOverestimates(lab: Grid, v: VertexAStar, endCoords: Coord, w: seq<Coord>)
    requires CostIsTrail(v) && IsWalk(lab, v.vertex.coords, endCoords, w)
    ensures CalculateF(CalculateH(v, endCoords)).f.value
         <= MoveCost * ((|Trail(v.vertex)| - 1) + (|w| - 1))
  {
    HeuristicAdmissible(lab, v, endCoords, w);
  }
}
