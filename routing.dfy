/** The transit-route exercise: bus stops linked by their `next` lists,
    buses that serve lists of stops, a breadth-first enumeration of every
    path between two stops, and the conversion of each path into a route
    that says which buses serve each leg.

    A stop is identified by its name: two stops with the same name are the
    same stop, as `BusStop.__eq__` decides. The `next` links are given as a
    map from a stop's name to the names of its next stops. */
module Routing {
  import opened Common

  type StopName = string

  /** The `next` links of every stop. A stop that is not a key, or that
      maps to the empty list, has no next stops (`next` is `None` or `[]`). */
  type StopGraph = map<StopName, seq<StopName>>

  function Next(graph: StopGraph, s: StopName): seq<StopName>
  {
    if s in graph then graph[s] else []
  }

  // ---------------------------------------------------------------------
  // Buses and their registry
  // ---------------------------------------------------------------------

  /** Every bus ever constructed, in construction order. The source keeps
      this list in a class attribute shared by the whole process; here it
      is an object the caller owns and passes in. */
  class BusRegistry {
    var all: seq<Bus>

    constructor ()
      ensures all == []
    {
      all := [];
    }
  }

  /** A bus route: a name and the stops it serves, in order. Buses are
      objects, and a set of buses distinguishes them by identity, as the
      source's hash by `id` does. */
  class Bus {
    const name: string
    const busStops: seq<StopName>

    /** Constructing a bus appends it to the registry: the registry grows by
        exactly this bus, at the end. */
    constructor (name: string, busStops: seq<StopName>, registry: BusRegistry)
      modifies registry
      ensures this.name == name && this.busStops == busStops
      ensures registry.all == old(registry.all) + [this]
      ensures |registry.all| == |old(registry.all)| + 1
    {
      this.name := name;
      this.busStops := busStops;
      new;
      registry.all := registry.all + [this];
    }

    /** `Bus.__eq__`: buses compare equal when their names are equal. */
    predicate SameName(other: Bus)
    {
      name == other.name
    }
  }

  /** The registered buses that have a stop named `stop`. */
  function BusesInStop(registry: seq<Bus>, stop: StopName): (buses: set<Bus>)
    ensures forall b | b in buses :: b in registry && stop in b.busStops
    ensures forall b | b in registry :: stop in b.busStops ==> b in buses
  {
    if registry == [] then {}
    else
      var last := registry[|registry| - 1];
      BusesInStop(registry[..|registry| - 1], stop) + (if stop in last.busStops then {last} else {})
  }

  /** `get_buses_in_stop`: scans the registry in order and, for each bus,
      its stops until one carries the name `stop`; that bus is added and
      the scan of its stops stops there. */
  method GetBusesInStop(all: seq<Bus>, stop: StopName) returns (buses: set<Bus>)
    ensures buses == BusesInStop(all, stop)
  {
    buses := {};
    for i := 0 to |all|
      invariant buses == BusesInStop(all[..i], stop)
    {
      var bus := all[i];
      var found := false;
      var k := 0;
      while k < |bus.busStops| && !found
        invariant 0 <= k <= |bus.busStops|
        invariant found <==> stop in bus.busStops[..k]
        invariant buses == BusesInStop(all[..i], stop) + (if found then {bus} else {})
      {
        if bus.busStops[k] == stop {
          buses := buses + {bus};
          found := true;
        }
        k := k + 1;
      }
      assert !found ==> bus.busStops[..k] == bus.busStops;
      assert all[..i + 1][..i] == all[..i] && all[..i + 1][i] == bus;
      assert buses == BusesInStop(all[..i], stop) + (if stop in bus.busStops then {bus} else {});
    }
    assert all[..|all|] == all;
  }

  // ---------------------------------------------------------------------
  // Paths
  // ---------------------------------------------------------------------

  /** A path is its last stop and the path that led there; the first stop's
      path has no previous path. */
  datatype Path = Path(prevPath: Option<Path>, currentStop: StopName)

  /** The stops of a path, from the first stop to the current one. */
  function Stops(p: Path): (s: seq<StopName>)
    ensures |s| >= 1 && s[|s| - 1] == p.currentStop
    ensures p.prevPath.None? ==> s == [p.currentStop]
    decreases p
  {
    match p.prevPath
    case None => [p.currentStop]
    case Some(q) => Stops(q) + [p.currentStop]
  }

  /** Each stop after the first is one of the `next` stops of the one
      before it. */
  predicate Linked(graph: StopGraph, s: seq<StopName>)
  {
    forall i :: 0 <= i < |s| - 1 ==> s[i + 1] in Next(graph, s[i])
  }

  /** The concatenation of a list of names. */
  function Concat(names: seq<string>): string
  {
    if names == [] then "" else names[0] + Concat(names[1..])
  }

  /** The sum of the lengths of a list of names. */
  function TotalLength(names: seq<string>): nat
  {
    if names == [] then 0 else |names[0]| + TotalLength(names[1..])
  }

  /** `get_string_path`: the names of the stops from this path's own stop
      back to the first one, concatenated. */
  function StringPath(p: Path): (s: string)
    ensures |s| == TotalLength(Reversed(Stops(p)))
    decreases p
  {
    match p.prevPath
    case None => p.currentStop
    case Some(q) =>
      ReversedAppend(Stops(q), p.currentStop);
      p.currentStop + StringPath(q)
  }

  /** `get_string_path` as written: walks back from the path's own stop,
      appending each stop's name. */
  method GetStringPath(p: Path) returns (pathString: string)
    ensures pathString == StringPath(p)
  {
    pathString := "";
    var cursor: Option<Path> := Some(p);
    while cursor.Some?
      invariant StringPath(p) == pathString + (if cursor.Some? then StringPath(cursor.value) else "")
      decreases if cursor.Some? then |Stops(cursor.value)| else 0
    {
      var current := cursor.value;
      StringPathUnfold(current);
      pathString := pathString + current.currentStop;
      cursor := current.prevPath;
    }
  }

  /** The string of a path is its own stop's name followed by the string of
      its previous path, if any. */
  lemma StringPathUnfold(p: Path)
    ensures StringPath(p) == p.currentStop + (if p.prevPath.Some? then StringPath(p.prevPath.value) else "")
    ensures p.prevPath.Some? ==> |Stops(p.prevPath.value)| < |Stops(p)|
  {
  }

  /** The string of a path is its stop names in reverse order, concatenated. */
  lemma {:induction false} StringPathIsReversedStops(p: Path)
    ensures StringPath(p) == Concat(Reversed(Stops(p)))
    decreases p
  {
    match p.prevPath
    case None =>
    case Some(q) =>
      StringPathIsReversedStops(q);
      ReversedAppend(Stops(q), p.currentStop);
      assert ([p.currentStop] + Reversed(Stops(q)))[1..] == Reversed(Stops(q));
  }

  /** The path A, B, C reads "CBA"; a path of one stop reads its own name. */
  lemma StringPathExample()
    ensures StringPath(Path(Some(Path(Some(Path(None, "A")), "B")), "C")) == "CBA"
    ensures StringPath(Path(None, "A")) == "A"
  {
  }

  // ---------------------------------------------------------------------
  // _get_valid_paths
  // ---------------------------------------------------------------------

  /** The enumeration has no visited set, so it terminates only when no
      cycle can be followed from the start. `rank` witnesses that: every
      link out of a ranked stop other than `end` leads to a ranked stop of
      strictly smaller rank. */
  ghost predicate AcyclicBeyond(graph: StopGraph, end: StopName, rank: map<StopName, nat>)
  {
    forall s, t :: s in rank && s != end && t in Next(graph, s) ==> t in rank && rank[t] < rank[s]
  }

  /** What every path the enumeration builds looks like: it begins at
      `start`, follows `next` links, and does not pass through `end`. */
  ghost predicate FromStart(graph: StopGraph, start: StopName, end: StopName, p: Path)
  {
    var s := Stops(p);
    s[0] == start && Linked(graph, s) && forall i :: 0 <= i < |s| - 1 ==> s[i] != end
  }

  /** The number of paths the enumeration will still take from a queued
      path that stands at stop `s`: itself, and all its extensions. */
  ghost function PathCount(graph: StopGraph, end: StopName, rank: map<StopName, nat>, s: StopName): nat
    requires AcyclicBeyond(graph, end, rank) && s in rank
    decreases rank[s], 1
  {
    if s == end then 1 else 1 + CountAll(graph, end, rank, Next(graph, s), rank[s])
  }

  ghost function CountAll(graph: StopGraph, end: StopName, rank: map<StopName, nat>,
                          ts: seq<StopName>, bound: nat): nat
    requires AcyclicBeyond(graph, end, rank)
    requires forall t :: t in ts ==> t in rank && rank[t] < bound
    decreases bound, 0, |ts|
  {
    if ts == [] then 0
    else CountAll(graph, end, rank, ts[..|ts| - 1], bound) + PathCount(graph, end, rank, ts[|ts| - 1])
  }

  ghost function QueueCount(graph: StopGraph, end: StopName, rank: map<StopName, nat>, q: seq<Path>): nat
    requires AcyclicBeyond(graph, end, rank)
    requires forall i :: 0 <= i < |q| ==> q[i].currentStop in rank
  {
    if q == [] then 0
    else PathCount(graph, end, rank, q[0].currentStop) + QueueCount(graph, end, rank, q[1..])
  }

  lemma {:induction false} QueueCountConcat(graph: StopGraph, end: StopName, rank: map<StopName, nat>,
                                            q: seq<Path>, r: seq<Path>)
    requires AcyclicBeyond(graph, end, rank)
    requires forall i :: 0 <= i < |q| ==> q[i].currentStop in rank
    requires forall i :: 0 <= i < |r| ==> r[i].currentStop in rank
    ensures QueueCount(graph, end, rank, q + r)
         == QueueCount(graph, end, rank, q) + QueueCount(graph, end, rank, r)
    decreases |q|
  {
    if q == [] {
      assert q + r == r;
    } else {
      assert (q + r)[1..] == q[1..] + r;
      QueueCountConcat(graph, end, rank, q[1..], r);
    }
  }

  /** The paths that extend `current` by each of the stops `ts`, in order. */
  function Extensions(current: Path, ts: seq<StopName>): (ext: seq<Path>)
    ensures |ext| == |ts|
    ensures forall j :: 0 <= j < |ts| ==> ext[j] == Path(Some(current), ts[j])
    ensures forall j :: 0 <= j < |ts| ==> Stops(ext[j]) == Stops(current) + [ts[j]]
  {
    seq(|ts|, j requires 0 <= j < |ts| => Path(Some(current), ts[j]))
  }

  /** The extensions of a queued path count exactly the paths that its
      stop's count promises beyond the path itself. */
  lemma {:induction false} QueueCountExtensions(graph: StopGraph, end: StopName, rank: map<StopName, nat>,
                                                current: Path, ts: seq<StopName>, bound: nat)
    requires AcyclicBeyond(graph, end, rank)
    requires forall t :: t in ts ==> t in rank && rank[t] < bound
    ensures forall i :: 0 <= i < |ts| ==> Extensions(current, ts)[i].currentStop in rank
    ensures QueueCount(graph, end, rank, Extensions(current, ts)) == CountAll(graph, end, rank, ts, bound)
    decreases |ts|
  {
    assert forall i :: 0 <= i < |ts| ==> ts[i] in ts;
    if ts != [] {
      var init := ts[..|ts| - 1];
      assert forall t :: t in init ==> t in ts;
      QueueCountExtensions(graph, end, rank, current, init, bound);
      var last := Path(Some(current), ts[|ts| - 1]);
      var ext, initExt := Extensions(current, ts), Extensions(current, init);
      assert ext == initExt + [last];
      QueueCountConcat(graph, end, rank, initExt, [last]);
      assert QueueCount(graph, end, rank, [last]) == PathCount(graph, end, rank, ts[|ts| - 1]) by {
        assert [last][1..] == [];
      }
    }
  }

  /** Extending a path that begins at `start` and is not at `end` by one of
      its next stops gives a path that begins at `start`, one stop longer. */
  lemma ExtensionsFromStart(graph: StopGraph, start: StopName, end: StopName, rank: map<StopName, nat>,
                            current: Path)
    requires AcyclicBeyond(graph, end, rank)
    requires current.currentStop in rank && current.currentStop != end
    requires FromStart(graph, start, end, current)
    ensures forall i :: 0 <= i < |Next(graph, current.currentStop)| ==>
      var p := Extensions(current, Next(graph, current.currentStop))[i];
      && p.currentStop in rank && FromStart(graph, start, end, p)
      && |Stops(p)| == |Stops(current)| + 1
  {
    var ts := Next(graph, current.currentStop);
    forall i | 0 <= i < |ts|
      ensures var p := Extensions(current, ts)[i];
        p.currentStop in rank && FromStart(graph, start, end, p) && |Stops(p)| == |Stops(current)| + 1
    {
      var p := Extensions(current, ts)[i];
      assert ts[i] in ts;
      assert Stops(p) == Stops(current) + [ts[i]];
    }
  }

  /** The number of stops of a path. */
  ghost function Len(p: Path): nat
  {
    |Stops(p)|
  }

  /** The queue order of a breadth-first search: sorted by length, and no
      path more than one stop longer than the first. */
  ghost predicate BreadthOrdered(q: seq<Path>)
  {
    && (forall i, j :: 0 <= i < j < |q| ==> Len(q[i]) <= Len(q[j]))
    && (q != [] ==> Len(q[|q| - 1]) <= Len(q[0]) + 1)
  }

  /** Dequeuing the first path and enqueuing paths one stop longer than it
      keeps the breadth-first order, and the new first path is no shorter. */
  lemma StepKeepsBreadthOrder(q: seq<Path>, ext: seq<Path>)
    requires BreadthOrdered(q) && q != []
    requires forall i :: 0 <= i < |ext| ==> Len(ext[i]) == Len(q[0]) + 1
    ensures BreadthOrdered(q[1..] + ext)
    ensures forall i :: 0 <= i < |q[1..] + ext| ==> Len(q[0]) <= Len((q[1..] + ext)[i])
  {
    var r := q[1..] + ext;
    forall i | 0 <= i < |r| ensures Len(q[0]) <= Len(r[i]) <= Len(q[0]) + 1 {
      if i < |q| - 1 {
        assert r[i] == q[i + 1];
        assert Len(q[i + 1]) <= Len(q[|q| - 1]);
      }
    }
    forall i, j | 0 <= i < j < |r| ensures Len(r[i]) <= Len(r[j]) {
      if j < |q| - 1 {
        assert r[i] == q[i + 1] && r[j] == q[j + 1];
      }
    }
  }

  /** The kept paths are sorted by length and none is longer than the
      first queued path. */
  ghost predicate KeptInOrder(validPaths: seq<Path>, q: seq<Path>)
  {
    && (forall i, j :: 0 <= i < j < |validPaths| ==> Len(validPaths[i]) <= Len(validPaths[j]))
    && (forall i :: 0 <= i < |validPaths| && q != [] ==> Len(validPaths[i]) <= Len(q[0]))
  }

  /** Every queued path stands at a ranked stop and begins at `start`. */
  ghost predicate QueuedFromStart(graph: StopGraph, start: StopName, end: StopName, rank: map<StopName, nat>,
                                  q: seq<Path>)
  {
    forall i :: 0 <= i < |q| ==> q[i].currentStop in rank && FromStart(graph, start, end, q[i])
  }

  /** Every kept path begins at `start` and stands at `end`. */
  ghost predicate KeptFromStart(graph: StopGraph, start: StopName, end: StopName, validPaths: seq<Path>)
  {
    forall i :: 0 <= i < |validPaths| ==> FromStart(graph, start, end, validPaths[i]) && validPaths[i].currentStop == end
  }

  /** One step of the enumeration on a dequeued path that is not at `end`:
      its extensions join the queue, and the queue keeps its shape and
      order. */
  lemma ExtendStep(graph: StopGraph, start: StopName, end: StopName, rank: map<StopName, nat>,
                   q: seq<Path>, validPaths: seq<Path>)
    requires AcyclicBeyond(graph, end, rank) && q != [] && q[0].currentStop != end
    requires QueuedFromStart(graph, start, end, rank, q)
    requires BreadthOrdered(q) && KeptInOrder(validPaths, q)
    ensures var next := q[1..] + Extensions(q[0], Next(graph, q[0].currentStop));
      && QueuedFromStart(graph, start, end, rank, next)
      && BreadthOrdered(next) && KeptInOrder(validPaths, next)
  {
    var current, rest := q[0], q[1..];
    var ext := Extensions(current, Next(graph, current.currentStop));
    ExtensionsFromStart(graph, start, end, rank, current);
    QueuedStep(graph, start, end, rank, q, ext);
    StepKeepsBreadthOrder(q, ext);
    KeptInOrderStep(validPaths, q, rest + ext);
  }

  /** Extending a dequeued path that is not at `end` leaves fewer paths to
      be taken: the path itself is done, and its extensions promise exactly
      what it promised beyond itself. */
  lemma ExtendCount(graph: StopGraph, end: StopName, rank: map<StopName, nat>, q: seq<Path>)
    requires AcyclicBeyond(graph, end, rank) && q != [] && q[0].currentStop != end
    requires forall i :: 0 <= i < |q| ==> q[i].currentStop in rank
    ensures var next := q[1..] + Extensions(q[0], Next(graph, q[0].currentStop));
      && (forall i :: 0 <= i < |next| ==> next[i].currentStop in rank)
      && QueueCount(graph, end, rank, next) < QueueCount(graph, end, rank, q)
  {
    var current, rest := q[0], q[1..];
    var ts := Next(graph, current.currentStop);
    var ext := Extensions(current, ts);
    QueueCountExtensions(graph, end, rank, current, ts, rank[current.currentStop]);
    QueueCountConcat(graph, end, rank, rest, ext);
  }

  /** Dequeuing the first path and enqueuing paths that begin at `start`
      keeps every queued path beginning at `start`. */
  lemma QueuedStep(graph: StopGraph, start: StopName, end: StopName, rank: map<StopName, nat>,
                   q: seq<Path>, ext: seq<Path>)
    requires QueuedFromStart(graph, start, end, rank, q) && q != []
    requires forall i :: 0 <= i < |ext| ==> ext[i].currentStop in rank && FromStart(graph, start, end, ext[i])
    ensures QueuedFromStart(graph, start, end, rank, q[1..] + ext)
  {
    var r := q[1..] + ext;
    forall i | 0 <= i < |r| ensures r[i].currentStop in rank && FromStart(graph, start, end, r[i]) {
      if i < |q| - 1 {
        assert r[i] == q[i + 1];
      } else {
        assert r[i] == ext[i - (|q| - 1)];
      }
    }
  }

  /** The kept paths stay no longer than the first queued path when the
      new first path is no shorter than the old one. */
  lemma KeptInOrderStep(validPaths: seq<Path>, q: seq<Path>, next: seq<Path>)
    requires KeptInOrder(validPaths, q) && q != []
    requires forall i :: 0 <= i < |next| ==> Len(q[0]) <= Len(next[i])
    ensures KeptInOrder(validPaths, next)
  {
  }

  /** One step of the enumeration on a dequeued path that is at `end`: it
      is kept, and fewer paths remain to be taken. */
  lemma KeepStep(graph: StopGraph, start: StopName, end: StopName, rank: map<StopName, nat>,
                 q: seq<Path>, validPaths: seq<Path>)
    requires AcyclicBeyond(graph, end, rank) && q != [] && q[0].currentStop == end
    requires QueuedFromStart(graph, start, end, rank, q) && KeptFromStart(graph, start, end, validPaths)
    requires BreadthOrdered(q) && KeptInOrder(validPaths, q)
    ensures QueuedFromStart(graph, start, end, rank, q[1..])
    ensures KeptFromStart(graph, start, end, validPaths + [q[0]])
    ensures BreadthOrdered(q[1..])
    ensures KeptInOrder(validPaths + [q[0]], q[1..])
    ensures QueueCount(graph, end, rank, q[1..]) < QueueCount(graph, end, rank, q)
  {
    DequeueKeepsQueue(graph, start, end, rank, q);
    KeptGrows(graph, start, end, validPaths, q);
  }

  /** Dequeuing the first path keeps the rest rooted at `start` and in
      breadth-first order, all no shorter than the dequeued path, and
      leaves fewer paths to be taken. */
  lemma DequeueKeepsQueue(graph: StopGraph, start: StopName, end: StopName, rank: map<StopName, nat>, q: seq<Path>)
    requires AcyclicBeyond(graph, end, rank) && q != []
    requires QueuedFromStart(graph, start, end, rank, q) && BreadthOrdered(q)
    ensures QueuedFromStart(graph, start, end, rank, q[1..]) && BreadthOrdered(q[1..])
    ensures forall i :: 0 <= i < |q[1..]| ==> Len(q[0]) <= Len(q[1..][i])
    ensures QueueCount(graph, end, rank, q[1..]) < QueueCount(graph, end, rank, q)
  {
    var rest := q[1..];
    forall i | 0 <= i < |rest|
      ensures rest[i].currentStop in rank && FromStart(graph, start, end, rest[i]) && Len(q[0]) <= Len(rest[i])
    {
      assert rest[i] == q[i + 1];
    }
    forall i, j | 0 <= i < j < |rest| ensures Len(rest[i]) <= Len(rest[j]) {
      assert rest[i] == q[i + 1] && rest[j] == q[j + 1];
    }
    if rest != [] {
      assert rest[|rest| - 1] == q[|q| - 1] && rest[0] == q[1];
    }
  }

  /** Keeping a dequeued path at `end` that is no longer than any path left
      in the queue keeps the kept paths rooted at `start` and in order. */
  lemma KeptGrows(graph: StopGraph, start: StopName, end: StopName, validPaths: seq<Path>, q: seq<Path>)
    requires q != [] && FromStart(graph, start, end, q[0]) && q[0].currentStop == end
    requires KeptFromStart(graph, start, end, validPaths) && KeptInOrder(validPaths, q)
    requires forall i :: 0 <= i < |q[1..]| ==> Len(q[0]) <= Len(q[1..][i])
    ensures KeptFromStart(graph, start, end, validPaths + [q[0]])
    ensures KeptInOrder(validPaths + [q[0]], q[1..])
  {
    var kept := validPaths + [q[0]];
    forall i | 0 <= i < |kept|
      ensures FromStart(graph, start, end, kept[i]) && kept[i].currentStop == end && Len(kept[i]) <= Len(q[0])
    {
      if i < |validPaths| {
        assert kept[i] == validPaths[i];
      } else {
        assert kept[i] == q[0];
      }
    }
    forall i, j | 0 <= i < j < |kept| ensures Len(kept[i]) <= Len(kept[j]) {
      assert kept[i] == validPaths[i];
      if j < |validPaths| {
        assert kept[j] == validPaths[j];
      }
    }
    if q[1..] != [] {
      assert Len(q[0]) <= Len(q[1..][0]);
    }
  }

  /** A stop sequence the enumeration is meant to find: it begins at
      `start`, follows `next` links, and meets `end` at its last stop and
      nowhere before. */
  ghost predicate CompletePath(graph: StopGraph, start: StopName, end: StopName, s: seq<StopName>)
  {
    && |s| >= 1 && s[0] == start && s[|s| - 1] == end
    && Linked(graph, s)
    && forall i :: 0 <= i < |s| - 1 ==> s[i] != end
  }

  /** `a` is the beginning of `s`. */
  ghost predicate PrefixOf(a: seq<StopName>, s: seq<StopName>)
  {
    |a| <= |s| && s[..|a|] == a
  }

  /** `s` is the stop sequence of a kept path. */
  ghost predicate Found(validPaths: seq<Path>, s: seq<StopName>)
  {
    exists i :: 0 <= i < |validPaths| && Stops(validPaths[i]) == s
  }

  /** `s` continues a queued path. */
  ghost predicate Pending(q: seq<Path>, s: seq<StopName>)
  {
    exists i :: 0 <= i < |q| && PrefixOf(Stops(q[i]), s)
  }

  /** Every sequence still to be found is either kept already or continues
      some queued path. */
  ghost predicate Covers(graph: StopGraph, start: StopName, end: StopName, q: seq<Path>, validPaths: seq<Path>)
  {
    forall s :: CompletePath(graph, start, end, s) ==> Found(validPaths, s) || Pending(q, s)
  }

  /** The path of `start` alone begins every sequence to be found. */
  lemma CoverStart(graph: StopGraph, start: StopName, end: StopName)
    ensures Covers(graph, start, end, [Path(None, start)], [])
  {
    var q := [Path(None, start)];
    forall s | CompletePath(graph, start, end, s) ensures Pending(q, s) {
      assert PrefixOf(Stops(q[0]), s);
    }
  }

  /** With the queue empty, every sequence to be found has been kept. */
  lemma CoverDone(graph: StopGraph, start: StopName, end: StopName, validPaths: seq<Path>)
    requires Covers(graph, start, end, [], validPaths)
    ensures forall s :: CompletePath(graph, start, end, s) ==>
      exists i :: 0 <= i < |validPaths| && Stops(validPaths[i]) == s
  {
    forall s | CompletePath(graph, start, end, s) ensures Found(validPaths, s) {
      assert !Pending([], s);
    }
  }

  /** A proper beginning of `s` grows by the next element of `s`. */
  lemma PrefixGrows(a: seq<StopName>, s: seq<StopName>)
    requires PrefixOf(a, s) && |a| < |s|
    ensures PrefixOf(a + [s[|a|]], s)
  {
    assert s[..|a| + 1] == s[..|a|] + [s[|a|]];
  }

  /** A sequence to be found that a path not at `end` begins is begun by
      one of that path's extensions by its next stops. */
  lemma ExtendPrefix(graph: StopGraph, start: StopName, end: StopName, p: Path, s: seq<StopName>)
    requires CompletePath(graph, start, end, s) && PrefixOf(Stops(p), s) && p.currentStop != end
    ensures Pending(Extensions(p, Next(graph, p.currentStop)), s)
  {
    var ns := Next(graph, p.currentStop);
    var a := Stops(p);
    var k := |a|;
    assert s[..k][k - 1] == s[k - 1] == p.currentStop;
    assert k < |s|;
    assert s[k] in ns by {
      assert Linked(graph, s);
    }
    var j :| 0 <= j < |ns| && ns[j] == s[k];
    var ext := Extensions(p, ns);
    PrefixGrows(a, s);
    assert Stops(ext[j]) == a + [s[k]];
  }

  /** Extending a dequeued path that is not at `end` by all its next stops
      loses no sequence still to be found. */
  lemma CoverExtend(graph: StopGraph, start: StopName, end: StopName, q: seq<Path>, validPaths: seq<Path>)
    requires q != [] && q[0].currentStop != end
    requires Covers(graph, start, end, q, validPaths)
    ensures Covers(graph, start, end, q[1..] + Extensions(q[0], Next(graph, q[0].currentStop)), validPaths)
  {
    var ext := Extensions(q[0], Next(graph, q[0].currentStop));
    var next := q[1..] + ext;
    forall s | CompletePath(graph, start, end, s) && !Found(validPaths, s)
      ensures Pending(next, s)
    {
      var i :| 0 <= i < |q| && PrefixOf(Stops(q[i]), s);
      if i > 0 {
        assert next[i - 1] == q[i];
      } else {
        ExtendPrefix(graph, start, end, q[0], s);
        var j :| 0 <= j < |ext| && PrefixOf(Stops(ext[j]), s);
        assert next[|q| - 1 + j] == ext[j];
      }
    }
  }

  /** Keeping a dequeued path that is at `end` loses no sequence still to
      be found: a queued path at `end` that begins a sequence to be found
      is that whole sequence. */
  lemma CoverKeep(graph: StopGraph, start: StopName, end: StopName, q: seq<Path>, validPaths: seq<Path>)
    requires q != [] && q[0].currentStop == end
    requires Covers(graph, start, end, q, validPaths)
    ensures Covers(graph, start, end, q[1..], validPaths + [q[0]])
  {
    var kept := validPaths + [q[0]];
    forall s | CompletePath(graph, start, end, s) ensures Found(kept, s) || Pending(q[1..], s) {
      if i :| 0 <= i < |validPaths| && Stops(validPaths[i]) == s {
        assert kept[i] == validPaths[i];
      } else {
        var i :| 0 <= i < |q| && PrefixOf(Stops(q[i]), s);
        if i > 0 {
          assert q[1..][i - 1] == q[i];
        } else {
          var a := Stops(q[0]);
          var k := |a|;
          assert s[k - 1] == a[k - 1] == end;
          assert k == |s|;
          assert a == s;
          assert kept[|validPaths|] == q[0];
        }
      }
    }
  }

  /** The inner loop of `_get_valid_paths`: puts the extension of `current`
      by each next stop at the back of the queue, in order. */
  method PutExtensions(q: seq<Path>, current: Path, nexts: seq<StopName>) returns (q': seq<Path>)
    ensures q' == q + Extensions(current, nexts)
  {
    q' := q;
    for k := 0 to |nexts|
      invariant q' == q + Extensions(current, nexts[..k])
    {
      assert Extensions(current, nexts[..k + 1]) == Extensions(current, nexts[..k]) + [Path(Some(current), nexts[k])];
      q' := q' + [Path(Some(current), nexts[k])];
    }
    assert nexts[..|nexts|] == nexts;
  }

  /** What holds at the head of each round of `_get_valid_paths`. */
  ghost predicate EnumInv(graph: StopGraph, start: StopName, end: StopName, rank: map<StopName, nat>,
                          q: seq<Path>, validPaths: seq<Path>)
  {
    && QueuedFromStart(graph, start, end, rank, q)
    && KeptFromStart(graph, start, end, validPaths)
    && BreadthOrdered(q) && KeptInOrder(validPaths, q)
    && (start == end ==>
          (q == [Path(None, start)] && validPaths == []) || (q == [] && validPaths == [Path(None, start)]))
    && Covers(graph, start, end, q, validPaths)
  }

  /** A round that keeps a dequeued path at `end` keeps the invariant and
      leaves fewer paths to be taken. */
  lemma KeepRound(graph: StopGraph, start: StopName, end: StopName, rank: map<StopName, nat>,
                  q: seq<Path>, validPaths: seq<Path>)
    requires AcyclicBeyond(graph, end, rank) && EnumInv(graph, start, end, rank, q, validPaths)
    requires q != [] && q[0].currentStop == end
    ensures EnumInv(graph, start, end, rank, q[1..], validPaths + [q[0]])
    ensures QueueCount(graph, end, rank, q[1..]) < QueueCount(graph, end, rank, q)
  {
    KeepStep(graph, start, end, rank, q, validPaths);
    CoverKeep(graph, start, end, q, validPaths);
  }

  /** A round that extends a dequeued path not at `end` keeps the
      invariant and leaves fewer paths to be taken. */
  lemma ExtendRound(graph: StopGraph, start: StopName, end: StopName, rank: map<StopName, nat>,
                    q: seq<Path>, validPaths: seq<Path>)
    requires AcyclicBeyond(graph, end, rank) && EnumInv(graph, start, end, rank, q, validPaths)
    requires q != [] && q[0].currentStop != end
    ensures var next := q[1..] + Extensions(q[0], Next(graph, q[0].currentStop));
      && EnumInv(graph, start, end, rank, next, validPaths)
      && QueueCount(graph, end, rank, next) < QueueCount(graph, end, rank, q)
  {
    ExtendStep(graph, start, end, rank, q, validPaths);
    ExtendCount(graph, end, rank, q);
    CoverExtend(graph, start, end, q, validPaths);
  }

  /** `_get_valid_paths`: a first-in first-out queue of paths, starting with
      the path of `start` alone. A dequeued path that stands at `end` is
      kept and not extended; any other is extended by each of its stop's
      next stops. Every kept path begins at `start`, follows `next` links,
      meets `end` only at its last stop, and the kept paths come out in
      non-decreasing number of stops. */
  method GetValidPaths(graph: StopGraph, start: StopName, end: StopName, ghost rank: map<StopName, nat>)
    returns (validPaths: seq<Path>)
    requires AcyclicBeyond(graph, end, rank) && start in rank
    ensures forall i :: 0 <= i < |validPaths| ==>
      FromStart(graph, start, end, validPaths[i]) && validPaths[i].currentStop == end
    ensures forall i, j :: 0 <= i < j < |validPaths| ==> |Stops(validPaths[i])| <= |Stops(validPaths[j])|
    ensures start == end ==> validPaths == [Path(None, start)]
    ensures forall s :: CompletePath(graph, start, end, s) ==>
      exists i :: 0 <= i < |validPaths| && Stops(validPaths[i]) == s
  {
    var q := [Path(None, start)];
    validPaths := [];
    CoverStart(graph, start, end);
    while q != []
      invariant EnumInv(graph, start, end, rank, q, validPaths)
      decreases QueueCount(graph, end, rank, q)
    {
      ghost var q0 := q;
      var current := q[0];
      q := q[1..];

      if current.currentStop == end {
        KeepRound(graph, start, end, rank, q0, validPaths);
        validPaths := validPaths + [current];
        continue;
      }

      ExtendRound(graph, start, end, rank, q0, validPaths);
      var nexts := Next(graph, current.currentStop);
      if |nexts| > 0 {
        q := PutExtensions(q, current, nexts);
      } else {
        assert q == q0[1..] + Extensions(current, nexts);
      }
    }
    CoverDone(graph, start, end, validPaths);
  }

  // ---------------------------------------------------------------------
  // _construct_route and build_routes
  // ---------------------------------------------------------------------

  /** One entry of a route: a leg between two consecutive stops with the
      buses serving both, or the entry for the first stop. */
  datatype Leg =
    | Edge(from: StopName, to: StopName, shared: set<Bus>)
    | StartLeg(stop: StopName, shared: set<Bus>)

  /** What `_construct_route` gives back: a route, nothing (`None`, when two
      consecutive stops share no bus), or the `IndexError` raised when the
      path has a single stop and `route[-1]` is taken of an empty list. */
  datatype RouteResult = Route(legs: seq<Leg>) | NoRoute | IndexError

  /** The buses that serve both stops `a` and `b`. */
  function SharedBuses(registry: seq<Bus>, a: StopName, b: StopName): (shared: set<Bus>)
    ensures forall x | x in shared :: x in registry && a in x.busStops && b in x.busStops
    ensures forall x | x in registry :: a in x.busStops && b in x.busStops ==> x in shared
  {
    BusesInStop(registry, b) * BusesInStop(registry, a)
  }

  /** The leg from stop `i` of `s` to the next one, with the buses serving
      both. */
  function EdgeAt(registry: seq<Bus>, s: seq<StopName>, i: nat): Leg
    requires i + 1 < |s|
  {
    Edge(s[i], s[i + 1], SharedBuses(registry, s[i], s[i + 1]))
  }

  /** Two consecutive stops of `s` that no bus serves together. */
  predicate HasGap(registry: seq<Bus>, s: seq<StopName>)
  {
    exists i: nat :: i + 1 < |s| && EdgeAt(registry, s, i).shared == {}
  }

  /** The legs of the route of stops `s`, last leg first, followed by the
      entry for the first stop, whose buses are those of the first leg. */
  function RouteLegs(registry: seq<Bus>, s: seq<StopName>): (legs: seq<Leg>)
    requires |s| >= 2
    ensures |legs| == |s|
    ensures forall k :: 0 <= k < |s| - 1 ==> legs[k] == EdgeAt(registry, s, |s| - 2 - k)
    ensures legs[|s| - 1] == StartLeg(s[0], SharedBuses(registry, s[0], s[1]))
  {
    seq(|s|, k requires 0 <= k < |s| =>
          if k < |s| - 1 then EdgeAt(registry, s, |s| - 2 - k)
          else StartLeg(s[0], SharedBuses(registry, s[0], s[1])))
  }

  /** The route of a path, stated directly on its stops: a single stop
      raises; a gap gives no route; otherwise the legs of `RouteLegs`. */
  function RouteOf(registry: seq<Bus>, p: Path): (r: RouteResult)
    ensures r.IndexError? <==> |Stops(p)| == 1
    ensures r.NoRoute? <==> |Stops(p)| > 1 && HasGap(registry, Stops(p))
    ensures r.Route? ==> |r.legs| == |Stops(p)|
  {
    var s := Stops(p);
    if |s| == 1 then IndexError
    else if HasGap(registry, s) then NoRoute
    else Route(RouteLegs(registry, s))
  }

  /** No two consecutive stops of `s` from stop `j` on lack a shared bus. */
  ghost predicate NoGapFrom(registry: seq<Bus>, s: seq<StopName>, j: int)
  {
    forall i: nat :: j <= i && i + 1 < |s| ==> EdgeAt(registry, s, i).shared != {}
  }

  /** What `_construct_route` has built after walking back over the last
      `|route|` stops of `s`: the first legs of the route, none of them
      without a shared bus. */
  ghost predicate RouteSoFar(registry: seq<Bus>, s: seq<StopName>, route: seq<Leg>)
  {
    && |route| <= |s|
    && (route != [] ==> |s| >= 2 && route == RouteLegs(registry, s)[..|route|])
    && NoGapFrom(registry, s, |s| - 1 - |route|)
  }

  /** Recording the leg into stop `|s| - 1 - |route|` when it has a shared
      bus. */
  lemma RecordEdge(registry: seq<Bus>, s: seq<StopName>, route: seq<Leg>)
    requires RouteSoFar(registry, s, route) && |route| + 1 < |s|
    requires EdgeAt(registry, s, |s| - 2 - |route|).shared != {}
    ensures RouteSoFar(registry, s, route + [EdgeAt(registry, s, |s| - 2 - |route|)])
  {
    var legs := RouteLegs(registry, s);
    assert legs[|route|] == EdgeAt(registry, s, |s| - 2 - |route|);
    assert legs[..|route| + 1] == legs[..|route|] + [legs[|route|]];
  }

  /** At the first stop, the last recorded leg is the first leg, its buses
      all serve the first stop, and recording the start entry completes the
      route. */
  lemma RecordStart(registry: seq<Bus>, s: seq<StopName>, route: seq<Leg>)
    requires RouteSoFar(registry, s, route) && |route| + 1 == |s| && route != []
    ensures route[|route| - 1].shared == SharedBuses(registry, s[0], s[1]) != {}
    ensures BusesInStop(registry, s[0]) * route[|route| - 1].shared == route[|route| - 1].shared
    ensures !HasGap(registry, s)
    ensures route + [StartLeg(s[0], SharedBuses(registry, s[0], s[1]))] == RouteLegs(registry, s)
  {
    var legs := RouteLegs(registry, s);
    assert route[|route| - 1] == legs[|s| - 2] == EdgeAt(registry, s, 0);
    assert legs == legs[..|route|] + [legs[|s| - 1]];
  }

  /** Walking back from `current`, which stands at stop `|s| - 1 - |route|`
      of `s` and has a previous path: the previous path holds the stops
      before it, the leg between the two is the edge of `s` there, and an
      empty set of shared buses is a gap of `s`. */
  lemma EdgeBack(registry: seq<Bus>, s: seq<StopName>, route: seq<Leg>, current: Path, shared: set<Bus>)
    requires current.prevPath.Some? && |route| < |s| && Stops(current) == s[..|s| - |route|]
    requires shared == BusesInStop(registry, current.currentStop)
                       * BusesInStop(registry, current.prevPath.value.currentStop)
    ensures |route| + 1 < |s|
    ensures Stops(current.prevPath.value) == s[..|s| - |route| - 1]
    ensures Edge(current.prevPath.value.currentStop, current.currentStop, shared)
         == EdgeAt(registry, s, |s| - 2 - |route|)
    ensures shared == {} ==> HasGap(registry, s)
  {
    var prev, m := current.prevPath.value, |s| - |route|;
    assert Stops(current) == Stops(prev) + [current.currentStop];
    assert s[..m - 1] == s[..m][..m - 1];
    assert prev.currentStop == s[m - 2] && current.currentStop == s[m - 1];
  }


  /** `_construct_route`: walks the path back from its current stop and,
      for each stop with a previous one, records the buses serving both,
      giving up when there are none; at the first stop it intersects that
      stop's buses with those of the last recorded leg. That second
      intersection equals the first leg's set, so it is never empty. */
  method ConstructRoute(registry: BusRegistry, path: Path) returns (result: RouteResult)
    ensures result == RouteOf(registry.all, path)
  {
    ghost var s := Stops(path);
    ghost var n := |s|;
    var reg := registry.all;
    var route: seq<Leg> := [];
    var cursor: Option<Path> := Some(path);
    while cursor.Some?
      invariant RouteSoFar(reg, s, route)
      invariant cursor.Some? ==> |route| < n && Stops(cursor.value) == s[..n - |route|]
      invariant cursor.None? ==> |route| == n >= 2 && route == RouteLegs(reg, s) && !HasGap(reg, s)
      decreases if cursor.Some? then |Stops(cursor.value)| else 0
    {
      var current := cursor.value;
      var buses := GetBusesInStop(reg, current.currentStop);
      if current.prevPath.Some? {
        var prev := current.prevPath.value;
        var prevBuses := GetBusesInStop(reg, prev.currentStop);
        var shared := buses * prevBuses;
        EdgeBack(reg, s, route, current, shared);
        if shared == {} {
          return NoRoute;
        }
        RecordEdge(reg, s, route);
        route := route + [Edge(prev.currentStop, current.currentStop, shared)];
      } else {
        if route == [] {
          return IndexError;
        }
        var nextBuses := route[|route| - 1].shared;
        RecordStart(reg, s, route);
        var shared := buses * nextBuses;
        if shared == {} {
          return NoRoute;
        }
        route := route + [StartLeg(current.currentStop, shared)];
      }
      cursor := current.prevPath;
    }
    return Route(route);
  }

  /** The outcome of `build_routes`: the kept routes, or the `IndexError`
      that `_construct_route` raised on a single-stop path. */
  datatype BuildResult = Built(routes: seq<seq<Leg>>) | BuildIndexError

  /** The routes `build_routes` keeps from `paths`, in the paths' order:
      each path that has a route contributes that route reversed (first
      stop first); a path without one contributes nothing; a single-stop
      path raises. */
  function KeptRoutes(registry: seq<Bus>, paths: seq<Path>): (r: BuildResult)
    ensures r.BuildIndexError? <==> exists i :: 0 <= i < |paths| && |Stops(paths[i])| == 1
    ensures r.Built? ==> |r.routes| <= |paths|
  {
    if paths == [] then Built([])
    else
      var rest := KeptRoutes(registry, paths[1..]);
      assert forall i :: 0 <= i < |paths[1..]| ==> paths[1..][i] == paths[i + 1];
      match RouteOf(registry, paths[0])
      case IndexError => BuildIndexError
      case NoRoute => rest
      case Route(legs) => Prepend([Reversed(legs)], rest)
  }

  /** Routes placed in front of an outcome; an error stays an error. */
  function Prepend(routes: seq<seq<Leg>>, r: BuildResult): (out: BuildResult)
    ensures out.Built? == r.Built?
    ensures out.Built? ==> |out.routes| == |routes| + |r.routes|
  {
    match r
    case Built(rest) => Built(routes + rest)
    case BuildIndexError => BuildIndexError
  }

  /** The routes kept from the paths at `i` and after, in terms of the
      route of path `i`. */
  lemma KeptRoutesFrom(registry: seq<Bus>, paths: seq<Path>, i: nat)
    requires i < |paths|
    ensures KeptRoutes(registry, paths[i..]) ==
      match RouteOf(registry, paths[i])
      case IndexError => BuildIndexError
      case NoRoute => KeptRoutes(registry, paths[i + 1..])
      case Route(legs) => Prepend([Reversed(legs)], KeptRoutes(registry, paths[i + 1..]))
  {
    assert paths[i..][1..] == paths[i + 1..];
  }

  /** Prepending twice is prepending the concatenation. */
  lemma PrependTwice(a: seq<seq<Leg>>, b: seq<seq<Leg>>, r: BuildResult)
    ensures Prepend(a, Prepend(b, r)) == Prepend(a + b, r)
  {
    if r.Built? {
      assert a + (b + r.routes) == (a + b) + r.routes;
    }
  }

  /** `route` is the reversed route of path `p`. */
  ghost predicate RoutedAs(registry: seq<Bus>, p: Path, route: seq<Leg>)
  {
    RouteOf(registry, p).Route? && route == Reversed(RouteOf(registry, p).legs)
  }

  /** `route` is the reversed route of one of `paths`. */
  ghost predicate RouteOfSome(registry: seq<Bus>, paths: seq<Path>, route: seq<Leg>)
  {
    exists i :: 0 <= i < |paths| && RoutedAs(registry, paths[i], route)
  }

  /** A reversed route of one of `paths` is that of the first path or of
      one of the rest. */
  lemma RouteOfSomeSplit(registry: seq<Bus>, paths: seq<Path>, route: seq<Leg>)
    requires paths != []
    ensures RouteOfSome(registry, paths, route) <==>
      RoutedAs(registry, paths[0], route) || RouteOfSome(registry, paths[1..], route)
  {
    var tail := paths[1..];
    if RouteOfSome(registry, tail, route) {
      var j :| 0 <= j < |tail| && RoutedAs(registry, tail[j], route);
      assert tail[j] == paths[j + 1];
    }
    if RouteOfSome(registry, paths, route) {
      var i :| 0 <= i < |paths| && RoutedAs(registry, paths[i], route);
      if i > 0 {
        assert tail[i - 1] == paths[i];
      }
    }
  }

  /** When no path raises, the kept routes are exactly the reversed routes
      of the paths that have one. */
  lemma {:induction false} KeptRoutesExactly(registry: seq<Bus>, paths: seq<Path>)
    requires KeptRoutes(registry, paths).Built?
    ensures forall route :: route in KeptRoutes(registry, paths).routes <==> RouteOfSome(registry, paths, route)
    decreases |paths|
  {
    if paths != [] {
      var tail := paths[1..];
      var r0 := RouteOf(registry, paths[0]);
      assert KeptRoutes(registry, tail).Built?;
      KeptRoutesExactly(registry, tail);
      var kept, rest := KeptRoutes(registry, paths).routes, KeptRoutes(registry, tail).routes;
      assert kept == if r0.Route? then [Reversed(r0.legs)] + rest else rest;
      forall route ensures route in kept <==> RouteOfSome(registry, paths, route) {
        RouteOfSomeSplit(registry, paths, route);
      }
    }
  }

  /** A kept route, read first stop first: the entry for the first stop,
      then one leg per pair of consecutive stops, each leg with the
      non-empty set of buses serving both its stops. */
  lemma ReversedRouteShape(registry: seq<Bus>, p: Path)
    requires RouteOf(registry, p).Route?
    ensures var s, legs := Stops(p), Reversed(RouteOf(registry, p).legs);
      && |legs| == |s| >= 2
      && legs[0] == StartLeg(s[0], SharedBuses(registry, s[0], s[1]))
      && (forall k :: 1 <= k < |s| ==> legs[k] == EdgeAt(registry, s, k - 1))
      && (forall k :: 0 <= k < |s| ==> legs[k].shared != {})
  {
    var s, legs := Stops(p), Reversed(RouteOf(registry, p).legs);
    var n := |s|;
    assert !HasGap(registry, s);
    forall k | 1 <= k < n
      ensures legs[k] == EdgeAt(registry, s, k - 1) && legs[k].shared != {}
    {
      assert legs[k] == RouteOf(registry, p).legs[n - 1 - k];
      assert EdgeAt(registry, s, k - 1).shared != {};
    }
    assert EdgeAt(registry, s, 0).shared != {};
  }

  /** The enumeration's paths raise in `_construct_route` exactly when
      the start is the end: then the only path is the start alone, and
      otherwise every path has at least two stops. */
  lemma BuildOutcome(graph: StopGraph, registry: seq<Bus>, start: StopName, end: StopName, paths: seq<Path>)
    requires forall i :: 0 <= i < |paths| ==> FromStart(graph, start, end, paths[i]) && paths[i].currentStop == end
    requires start == end ==> paths == [Path(None, start)]
    ensures KeptRoutes(registry, paths).BuildIndexError? <==> start == end
  {
    if start != end {
      forall i | 0 <= i < |paths| ensures |Stops(paths[i])| != 1 {
        assert FromStart(graph, start, end, paths[i]);
      }
    } else {
      assert |Stops(paths[0])| == 1;
    }
  }

  /** `build_routes`: enumerates the valid paths from `start` to `end` and
      keeps, in order, the reversed route of each path that has one. */
  method BuildRoutes(graph: StopGraph, registry: BusRegistry, start: StopName, end: StopName,
                     ghost rank: map<StopName, nat>)
    returns (result: BuildResult, ghost paths: seq<Path>)
    requires AcyclicBeyond(graph, end, rank) && start in rank
    ensures forall i :: 0 <= i < |paths| ==> FromStart(graph, start, end, paths[i]) && paths[i].currentStop == end
    ensures forall s :: CompletePath(graph, start, end, s) ==> exists i :: 0 <= i < |paths| && Stops(paths[i]) == s
    ensures result == KeptRoutes(registry.all, paths)
    ensures result.BuildIndexError? <==> start == end
  {
    var validPaths := GetValidPaths(graph, start, end, rank);
    paths := validPaths;
    var routes: seq<seq<Leg>> := [];
    for i := 0 to |validPaths|
      invariant KeptRoutes(registry.all, validPaths) == Prepend(routes, KeptRoutes(registry.all, validPaths[i..]))
    {
      var route := ConstructRoute(registry, validPaths[i]);
      KeptRoutesFrom(registry.all, validPaths, i);
      if route.IndexError? {
        return BuildIndexError, paths;
      }
      if route.Route? {
        PrependTwice(routes, [Reversed(route.legs)], KeptRoutes(registry.all, validPaths[i + 1..]));
        routes := routes + [Reversed(route.legs)];
      }
    }
    assert validPaths[|validPaths|..] == [];
    result := Built(routes);
    BuildOutcome(graph, registry.all, start, end, validPaths);
  }
}
