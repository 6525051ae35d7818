# Grid searches, sorting routines and a bus-route enumerator in Dafny

This project models three small groups of algorithms and proves properties
of the model.

- **Labyrinth** (`labyrinth.dfy`, `searches.dfy`). A labyrinth is a
  rectangular grid of integers; a cell holding `1` is a wall.
  - A `Vertex` is a cell together with the vertex it was reached from
    (its *father*). `get_path` reads the cells back along the fathers.
  - `get_neighbours` lists the four cells one horizontal or vertical move
    away. It never reads the grid, so `GetNeighbours` takes no grid.
  - `bfs` (a first-in first-out queue, with already visited cells skipped
    on removal), `dfs` (a last-in first-out stack, with no such check) and
    `a_star` (an open list re-sorted by `f` before each removal, plus a
    closed list) look for a walk from a start cell to an end cell.
  - A* vertices carry three numbers: `g` is the cost so far, 10 per move;
    `h` is 10 times the Manhattan distance to the end; `f = g + h`.
- **Sorting** (`sorting.dfy`).
  - The XOR exchange of two list cells.
  - Bubble sort, shaker sort and insertion sort, which work in place on an
    array.
  - Merge sort, which builds fresh lists, and its inner merge.
- **Routing** (`routing.dfy`).
  - Bus stops are identified by their names. Their `next` links are a map
    from a stop name to the names of its next stops.
  - Buses are objects. Constructing one appends it to an explicit
    registry.
  - A `Path` is a stop plus the path that led to it. `_get_valid_paths`
    enumerates every path from a start stop to an end stop,
    breadth-first.
  - `_construct_route` turns a path into legs labelled with the buses
    serving both ends of each leg. `build_routes` keeps the routes that
    exist.
- `common.dfy` holds `Option` and list reversal, which the other modules
  share.

Loops in the source are methods with loop invariants. Each method is
proved against a function that states what it computes, for example
`GetPath` against `Trail` and `Merge` against `Merged`. The properties of
those functions are proved as lemmas.

What the main results say:
- All three searches return only genuine walks, and they return "no path"
  only when no walk exists. All three terminate on every walled grid.
- Breadth-first search returns a shortest walk.
- A* takes the earliest open vertex of lowest `f`, and its `f` never
  overestimates the cost of a walk to the end.
- The three in-place sorts and merge sort return the same sorted
  permutation.
- The path enumeration returns exactly the stop sequences that run from
  the start to the end along `next` links and meet the end only at their
  last stop. It returns them in non-decreasing length.
- The routes kept are exactly the reversed routes of the enumerated paths
  that have one.

Three source entities have no row in the table below:
- `Vertex.__eq__` and `Bus.__eq__` are the predicates
  `Labyrinth.SameCoords` and `Routing.Bus.SameName`.
- `Path.__init__` is the datatype constructor `Routing.Path`.

`BusStop.__eq__` (routing_engine/models.py:19-24) compares names, so in
this model two stops are equal exactly when their names are equal strings.

## Model

| member | source | states |
|---|---|---|
| `Sorting.XorExchange` | sorting/sorting.py:1-4 | the three XOR assignments on two distinct 64-bit cells leave each holding the other's old value |
| `Sorting.XorExchangeSelf` | sorting/sorting.py:1-4 | the same three assignments with both operands one cell leave that cell zero, whatever it held |
| `Sorting.SwitchVariables` | sorting/sorting.py:1-4 | for distinct indices, cells `i` and `j` are exchanged, every other cell is unchanged, and the contents are a permutation of the old ones |
| `Sorting.BubbleUpPass` | sorting/sorting.py:11-13 | one upward pass carries the window's maximum to its top cell, keeps the settled prefix and suffix, and permutes the array |
| `Sorting.SinkDownPass` | sorting/sorting.py:28-30 | one downward pass carries the window's minimum to its bottom cell and keeps the maximum at the top |
| `Sorting.BubbleSort` | sorting/sorting.py:7-16 | returns the very array it was given, now sorted ascending and a permutation of its old contents; its invariant is that the cells from `end_index` on are settled |
| `Sorting.ShakerSort` | sorting/sorting.py:19-35 | returns the very array it was given, sorted and permuted; each round settles one cell at each side of a window that shrinks by two |
| `Sorting.InsertionSort` | sorting/sorting.py:38-47 | returns the very array it was given, sorted and permuted; after outer step `i` the prefix up to `i` is sorted |
| `Sorting.Merged` | sorting/sorting.py:52-67 | the merged list has the combined length and is a permutation of the two inputs |
| `Sorting.MergedStep` | sorting/sorting.py:56-62 | one step of the merge takes the head of `left` when it is no larger than the head of `right`, so ties go to `left` |
| `Sorting.MergedIsSorted` | sorting/sorting.py:52-67 | merging two sorted lists gives a sorted list |
| `Sorting.Merge` | sorting/sorting.py:52-67 | the index loop with the tail append computes exactly `Merged(left, right)` |
| `Sorting.MergeSortOf` | sorting/sorting.py:69-74 | for a non-empty list, the result is sorted and a permutation of the input; a one-element list comes back unchanged |
| `Sorting.MergeSort` | sorting/sorting.py:50-74 | the recursive method returns `MergeSortOf(s)`, a sorted permutation of any non-empty list |
| `Sorting.EmptyListSplitsIntoItself` | sorting/sorting.py:69-72 | on the empty list the base case does not apply and both halves of the split equal the input, so the recursion never shrinks |
| `Sorting.MergeSortTotal` | sorting/sorting.py:69-74 | with the base case `len <= 1`, merge sort is total, returns a sorted permutation, and agrees with `MergeSortOf` on every non-empty list |
| `Sorting.SortedPermutationUnique` | sorting/tests.py:22-36 | two sorted permutations of one multiset are the same list, so every sort here agrees with Python's own sort |
| `Sorting.SortsAgree` | sorting/tests.py:22-36 | bubble, shaker and insertion sort all return `MergeSortOf(input)` for the same non-empty input |
| `Routing.Bus.constructor` | routing_engine/models.py:44-54 | the new bus keeps its name and stops, and the registry grows by exactly that bus, appended at the end |
| `Routing.BusesInStop` | routing_engine/models.py:34-42 | a bus is in the result if and only if it is registered and one of its stops has the given name |
| `Routing.GetBusesInStop` | routing_engine/models.py:34-42 | the registry scan, which stops scanning a bus's stops at the first match, returns exactly `BusesInStop` |
| `Routing.Stops` | routing_engine/models.py:69-76 | an abstraction of the `prev_path` chain that `Path.__init__` links up: the stop names from the root to the path's own stop. The sequence ends with its own `current_stop`, and a root path has that one stop |
| `Routing.StringPath` | routing_engine/models.py:84-89 | the string's length is the sum of the name lengths along the chain |
| `Routing.GetStringPath` | routing_engine/models.py:78-89 | the loop over `prev_path` builds exactly `StringPath(p)` |
| `Routing.StringPathIsReversedStops` | routing_engine/models.py:78-89 | the string is the stop names from the path's own stop back to the root, concatenated |
| `Routing.StringPathExample` | routing_engine/models.py:78-89 | the path A, B, C reads "CBA", and a root path reads its own name |
| `Routing.Extensions` | routing_engine/engine.py:83-86 | one new path per next stop, in order, each with the dequeued path as its previous path, so each one's stop sequence is the dequeued path's stops plus that next stop |
| `Routing.QueueCountExtensions` | routing_engine/engine.py:83-86 | the extensions of a queued path account exactly for the paths its stop still has to produce |
| `Routing.ExtendStep` | routing_engine/engine.py:82-86 | extending a dequeued path not at the end keeps every queued path rooted at the start, keeps the queue breadth-ordered, and keeps every kept path no longer than any queued one |
| `Routing.ExtendCount` | routing_engine/engine.py:82-86 | extending a dequeued path not at the end strictly lowers the number of paths still to be produced, because its extensions promise exactly what it promised beyond itself |
| `Routing.KeepStep` | routing_engine/engine.py:77-80 | keeping a dequeued path at the end keeps every kept path valid and in length order, and lowers the number of paths still to be produced |
| `Routing.DequeueKeepsQueue` | routing_engine/engine.py:75 | taking the head off the queue keeps the rest rooted at the start and breadth-ordered, none shorter than the head, and lowers the number of paths still to be produced |
| `Routing.KeptGrows` | routing_engine/engine.py:77-80 | appending a dequeued path at the end, no longer than any path left queued, keeps the kept paths rooted at the start and in length order |
| `Routing.KeepRound` | routing_engine/engine.py:75-80 | a round that keeps a path at the end preserves the whole loop invariant, completeness included, and lowers the number of paths still to be produced |
| `Routing.ExtendRound` | routing_engine/engine.py:75-86 | a round that extends a path not at the end preserves the whole loop invariant, completeness included, and lowers the number of paths still to be produced |
| `Routing.CoverExtend` | routing_engine/engine.py:82-86 | extending a path by all its next stops loses no stop sequence still to be found |
| `Routing.CoverKeep` | routing_engine/engine.py:77-80 | a queued path at the end that begins a sequence still to be found is that whole sequence, so keeping it loses nothing |
| `Routing.PutExtensions` | routing_engine/engine.py:84-86 | the inner loop puts exactly the extensions of the current path at the back of the queue |
| `Routing.GetValidPaths` | routing_engine/engine.py:58-88 | terminates when the `next` links out of the start are acyclic. Every returned path starts at `start`, follows `next` links, and meets `end` only at its last stop. Every such stop sequence is returned. Paths come out in non-decreasing number of stops. For `start == end` the result is the single one-stop path |
| `Routing.SharedBuses` | routing_engine/engine.py:39-43 | a bus is shared by two stops if and only if it is registered and serves both |
| `Routing.RouteOf` | routing_engine/engine.py:35-55 | a one-stop path gives the IndexError. A path with two consecutive stops that share no bus gives no route. Any other path gives one entry per stop |
| `Routing.RouteLegs` | routing_engine/engine.py:37-55 | a route of `n` stops has `n` entries: entry `k` is the leg into stop `n - 1 - k` with the buses serving both its stops, and the last is the start entry with the first leg's buses |
| `Routing.EdgeBack` | routing_engine/engine.py:41-46 | a step back from a path with a previous path meets the previous stop of the sequence, the leg it records is that edge of the sequence, and no shared bus means the sequence has a gap |
| `Routing.RecordEdge` | routing_engine/engine.py:46 | recording a leg with a shared bus extends the legs recorded so far by the next edge, walking backwards |
| `Routing.RecordStart` | routing_engine/engine.py:47-53 | at the root, the first stop serves every bus of the first leg, so the start entry never fails, the sequence has no gap, and the recorded legs are the whole route |
| `Routing.ConstructRoute` | routing_engine/engine.py:35-55 | the backward walk returns exactly `RouteOf(path)`: the edge entries last leg first, each with the buses serving both stops, then the start entry with the first leg's buses |
| `Routing.KeptRoutes` | routing_engine/engine.py:23-32 | the outcome is the IndexError if and only if some path has a single stop; otherwise there are no more routes than paths |
| `Routing.Prepend` | routing_engine/engine.py:29-30 | prepending routes keeps a failure a failure and adds their number to the count |
| `Routing.KeptRoutesFrom` | routing_engine/engine.py:26-30 | the routes kept from path `i` on: the IndexError, the rest alone, or the reversed route of path `i` in front of the rest |
| `Routing.PrependTwice` | routing_engine/engine.py:29-30 | appending routes one at a time builds the same list as appending them together |
| `Routing.RouteOfSomeSplit` | routing_engine/engine.py:26-30 | a route comes from one of the paths if and only if it comes from the first path or from one of the rest |
| `Routing.KeptRoutesExactly` | routing_engine/engine.py:23-32 | when nothing raises, a route is kept if and only if it is the reversed route of some path that has one |
| `Routing.ReversedRouteShape` | routing_engine/engine.py:47-55 | a kept route starts with the start-stop entry, then one edge per pair of consecutive stops, each with a non-empty set of shared buses |
| `Routing.BuildOutcome` | routing_engine/engine.py:23-32 | for paths from the enumeration, building the routes raises IndexError if and only if the start is the end |
| `Routing.BuildRoutes` | routing_engine/engine.py:14-32 | the enumerated paths are exactly the complete stop sequences from start to end. The result is the routes kept from them, in order. The call raises IndexError if and only if `start == end` |
| `Labyrinth.Neighbours` | labyrinth/labyrinth.py:27-38 | exactly four cells, and a cell is among them if and only if it is one horizontal or vertical move away, so the cell itself is never included |
| `Labyrinth.GetNeighbours` | labyrinth/labyrinth.py:27-38 | the nested offset loops produce exactly `Neighbours(c)`: up, left, right, down, in that order |
| `Labyrinth.ScanIsNeighbours` | labyrinth/labyrinth.py:30-37 | the filtered nine-offset scan keeps exactly up, left, right and down, in that order |
| `Labyrinth.NeighbourInGrid` | labyrinth/labyrinth.py:101-104 | on a walled grid, every neighbour of an interior cell lies inside the grid, so the wall test never reads outside it |
| `Labyrinth.OpenIsInterior` | labyrinth/labyrinth.py:104 | on a walled grid, an open cell is an interior cell |
| `Labyrinth.Trail` | labyrinth/labyrinth.py:14-25 | the trail ends at the vertex's own cell, and a vertex without a father has a trail of that cell alone |
| `Labyrinth.TrailFromRoot` | labyrinth/labyrinth.py:14-25 | the trail begins at the root's cell and has one cell per vertex of the father chain |
| `Labyrinth.GetPath` | labyrinth/labyrinth.py:14-25 | collecting cells along the fathers and reversing gives exactly `Trail(v)`, which ends at `v`'s cell |
| `Labyrinth.NewVertexAStar` | labyrinth/labyrinth.py:60-68 | the new vertex has `h` and `f` unset. The start vertex has `g = 0`. A child has `g` equal to its father's `g` plus the move cost 10, and its trail is its father's trail plus its own cell |
| `Labyrinth.NewVertexCost` | labyrinth/labyrinth.py:62-66 | with `g = father.g + 10`, and 0 at the start, `g` is 10 times the number of moves along the trail |
| `Labyrinth.CalculateH` | labyrinth/labyrinth.py:70-73 | sets only `h`, to 10 times the Manhattan distance from the cell to the end |
| `Labyrinth.CalculateF` | labyrinth/labyrinth.py:75-76 | sets only `f`, to `g + h` |
| `Labyrinth.WalkPrefix` | labyrinth/labyrinth.py:101-107 | a walk without its last cell is a walk to the cell before it |
| `Labyrinth.WalkExtend` | labyrinth/labyrinth.py:101-107 | a walk continued by an adjacent open cell is a walk |
| `Labyrinth.WalkAtLeastManhattan` | labyrinth/labyrinth.py:70-73 | no walk has fewer moves than the Manhattan distance between its ends |
| `Labyrinth.HeuristicAdmissible` | labyrinth/labyrinth.py:70-73 | `h` never exceeds 10 times the number of moves of a walk from the cell to the end |
| `Labyrinth.FNeverOverestimates` | labyrinth/labyrinth.py:75-76 | for a vertex whose `g` is its trail's cost, `f` never exceeds the cost of reaching the end through it |
| `Searches.Children` | labyrinth/labyrinth.py:101-107 | each pushed vertex has the current vertex as father and sits on an open, unvisited neighbour cell |
| `Searches.ChildrenCover` | labyrinth/labyrinth.py:101-107 | every open, unvisited neighbour gets a pushed vertex |
| `Searches.PutChildren` | labyrinth/labyrinth.py:101-107 | the push loop appends exactly `Children(...)` to the queue |
| `Searches.ChildrenSound` | labyrinth/labyrinth.py:101-107 | children of a vertex whose trail is a walk from the start are such vertices too, one move deeper |
| `Searches.WalkCovered` | labyrinth/labyrinth.py:91-108 | under the breadth-first invariant, every walk from the start is matched either by a visited cell at no greater depth or by a queue head no deeper than the walk |
| `Searches.BfsFound` | labyrinth/labyrinth.py:94-96 | when the end is dequeued, its trail is a walk from the start no longer than any other walk, and it is `[start]` when start and end coincide |
| `Searches.BfsSkip` | labyrinth/labyrinth.py:98-99 | dropping a dequeued vertex whose cell is already visited keeps the invariant |
| `Searches.BfsExpand` | labyrinth/labyrinth.py:101-108 | expanding a dequeued unvisited vertex and appending its cell to `visited` keeps the invariant |
| `Searches.BfsExhausted` | labyrinth/labyrinth.py:91-108 | once the queue is empty without finding the end, no walk from the start to the end exists |
| `Searches.Bfs` | labyrinth/labyrinth.py:82-108 | terminates on every walled grid. A returned path is a walk from start to end with the fewest moves of any walk. "No path" means no walk exists. For `start == end` the result is `[start]` |
| `Searches.DfsFound` | labyrinth/labyrinth.py:124-126 | the vertex popped at the end carries a walk from the start |
| `Searches.WalkStaysVisited` | labyrinth/labyrinth.py:128-135 | when every open neighbour of a visited cell is visited, a walk from a visited cell ends at a visited cell |
| `Searches.DfsStepDecreases` | labyrinth/labyrinth.py:128-135 | each round that does not find the end either visits a new cell or lowers the weighted stack measure, though the pop has no visited check |
| `Searches.DfsStart` | labyrinth/labyrinth.py:113-119 | the stack holding only the start vertex, with nothing visited, satisfies the depth-first invariant |
| `Searches.DfsStep` | labyrinth/labyrinth.py:128-135 | a round that does not find the end keeps the depth-first invariant and decreases the termination measure |
| `Searches.DfsVisit` | labyrinth/labyrinth.py:128-135 | a round that pops a vertex not at the end appends its cell to `visited`, pushes exactly `Children(...)`, keeps the invariant and decreases the termination measure |
| `Searches.DfsExhausted` | labyrinth/labyrinth.py:121-135 | once the stack is empty without finding the end, no walk from the start to the end exists |
| `Searches.Dfs` | labyrinth/labyrinth.py:111-135 | terminates on every walled grid. A returned path is a walk from start to end. "No path" means no walk exists. For `start == end` the result is `[start]` |
| `Searches.InsertByF` | labyrinth/labyrinth.py:150 | inserting a vertex adds exactly that vertex to the list, one entry longer |
| `Searches.SortByF` | labyrinth/labyrinth.py:150 | sorting by `f` permutes the open list, and a list of at most one vertex is left as it is |
| `Searches.SortByFSorted` | labyrinth/labyrinth.py:150 | the sorted list is in non-decreasing `f` |
| `Searches.EarliestLowestF` | labyrinth/labyrinth.py:150-152 | the chosen index has an `f` lower than every earlier entry and no higher than every later one |
| `Searches.SortFirstIsEarliestLowest` | labyrinth/labyrinth.py:150-152 | the vertex popped from the front after the stable sort is the earliest entry of lowest `f` |
| `Searches.AStarChildren` | labyrinth/labyrinth.py:160-167 | each appended vertex sits on an open cell not yet closed, has the current vertex as father, `g` 10 more than its father's, `h` the Manhattan estimate and `f = g + h` |
| `Searches.AStarChildrenCover` | labyrinth/labyrinth.py:160-167 | every open neighbour not yet closed gets an appended vertex |
| `Searches.PutAStarChildren` | labyrinth/labyrinth.py:160-167 | the push loop appends exactly `AStarChildren(...)` to the open list |
| `Searches.AStarSortKeeps` | labyrinth/labyrinth.py:150 | every entry that is compared has an `f`, and re-sorting keeps the invariant |
| `Searches.AStarFound` | labyrinth/labyrinth.py:153-155 | the vertex taken at the end carries a walk from the start |
| `Searches.AStarSkip` | labyrinth/labyrinth.py:157-158 | discarding a taken vertex whose cell is closed keeps the invariant |
| `Searches.AStarExpand` | labyrinth/labyrinth.py:160-169 | expanding a taken vertex and closing its cell keeps the invariant, including that each `g` is the cost of its trail |
| `Searches.AStarExhausted` | labyrinth/labyrinth.py:147-169 | once the open list is empty without finding the end, no walk from the start to the end exists |
| `Searches.AStar` | labyrinth/labyrinth.py:138-169 | terminates on every walled grid. A returned path is a walk from start to end. "No path" means no walk exists. For `start == end` the result is `[start]` |

## Left out

- The demo drivers, the timing and random-data code of the sorting tests, and all `__str__`/`__repr__` formatting are left out. They only print. The sorting tests' assertions appear as `SortsAgree`.
- `Engine.__new__` (routing_engine/engine.py:11-12) is left out. It only refuses instantiation.
- `queue.Queue` and `queue.LifoQueue` are plain sequences here. The queue is FIFO (take the front, append at the back) and the stack is LIFO (take and append at the back). Their thread safety is not modelled.
- The call `super(VertexAStar).__init__(coords, father)` (labyrinth/labyrinth.py:61) is not modelled as written. Python raises a `TypeError` there. The model sets the cell and the father as the class documentation intends.
- The diagonal move cost of 14 is not modelled. It is mentioned in a docstring, and the code never makes diagonal moves.
- Grids are required to be rectangular with a border of walls, and the start must be an interior cell. With that, no neighbour lookup leaves the grid. Python's negative-index wraparound, and the `IndexError` of a lookup past the edge, are not modelled.
- `VertexAStar` objects are values here. Their `h` and `f` are filled in before the vertex is shared, as the source does, so no aliasing is lost. A child records its father's plain `Vertex`, which keeps the cell and the father chain that `get_path` reads, but not the father's `g`, `h` and `f`.
- `calculate_h` and `calculate_f` return an updated vertex instead of assigning fields.
- The class-level `Bus._all` list is an explicit `BusRegistry` object, which the caller passes in.
- Set membership of buses uses Dafny object identity, which matches the source's hash by `id`.
- `Bus.__eq__` is not used to merge buses in sets.
- Stops exist only as their names. The `prev` links of a stop are unused by the core and are not modelled.
- `GetValidPaths` and `BuildRoutes` require an acyclicity witness: a rank on stops that strictly decreases along every `next` link out of a stop other than the end. Without it the source's enumeration does not terminate, since it keeps no visited set.
- `SwitchVariables` requires distinct indices, which every call in the source satisfies. The XOR arithmetic itself is stated on 64-bit words in `XorExchange`, since Dafny has no XOR on unbounded integers. The arrays hold unbounded integers.
- `AStar`: the returned path is proved to be a walk, but not proved to be a shortest one. That proof needs two more invariants over the open list and the closed cells. First, the `f` of the taken vertices never decreases, which follows from the Manhattan estimate being consistent. Second, each cell is closed at its least cost. The loop invariant proved here carries neither; it carries only soundness, closure and `g` as the trail's cost.
- `Dfs`: the returned path is proved to be a walk, but not proved to be short.
- `Bfs`: the contract does not separately state that each cell is expanded at most once. The skip on removal is modelled as `BfsSkip`.
- `Sorting.Merged`: ties between equal integers cannot be told apart in a list of integers. The left-first choice on a tie is stated as the step `MergedStep`.

## Findings

| source | as written | input that shows it | evidently intended | confidence | as-written member | corrected member |
|---|---|---|---|---|---|---|
| sorting/sorting.py:69-74 | the base case is `len(list_) == 1`, so the empty list is split into two empty halves and `merge_sort` calls itself on the empty list again and again; the recursion never shrinks, so CPython stops it with `RecursionError` once the recursion limit is reached | `merge_sort([])` | base case `len(list_) <= 1`, returning the empty list sorted | not executed | `Sorting.EmptyListSplitsIntoItself` | `Sorting.MergeSortTotal` |
