# Grid path finding: a Dafny model of `FindPath`

`path_finding.cpp` searches for a route between two cells of a rectangular
map of bytes, where a byte equal to 1 is walkable and every other value is a
wall. `FindPath` builds one search record (`sNode`) per cell, links each
record to its up, down, left and right neighbours, and runs an open-set loop
from the start cell. When the target is taken off the open set,
`RetracePath` follows the predecessor links back to the start. The cells
after the start are then copied into the caller's buffer, in order, provided
the buffer is large enough. The return value is the number of steps of the
route, or -1 when the target cannot be reached. With the row decoding of
line 49 corrected (or whenever the width is the height plus one, where the
line as written is already right), that route is a shortest one; with the
line as written and other map shapes the records get wrong rows and wrong
links (see the findings below).

The model has five modules:

- `Geometry` (`geometry.dfy`): the map, flat cell indices and their column
  and row, the neighbour list of a cell, the Manhattan distance, and walks
  on the map. `IsPath(g, p, a, b)` is the independent reference for what a
  route is, and `Connected(g, a, b)` says one exists.
- `Nodes` (`nodes.dfy`): the search record. Pointers become cell indices
  and `nullptr` becomes `None`. The float cost becomes `Option<nat>`, with
  `None` for `INFINITY`. This module also has record initialisation, the
  heuristic, one pass of the neighbour loop (`Relax`) and `RetracePath`.
- `SearchInvariants` (`invariants.dfy`): the loop invariant of the
  open-set loop and the lemmas that show each step keeps it. They use ghost
  breadth-first levels for the open-set entries.
- `PathFinding` (`path_finding.dfy`): `FindPath` itself, the buffer
  output, and `FindPathChecked`, which adds a start-cell check. The
  neighbour loop (line 97) never steps onto a wall, so a route is not meant
  to leave one either.
- `Examples` (`examples.dfy`): the two example calls of `main`, a blocked
  single cell and a blocked start.

The comment at line 32 calls the function A*, and the open set is named
`pqOpenSet`, but the open set is a FIFO `std::list`: entries are taken from
the front (line 82) and appended at the back (line 106), with no ordering by
cost or heuristic. The model follows the code and proves that this loop is a
breadth-first search, so the length it returns is the length of a shortest
route. Two further facts about the code that the model keeps:

- The cost of a step (line 101) is `heuristic(current, neighbor)`, the
  Manhattan distance of the two records. With the corrected row decoding
  that distance is 1 for every neighbour, so costs count steps.
- The route is copied only when its length is strictly less than
  `nOutBufferSize` (line 89); a route exactly as long as the buffer is not
  written, although the length is still returned.

## Model

| member | source | states |
|---|---|---|
| Geometry.DecodeRoundTrip | path_finding.cpp:44-53 | For a cell index inside a width × height map, the column `i % width` and the corrected row `i / width` are in range, and they encode back to the same index. |
| Geometry.EncodeRoundTrip | path_finding.cpp:40-41 | Encoding in-range coordinates as `y * width + x` gives an index inside the map. Decoding that index gives back the same column and row. |
| Geometry.RowAsWrittenCorrectIff | path_finding.cpp:49 | The row computed as written, `i / (height + 1)`, equals the true row for every cell exactly when width == height + 1 or the map is 1 × 1. |
| Geometry.NeighboursAsWrittenOutOfRange | path_finding.cpp:48-63 | With the row as written, cell 4 of a 5 × 1 map gets neighbours 9 and 13. Both lie outside the five-cell map. |
| Geometry.NeighboursAsWrittenStranded | path_finding.cpp:48-63 | With the row as written, on a 3 × 3 map no cell other than 6 itself links to cell 6, so no search from another cell reaches it, though with the correct row cell 3 links to it. |
| Geometry.NeighboursAsWrittenMisplaced | path_finding.cpp:48-69 | With the row as written, on a 3 × 3 map cell 4 links to cells 3 and 7, whose recorded coordinates are at heuristic 2 and 0 from its own, not 1. |
| Geometry.NeighboursExact | path_finding.cpp:56-63 | A cell's neighbour list holds exactly the in-map cells at Manhattan distance one. Each is the cell above, the cell below, or the cell on either side in the same row. |
| Geometry.NeighbourSound | path_finding.cpp:56-63 | Every listed neighbour lies inside the map at distance one. It is the cell above, the cell below, or the cell on either side in the same row, never across a row boundary. |
| Geometry.NeighbourComplete | path_finding.cpp:56-63 | Every in-map cell at distance one from a cell appears in that cell's neighbour list. |
| Geometry.DistanceProperties | path_finding.cpp:67-69 | The Manhattan distance between cells is symmetric, is zero exactly for equal cells, and obeys the triangle inequality. |
| Geometry.WalkAtLeastDistance | path_finding.cpp:67-69 | A walk of k steps ends at most k apart from where it started, so the Manhattan heuristic never overestimates the length of a route. |
| Nodes.InitNodes | path_finding.cpp:43-64 | The fresh records are unvisited, with infinite cost and no predecessor. Each one holds its own cell's coordinates, in range, and that cell's neighbour list. |
| Nodes.HeuristicIsDistance | path_finding.cpp:66-69 | On initialised records the heuristic is the Manhattan distance of the two cells. It is symmetric, zero only for the same cell, and one for every listed neighbour. |
| Nodes.Relax | path_finding.cpp:96-107 | A blocked or visited neighbour leaves the state unchanged. Any other neighbour gets the current cost plus one and the current cell as predecessor, and is appended to the open set. No visited flag and no visited record changes. |
| Nodes.Reverse | path_finding.cpp:90 | The reversed sequence has the same length, and its entry k is entry |s| - 1 - k of the input. |
| Nodes.RetracePath | path_finding.cpp:21-30 | Following the predecessor links from a record gives as many cells as its cost. The sequence starts at that record, and each entry's predecessor is the next entry. It stops before the one record that has no predecessor. |
| SearchInvariants.InitInv | path_finding.cpp:72-78 | The state with only the start on the open set, at cost zero, satisfies the loop invariant. |
| SearchInvariants.PopKeeps | path_finding.cpp:81-84 | Taking the front entry and marking it visited sets up the neighbour loop's invariant. The pop level is at most the length of every route to the cell, and the cell's cost is at most that level. A first visit lowers the unvisited count by one. A repeated entry lowers the count of stale entries by one. The target stays unvisited unless it was the entry taken. |
| SearchInvariants.RelaxKeeps | path_finding.cpp:96-107 | Each pass of the neighbour loop moves its invariant one neighbour forward. A walkable neighbour handled so far is visited, or is queued no later than one level after the current cell. Visited flags and the count of stale entries are unchanged. |
| SearchInvariants.ExpandDone | path_finding.cpp:96-108 | Once every neighbour has been handled, the loop invariant holds again for the next pop. |
| SearchInvariants.ExhaustedMeansUnreachable | path_finding.cpp:110-111 | When the open set runs empty before the target is taken, the map has no route from start to target. |
| SearchInvariants.RetraceIsPath | path_finding.cpp:21-30 | For a costed record in a consistent state, the start followed by the reversed retraced cells is a route from the start to that record. |
| PathFinding.FindPath | path_finding.cpp:33-112 | The result is -1 exactly when no route exists. Otherwise it is the length of a shortest route, and it is 0 when start equals target. When the length is below the buffer size, the buffer's first entries are that route after the start and the rest is untouched; otherwise the buffer is untouched. |
| PathFinding.Expand | path_finding.cpp:96-108 | The neighbour loop over the current cell restores the invariant. It leaves the number of unvisited cells and of stale open-set entries unchanged, which is what the termination measure needs. |
| PathFinding.Found | path_finding.cpp:86-94 | Once the target is taken, the returned length is the shortest route length, and the buffer is written only under the strict size test. |
| PathFinding.FindPathChecked | path_finding.cpp:72-78 | Adds the start-cell check. The result is -1 exactly when start and target differ and either the start is blocked or no route exists. Otherwise the result is the shortest route length, and 0 when start equals target. The buffer is written as for FindPath, and is untouched whenever the result is -1. |
| Examples.FirstExample | path_finding.cpp:115-118 | The first example in `main` returns 3 and writes the cells 1, 5, 9. |
| Examples.FirstExampleShortBuffer | path_finding.cpp:89-93 | With a buffer of exactly three entries, the strict size test leaves the buffer untouched, though the route has three steps. |
| Examples.SecondExample | path_finding.cpp:120-123 | The second example in `main` returns -1, because the target's region cannot be entered from the start. The buffer is left untouched, both without and with the start check. With line 49 as written the call also returns -1, for a different reason: no cell other than 6 links to cell 6, the target (`Geometry.NeighboursAsWrittenStranded`). |
| Examples.SingleBlockedCell | path_finding.cpp:73-94 | When a blocked start is also the target, both the search without the start check and the checked search return 0. |
| Examples.BlockedStart | path_finding.cpp:72-78 | The search without the start check leaves a blocked start cell, reports 1 step and writes cell 1. On this 2 × 1 map the row decoding as written agrees with the corrected one, so this is the source's behaviour. The checked search reports -1 and leaves the buffer untouched. |

## Left out

- Console output and `main`'s printing are not modelled. Only the two example calls are modelled, as `Examples.FirstExample` and `Examples.SecondExample`.
- Heap allocation is not modelled, nor is the leak of the `new sNode[]` array, which is never freed. The records form an immutable sequence indexed by cell.
- Float costs are exact naturals, and `INFINITY` is `None`. A `float` holds integers exactly only up to 2^24, but costs never steer the search: the second disjunct of line 102, `!neighbor->bVisited`, is always true there, and line 93 returns the length of the retraced chain, not a cost. Rounding therefore cannot change what the function does.
- `fDistance` (line 75) is written but never read, so the record has no such field.
- The 32-bit `int` arithmetic of the indices (`nMapWidth * nMapHeight`, `y * nMapWidth + x`) is unbounded in the model. Overflow on huge maps is not modelled.
- PathFinding.FindPath: `outSize` is a `nat`. The code compares a `size_t` with a possibly negative `int` at line 89, and a negative size is not modelled.
- PathFinding.FindPath: the source does not check its inputs. The model requires a positive width and height, a map of exactly width × height bytes, start and target coordinates inside the map, and a buffer at least `outSize` long. When one of these fails, the source may read or write out of bounds, but need not:
  - Off-map coordinates whose flat index `y * width + x` lies inside the map are accepted by the source, which treats them as that cell. For example, `(width, 0)` on a map at least two rows high is cell (0, 1). The model excludes such coordinates.
  - A buffer shorter than `nOutBufferSize` but at least as long as the route is written in bounds, because line 91 writes only the route's entries. The model excludes it.
  - A map longer than width × height bytes is read only in its first width × height bytes (lines 44-45). The model excludes it.
- PathFinding.FindPath decodes rows with the corrected `i / width`, not as written; see the findings below. The as-written decoding is modelled separately, as `Geometry.RowAsWritten`.
- Nodes.InitNodes: records get the corrected row `i / width` (line 49 divides by the height plus one), so its promise that each record holds its own cell's coordinates and links is about the corrected code. The as-written rows and links are stated by `Geometry.RowAsWrittenCorrectIff`, `Geometry.NeighboursAsWrittenOutOfRange`, `Geometry.NeighboursAsWrittenStranded` and `Geometry.NeighboursAsWrittenMisplaced`.
- A search over the as-written links as a whole is not modelled: on most map shapes those links leave the map (undefined behaviour) or strand cells, and the model only exhibits those links.

## Findings

| source | as written | input that shows it | evidently intended | confidence | as-written member | corrected member |
|---|---|---|---|---|---|---|
| path_finding.cpp:49 | `y = i / (nMapHeight + 1)` | A 5 × 1 map: cell 4 gets row 2, and its neighbours become cells 9 and 13, outside the map. A fully walkable 3 × 3 map from (0,0) to (0,2): no other cell links to cell 6, so the search returns -1 instead of 2. | `y = i / nMapWidth` | not executed | Geometry.RowAsWrittenCorrectIff, Geometry.NeighboursAsWrittenOutOfRange, Geometry.NeighboursAsWrittenStranded | Geometry.DecodeRoundTrip |
| path_finding.cpp:73-78 | The start record is pushed without looking at `bTraversable`. | Map `{0, 1}`, 2 × 1, start (0,0), target (1,0) returns 1. | -1 when the start is a wall and differs from the target | not executed | Examples.BlockedStart | PathFinding.FindPathChecked |
