# Personnel routing and job assignment, modelled in Dafny

This project models two parts of a Next.js field-service application.

The first is the **route planner** of the personnel-routing page. From an
uploaded sheet of rows (`PERSONEL`, `ENLEM`, `BOYLAM`) it:

- drops rows with an empty person or a zero or non-numeric coordinate;
- groups the remaining coordinates by person, in row order;
- orders each person's points with a nearest-neighbour tour improved by
  first-improvement 2-opt (`computeShortestRoute`);
- cuts the ordered points into chunks of at most `MAX_WAYPOINTS` = 10;
- turns each chunk into a Google Maps `dir` link whose origin is the chunk's
  first point and whose `waypoints` are the remaining points, `|`-separated.

The second is the **job bookkeeping** of the mapping page:

- numbering parsed rows as jobs (`id` = position, unassigned);
- `handleAssign`, which gives the selected jobs to the chosen user;
- the selection `summary`: the total and a count per meter type (`SAYAÇ TİPİ`),
  with missing types counted as `Unknown`.

The haversine distance is kept abstract. It is a parameter
`dist: (Coord, Coord) -> real`, and where termination of 2-opt needs it, the
only fact assumed is that it is never negative. 2-opt terminates because each
accepted move lowers the tour length by more than 1e-6. The decreasing integer
measure is `Floor(length * 10^6)`.

Modules, in dependency order:

| module | file | what it holds |
|---|---|---|
| `Options` | options.dfy | `Option` |
| `Permutations` | permutations.dfy | index tours: range, distinctness, pigeonhole, multisets |
| `Geometry` | geometry.dfy | `Coord`, the distance parameter, route length, selecting points through a tour |
| `TourConstructor` | tour_constructor.dfy | `nearestNeighborOrder` |
| `TourImprover` | tour_improver.dfy | `twoOpt` |
| `RowGrouping` | row_grouping.dfy | the row filter and the group-by-person loop, as written and corrected |
| `DirLinks` | dir_links.dfy | link encoding, and a decoder used to state what a link says |
| `RoutePlanner` | route_planner.dfy | `computeShortestRoute`, chunking, per-person links |
| `JobAssignment` | job_assignment.dfy | job parsing, `handleAssign`, the summary |

Two behaviours of the code are worth stating plainly:

- **Coordinate guard.** The guard `!lat || !lng` drops only 0 and `NaN`, so a
  negative coordinate is kept.
- **No points.** With no points, `nearestNeighborOrder` returns `[0]`, not an
  empty tour. Its only caller never asks for that case.

## Model

| member | source | states |
|---|---|---|
| TourConstructor.ScanNearest | app/personnel-routing/page.tsx:34-38 | The inner scan ends with no candidate only when every index is visited. Otherwise its candidate is unvisited, no farther than any unvisited index, and strictly nearer than every unvisited lower index: a strict `<` makes the lowest index win a tie. |
| TourConstructor.Nearest | app/personnel-routing/page.tsx:32-39 | Returns None exactly when every index is visited. Otherwise it returns the unvisited index nearest to the last point, the lowest one on a tie. |
| TourConstructor.Extend | app/personnel-routing/page.tsx:30-44 | Each step of the outer loop adds one index. The earlier tour is kept as a prefix, and the tour stays in range and repetition-free. Every added index is the nearest unvisited one to its predecessor. An unvisited index always exists, so the `nearest >= 0` guard never fails. |
| TourConstructor.NearestNeighborOrder | app/personnel-routing/page.tsx:24-47 | For n >= 1 the result is a permutation of 0..n-1 that starts at 0, and every position after the first is a greedy nearest-unvisited step. For n = 0 the result is `[0]`. |
| TourConstructor.NearestUnique | app/personnel-routing/page.tsx:37 | With the strict-less tie-break there is only one nearest unvisited index. |
| TourConstructor.GreedyTourUnique | app/personnel-routing/page.tsx:30-44 | Two tours with the same start that step greedily at every position agree on every prefix. |
| TourConstructor.NearestNeighborOrderIsTheGreedyTour | app/personnel-routing/page.tsx:24-47 | Any permutation that starts at 0 and steps greedily everywhere is the nearest-neighbour order. |
| TourImprover.Rev | app/personnel-routing/page.tsx:59 | `reverse()`: position p of the result holds position `len-1-p` of the input, and the same entries are kept. |
| TourImprover.Reverse | app/personnel-routing/page.tsx:58-59 | The spliced copy has the length of the tour. `ReverseSpec` states which entry each position holds. |
| TourImprover.ReverseSpec | app/personnel-routing/page.tsx:58-59 | The splice reverses positions i..k: position p in i..k gets entry `i+k-p`, every other position keeps its entry, and the entries are permuted. |
| TourImprover.ReverseInRange | app/personnel-routing/page.tsx:58-59 | A reversed tour still indexes only existing points. |
| TourImprover.TourLength | app/personnel-routing/page.tsx:61-66 | The `oldDist` / `newDist` sum over the n - 1 legs of the open tour: non-negative for a non-negative distance, zero for at most one point. |
| TourImprover.Improves | app/personnel-routing/page.tsx:58-68 | The test `newDist + 1e-6 < oldDist` for the reversal of i..k. It has no contract of its own; `FirstMove` and `ImprovingMoveLowersMeasure` state what it decides. |
| TourImprover.ScanK | app/personnel-routing/page.tsx:57-73 | The inner `for k` loop returns the first accepted k. When it finds none, it has rejected every pair it looked at. |
| TourImprover.ScanI | app/personnel-routing/page.tsx:56-75 | The outer `for i` loop, with its `break`, returns the first accepted pair (i, k) in scan order, with i < k < n, and every earlier pair was rejected. It returns None only when every pair was rejected. |
| TourImprover.ScanFromStart | app/personnel-routing/page.tsx:56-75 | A pass from i = 1 rejects every pair before the one it returns, or every pair 1 <= i < k < n when it returns none. |
| TourImprover.FirstMove | app/personnel-routing/page.tsx:54-76 | One pass of `while (improved)` finds no move exactly when no reversal 1 <= i < k < n improves by more than 1e-6. A move it finds improves by more than 1e-6, and no earlier pair in scan order does. |
| TourImprover.ImprovingMoveLowersMeasure | app/personnel-routing/page.tsx:61-72 | For a non-negative distance, an accepted move (`newDist + 1e-6 < oldDist`) lowers the integer measure `Floor(length * 10^6)`, which stays non-negative. So the loop terminates. |
| TourImprover.TwoOpt | app/personnel-routing/page.tsx:50-79 | The result has the same length and the same indices, in range, and position 0 is unmoved. Its length is never greater than the input's. It is the input itself or shorter by more than 1e-6. No reversal 1 <= i < k < n improves it by more than 1e-6. |
| TourImprover.AcceptedMoves | app/personnel-routing/page.tsx:54-76 | The number of accepted moves is bounded by the initial measure. It is zero exactly when the input is already 2-opt optimal. |
| TourImprover.TwoOptKeepsPermutation | app/personnel-routing/page.tsx:56-59 | 2-opt turns a permutation of 0..n-1 into a permutation of 0..n-1. |
| Geometry.RouteLength | app/personnel-routing/page.tsx:61-66 | The summed leg lengths are non-negative for a non-negative distance, and zero for at most one point. |
| Geometry.Select | app/personnel-routing/page.tsx:88 | `order.map(i => points[i])`: one point per tour position. `SelectIota` and `SelectMultiset` state which points. |
| Geometry.SelectIota | app/personnel-routing/page.tsx:88 | Selecting through the identity tour gives the points back. |
| Geometry.SelectMultiset | app/personnel-routing/page.tsx:88 | Tours holding the same indices select the same points, as multisets. |
| RoutePlanner.ComputeShortestRoute | app/personnel-routing/page.tsx:82-89 | One or two points are returned unchanged. Otherwise the result reorders the input points (same multiset) and keeps the first input point first. It is never longer than the nearest-neighbour tour. |
| RoutePlanner.ShortestRouteIsTwoOptOptimal | app/personnel-routing/page.tsx:82-89 | For n >= 3 the route is selected through a permutation that no reversal 1 <= i < k < n improves by more than 1e-6. |
| RoutePlanner.Chunks | app/personnel-routing/page.tsx:126-129 | The chunks concatenate back to the ordered points. Each has between 1 and `size` points, and all but the last are full. |
| RoutePlanner.ChunksCount | app/personnel-routing/page.tsx:126-129 | There are ceil(n / size) chunks. |
| RoutePlanner.ChunkSizesExample | app/personnel-routing/page.tsx:126-129 | 23 points in chunks of 10 give chunks of 10, 10 and 3 points. |
| RoutePlanner.Links | app/personnel-routing/page.tsx:131-138 | `chunks.map(...)`: one link per chunk. |
| RoutePlanner.PersonLinks | app/personnel-routing/page.tsx:121-138 | A person with n points gets ceil(n / 10) links. |
| RoutePlanner.StopsOfLink | app/personnel-routing/page.tsx:131-137 | Reading one link back gives its chunk's points, in order, origin first. |
| RoutePlanner.AllStopsOfLinks | app/personnel-routing/page.tsx:126-138 | Reading the links back in order gives every point of every chunk, in order. |
| RoutePlanner.PersonLinksSpellRoute | app/personnel-routing/page.tsx:121-138 | A person's links, read back in order, name each point of the ordered route once, in route order. |
| RoutePlanner.PlanRoutes | app/personnel-routing/page.tsx:119-139 | `newLinks` has a key for exactly the persons with a usable row. Each person gets ceil(n / 10) links for their n points, and at least one. |
| RoutePlanner.PlanRoutesAsWritten | app/personnel-routing/page.tsx:110-139 | The upload handler as written produces no links exactly when a usable row's person is an inherited `Object.prototype` name, because the grouping loop throws first. Otherwise it produces the links of `PlanRoutes`. |
| RoutePlanner.ConstructorNameAbortsUpload | app/personnel-routing/page.tsx:115-116 | One valid row for a worker named "constructor" yields no links as written. The corrected handler gives that worker a link. |
| RoutePlanner.PersonsHaveGroups | app/personnel-routing/page.tsx:119-120 | Every group is non-empty, so the `!pts.length` guard skips nobody. |
| RoutePlanner.PlanRoutesSpellsEachRoute | app/personnel-routing/page.tsx:119-138 | A person's links read back as that person's coordinates, reordered by `computeShortestRoute`. |
| RowGrouping.Usable | app/personnel-routing/page.tsx:115 | The early `return` guard: a row is kept when its person is non-empty and both coordinates are numbers other than 0. It has no contract of its own; `KeepUsable` and `GroupFromKeys` state what it selects. |
| RowGrouping.KeepUsable | app/personnel-routing/page.tsx:111-115 | The filter keeps exactly the rows with a non-empty person and non-zero numeric coordinates. A single row is kept or dropped on its own. |
| RowGrouping.KeepUsableAppend | app/personnel-routing/page.tsx:111-115 | Filtering a concatenation is concatenating the filtered parts, so the kept rows stay in input order. |
| RowGrouping.KeepUsableIdempotent | app/personnel-routing/page.tsx:114 | Filtering the filter's output drops nothing. |
| RowGrouping.PersonCoordsAppend | app/personnel-routing/page.tsx:115-116 | Earlier rows contribute earlier coordinates, so row order is kept within each person. |
| RowGrouping.GroupFrom | app/personnel-routing/page.tsx:110-117 | The `forEach` loop over the rows, starting from a given map. It has no contract of its own; `GroupFromKeys` and `GroupFromValues` state its keys and values. |
| RowGrouping.GroupFromKeys | app/personnel-routing/page.tsx:110-117 | The loop adds as keys exactly the persons of the usable rows. |
| RowGrouping.GroupFromValues | app/personnel-routing/page.tsx:110-117 | The loop appends each person's usable coordinates, in row order, to what was already there. |
| RowGrouping.Group | app/personnel-routing/page.tsx:110-117 | `grouped` has a key for exactly the persons with a usable row. Each key maps to that person's coordinates in row order. |
| RowGrouping.GroupsNonEmpty | app/personnel-routing/page.tsx:115-116 | Each group holds at least one point. |
| RowGrouping.GroupIgnoresDroppedRows | app/personnel-routing/page.tsx:114 | Grouping the filtered rows gives the same groups: dropped rows contribute nothing. |
| RowGrouping.GroupFromAsWritten | app/personnel-routing/page.tsx:115-116 | The loop as written throws exactly when a usable row's person is an inherited `Object.prototype` property name. Otherwise it computes the corrected grouping. |
| RowGrouping.GroupAsWritten | app/personnel-routing/page.tsx:110-117 | The upload handler as written aborts exactly in that case. Otherwise it agrees with `Group`. |
| RowGrouping.ConstructorNameAborts | app/personnel-routing/page.tsx:115-116 | One valid row for a worker named "constructor" makes the source throw. The corrected grouping gives that worker one point. |
| DirLinks.CoordText | app/personnel-routing/page.tsx:133 | Every `${lat},${lng}` text holds a comma, so it is never empty. |
| DirLinks.SplitJoin | app/personnel-routing/page.tsx:133 | Joining with the pipe character is undone by splitting on it when no piece contains a pipe. |
| DirLinks.WaypointsEmptyIffSinglePoint | app/personnel-routing/page.tsx:133-137 | The joined waypoint text is empty exactly when the chunk has one point. |
| DirLinks.DecodeEncodeLink | app/personnel-routing/page.tsx:131-137 | A link decodes to origin = the chunk's first point and waypoints = the remaining points, in order. |
| DirLinks.EncodeLink | app/personnel-routing/page.tsx:131-137 | A link always opens with the base URL, the chunk's first point as origin and `&travelmode=driving`. It is exactly that prefix, with no `&waypoints=` part, when the chunk has one point. `DecodeEncodeLink` states what the rest holds. |
| JobAssignment.ParseJobs | app/mapping/page.tsx:31-36 | The job at position i has id i, an empty `assignedUser` and `justAssigned` false. It keeps every column of row i except `id`, `assignedUser` and `justAssigned`, which the spread overwrites with the page's own values. |
| JobAssignment.ParsedIdsDistinct | app/mapping/page.tsx:33 | Parsed jobs have pairwise distinct ids. |
| JobAssignment.AssignJobs | app/mapping/page.tsx:43-46 | Same length and order. Ids and columns are kept. Selected jobs get the user and `justAssigned`; unselected jobs are unchanged. |
| JobAssignment.AssignJobsIdempotent | app/mapping/page.tsx:43-46 | Assigning the same selection to the same user twice gives the same job list as once. |
| JobAssignment.HandleAssign | app/mapping/page.tsx:41-49 | Without a user the state is unchanged. Otherwise the jobs are assigned, the selection is cleared and the summary hidden. The job count is kept either way. |
| JobAssignment.HandleAssignTwice | app/mapping/page.tsx:41-49 | Pressing assign again changes nothing more. |
| JobAssignment.SelectedJobs | app/mapping/page.tsx:61 | `jobs.filter(...)`: a job is kept exactly when it is in the list and its id is selected, and the filter never adds jobs. |
| JobAssignment.SelectedJobsAppend | app/mapping/page.tsx:61 | Filtering a concatenation is concatenating the filtered parts, so the selected jobs stay in list order. |
| JobAssignment.MeterType | app/mapping/page.tsx:65 | The type is never empty, and a job without a `SAYAÇ TİPİ` column has type `Unknown`. |
| JobAssignment.CountTypes | app/mapping/page.tsx:64-67 | The `forEach` loop over the selected jobs, starting from given counts. It has no contract of its own; `CountTypesKeys`, `CountTypesValues` and `CountTypesSum` state its keys, counts and sum. |
| JobAssignment.BumpSum | app/mapping/page.tsx:66 | Incrementing one type's count raises the sum of all counts by one. |
| JobAssignment.CountTypesKeys | app/mapping/page.tsx:64-67 | The loop adds exactly the selected jobs' meter types as keys. |
| JobAssignment.CountTypesValues | app/mapping/page.tsx:64-67 | The loop adds to each type's count the number of jobs of that type. |
| JobAssignment.CountTypesSum | app/mapping/page.tsx:64-67 | The loop raises the sum of the counts by the number of jobs. |
| JobAssignment.CountTypesSpec | app/mapping/page.tsx:64-67 | The three facts above together. |
| JobAssignment.ComputeSummary | app/mapping/page.tsx:60-69 | `total` is the number of selected jobs. `typesCount` has a key for exactly their meter types, each mapped to how many selected jobs have that type. The counts sum to `total`. |
| JobAssignment.TotalCountsSelectedJobs | app/mapping/page.tsx:61-62 | `total` equals the number of jobs whose id is in the selection. |
| JobAssignment.TotalOfParsedJobs | app/mapping/page.tsx:61-62 | On parsed jobs, `total` is the number of selected ids that name a job. |
| JobAssignment.MissingTypeCountsAsUnknown | app/mapping/page.tsx:65 | A selected job with a missing or empty meter type is counted under `Unknown`. |
| JobAssignment.AssignKeepsSummary | app/mapping/page.tsx:60-69 | Assigning does not change the summary of any selection: it keeps ids and columns. |
| JobAssignment.SelectedTypesUnchanged | app/mapping/page.tsx:60-69 | Job lists that agree on ids and columns position by position have the same summary. |
| JobAssignment.SummaryEmptyAfterAssign | app/mapping/page.tsx:47 | Right after an assignment the selection is empty, so the summary is total 0 with no types. |

## Left out

- The haversine formula (app/personnel-routing/page.tsx:10-21): floating-point trigonometry. Distance is an abstract real-valued parameter, assumed non-negative only where 2-opt termination needs it.
- Floating-point rounding in the leg sums of `twoOpt`: the model sums exact reals.
- XLSX parsing, `FileReader`, `file.arrayBuffer`, `XLSX.writeFile` and `downloadExcel`: library I/O. The input is an already-parsed sequence of rows.
- The header lookup, `String(...).trim()` and `Number(...)` on cells: a routing row is given as its trimmed person text and its coordinates, with `None` for `NaN`.
- Cells that are not numbers but that `Number` converts to one (e.g. `true`): rows arrive already converted, so such cells are not modelled.
- RoutePlanner.PlanRoutes: models the corrected handler, which groups with `Group`. The handler as written is `PlanRoutesAsWritten`, which produces no links when a person is named after an inherited `Object.prototype` property.
- JobAssignment.MeterType: a cell is modelled as text. A numeric meter-type cell (say `0`) that JavaScript treats as falsy is not modelled.
- JobAssignment.ComputeSummary: a meter type equal to an inherited `Object.prototype` name (the same issue as the finding below) is not modelled. The `typesCount` map is the intended one.
- Display order of `Object.entries(grouped)` and of `typesCount`: the model uses maps, which have no order.
- The number-to-string conversion in the link template: it is a parameter `fmt`. The decoding round trip assumes its output holds no `&` or `|`, which holds for JavaScript number formatting.
- React state hooks, `useMemo` caching, JSX rendering and the `disabled` button guards: UI plumbing. `HandleAssign` works on an explicit page state.
- Selecting jobs on the map (app/mapping/MapView.tsx): it depends on Leaflet's `bounds.contains`, which is not visible. The selection is an input.
- app/layout.tsx, components/ui/card.tsx, components/ui/button.tsx: presentational only.
- app/api/personnelControl/route.ts, app/api/mapping/route.ts: static JSON stubs.
- An end-to-end example with concrete route lengths: it needs real haversine values, which the abstract distance does not give.

## Findings

| source | as written | input that shows it | evidently intended | confidence | as-written member | corrected member |
|---|---|---|---|---|---|---|
| app/personnel-routing/page.tsx:115-116 | `grouped` is a `{}` literal, so `grouped[person]` finds inherited `Object.prototype` members. For a person named after one, the test `!grouped[person]` is false and `.push` is looked up on a value that has no such method: a TypeError aborts the whole upload. | One row with person "constructor" and coordinates 41, 28.6 | That person gets a group with the one point, like any other name | not executed | RowGrouping.GroupAsWritten | RowGrouping.Group |
