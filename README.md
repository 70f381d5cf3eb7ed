# vtaxi core, modelled in Dafny

This project models the three sequential pieces of logic at the heart of
vtaxi, a taxi-route planner for Paris-Orly (LFPO), and proves properties of them.

- **The waypoint router** (`src/vtaxi/core/pathfinder.py`). `Airport` loads
  the segment records of the taxi network, indexes them by name and builds an
  undirected adjacency map. `validate_movement` checks an arrival (runway exit
  to gate) or a departure (gate to runway entrance) against the active runway
  configuration. `find_path` then routes through a list of waypoint names one
  leg at a time. Each leg is a multi-target Dijkstra search
  (`dijkstra_multi_target`) that may only use segments named after the two
  waypoints of the leg, and never a segment used earlier in the route. The
  legs are collected into a `TaxiPath`, which accumulates segment ids and the
  total distance.
- **The layout processor** (`src/vtaxi/core/airport_process.py`).
  `AirportProcessor` keeps the relevant OpenStreetMap features. It collects
  line ends and single-point crossings, deduplicates them by rounded key into
  nodes, and cuts every line into segments between the nodes on it. Each new
  segment is registered on both of its end nodes. Nodes are then classified in
  three passes (runway exits, parking exits, gates), and `export_config`
  groups the gates by terminal, sorted by gate id.
- **The position assigner** (`src/vtaxi/core/airport_position_assigner.py`).
  It picks a runway configuration, a gate and a runway entrance or exit for a
  movement. Requests can be specific, excluded, or limited to a terminal
  preference, and `random.choice` becomes a nondeterministic pick from the
  candidates.

Modules, one file each:

- `Wrappers`: `Option` and `Result`.
- `StringOrder`: Python's `<` on strings and on lists of strings, and the
  terminal id of a gate id (its digits removed).
- `Sorting`: an insertion sort standing in for `list.sort` and `sorted`.
- `Ids`: the `N00000`/`S00000` identifiers.
- `TaxiGraph`: the router's segment records, name index, adjacency map and
  the walks that obey the router's restrictions.
- `Search`: `dijkstra_multi_target`.
- `Pathfinder`: `TaxiPath`, `Airport` and `find_path`.
- `AirportProcess`: `AirportProcessor` and its export.
- `PositionAssigner`: the assigner.

**Identifiers.** The layout processor names node number `n` `f"N{n:05d}"`
and segment number `n` `f"S{n:05d}"`. The model keeps the number (a `nat`) in
the tables, and `Ids.NodeId`/`Ids.SegId` render the name. `Ids.IdInjective`
and `Ids.IdRoundTrip` show that the rendering loses nothing, so two nodes (or
two segments) have the same name exactly when they have the same number.
`AirportProcess.IdsUnique` concludes that every name handed out is distinct.

**Geometry.** Shapely and geopy are an oracle, the `AirportProcess.Geometry`
datatype. Rounded points are integer keys in units of 1e-7 degree, and
distances and lengths are `nat`. The model states the bookkeeping around the
geometry in terms of the oracle's answers.

**Random choices.** `random.choice` and the iteration order of Python sets
and dictionaries (the router's target set, the assigner's terminals, the
export's gate table) are nondeterministic picks (`:|`). Every contract holds
for all of them.

## Model

The functions that define what the source computes (`Pathfinder.SegmentNodes`,
`Pathfinder.StartOf`, `Pathfinder.FinalSegment`, `Pathfinder.GateNode`,
`AirportProcess.LineSegments`, `AirportProcess.GatesOf`,
`AirportProcess.DistinctKeys` and the like) carry no contract of their own:
the rows below for the lemmas about them, and for the methods proved equal to
them, say what they mean. Generic sequence helpers such as
`AirportProcess.SnocAssoc` and `Pathfinder.RecordedOnFresh` (a re-association
of the recorded ids, whose content `Pathfinder.Airport.FindPath` states) have
no row.

| member | source | states |
|---|---|---|
| TaxiGraph.SegmentById | src/vtaxi/core/pathfinder.py:253 | `next(s for s in all_segments if s.segment_id == id)`: absent exactly when no record has the id; otherwise a record with that id |
| TaxiGraph.SegmentByIdFirst | src/vtaxi/core/pathfinder.py:253 | the record found is the first one with the id: every record before it has another id |
| TaxiGraph.LoadedSegmentsFilter | src/vtaxi/core/pathfinder.py:85-100 | the loaded records are exactly the LineString features with a non-empty name, each turned into its record; no record has an empty name |
| TaxiGraph.NamedContents | src/vtaxi/core/pathfinder.py:97-99 | the list filed under a name holds exactly the records of that name |
| TaxiGraph.ByNameSound | src/vtaxi/core/pathfinder.py:97-99 | `segments_by_name` has a key for exactly the names in use; every record under `n` is named `n` and is loaded; every loaded record is filed under its own name |
| TaxiGraph.GraphOfEdges | src/vtaxi/core/pathfinder.py:103-110 | an edge lies in `graph[u]` exactly when some loaded segment has `u` at one end and the edge leads to its other end, with that segment's id and length |
| TaxiGraph.GraphOfKeys | src/vtaxi/core/pathfinder.py:103-107 | the graph has a key for exactly the end nodes of the loaded segments |
| TaxiGraph.GraphSymmetric | src/vtaxi/core/pathfinder.py:109-110 | adjacency is symmetric: an edge `u -> v` with id and length has the reverse edge `v -> u` with the same id and length |
| TaxiGraph.GraphClosed | src/vtaxi/core/pathfinder.py:103-110 | every edge leads to a node of the graph and carries the id of a loaded segment |
| TaxiGraph.EdgeLengthCharged | src/vtaxi/core/pathfinder.py:109-110 | with unique segment ids, the length on an edge is the length looked up for its id |
| TaxiGraph.Ids | src/vtaxi/core/pathfinder.py:258 | the path of a walk has one id per step |
| TaxiGraph.WalkAppend | src/vtaxi/core/pathfinder.py:248-262 | extending an allowed walk by a usable edge gives an allowed walk ending at the edge's node, longer by its length, with its id appended |
| TaxiGraph.WalkPrefix | src/vtaxi/core/pathfinder.py:248-262 | every prefix of an allowed walk is an allowed walk |
| TaxiGraph.LenPrefix | src/vtaxi/core/pathfinder.py:257 | a prefix of a walk is never longer than the walk |
| TaxiGraph.WalkRespectsRules | src/vtaxi/core/pathfinder.py:249-255 | an allowed walk uses no forbidden segment and, when a set of names is given, only segments carrying one of those names |
| StringOrder.StrLessIrreflexive | src/vtaxi/core/pathfinder.py:238 | Python's string `<` is irreflexive (the queue's and the export's order) |
| StringOrder.StrLessTransitive | src/vtaxi/core/pathfinder.py:238 | string `<` is transitive |
| StringOrder.StrLessTotal | src/vtaxi/core/pathfinder.py:238 | two different strings are ordered one way or the other |
| StringOrder.StrLessAsymmetric | src/vtaxi/core/pathfinder.py:238 | string `<` is asymmetric |
| StringOrder.ListLessIrreflexive | src/vtaxi/core/pathfinder.py:238 | list-of-strings `<` (the path component of a queue entry) is irreflexive |
| StringOrder.ListLessTransitive | src/vtaxi/core/pathfinder.py:238 | list-of-strings `<` is transitive |
| StringOrder.StripDigits | src/vtaxi/core/airport_process.py:337 | the terminal id is no longer than the gate id and holds no digit |
| StringOrder.StripDigitsAppend | src/vtaxi/core/airport_process.py:337 | removing digits distributes over concatenation |
| StringOrder.StripDigitsIdempotent | src/vtaxi/core/airport_position_assigner.py:83 | removing digits twice is removing them once, so a terminal id is its own terminal id |
| Sorting.Insert | src/vtaxi/core/airport_process.py:376 | inserting keeps every element and adds the new one (multiset) |
| Sorting.Sort | src/vtaxi/core/airport_process.py:376 | sorting is a permutation of its input |
| Sorting.InsertSorted | src/vtaxi/core/airport_process.py:376 | inserting into a sorted list under a strict weak order keeps it sorted |
| Sorting.SortSorted | src/vtaxi/core/airport_process.py:376 | the sorted list is sorted under any strict weak order |
| Ids.DigitChar | src/vtaxi/core/airport_process.py:147 | the character written for a digit value is a digit |
| Ids.DecimalDigits | src/vtaxi/core/airport_process.py:147 | `str(n)` is a non-empty run of digits |
| Ids.ZeroPadShape | src/vtaxi/core/airport_process.py:147 | zero padding to width 5 gives at least five characters: leading zeros, then the digits |
| Ids.DecimalValue | src/vtaxi/core/airport_process.py:147 | reading back `str(n)` gives `n` |
| Ids.LeadingZero | src/vtaxi/core/airport_process.py:147 | a leading zero does not change the number read |
| Ids.ZeroPadValue | src/vtaxi/core/airport_process.py:147 | padding does not change the number read |
| Ids.PadDigits | src/vtaxi/core/airport_process.py:147 | padding a run of digits leaves a run of digits |
| Ids.IdRoundTrip | src/vtaxi/core/airport_process.py:147 | reading the number back from an id gives the number it was made from |
| Ids.IdShape | src/vtaxi/core/airport_process.py:186 | an id is its prefix letter followed by at least five digits |
| Ids.IdInjective | src/vtaxi/core/airport_process.py:186 | two ids are equal exactly when their prefixes and numbers are |
| Ids.NodeIdInjective | src/vtaxi/core/airport_process.py:147 | node names are equal exactly when the node numbers are |
| Ids.SegIdInjective | src/vtaxi/core/airport_process.py:186 | segment names are equal exactly when the segment numbers are |
| Search.EntryLessIrreflexive | src/vtaxi/core/pathfinder.py:238 | the heap order on `(dist, node, path)` entries is irreflexive |
| Search.EntryLessTransitive | src/vtaxi/core/pathfinder.py:238 | the heap order is transitive |
| Search.PopMin | src/vtaxi/core/pathfinder.py:238 | `heappop` finds an entry no other entry precedes, so its distance is the least in the queue |
| Search.RemoveAt | src/vtaxi/core/pathfinder.py:238 | removing the popped entry keeps the others in order |
| Search.RemoveAtKeeps | src/vtaxi/core/pathfinder.py:238 | every other entry stays in the queue |
| Search.FrontierOnWalk | src/vtaxi/core/pathfinder.py:237-262 | along any allowed walk from a start there is a recorded node, not yet settled unless it ends the walk, whose distance is at most the length of the walk up to it |
| Search.SubsetCard | src/vtaxi/core/pathfinder.py:237 | a subset of the targets is no larger than they are |
| Search.SubsetAsLarge | src/vtaxi/core/pathfinder.py:237 | `len(found_targets) >= len(target_nodes)` with `found_targets` a subset means every target was found |
| Search.TargetsShortest | src/vtaxi/core/pathfinder.py:237-262 | when the loop stops (queue empty or every target settled), every target reachable by an allowed walk has a recorded distance no larger than that walk's length |
| Search.PopQueueWalks | src/vtaxi/core/pathfinder.py:238 | popping keeps every remaining entry backed by an allowed walk |
| Search.PopBounds | src/vtaxi/core/pathfinder.py:238 | popping keeps queue entries at or above the recorded distances, and settled nodes below the queue |
| Search.PopLeast | src/vtaxi/core/pathfinder.py:238 | the popped distance is no larger than any distance left in the queue |
| Search.PopPending | src/vtaxi/core/pathfinder.py:238-245 | the popped node is reached, its entry is current unless it was settled before, and every unsettled reached node still has its entry queued |
| Search.RecordKeepsWalks | src/vtaxi/core/pathfinder.py:260-262 | recording a distance and pushing its entry keeps every record and entry backed by an allowed walk of that length and path |
| Search.RecordKeepsOrder | src/vtaxi/core/pathfinder.py:260-262 | recording a strictly better distance keeps starts at zero, the queue above the records, unsettled nodes queued, and settled nodes relaxed |
| Search.RelaxStep | src/vtaxi/core/pathfinder.py:257-262 | an improvement found through a usable edge happens only for a node popped for the first time, and keeps the relaxation invariant |
| Search.RelaxEntry | src/vtaxi/core/pathfinder.py:248-262 | one neighbour: the invariant holds, a usable edge is relaxed afterwards, recorded distances only decrease, and a stale pop pushes nothing |
| Search.RelaxEdges | src/vtaxi/core/pathfinder.py:248-262 | after the neighbour loop the search invariant holds again, and a stale pop left the queue unchanged |
| Search.RelaxDone | src/vtaxi/core/pathfinder.py:248-262 | once every usable edge of the popped node is relaxed, the search invariant is restored |
| Search.PopStale | src/vtaxi/core/pathfinder.py:244-245 | an entry above its node's recorded distance belongs to a settled node, and dropping it keeps the invariant |
| Search.PopSettle | src/vtaxi/core/pathfinder.py:238-245 | an entry at its node's recorded distance is backed by an allowed walk, and settling the node sets up the relaxation invariant |
| Search.SearchStart | src/vtaxi/core/pathfinder.py:227-234 | the initial records and queue satisfy the search invariant |
| Search.StartSearch | src/vtaxi/core/pathfinder.py:227-234 | every graph node is unreached except the start nodes in the graph at distance 0 with an empty path; the queue holds exactly those start entries |
| Search.SettleShrinks | src/vtaxi/core/pathfinder.py:237 | settling a new node shrinks the unsettled part of the graph |
| Search.SearchStep | src/vtaxi/core/pathfinder.py:237-262 | one iteration keeps the search invariant and the found targets settled, and shrinks the unsettled nodes or the queue (termination) |
| Search.DijkstraMultiTarget | src/vtaxi/core/pathfinder.py:212-264 | records one entry per graph node; start nodes in the graph get `(0, [])`; every recorded distance and path come from an allowed walk of that length (no forbidden segment, only allowed names); every target reachable by an allowed walk gets a distance no larger than that walk's length |
| Pathfinder.RunwayNode | src/vtaxi/core/pathfinder.py:196-198 | the node of the first runway point with that name; absent exactly when no point has the name |
| Pathfinder.RunwayNodeAt | src/vtaxi/core/pathfinder.py:196-198 | the first point with the name determines the node |
| Pathfinder.FindRunwayNode | src/vtaxi/core/pathfinder.py:381-384 | the loop over the entrances finds that node |
| Pathfinder.GateIn | src/vtaxi/core/pathfinder.py:285-288 | the node of the first gate of a terminal with the id; absent exactly when no gate has it |
| Pathfinder.GateNodeSound | src/vtaxi/core/pathfinder.py:135-141 | a gate node is found exactly when some terminal lists the gate id, and it is that gate's node |
| Pathfinder.GateNodeSticks | src/vtaxi/core/pathfinder.py:284-290 | a truthy node found in the first terminals is the answer for all of them (the loop's `break`) |
| Pathfinder.IsKnownGate | src/vtaxi/core/pathfinder.py:133-141 | the gate loop of `validate_movement` says yes exactly when some terminal lists the gate |
| Pathfinder.FindGateNode | src/vtaxi/core/pathfinder.py:282-290 | the departure's gate loop returns the looked-up gate node |
| Pathfinder.FirstTouching | src/vtaxi/core/pathfinder.py:389-392 | the first segment touching both nodes; absent exactly when none does |
| Pathfinder.FirstTouchingAt | src/vtaxi/core/pathfinder.py:408-411 | the first such segment determines the answer |
| Pathfinder.FindTouching | src/vtaxi/core/pathfinder.py:294-298 | the loop finds that segment |
| Pathfinder.FirstRunway | src/vtaxi/core/pathfinder.py:301-305 | the first runway segment; absent exactly when there is none |
| Pathfinder.FirstRunwayAt | src/vtaxi/core/pathfinder.py:301-305 | the first runway segment determines the answer |
| Pathfinder.FindRunwaySegment | src/vtaxi/core/pathfinder.py:301-305 | the arrival's loop finds that segment |
| Pathfinder.FindSegment | src/vtaxi/core/pathfinder.py:369 | `next(...)` over the loaded records returns the looked-up record |
| Pathfinder.EndpointsContents | src/vtaxi/core/pathfinder.py:206-210 | the node set holds exactly the start and end nodes of the given segments |
| Pathfinder.SegmentNodesCases | src/vtaxi/core/pathfinder.py:181-210 | with an enforced node, exactly that node; for an arrival's first waypoint that is a configured exit, exactly its node; for a departure's last waypoint that is a configured entrance, exactly its node; otherwise exactly the end nodes of the segments with that name |
| Pathfinder.NamedEndpoints | src/vtaxi/core/pathfinder.py:206-210 | the end nodes of `segments_by_name.get(w, [])` are the end nodes of the loaded segments named `w` |
| Pathfinder.GetSegmentNodes | src/vtaxi/core/pathfinder.py:181-210 | the nested function computes that node set |
| Pathfinder.TaxiPath.constructor | src/vtaxi/core/pathfinder.py:41-44 | a new path is empty with distance 0 |
| Pathfinder.TaxiPath.AddSegment | src/vtaxi/core/pathfinder.py:46-49 | appends the id, adds the distance, leaves the waypoints |
| Pathfinder.TaxiPath.AddWaypoint | src/vtaxi/core/pathfinder.py:51-53 | appends the node, leaves segments and distance |
| Pathfinder.PathLengthAppend | src/vtaxi/core/pathfinder.py:370 | the length of a path grows by the looked-up length of the id appended |
| Pathfinder.LoadedLengthCharged | src/vtaxi/core/pathfinder.py:311 | with unique ids, looking up a loaded record's id gives its length |
| Pathfinder.NamedAbsent | src/vtaxi/core/pathfinder.py:207 | a name no record carries has no segments |
| Pathfinder.ByNameAppend | src/vtaxi/core/pathfinder.py:97-99 | loading one more record files it at the end of its name's list |
| Pathfinder.LoadedSegmentsStep | src/vtaxi/core/pathfinder.py:85-100 | one more feature adds its record exactly when it is a LineString with a non-empty name |
| Pathfinder.FileSegment | src/vtaxi/core/pathfinder.py:97-99 | the two dictionary updates of the loop file the record as the name index says |
| Pathfinder.AddBothWaysSteps | src/vtaxi/core/pathfinder.py:104-110 | the four dictionary updates of the loop add both directions of the segment |
| Pathfinder.GraphOfStep | src/vtaxi/core/pathfinder.py:103-110 | one more segment adds both its directions to the graph |
| Pathfinder.CheckNames | src/vtaxi/core/pathfinder.py:350-356 | the re-check accepts a path exactly when every segment on it carries an allowed name |
| Pathfinder.SelectTarget | src/vtaxi/core/pathfinder.py:343-361 | the chosen target is reached along a path of allowed names and no other such target is closer; none is chosen exactly when no target qualifies |
| Pathfinder.RealisedRespectsRules | src/vtaxi/core/pathfinder.py:249-255 | a recorded path uses only allowed names and no forbidden (used) segment |
| Pathfinder.LegRespectsRules | src/vtaxi/core/pathfinder.py:337-340 | a leg's route uses only the two waypoints' names and no segment used before |
| Pathfinder.SelectionAnswers | src/vtaxi/core/pathfinder.py:340-361 | the search followed by the selection answers the leg: the route is a shortest allowed walk to a target, or no target is reachable |
| Pathfinder.RecordedIdsLoaded | src/vtaxi/core/pathfinder.py:353 | every id on a recorded path names a loaded record, so `next(...)` cannot fail |
| Pathfinder.AddLegSegments | src/vtaxi/core/pathfinder.py:368-371 | appends the leg's ids, adds their lengths to the distance, and adds them to the used set |
| Pathfinder.StartSound | src/vtaxi/core/pathfinder.py:276-314 | the first segment carries the first waypoint's name and touches the node left from; an arrival starts on a runway segment when there is one; the first segment is unmarked only for a departure leaving from its gate's node, and always then |
| Pathfinder.ChooseStart | src/vtaxi/core/pathfinder.py:276-309 | the loops choose that start |
| Pathfinder.FinalSegmentSound | src/vtaxi/core/pathfinder.py:376-411 | the final segment, when added, is loaded, carries the last waypoint's name, touches the last node reached, and touches the configured entrance (departure) or the gate's node (arrival) |
| Pathfinder.ChainedAppend | src/vtaxi/core/pathfinder.py:340 | a leg leaving from the previous leg's end, with every segment used so far forbidden, extends the chain |
| Pathfinder.IdSetAppend | src/vtaxi/core/pathfinder.py:371 | the ids of joined paths are the union of their ids |
| Pathfinder.LegIdsPrefix | src/vtaxi/core/pathfinder.py:371 | an earlier leg's segments are among the segments used before a later leg |
| Pathfinder.NoReuse | src/vtaxi/core/pathfinder.py:337-371 | no leg reuses the segments marked before the first leg, and no two legs share a segment |
| Pathfinder.TargetsInGraph | src/vtaxi/core/pathfinder.py:334 | every target node is a graph node, so `distances[target_node]` is defined |
| Pathfinder.LegsFitAppend | src/vtaxi/core/pathfinder.py:320-340 | a leg between the next two waypoints, towards their node set, answered by the search, extends the fitted legs |
| Pathfinder.LegIdsAppend | src/vtaxi/core/pathfinder.py:368-371 | the route's ids grow by the new leg's ids |
| Pathfinder.PathLengthConcat | src/vtaxi/core/pathfinder.py:368-371 | the length of joined paths is the sum of their lengths |
| Pathfinder.NamedLoaded | src/vtaxi/core/pathfinder.py:271 | `segments_by_name.get(n, [])` holds exactly the loaded records named `n` |
| Pathfinder.ChargedLengths | src/vtaxi/core/pathfinder.py:311 | with unique ids, first segment plus legs plus final segment are charged exactly the lengths of the ids recorded |
| Pathfinder.LegSucceeds | src/vtaxi/core/pathfinder.py:363-374 | a routed leg extends the route: the next leg leaves from its target, its ids are recorded and marked used, its length is added |
| Pathfinder.LegFails | src/vtaxi/core/pathfinder.py:363-365 | a leg with no route still extends the chain of answered legs |
| Pathfinder.RoutedAppend | src/vtaxi/core/pathfinder.py:320-374 | appending a leg keeps the earlier legs routed |
| Pathfinder.Airport.constructor | src/vtaxi/core/pathfinder.py:58-68 | keeps the configuration, loads exactly the records of the features, with a consistent index and graph |
| Pathfinder.Airport.LoadData | src/vtaxi/core/pathfinder.py:84-110 | the loaded records are those of the features, and the name index and graph are built from them |
| Pathfinder.Airport.BuildGraph | src/vtaxi/core/pathfinder.py:102-110 | the graph is the adjacency map of the loaded records |
| Pathfinder.Airport.ValidateMovement | src/vtaxi/core/pathfinder.py:112-174 | true exactly when there are at least two points and an arrival runs from a configured exit to a known gate, or a departure from a known gate to a configured entrance; the active configuration must exist only once there are two points and, for a departure, a known gate |
| Pathfinder.Airport.RouteLeg | src/vtaxi/core/pathfinder.py:320-374 | one leg: targets the next waypoint's node set, forbids the used segments, allows the two names; succeeds exactly when the search answers with a route, then records its ids and length and marks them used |
| Pathfinder.Airport.SearchLeg | src/vtaxi/core/pathfinder.py:340-361 | the search plus the selection answer the leg, with loaded ids |
| Pathfinder.Airport.AddFinalSegment | src/vtaxi/core/pathfinder.py:376-411 | appends the final segment and its length exactly when one exists |
| Pathfinder.Airport.FollowWaypoints | src/vtaxi/core/pathfinder.py:318-374 | the legs are chained, fitted and answered; the loop succeeds exactly when every leg is routed, and then the path grows by the legs' ids and their lengths |
| Pathfinder.Airport.FindPath | src/vtaxi/core/pathfinder.py:176-413 | `None` when validation fails, when no segment carries the first waypoint's name, or when a leg has no route; otherwise the path's segments are the first segment, the legs' ids and the final segment, every leg is a shortest allowed walk avoiding used segments, and with unique ids the total distance is the sum of the lengths of the recorded ids |
| AirportProcess.KeptFeaturesContents | src/vtaxi/core/airport_process.py:89-102 | a feature is kept exactly when it is a LineString whose `aeroway` is taxiway, runway or parking_position |
| AirportProcess.KeptFeaturesOrder | src/vtaxi/core/airport_process.py:89-102 | no more features are kept than given, each kept one is relevant, and any two kept features occur in the input in the order they are kept |
| AirportProcess.FilterFeatures | src/vtaxi/core/airport_process.py:86-102 | the filter loop keeps exactly those features, in order |
| AirportProcess.LineEndsContents | src/vtaxi/core/airport_process.py:123-132 | the end points collected are exactly the first and last vertices of the lines |
| AirportProcess.RowCrossingsContents | src/vtaxi/core/airport_process.py:136-140 | one row of the pair loop collects exactly the single-point crossings of a line with the later lines |
| AirportProcess.CrossingsContents | src/vtaxi/core/airport_process.py:135-140 | the pair loop collects exactly the single-point crossings of earlier with later lines |
| AirportProcess.NetworkPointsContents | src/vtaxi/core/airport_process.py:119-140 | the points are exactly the line ends and the single-point crossings of two different lines |
| AirportProcess.CollectPoints | src/vtaxi/core/airport_process.py:119-140 | the first pass and the crossing loops compute those points |
| AirportProcess.DistinctKeysSound | src/vtaxi/core/airport_process.py:143-154 | one key per distinct point, no key twice, in first-discovery order: of two keys, the earlier occurs in the points before the later one first does |
| AirportProcess.Nearest | src/vtaxi/core/airport_process.py:212-215 | `min(range(len(coords)), key=...)` is an index of the line |
| AirportProcess.NearestIsFirstMinimum | src/vtaxi/core/airport_process.py:212-215 | that index is the first vertex of least distance to the point |
| AirportProcess.ExtractGeometry | src/vtaxi/core/airport_process.py:204-220 | the extracted geometry is never empty |
| AirportProcess.ExtractGeometrySlice | src/vtaxi/core/airport_process.py:217-220 | with `a` and `b` the first vertices nearest to the start and end points (none nearer, every earlier one farther), the extract runs from vertex `min(a, b)` to vertex `max(a, b)`, both included, in the line's order |
| AirportProcess.MetresSplit | src/vtaxi/core/airport_process.py:222-229 | the length of a polyline splits at any vertex into the lengths of the two parts |
| AirportProcess.CalculateLength | src/vtaxi/core/airport_process.py:222-229 | the loop sums the geodesic lengths of consecutive vertex pairs |
| AirportProcess.Heading | src/vtaxi/core/airport_process.py:231-240 | a heading lies in [0, 360), and is 0 for fewer than two vertices |
| AirportProcess.Unwired | src/vtaxi/core/airport_process.py:201-202 | forgetting the registered segments keeps one entry per node |
| AirportProcess.Attach | src/vtaxi/core/airport_process.py:201-202 | registering a segment on a node changes nothing else about any node |
| AirportProcess.TouchingAppend | src/vtaxi/core/airport_process.py:200-202 | a new segment is registered once on its start node and once on its end node, after the earlier ones |
| AirportProcess.WiredStep | src/vtaxi/core/airport_process.py:200-202 | registering the new segment on both ends keeps every node's list equal to the segments ending there |
| AirportProcess.WireStep | src/vtaxi/core/airport_process.py:186-202 | adding the next-numbered segment and registering it keeps the network consistent |
| AirportProcess.Coords | src/vtaxi/core/airport_process.py:173 | the node keys, one per node |
| AirportProcess.CoordsSame | src/vtaxi/core/airport_process.py:201-202 | registering segments does not move nodes |
| AirportProcess.StopsOn | src/vtaxi/core/airport_process.py:172-176 | the nodes found on the line are nodes of the table |
| AirportProcess.StopsOnContents | src/vtaxi/core/airport_process.py:172-176 | each stop is a node on the line, with its distance from the line's first vertex; each node appears once, in table order; every node on the line appears |
| AirportProcess.StopsOnLine | src/vtaxi/core/airport_process.py:169-176 | the loop over the node table collects those stops |
| AirportProcess.StopOrder | src/vtaxi/core/airport_process.py:179 | comparing stops by distance is a strict weak order |
| AirportProcess.SortedStopsIn | src/vtaxi/core/airport_process.py:179 | sorting the stops keeps them nodes of the table |
| AirportProcess.SortedStops | src/vtaxi/core/airport_process.py:179 | the sorted stops are nodes of the table |
| AirportProcess.LinePairs | src/vtaxi/core/airport_process.py:182-184 | one segment per consecutive pair |
| AirportProcess.LinePairsAt | src/vtaxi/core/airport_process.py:182-194 | segment `i` of a line is the segment between stops `i` and `i + 1` |
| AirportProcess.SegmentForShape | src/vtaxi/core/airport_process.py:183-194 | that segment has number base plus `i`, links stop `i` to stop `i + 1`, has a non-empty geometry, the feature's `aeroway` (or `unknown`) as type and its `ref` (or empty) as name |
| AirportProcess.LineSegmentsShape | src/vtaxi/core/airport_process.py:179-200 | a line with `k` nodes on it yields `k - 1` segments, numbered consecutively from the running count, linking consecutive nodes in distance order and chained end to start |
| AirportProcess.TouchingContents | src/vtaxi/core/airport_process.py:201-202 | a node's registered segments are exactly the segments ending at it |
| AirportProcess.SegmentLookup | src/vtaxi/core/airport_process.py:266 | a segment registered on a node exists (so `self.segments[...]` does not fail) and ends at that node |
| AirportProcess.IdsUnique | src/vtaxi/core/airport_process.py:147-186 | all node names differ, all segment names differ, and no node name is a segment name |
| AirportProcess.SegmentsStep | src/vtaxi/core/airport_process.py:182-202 | one iteration of the segment loop extends the segments made so far and keeps the network consistent |
| AirportProcess.SegmentForIs | src/vtaxi/core/airport_process.py:186-198 | the record built field by field is the segment between the two stops |
| AirportProcess.LinkStops | src/vtaxi/core/airport_process.py:182-202 | the segment loop adds one segment per consecutive pair of stops, registers each on both ends, and moves no node |
| AirportProcess.LinkStep | src/vtaxi/core/airport_process.py:183-202 | the body of the segment loop keeps the loop invariant |
| AirportProcess.StopNode | src/vtaxi/core/airport_process.py:183-184 | a stop's node is the node of that number, at its key |
| AirportProcess.SegmentsDone | src/vtaxi/core/airport_process.py:179-202 | when the loop ends the new segments are exactly the segments of the line |
| AirportProcess.WiredTable | src/vtaxi/core/airport_process.py:143-158 | one node per distinct key after the segments are registered |
| AirportProcess.NodeTableValid | src/vtaxi/core/airport_process.py:143-154 | the fresh node table (node `k` at the `k`-th distinct key, no segments) is consistent |
| AirportProcess.WiredTableIs | src/vtaxi/core/airport_process.py:156-158 | after all lines, every node is the fresh node with exactly the segments ending at it |
| AirportProcess.Retype | src/vtaxi/core/airport_process.py:248 | retyping one node keeps one entry per node |
| AirportProcess.MarkEnds | src/vtaxi/core/airport_process.py:245-261 | a marking pass keeps one entry per node |
| AirportProcess.MarkEndsAt | src/vtaxi/core/airport_process.py:245-261 | after a marking pass a node has the new type exactly when an end of a segment with a listed name, and (for the parking-exit pass) it was an intersection; nothing else about it changes |
| AirportProcess.MarkedSnoc | src/vtaxi/core/airport_process.py:245-247 | a node is at an end of a listed segment among one more segment exactly when it was before or is an end of the new one |
| AirportProcess.GateNodes | src/vtaxi/core/airport_process.py:264-273 | the gate pass keeps one entry per node |
| AirportProcess.GatesOfKeys | src/vtaxi/core/airport_process.py:274-279 | the gate table has a key for exactly the earlier keys and the names of the gate nodes |
| AirportProcess.GatesOfLast | src/vtaxi/core/airport_process.py:274-279 | the entry under a gate name is the record of the last gate node with that name (a later gate overwrites an earlier one) |
| AirportProcess.Classified | src/vtaxi/core/airport_process.py:242-279 | classification keeps one entry per node |
| AirportProcess.ClassifiedAt | src/vtaxi/core/airport_process.py:242-279 | a node of degree 1 on a parking_position segment becomes a gate with its `gate_info`, overriding earlier roles; else an end of a runway-point segment becomes a runway exit; else an intersection at an end of a parking-exit taxiway becomes a parking exit; else it keeps its type; id, key and segments never change |
| AirportProcess.MarkEndsValid | src/vtaxi/core/airport_process.py:245-261 | marking passes keep the network consistent |
| AirportProcess.GatesOfRetyped | src/vtaxi/core/airport_process.py:264-279 | the gate pass does not depend on the types the earlier passes set |
| AirportProcess.GateNodesValid | src/vtaxi/core/airport_process.py:264-273 | the gate pass keeps the network consistent |
| AirportProcess.MarkRunwayExits | src/vtaxi/core/airport_process.py:245-248 | the runway-exit loop is the unconditional marking pass |
| AirportProcess.CollectParkingExits | src/vtaxi/core/airport_process.py:251-255 | the loop collects exactly the truthy `exit_taxiway` values |
| AirportProcess.MarkParkingExits | src/vtaxi/core/airport_process.py:257-261 | the parking-exit loop is the marking pass that only changes intersections |
| AirportProcess.MarkGates | src/vtaxi/core/airport_process.py:264-279 | the gate loop computes the gate pass over the nodes and the gate table |
| AirportProcess.GateOrder | src/vtaxi/core/airport_process.py:376 | `key=gate_id` is a strict weak order |
| AirportProcess.StrNotLessTransitive | src/vtaxi/core/airport_process.py:376 | "not less" on strings is transitive |
| AirportProcess.SortIncreasing | src/vtaxi/core/airport_process.py:376 | sorting a terminal's distinct entries by id gives the same entries in strictly increasing id order |
| AirportProcess.TwiceInMultiset | src/vtaxi/core/airport_process.py:376 | an element at two positions occurs twice |
| AirportProcess.FileStep | src/vtaxi/core/airport_process.py:335-343 | filing one more gate keeps every filed gate in its terminal, only filed gates, once each |
| AirportProcess.FileStepAll | src/vtaxi/core/airport_process.py:337-343 | after filing a gate, every filed gate is in the list of its terminal |
| AirportProcess.FileStepOnly | src/vtaxi/core/airport_process.py:337-343 | after filing a gate, every listed entry is a filed gate's entry in its own terminal |
| AirportProcess.FileStepOnce | src/vtaxi/core/airport_process.py:337-343 | after filing a gate, no entry is listed twice |
| AirportProcess.GroupTerminals | src/vtaxi/core/airport_process.py:334-378 | every gate lands in the terminal of its id without digits; each terminal list is non-empty and strictly increasing by id; every entry is a gate's own entry in its own terminal |
| AirportProcess.SortedGrouping | src/vtaxi/core/airport_process.py:374-378 | sorting each terminal's list keeps that grouping and orders it |
| AirportProcess.AirportProcessor.constructor | src/vtaxi/core/airport_process.py:53-72 | empty tables, the nine LFPO runway points, the configuration's parking positions |
| AirportProcess.AirportProcessor.CreateNodes | src/vtaxi/core/airport_process.py:143-154 | node `k` is the `k`-th distinct key, with no segments, as an intersection |
| AirportProcess.AirportProcessor.CreateSegments | src/vtaxi/core/airport_process.py:167-202 | appends the line's segments, keeps the network consistent, moves no node, leaves the gates |
| AirportProcess.AirportProcessor.IdentifySpecialNodes | src/vtaxi/core/airport_process.py:242-279 | the nodes are the classified nodes, the gate table is the gate pass's, the segments are unchanged and the network stays consistent |
| AirportProcess.AirportProcessor.CreateNetwork | src/vtaxi/core/airport_process.py:117-161 | the network is built from the lines: one node per distinct point, the segments of every line in order, registered both ways, then classified |
| AirportProcess.AirportProcessor.ExportConfig | src/vtaxi/core/airport_process.py:331-384 | the terminals are exactly the gate ids without digits; every gate is in its terminal; lists sorted by id; only gates' own entries; `total_count` is the number of gates; parking positions passed through; the WEST and EAST configurations; code `LFPO` |
| AirportProcess.AirportProcessor.ProcessLayout | src/vtaxi/core/airport_process.py:84-105 | the network is built from exactly the kept features |
| PositionAssigner.GetConfig | src/vtaxi/core/airport_position_assigner.py:45-71 | fails exactly when a given direction names no configuration, or none is given and there is none to choose; otherwise the name is a configuration's name (the direction, when given) with that configuration |
| PositionAssigner.FirstWithId | src/vtaxi/core/airport_position_assigner.py:86-88 | the first gate of the list with the id; none exactly when no gate has it |
| PositionAssigner.GetGateById | src/vtaxi/core/airport_position_assigner.py:73-89 | a gate with the requested id, from the terminal of the id without digits; none exactly when that terminal does not list it |
| PositionAssigner.ExportedGateFound | src/vtaxi/core/airport_position_assigner.py:83-89 | over an exported grouping, the lookup finds exactly the gates of the gate table, each with its own entry |
| PositionAssigner.FindRunwayPoint | src/vtaxi/core/airport_position_assigner.py:91-128 | a requested point is returned exactly when it is an entrance (departure) or exit (arrival); otherwise none exactly when that list is empty; any result is in the list |
| PositionAssigner.NotExcludedContents | src/vtaxi/core/airport_position_assigner.py:180-183 | the filter keeps exactly the gates whose id is not excluded |
| PositionAssigner.FindGate | src/vtaxi/core/airport_position_assigner.py:130-207 | a requested gate is returned exactly when it is known and neither it nor its terminal is excluded; otherwise the gate is never excluded nor from an excluded terminal, none exactly when no such gate exists, and from the preferred terminal whenever that terminal is allowed and has one |
| PositionAssigner.AllAvailable | src/vtaxi/core/airport_position_assigner.py:186-193 | the fallback loop collects exactly the non-excluded gates of the allowed terminals |
| PositionAssigner.AssignPositions | src/vtaxi/core/airport_position_assigner.py:209-275 | fails exactly when `get_config` does; the movement type and a configuration of the map are recorded, the requested one when a direction is given; the gate search finds a gate exactly when `find_gate` can, and the point search a point exactly when `find_runway_point` can; gate and point are recorded exactly when a gate is found and the point found is non-empty, and then they are the ones found; the point is valid for the movement; the gate is the requested one, or an eligible one |

## Left out

- File I/O, JSON and GeoJSON. This covers reading the router's files (`_load_data`), `load_data`, `export_network`, `export_config`'s `json.dump` and the assigner's constructor, which loads the file and raises `ValueError` without `runway_configurations`. The loaded data are in-memory values.
- `print` diagnostics, including the runway reference `assign_positions` only prints.
- Shapely and geopy: intersection tests, distances below 1e-8, geodesic lengths, `atan2` headings and rounding to seven digits. These are answers of the `Geometry` oracle over integer keys and `nat` distances, and `_round_point` is part of the oracle. A heading is an integer number of degrees.
- Floating-point segment lengths: the router's lengths and distances are `nat`.
- Ties in `points_on_line.sort()`: with two equal distances Python compares `Node` objects and raises `TypeError`. The model sorts by distance alone, so ties do not fail.
- The shape of `entrances`/`exits`. `export_config` writes bare names, while the router unpacks `(name, node)` pairs. The router model uses pairs (`Pathfinder.RunwayPoint`) and the exported configuration uses names, and the mismatch is not reproduced.
- `_create_network` on a processor that already holds nodes or segments: `AirportProcess.AirportProcessor.CreateNetwork` and `ProcessLayout` require empty tables, as on the processor's one use.
- The `isinstance(geom, LineString)` test in `_create_network`: the kept features are all LineStrings, so the test never fails.
- Lines without vertices: shapely refuses them. `AirportProcess.HasVertices` is required of the lines.
- `AirportProcess.IsGate` looks up the sole segment of a node only when it exists. The source's `self.segments[...]` cannot fail on a consistent network (`AirportProcess.SegmentLookup`).
- The deprecated `_get_way_coordinates`, `get_available_options`, `get_segment_path` and the command-line front ends.
- `export_config`'s `runways` entry, copied from the input configuration: it is not part of `AirportProcess.AirportConfig`.
- The order of Python dictionaries and sets, where it does not change the result: the router's target set and the assigner's terminals are picked in any order. The exported terminal map is a Dafny `map`.
- `Pathfinder.Airport.FindPath` requires the active configuration to exist once `validate_movement` looks it up (two points and, for a departure, a known gate); without it the source raises `KeyError`.
- `Pathfinder.Airport.FindPath` requires, for an accepted movement, that the runway nodes its legs head for are graph nodes (`Pathfinder.RunwayTargetsInGraph`: a departure's entrance node, an arrival's exit node when a later waypoint repeats the first). This is a consistency assumption slightly stronger than the source needs: the source raises `KeyError` only when the leg heading for that node is reached, and returns `None` if an earlier leg fails. `RouteLeg` and `FollowWaypoints` are called only after validation and require the configuration and the same assumption.
- `Pathfinder.Airport.FindPath` states the distance accounting only when segment ids are unique. With duplicate ids, `next(...)` charges the first record's length.
- A departure's first segment is the gate's own segment and is left unmarked. The first leg may traverse it again, so it can be recorded twice. The final segment is not checked against the used set either. The model states both behaviours as written (`Pathfinder.StartSound`, `Pathfinder.FinalSegmentSound`).
- `TaxiPath.waypoints`: `find_path` never adds waypoints, which the model states (`path.waypoints == []`).
- `str.isdigit` is modelled as the ASCII digits `0`–`9` only.
