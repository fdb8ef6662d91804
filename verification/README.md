# Baltimore bus network: a verified model of its construction

The two analysis scripts `problem2.py` and `problem3.py` build an undirected
network of bus stops from a stop table and a route table, then measure and
extend it:

- **Route text cleaning.** Each stop's served-route field is upper-cased and
  reduced to `A-Z`, `0-9`, commas and spaces. `CITYLINK <word>` becomes
  `<word>`, whitespace around commas goes, and outer commas are stripped.
- **Route numbers.** They are stripped, upper-cased and lose any
  `CITYLINK[\s-]*` prefix.
- **Colours.** Each route gets a colour: from the CityLink palette for CityLink
  routes, from the route-type table otherwise, each with its own default.
- **Matching.** A stop serves a route when one comma-separated field of its
  cleaned route text equals the route number, ignoring case and surrounding
  whitespace. The matching stop ids are collected in table order.
- **Transit edges** join consecutive matched stops of each route, and only
  where no edge exists yet. **Walking edges** join the stop pairs a
  proximity query reports, again only where absent.
- **Weighted passes.** They call `add_edge` unconditionally and so overwrite the
  type, colour and weight of edges already present.
- **Metrics.** Per-node accessibility counts the nodes reachable within a
  travel-time threshold. Service coverage is the share of population points
  within a radius of some station. Average degree is also computed.
- **Extensions.** Fresh stations with random links are added. The
  optimisation passes link low-degree nodes, run a second walking pass and
  add links that skip one stop along each route.

The model is split into modules:

- `RouteText` holds the two text pipelines.
- `Colours` holds the colour lookup.
- `RouteMatch` holds the stop/route matcher, with a comma-split reference definition.
- `Graph` holds the edge map and the `Network` class, whose methods update nodes
  and edges in place.
- `Build` holds the construction loops and the weighted passes.
- `Stations` holds the random-station extension.
- `Paths` holds shortest distances and accessibility.
- `Optimise` holds the three optimisation passes.
- `Metrics` holds coverage and average degree.

`Network` itself has only the single-edge and node operations. Each loop that changes the
network is a module-level method that takes the network and may modify it. Each is proved
against a function that describes the whole resulting edge map. The
properties the scripts rely on are lemmas about those functions. Examples:

- earlier edges survive later passes;
- every consecutive matched pair ends up adjacent;
- new edges carry fixed attributes;
- degree sum equals twice the edge count.

## Model

| member | source | states |
|---|---|---|
| RouteText.KeepRouteChars | problem2.py:27 | The result holds only `A-Z`, `0-9`, comma and space. It is no longer than the input, and equals the input when the input already holds only those characters |
| RouteText.KeepRouteCharsCounts | problem2.py:27 | Each of `A-Z`, `0-9`, comma and space occurs in the result exactly as often as in the input. No other character occurs |
| RouteText.KeepRouteCharsConcat | problem2.py:27 | Filtering a concatenation concatenates the filtered parts, so the kept characters stay in input order |
| RouteText.ReplaceCityLinkWordsChars | problem2.py:29 | The `CITYLINK\s+(\w+)` rewrite never introduces a character that is not in its input |
| RouteText.CityLinkWordStep | problem2.py:29 | `CITYLINK`, a run of one or more whitespace characters and a whole word become just that word, and the rewrite resumes right after the word |
| RouteText.NoLateWhitespaceKeeps | problem2.py:29 | Text with no whitespace from its ninth character on holds no match, so the rewrite leaves it unchanged |
| RouteText.NormaliseCommasShape | problem2.py:31 | After the `\s*,\s*` rewrite no whitespace stands next to a comma, and every character of the result comes from the input |
| RouteText.NormaliseCommasKeepsClean | problem2.py:31 | Text with no whitespace beside a comma is a fixed point of the comma rewrite |
| RouteText.NormaliseCommasIdempotent | problem2.py:31 | Applying the comma rewrite twice gives the same text as applying it once |
| RouteText.NormaliseCommasBetweenWords | problem2.py:31 | `w, t` becomes `w,t` when neither word holds whitespace or a comma |
| RouteText.StripCommasShape | problem2.py:31 | Stripping outer commas keeps the character set and the comma spacing, and leaves no comma at either end |
| RouteText.CleanRouteSer | problem2.py:24-32 | The cleaned route text holds only `A-Z`, `0-9`, comma and space. It never starts or ends with a comma, and no space stands next to a comma |
| RouteText.RemoveCityLinkPrefixesChars | problem2.py:44 | Removing `CITYLINK[\s-]*` prefixes never introduces a character |
| RouteText.NormaliseRouteNumber | problem2.py:39-46 | A normalised route number has no leading or trailing whitespace and no lower-case letter |
| RouteText.StripNormalisedIsIdentity | problem2.py:39-46 | Stripping a normalised route number again changes nothing, so the `.strip()` of each route number in the route loop is a no-op |
| Colours.PaletteIsHex | problem2.py:49-62 | Every CityLink palette entry is a `#rrggbb` colour |
| Colours.PaletteLacksUnknown | problem2.py:49-62 | The unknown-CityLink default `#dddddd` is not a palette colour |
| Colours.RouteTypeTableIsHex | problem2.py:64-69 | Every present route-type colour is `#rrggbb`. Only the CityLink type maps to `None`. Only the LocalLink type maps to the default `#2ca02c` |
| Colours.RouteColour | problem2.py:83-86 | The colour is never `None` and always `#rrggbb`, so the `None` table entry is unreachable. A CityLink route gets `#dddddd` exactly when its upper-cased number is not in the palette. Any other route gets `#2ca02c` exactly when its type is unknown or is LocalLink, and a type in the table gets that type's entry |
| Colours.CityLinkColourFromPalette | problem2.py:84 | A CityLink route whose upper-cased number is in the palette gets that palette entry |
| Colours.BlueLineColour | problem2.py:84 | CityLink route `BLUE` is drawn `#1f77b4` |
| Colours.RouteTypeColourFromTable | problem2.py:86 | A route that is not CityLink and whose type is in the route-type table gets that table entry |
| Colours.CommuterAndExpressColours | problem2.py:86 | Commuter routes are drawn `#4b0082` and Express BusLink routes `#ffd700`, whatever their number |
| RouteMatch.CleanStops | problem2.py:35 | Cleaning the stop table keeps every row's id and position and replaces its route text by the cleaned text |
| RouteMatch.NormaliseRoutes | problem2.py:39-46 | Every route row keeps its type. Its number is replaced by the normalised number, which has no outer whitespace and no lower-case letter |
| RouteMatch.SplitJoin | problem2.py:89-90 | Splitting route text at commas and joining the fields back with commas gives the text again, and no field holds a comma |
| RouteMatch.SplitFields | problem2.py:89-90 | A string is a field of the comma split exactly when it runs from a field start (text start or just after a comma) to the next comma |
| RouteMatch.PaddedIffStrip | problem2.py:89 | `\s*<r>\s*` matches a whole segment exactly when the stripped segment equals `r` ignoring case (for `r` without outer whitespace) |
| RouteMatch.ServesRouteAtFields | problem2.py:89-90 | For a route number without commas, the anchored pattern is found in the text exactly when the segment from some field start to the next comma is a padded match |
| RouteMatch.ServesRouteIffField | problem2.py:89-90 | For a route number without commas or outer whitespace, a stop serves the route exactly when some comma-separated field, stripped, equals the number ignoring case |
| RouteMatch.SplitTenTwelve | problem2.py:89-90 | `"10,12"` splits into the fields `"10"` and `"12"` |
| RouteMatch.TenMatches | problem2.py:89-90 | Stop text `"10,12"` serves route `"10"` |
| RouteMatch.NoFieldIsOne | problem2.py:89-90 | No field of `"10,12"` equals `"1"` |
| RouteMatch.OneDoesNotMatch | problem2.py:89-90 | Stop text `"10,12"` does not serve route `"1"` |
| RouteMatch.CleanCityLinkList | problem2.py:24-32 | Route text `CityLink <w>, <t>` (any letter case, `w` and `t` made of letters and digits) cleans to `W,T` |
| RouteMatch.CleanRouteSerExample | problem2.py:24-32 | `"CityLink Blue, 22"` cleans to `"BLUE,22"` |
| RouteMatch.NoCityLinkKeeps | problem2.py:44 | Text that nowhere contains `CITYLINK` is unchanged by prefix removal |
| RouteMatch.RemovePrefixBeforeWord | problem2.py:44 | `CITYLINK`, then any run of whitespace and hyphens, then a word without `CITYLINK`, becomes just the word |
| RouteMatch.NormaliseCityLinkNumber | problem2.py:39-46 | A route number made of padding, `CityLink` in any case, separators and a word normalises to the upper-cased word |
| RouteMatch.NormaliseRouteNumberExample | problem2.py:39-46 | `" CityLink-Blue "` normalises to `"BLUE"` |
| RouteMatch.MatchingRows | problem2.py:90 | The matching row indices are in range, strictly increasing, and are exactly the rows whose route text serves the route |
| RouteMatch.RelatedIdsInTableOrder | problem2.py:91 | `related_ids` lists the ids of the matching rows, one per matching row, in table order |
| RouteMatch.RelatedIdsAreStops | problem2.py:91 | Every related id is the id of a stop that serves the route |
| Graph.Key | problem2.py:97 | An undirected edge key holds exactly the two endpoints, ordered low to high |
| Graph.KeySymmetric | problem2.py:97 | `has_edge(u, v)` and `has_edge(v, u)` look up the same key, so one unordered pair has at most one edge |
| Graph.MergeLaws | problem2.py:166-169 | Updating an absent edge with attributes gives those attributes, and repeating an update changes nothing more |
| Graph.AddIfAbsentFacts | problem2.py:95-99 | Guarded insertion makes the key set the old keys plus the pairs. Existing edges keep their attributes (first writer wins), and each new edge carries the given attributes |
| Graph.AddIfAbsentCount | problem2.py:95-99 | Guarded insertion never removes an edge and adds at most one edge per pair |
| Graph.AddIfAbsentNoOp | problem3.py:161-164 | Guarded insertion of pairs that are all edges already leaves the edges unchanged |
| Graph.ReweighFacts | problem2.py:154-169 | Unconditional insertion makes the key set the old keys plus the pairs. Each listed pair takes the new colour, type and weight on top of its old attributes, and every other edge is unchanged |
| Graph.ReweighSets | problem2.py:166-169 | After unconditional insertion each listed pair is an edge of the given type with its given travel time |
| Graph.ReweighKeeps | problem2.py:183-186 | An edge not listed keeps its type and travel time through an unconditional pass |
| Graph.ReweighRetypes | problem2.py:166-169 | An existing edge that is listed gets the new type, colour and weight but keeps its old width |
| Graph.ReweighIdempotent | problem2.py:152-169 | Repeating an unconditional pass over the same pairs gives the same edges as one pass |
| Graph.AppendNew | problem2.py:75 | Adding nodes keeps the old nodes as a prefix, keeps them duplicate-free and holds exactly the old nodes and the added ids |
| Graph.Handshake | problem3.py:183 | The degree sum over the nodes is twice the number of edges |
| Graph.Network.constructor | problem2.py:71-75 | A new network holds the stop ids, each once, and no edges |
| Graph.Network.AddNodes | problem2.py:308 | Adding nodes appends the absent ids and leaves the edges unchanged |
| Graph.Network.AddEdge | problem2.py:166-169 | `add_edge` sets the edge for the pair, merging the given attributes into any existing ones |
| Graph.Network.AddEdgeIfAbsent | problem2.py:97-98 | The guarded `add_edge` inserts the edge exactly when the pair is not yet adjacent, and the edge count grows by one exactly then |
| Build.ConsecutivePairs | problem2.py:95-96 | The loop visits `len(ids) - 1` pairs (none for an empty list), the i-th joining `ids[i]` and `ids[i + 1]` |
| Build.WalkKeys | problem2.py:104-105 | Each index pair of the proximity query becomes the pair of the stop ids at those rows |
| Build.RouteStopsAreStops | problem2.py:91 | A route's related ids are all stop ids, so the transit loop only joins existing nodes |
| Build.AddRouteEdges | problem2.py:93-99 | The edges become the guarded insertion of the consecutive related pairs with the route's bus attributes, and `edge_count` is the number of new edges |
| Build.AddWalkEdges | problem2.py:102-107 | The edges become the guarded insertion of the walking pairs with the fixed walking attributes |
| Build.TransitEdgesKeep | problem2.py:78-99 | An edge present after some routes is still present, with the same attributes, after all routes |
| Build.TransitEdgesCover | problem2.py:78-99 | Every consecutive pair of every route's related ids is adjacent after the transit loop |
| Build.TransitEdgesWithin | problem2.py:78-99 | Every transit edge joins two nodes of the network |
| Build.LastRun | problem2.py:78-99 | The route left over after the loop exists exactly when there are routes, and is one of them |
| Build.AddTransitEdges | problem2.py:78-99 | The route loop leaves the edges equal to the route-by-route guarded insertion and returns the last route's related ids and colour |
| Build.AddRun | problem2.py:79-99 | One iteration computes the route's related ids and colour and inserts its consecutive pairs where absent |
| Build.BuildNetwork | problem2.py:71-107 | The built network has the stop ids as nodes. Its edges are the transit edges of all routes followed by the walking edges, each inserted only where absent |
| Build.BuiltNetworkAdjacency | problem2.py:93-107 | After construction every consecutive related pair of every route and every walking pair is adjacent |
| Build.WeighRoute | problem2.py:154-169 | The weighted loop over one route's pairs sets each consecutive pair's colour, bus type and travel time, overwriting existing edges |
| Build.AddBusWeightsAsWritten | problem2.py:152-169 | As written, the weighted pass repeats the update for the last route of the earlier loop once per route |
| Build.AsWrittenMissesOtherRoutes | problem2.py:152-169 | As written, an edge outside the last route's pairs leaves the weighted pass unchanged, with no travel time |
| Build.AsWrittenExample | problem2.py:152-169 | With two routes, the first route's transit edge has no weight after the pass as written |
| Build.AddBusWeightsPerRoute | problem2.py:152-169 | The corrected pass updates each route's own consecutive pairs with its own colour, route by route |
| Build.BusWeightsAllCover | problem2.py:152-169 | After the corrected pass every consecutive pair of every route is a bus edge with its travel time |
| Build.WeighRun | problem2.py:152-169 | One corrected iteration recomputes the route's related ids and colour and updates its pairs |
| Build.AddWalkWeights | problem2.py:170-186 | The weighted walking pass sets each walking pair's grey colour, walk type and walking time, overwriting existing edges |
| Stations.MaxId | problem2.py:297 | The maximum id is one of the ids and no id exceeds it |
| Stations.NewIdsFresh | problem2.py:297 | `num` new ids are consecutive integers above the current maximum, so they are fresh and distinct |
| Stations.AppendFresh | problem2.py:308 | Adding fresh distinct ids appends them, so the node count grows by exactly their number |
| Stations.NewPositions | problem2.py:299-305 | Each new station gets exactly its drawn position |
| Stations.NewPositionsInBox | problem2.py:299-305 | After the update every new station has a position inside the bounding box of the old positions |
| Stations.LinkNewFacts | problem2.py:313-315 | A new station gains at most one edge, none when the drawn node is itself. Only that edge changes, and it takes the drawn weight |
| Stations.RandomLinksKeep | problem2.py:312-315 | The random links never change an edge that existed before |
| Stations.RandomLinksCount | problem2.py:312-315 | The random links add at most one edge per new station |
| Stations.RandomLinksNew | problem2.py:312-315 | Every new edge touches a new station, is not a self-loop and carries only a weight in 1..10 |
| Stations.LinkStations | problem2.py:312-315 | The linking loop leaves the edges equal to the random links of the drawn choices and weights |
| Stations.AddRandomStations | problem2.py:293-317 | When at least one station is requested, an empty network fails as `max` of nothing and an empty position table fails as `min` of nothing, both with the network unchanged. Otherwise the fresh ids are appended, the random links added and the positions extended by the drawn ones |
| Paths.ExtendWalk | problem2.py:192 | A walk extended along an edge is a walk whose cost grows by that edge's weight |
| Paths.WalkStaysInNodes | problem2.py:192 | A walk from a node never leaves the nodes of the network |
| Paths.WitnessedSound | problem2.py:192 | Every finite tentative distance is the cost of some walk from the source |
| Paths.StableDistances | problem2.py:192 | Once no edge can lower a tentative distance, every node reachable by a walk has a distance no greater than that walk's cost |
| Paths.ShortestDistances | problem2.py:192 | The computed distances are exactly the least walk costs from the source, with the source at 0 and unreachable nodes absent |
| Paths.DistanceDecides | problem2.py:193 | A node is within the threshold exactly when its computed distance is present and at most the threshold |
| Paths.CountWithin | problem2.py:193 | The count is the number of nodes reachable from the source within the threshold |
| Paths.Accessibility | problem2.py:188-195 | There is exactly one entry per node, and each entry is the number of nodes reachable from it within the threshold |
| Paths.AccessibleBounds | problem2.py:188-195 | For a threshold of at least 0 a node reaches itself, so its count is at least 1 and at most the number of nodes |
| Paths.AccessibleMonotone | problem2.py:188-195 | Raising the threshold never removes a reachable node, so the count never drops |
| Optimise.LowDegreeNodes | problem3.py:150 | The low-degree list holds exactly the nodes of degree below 4 |
| Optimise.FirstCandidateFacts | problem3.py:153-154 | There is no candidate exactly when no node other than `node` has current degree below 4. Otherwise the candidate is the first such node in node order |
| Optimise.FindCandidate | problem3.py:153-154 | The search returns the first candidate for the current edges |
| Optimise.LinkStepFacts | problem3.py:151-157 | One iteration keeps every edge and adds at most one, the blue bus link from `node` to its first candidate, never a self-loop. Nothing is added when there is no candidate or it is already adjacent |
| Optimise.LinkStepWithin | problem3.py:151-157 | One iteration only joins nodes of the network |
| Optimise.LinkAllFacts | problem3.py:150-157 | The low-degree loop keeps every edge, adds at most one edge per listed node, and every added edge is a blue bus link that is not a self-loop |
| Optimise.LinkOne | problem3.py:152-157 | One iteration changes the edges as the iteration function says |
| Optimise.LinkLowDegree | problem3.py:150-157 | The loop runs over the low-degree snapshot taken before it, re-reading degrees at each step |
| Optimise.SecondWalkPassAddsNothing | problem3.py:160-164 | When the second query's pairs are among the first query's, the second walking pass adds no edge |
| Optimise.SecondWalkPassAfterBuild | problem3.py:149-164 | On the built network, whose walking edges come from the first query, and after the low-degree pass, a second walking pass whose pairs are among the first query's adds no edge |
| Optimise.SkipOnePairs | problem3.py:175-177 | The skip-one loop visits `len(ids) - 2` pairs (none for fewer than 3 ids), the i-th joining `ids[i]` and `ids[i + 2]` |
| Optimise.SkipFrom | problem3.py:176-179 | The inner loop runs at most once and inserts the link to the stop two ahead when absent |
| Optimise.AddSkipOneEdges | problem3.py:175-179 | One route's skip-one loop is the guarded insertion of its skip-one pairs and adds at most `len(related_ids) - 2` edges |
| Optimise.SkipOneCover | problem3.py:175-179 | After a route's skip-one loop, `related_ids[i]` and `related_ids[i + 2]` are adjacent for every `i + 2 < len` |
| Optimise.SkipOneAllFacts | problem3.py:167-179 | The skip-one pass keeps every existing edge unchanged, and each edge it adds is an orange bus link |
| Optimise.AddSkipOneLinks | problem3.py:167-179 | The route loop leaves the edges equal to the route-by-route skip-one insertion |
| Optimise.OptimiseNetwork | problem3.py:149-179 | The three passes run in order. No edge present before them is removed or changed, so the edge set only grows |
| Metrics.CoveredCountBound | problem2.py:326-330 | At most every population point is covered |
| Metrics.CoveredCountMonotone | problem2.py:323-331 | A larger radius never covers fewer points |
| Metrics.Nearest | problem2.py:328 | The nearest-station query returns the least squared distance from the point to any station |
| Metrics.NearestDecides | problem2.py:328-330 | A point is covered exactly when its nearest station lies within the radius |
| Metrics.ServiceCoverage | problem2.py:323-331 | A node without a position, an empty network and an empty point list are errors. Otherwise the result is the covered count over the number of points |
| Metrics.CoverageRatioBounds | problem2.py:323-331 | The coverage ratio lies between 0 and 1 |
| Metrics.CoverageRatioMonotone | problem2.py:323-331 | The coverage ratio never drops as the radius grows |
| Metrics.AverageDegree | problem3.py:183 | The average degree is undefined exactly for an empty network (division by zero) |
| Metrics.AverageDegreeHandshake | problem3.py:183 | The average degree is twice the edge count over the node count |

## Left out

- CSV loading and pandas column plumbing. The stop and route tables are input sequences.
- `str(s)` of missing cells, `fillna` and `na=False` are not modelled. Every route text is a string.
- Matplotlib drawing, legends, colour bars, the top-five degree labels and `savefig`. These are rendering only.
- `problem1.py` is not part of this model.
- Letter case and `\w` are ASCII only. `upper()` and `re.IGNORECASE` map only `a-z`/`A-Z`, and `\w` matches only ASCII letters, digits and `_`.
  Non-ASCII letters and digits are not modelled. Whitespace (`\s` and `strip()`) is Python's full Unicode whitespace set.
- Stop ids are integers. The scripts convert ids to strings and compare new ids through `int(...)`.
  Canonical decimal strings convert back and forth exactly, so the model keeps the integers.
- The implicit insertion of missing endpoints by `add_edge` is not modelled. Every call site passes ids that are already nodes, and the methods require this.
- Geodesic distances, UTM projection and floating-point travel times are not modelled.
  - Travel times are caller-supplied functions from an edge to a natural number.
  - Positions are integer points, and coverage compares squared distance with the squared radius.
  - The 0.0045 and 0.0035 radii are not modelled.
- KDTree internals are not modelled.
  - The proximity pairs are input data.
  - The second walking pass's pairs are assumed to be among the first pass's, as a smaller radius on the same points gives.
  - The nearest-station query is a linear scan with the same result.
- Randomness is not modelled. `random.uniform`, `random.choice`, `random.randint` and the population points are oracle parameters.
  Their preconditions state the ranges the library promises.
- `pos_dict.update` is returned as the new position table instead of being updated in place.
- `nx.density` and `nx.average_clustering` (problem3.py:182, 184) are left out. The first is floating-point arithmetic and the second a library algorithm.
- Dijkstra's algorithm is not modelled as written.
  - `Paths.ShortestDistances` is proved against the least-cost walk definition by repeated edge relaxation until nothing changes.
  - Dijkstra's priority queue order is not modelled; its result is the same.
  - An edge without a `weight` counts as weight 1, the library's default.
- The comment on the skip-one loop says each route gains at most one link. The code adds up to `len(related_ids) - 2`, and the model follows the code.
- RouteMatch.ServesRouteIffField: the field equivalence is stated only for route numbers without commas or outer whitespace.
  Normalised route numbers have no outer whitespace. `RouteMatch.ServesRouteAtFields` states the match for any comma-free number.
- RouteMatch.CleanCityLinkList: stated for CityLink names and route tokens made of letters and digits, with one space after `CITYLINK` and one after the comma.
  The general shape guarantees are in `RouteText.CleanRouteSer`.
- Build.AddBusWeightsAsWritten: the elided body of the weighted route loop is taken to leave `related_ids` and `color` as the earlier loop left them.

## Findings

| source | as written | input that shows it | evidently intended | confidence | as-written member | corrected member |
|---|---|---|---|---|---|---|
| problem2.py:152-169 | The body of the weighted route loop is `...`, so the inner loop reuses the `related_ids` and `color` left by the last iteration of the earlier route loop. It reweighs that one route once per route | Two routes, stops 1-2 on the first and 3-4 on the second: edge 1-2 keeps no `weight` | Each route's own consecutive stops get a bus travel time | not executed | Build.AsWrittenMissesOtherRoutes | Build.BusWeightsAllCover |
