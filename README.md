# MBTA tracker core, modelled in Dafny

`mbta_tracker.py` polls the MBTA v3 API for a fixed list of configured
targets (a station name, its route ids and the human direction names
"inbound"/"outbound") and prints the next predictions per station, route,
direction and parent station. Around the HTTP and console plumbing it holds
four small decision procedures, which this project models and proves
properties of:

- **Direction resolver** (`Directions`): `get_route_direction_map` turns a
  route's direction labels into the dictionary `{inbound, outbound}` →
  direction code, preferring the position of the literal labels (any case,
  last occurrence wins) and falling back to outbound = 0, inbound = 1. A
  missing or malformed payload uses the labels `["Outbound", "Inbound"]`.
  The per-run cache is the class `DirectionCache`, whose map of answers is
  written once per route and only grows; a ghost log of fetched routes shows
  that each route is fetched at most once.
- **Station resolver** (`Stations`): `find_station_parent_ids_for_routes`
  keeps the stops whose name equals the station name ignoring case, takes
  each one's parent station when it is truthy and its own id otherwise, and
  returns the union over all routes sorted. The set the source fills is held
  as a strictly ascending sequence, so `sorted` returns it unchanged.
- **Prediction summary and request** (`Predictions`): `summarize_prediction`
  (arrival time if truthy, else departure time, else the em-dash sentinel;
  direction id or -1; headsign passed through) and the query parameters of
  `fetch_predictions`, where the direction filter appears exactly when a
  direction is given.
- **Main's decisions** (`Polling`): the resolution loop and the fatal
  all-unresolved condition, the skipping of unresolved targets while polling,
  the direction ids a poll asks for (`[d]` or `[0, 1]`), and the bucket step
  `sorted(set(bucket), key=time)[:5]` over the summaries that carry a time.

`Order` holds ASCII lower-casing and Python's string order (code point by
code point, a proper prefix first), which Dafny's `<` on sequences is not.
`Seqs` holds `set(list)` as a sequence without repeats.

Every network fetch is an input of the model: the route payload is an
`Option<seq<string>>` (`None` = missing or malformed), the stop lists are
`seq<seq<Stop>>` (one per route, empty when the fetch failed), and the
prediction responses are `seq<seq<Prediction>>` (one per direction id
tried). `iso_to_local_str` is a function parameter `localTime`.

The code has no minutes-until-arrival computation (a summary carries a
formatted local time string, or the em-dash sentinel when the record has no
time, and main drops sentinel summaries before the bucket), no route-family
grouping or branch tags on headsigns, no batched comma-joined route filter,
no retry or HTTP 429 handling, and no headsign lookup (the headsign is always
the empty default); the model has none of these either. The buckets are
sorted by the formatted time text, not by minutes. The tests in
`tests/test_summarize.py` expect an integer and `None`; the code returns a
string and the sentinel, and the model follows the code.

## Model

| member | source | states |
|---|---|---|
| `Order.AddSorted` | mbta_tracker.py:118-119 | adding an id to the sorted set keeps it strictly ascending, adds exactly that id, and changes nothing when it is already there |
| `Order.AscendingUnique` | mbta_tracker.py:119 | two strictly ascending lists with the same elements are equal, so `sorted(set)` is determined by the set |
| `Order.LexTrichotomy` | mbta_tracker.py:224 | Python's string order is total: two strings are equal or one sorts before the other |
| `Order.LexLessTransitive` | mbta_tracker.py:224 | Python's string order is transitive |
| `Seqs.Distinct` | mbta_tracker.py:224 | `set(bucket)`: every element of the input once, nothing else |
| `Directions.LastIndexSpec` | mbta_tracker.py:75-78 | the lower-cased label dictionary maps a key to the last position whose label lower-cases to it, and has the key exactly when such a position exists |
| `Directions.IndexLabels` | mbta_tracker.py:75-78 | the enumerate loop builds exactly that dictionary: keys are the lower-cased labels, each mapped to its last position |
| `Directions.ResolveLabels` | mbta_tracker.py:75-90 | from the labels, the method computes the resolver's answer: the label positions when both conventional labels occur, else the positional default |
| `Directions.ResolveLabelled` | mbta_tracker.py:83-85 | when "inbound" and "outbound" both occur ignoring case, each key maps to the last position of its label |
| `Directions.ResolvePositional` | mbta_tracker.py:86-90 | otherwise the answer is outbound = 0, inbound = 1, whatever the labels and their number |
| `Directions.ResolveDistinctCodes` | mbta_tracker.py:82-90 | the inbound and outbound codes always differ and are label positions or the defaults 0 and 1 |
| `Directions.StandardLabels` | tests/test_directions.py:4-16 | `["Outbound", "Inbound"]` (in any case) gives outbound = 0 and inbound = 1 |
| `Directions.MalformedPayload` | mbta_tracker.py:69-73 | a missing or malformed payload falls back to the default labels and still yields both keys, outbound = 0 and inbound = 1 |
| `Directions.DirectionCache.constructor` | mbta_tracker.py:61-62 | the cache starts empty with no fetch made |
| `Directions.DirectionCache.Get` | mbta_tracker.py:53-93 | a cached route returns its stored answer with no fetch and no change; an uncached one is fetched once, resolved from the payload and stored; existing entries never change and the cache only grows |
| `Directions.RepeatedLookup` | mbta_tracker.py:65-66 | two lookups of one route return the same answer; over both calls the route is fetched and stored at most once (only if it was not cached before) and nothing else changes |
| `Stations.FindParentIds` | mbta_tracker.py:95-119 | the result is strictly ascending and holds an id exactly when some stop on some route matches the name ignoring case and contributes that id (its truthy parent, else its own id) |
| `Stations.ResolutionUnique` | mbta_tracker.py:119 | the sorted, de-duplicated result is determined by the stop lists |
| `Stations.EmptyIffNoMatch` | mbta_tracker.py:113-119 | the result is empty exactly when no stop on any route carries the name |
| `Stations.ParkStreetExample` | tests/test_stations.py:4-21 | the Park Street stop, its platform and an unrelated stop resolve to `["place-pktrm"]` |
| `Stations.NonexistentExample` | tests/test_stations.py:24-35 | a name no stop carries resolves to `[]` |
| `Predictions.Summarize` | mbta_tracker.py:148-160 | the time is the arrival's if truthy, else the departure's, else the sentinel; the direction is the record's or -1; the headsign is the default passed in |
| `Predictions.SentinelIffNoTime` | mbta_tracker.py:150-153 | when formatting never yields the em dash, the summary carries the sentinel exactly when neither time is present and non-empty |
| `Predictions.FetchParams` | mbta_tracker.py:132-143 | the stop and route filters are the arguments, the direction filter is present exactly when a direction (0 included) is given and carries it, every other parameter is the fixed base set |
| `Polling.Polled` | mbta_tracker.py:199-203 | the targets a poll serves are exactly the resolved targets with at least one parent id |
| `Polling.PolledAppend` | mbta_tracker.py:199-203 | the skip keeps configured order: filtering a concatenation is concatenating the filtered parts |
| `Polling.FatalIffNothingPolled` | mbta_tracker.py:185-187 | the fatal all-unresolved condition holds exactly when no target would be polled |
| `Polling.ResolveTargets` | mbta_tracker.py:170-187 | each configured entry keeps its configuration and gets the station resolver's result; fatal holds exactly when no entry's name matches any stop of its routes, i.e. when nothing would be polled |
| `Polling.DirectionIdsToTry` | mbta_tracker.py:208-210 | "inbound"/"outbound" in any case ask for the map's single code; any other direction asks for both 0 and 1 |
| `Polling.ConfiguredDirectionsDiffer` | mbta_tracker.py:206-210 | for any route's labels, "inbound" and "outbound" each ask for one code and never the same one |
| `Polling.PollRequests` | mbta_tracker.py:210-216 | one or two predictions requests per bucket, one per direction id tried: each is filtered by the parent station, the route and that direction id, and every other parameter is the fixed base set |
| `Polling.TimedAllMembers` | mbta_tracker.py:215-220 | the appended list holds exactly the summaries of fetched records that carry a time |
| `Polling.InsertByTime` | mbta_tracker.py:224 | inserting into a list sorted by time string keeps it sorted, adds exactly one occurrence of the new entry (multiset) and keeps a repeat-free list repeat-free |
| `Polling.SortByTime` | mbta_tracker.py:224 | sorting by time string returns a permutation of its input (same multiset), ordered, without introducing repeats |
| `Polling.TopNSpec` | mbta_tracker.py:224 | the bucket has no repeats, is ordered by time string, has min(5, number of distinct entries) entries, keeps only input entries, and drops none that sorts before a kept one |
| `Polling.BuildBucket` | mbta_tracker.py:212-224 | the bucket holds no sentinel and no repeat, is ordered by time string, has min(5, number of distinct timed summaries) entries taken from the fetched records, and every dropped summary sorts no earlier than every kept one |

## Left out

- HTTP: `mbta_get`, the shared `requests.Session`, the API-key header and the network call inside `fetch_predictions`; their results are inputs of the model. A failed stop or predictions request is the empty list it degrades to; a failed route request is the `None` payload, since the source's fallback to the default labels then applies.
- `iso_to_local_str` (ISO parsing, time-zone conversion, `strftime`): a function parameter `localTime`; an unparsable timestamp makes the source raise, which is not modelled.
- Printing, `time.sleep`, the `KeyboardInterrupt` handler and `sys.exit(1)`: the fatal exit is the boolean `fatal` of `Polling.ResolveTargets`.
- The nesting of the polling loop over targets, routes, directions and parent ids, and its output lines: only the decisions inside it are modelled (`Polled`, `DirectionIdsToTry`, `PollRequests`, `BuildBucket`).
- Order.Lower: lower-cases ASCII letters only; Python's `str.lower` covers all of Unicode.
- Directions.ResolvePayload: a `direction_names` that is null or a number, or a list holding a non-string, makes the source raise outside its `try`, which the model does not capture. A string or a dict is walked like the list of its characters or keys, so it is the payload `Some` of that list and is modelled exactly (a dict with keys "Inbound" and "Outbound", for one, takes the labelled branch).
- Stations.FindParentIds: a stop with a null name (the source raises) or without an id (the source adds `None`) is excluded by the `Stop` type.
- Predictions.Summarize: a `direction_id` present but null yields `None` in the source; the model treats it as absent and gives -1.
- Polling.BuildBucket: Python's set iteration order is unspecified, so entries with equal time strings may come out in any order; the model fixes one, and no stated property depends on it.
- Polling.BuildBucket: the order is the string order of the formatted times, not time order ("10:02:00 AM" sorts before "9:58:00 AM"); the model claims only the string order.
