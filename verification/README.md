# Time-series aggregation core, modelled in Dafny

This project models the data-processing core of a multivariate time-series
viewer. The viewer takes rows of the form `{ timestamp, col1, col2, … }`
and turns them into groups of columns to draw:

- `aggregatorB` cuts the data window (the last `dataTicks` rows).
- It then groups the columns, in one of two ways:
  - by density, with DBSCAN over the columns' time series;
  - by count, into `clusterCount` slices of the columns. The slices are in
    insertion order in `clustering`, or ranked by the last row's values.
- It compresses the timestamps that every group finds boring. The first row
  of a boring run stays, with its values blanked, and the rest of the run
  is dropped.
- It reports which group every dimension went to, and the y-axis domain.

The rest of the core:

- `clusteringData` and `clusteringOverTime` repeat the grouping over a
  sliding context window.
- `highlighter` compares the current assignment of dimensions to groups
  with the assignment history.
- `wrapper` blanks the inner rows whose three-point relative range stays
  below `eps` in every dimension.
- `findCommonElements` intersects lists.
- `deepMerge` merges settings objects.

Modules:

| file | module | models |
|---|---|---|
| basics.dfy | `Basics` | shared helpers: `Option`, `Outcome` (a value or a thrown `TypeError`), `slice`, `Math.ceil` of a division, de-duplication |
| records.dfy | `Records` | a row: its timestamp, its other keys in JavaScript insertion order, and their values (`None` is `undefined`) |
| window.dfy | `WindowSelection` | `rawData.slice(-1 * dataTicks)` |
| count_clustering.dfy | `CountClustering` | `clustering` (src/lib/clustering.ts) and the ranked copy in src/lib/clusteringB.ts |
| series.dfy | `TimeSeries` | the per-dimension `Record<number, number>` series and the order `Object.keys` gives its integer keys |
| dbscan.dfy | `Density` | `clusteringDBSCAN`: distance, neighbours, cluster expansion, main loop |
| clustering_data.dfy | `ClusteringData` | `clusteringData`: series → clusters → rows again |
| common_elements.dfy | `CommonElements` | `findCommonElements` and its test case |
| wrapping.dfy | `Wrapping` | `wrapper`, `calculateRelativeRangeA`, `calculateRelativeRangeB` |
| compression.dfy | `Compression` | the boring-data compression loop of `aggregatorB` |
| aggregator.dfy | `Aggregator` | `aggregatorB`, `colsAccordingToAggregation`, the y-domain |
| over_time.dfy | `OverTime` | `clusteringOverTime` |
| highlighting.dfy | `Highlighting` | `highlighter` |
| deep_merge.dfy | `DeepMerge` | `deepMerge` |

Data values, `eps` and `meanRange` are modelled as `real`. The settings
`dataTicks`, `clusterCount` and `tickRange`, and the timestamps, are
modelled as `int`. JavaScript's `NaN`, `Infinity` and `undefined` are
written out as datatype cases (`Ratio`, `Domain`, `Value`).

`findBoringTimestamps` and `clusteringByCount` are imported from modules
outside this model, so both are passed in as function parameters.

Where an operation is built from several steps, ghost results name the
intermediate values (the grouping before compression, the DBSCAN clusters
behind a density grouping, the timestamps every group finds boring), so the
contract can say how the output follows from them.

## Model

| member | source | states |
|---|---|---|
| Basics.Dedup | src/lib/findCommonElements.ts:3-11 | a `Set` built from a list holds exactly the list's elements, each once, and is no longer than the list; a duplicate-free list is unchanged |
| Basics.DedupFirstOccurrence | src/lib/findCommonElements.ts:3-11 | `Array.from(new Set(list))` lists the elements in the order of their first occurrence in the list |
| Basics.Slice | src/lib/clusteringOverTime.ts:48-49 | `Array.prototype.slice` with negative and out-of-range bounds: an in-range slice is the subsequence, a start at or past the end gives `[]`, a negative start counts from the end; the result keeps only input elements and keeps distinctness |
| Basics.CeilDiv | src/lib/clustering.ts:23 | `Math.ceil(n / k)` is the least `r` with `k * r >= n` |
| Records.Assign | src/lib/clusteringB.ts:114 | `row[k] = v` sets `k` to `v` and changes no other key; an existing key keeps its position and a new key goes last |
| Records.BuildRow | src/lib/clusteringB.ts:110-115 | a row built from `{ timestamp }` by assigning distinct names in order has exactly those columns, in that order, with the given values |
| Records.Blank | src/lib/clusteringB.ts:206-217 | the `{ ...row }` copy with every dimension set to `undefined` keeps the timestamp and every other key and value; when every dimension was present the column order is unchanged |
| Records.Project | src/lib/clustering.ts:34-41 | the group record holds the timestamp and exactly those selected columns the record has (`col in record`), in the order of the selected columns (`Records.Present`), with the record's values |
| Records.PresentAll | src/lib/clustering.ts:37-41 | a record that has every selected column gets them all, in the selected order |
| WindowSelection.TakeWindow | src/lib/clusteringB.ts:62-65 | a falsy `dataTicks` keeps all rows; a positive one keeps the last `min(dataTicks, n)` rows; a negative one drops the first `-dataTicks` rows; uniform input stays uniform |
| CountClustering.ColumnSlices | src/lib/clustering.ts:23-28 | there are exactly `groups` slices (none when `groups <= 0`), each drawn from the columns and duplicate-free when they are |
| CountClustering.ColumnSlicesPartition | src/lib/clustering.ts:18-28 | for `groups > 0` the slices concatenate back to the column list, so every column lands in exactly one slice |
| CountClustering.SlicesOfConcat | src/lib/clustering.ts:26-28 | the first `j` slices of width `c` concatenate to the first `min(j*c, n)` columns |
| CountClustering.ProjectGroups | src/lib/clustering.ts:31-45 | every group has one record per input record, with the same timestamp; a record holds a column iff the column is in its group's slice and the input record holds it, in the slice's order (`Records.Present`), and then with the same value |
| CountClustering.Clustering | src/lib/clustering.ts:7-48 | `clustering(values, groups)` gives `groups` aligned groups; group `g` keeps the `g`-th slice of the first record's columns, in slice order, with the input's timestamps and values |
| CountClustering.SortDesc | src/lib/clusteringB.ts:295-297 | the comparator sort is a permutation, descending by the last record's value, and stable: the columns with equal values keep their relative order |
| CountClustering.InsertPermutes | src/lib/clusteringB.ts:295-297 | inserting one column adds exactly that column and loses none |
| CountClustering.WithKeyInsert | src/lib/clusteringB.ts:295-297 | inserting a column places it before the columns with its value that were already there, which keep their order |
| CountClustering.InsertDescending | src/lib/clusteringB.ts:295-297 | inserting one column into a descending list keeps it descending |
| CountClustering.SortedColumns | src/lib/clusteringB.ts:286-297 | the sorted columns are a permutation of the first record's non-timestamp columns, duplicate-free |
| CountClustering.RankedClustering | src/lib/clusteringB.ts:276-325 | the ranked `clustering`: as `Clustering`, but the slices are taken from the columns sorted by the last record |
| CountClustering.RankedSlicesAreStablySorted | src/lib/clusteringB.ts:295-305 | the concatenated ranked slices are a permutation of the first record's columns, sorted descending by the last record's values, stable among equal values |
| TimeSeries.OwnKeys | src/lib/clusteringData.ts:47 | `Object.keys` of a series is a permutation of the inserted keys (array-index keys ascending, then the rest), so it lists exactly the inserted keys and keeps them distinct |
| TimeSeries.SortAsc | src/lib/clusteringData.ts:47 | the ascending order of the array-index keys is a permutation that is ascending |
| TimeSeries.IndicesFirst | src/lib/clusteringData.ts:47 | for non-negative, strictly increasing keys, the array-index keys followed by the other keys give back the keys in their insertion order |
| TimeSeries.OwnKeysOfIncreasing | src/lib/clusteringData.ts:47 | for non-negative, strictly increasing timestamps, `Object.keys` gives them back in row order |
| TimeSeries.Column | src/lib/clusteringData.ts:21-24 | `timeSeries[curr.timestamp] = curr[dimension]` over all rows: the keys are the rows' timestamps, and each key holds the value of the last row with that timestamp |
| TimeSeries.ToSeries | src/lib/clusteringData.ts:17-28 | the series of a dimension is named after it; its keys are the distinct timestamps, each holding the last row's value |
| TimeSeries.AllSeries | src/lib/clusteringData.ts:17-28 | `dimensions.map(...)`: one series per dimension, in order |
| Density.SumSquares | src/lib/clusteringDBSCAN.ts:15-24 | the squared distance over the first series' keys is non-negative, and is a number (not NaN) iff both series define every one of those keys |
| Density.SumSquaresSymmetric | src/lib/clusteringDBSCAN.ts:15-24 | between series with the same keys the distance is symmetric |
| Density.WithinIsRootComparison | src/lib/clusteringDBSCAN.ts:19-32 | comparing the squared sum with `eps * eps` (for `eps >= 0`) decides exactly `Math.sqrt(sum) <= eps` |
| Density.NeighborsBelow | src/lib/clusteringDBSCAN.ts:29-36 | the loop prefix up to `m` yields, in increasing order, exactly the other points below `m` within `eps` |
| Density.Neighbors | src/lib/clusteringDBSCAN.ts:27-38 | `getNeighbors(p)` lists, in increasing index order, exactly the points other than `p` whose distance is within `eps` |
| Density.ExpandCluster | src/lib/clusteringDBSCAN.ts:41-69 | the expanded cluster starts with the seed, is duplicate-free, takes only points not clustered before, and marks exactly its members as clustered; every member after the seed neighbours an earlier member that expands; every neighbour of an expanding member ends up clustered |
| Density.Cluster | src/lib/clusteringDBSCAN.ts:71-84 | every point lands in exactly one non-empty cluster (the lengths add up to the point count); seeds increase and each seed is the lowest point no earlier cluster holds; members are reachable from the seed; no neighbour of an expanding member is left to a later cluster |
| Density.ClusterDone | src/lib/clusteringDBSCAN.ts:71-84 | when the main loop ends, every point is held, clusters are disjoint, their lengths add up to the point count, and neighbours of expanding members are held no later than that member's cluster |
| ClusteringData.KeyOrderOfIncreasing | src/lib/clusteringData.ts:47 | for non-negative, strictly increasing timestamps the regrouped rows come out in window order |
| ClusteringData.EntryAt | src/lib/clusteringData.ts:50-58 | the entry for a timestamp has that timestamp, has the cluster's names as columns in order, and reads each series at that timestamp |
| ClusteringData.Reassemble | src/lib/clusteringData.ts:46-62 | one row per key of the cluster's first series, in key order; each row holds every member's value at that key |
| ClusteringData.ClusterNamesPartition | src/lib/clusteringData.ts:30-43 | the names of the clusters partition the dimensions: every dimension is in exactly one cluster, and the name count equals the dimension count, so the alert never fires |
| ClusteringData.DensityGroups | src/lib/clusteringData.ts:14-63 | the groups come from clusters that satisfy everything `Density.Cluster` states for the dimensions' series and `eps`; group `g` is named by the series of cluster `g`, in cluster order, and has one row per key of the window, in key order, with those names as columns and the window's last value for each; for a non-empty window the first rows carry those names; the names partition the dimensions, so the alert never fires |
| ClusteringData.DensityNonEmpty | src/lib/clusteringData.ts:14-63 | for a non-empty window every density group has at least one row |
| ClusteringData.ReassembledValue | src/lib/clusteringData.ts:50-58 | a regrouped entry reads, for each member, the value of the window's last row at that timestamp |
| ClusteringData.Group | src/lib/clusteringData.ts:5-69 | `clusteringData` dispatch: a truthy `eps` gives the density groups of the DBSCAN clusters of the window, as `DensityGroups` states them; otherwise a truthy `clusterCount` defers to `clusteringByCount`; otherwise the window is one group |
| CommonElements.Intersection | src/lib/findCommonElements.ts:3-8 | the elements every list holds |
| CommonElements.KeepMembers | src/lib/findCommonElements.ts:7 | `filter((x) => set.has(x))` keeps exactly the list's elements that are in the set |
| CommonElements.FilterAll | src/lib/findCommonElements.ts:3-8 | after the loop the set holds the last list's elements that are in every list, in first-occurrence order |
| CommonElements.KeepAgree | src/lib/findCommonElements.ts:7 | filtering by two sets that agree on the list's elements gives the same result |
| CommonElements.FindCommonElements | src/lib/findCommonElements.ts:1-12 | the result is duplicate-free and holds exactly the elements common to all lists, and equals the last list filtered by the common elements and de-duplicated; no lists give `[]`, one list gives it de-duplicated |
| CommonElements.TwentyListsExample | src/lib/findCommonElements.test.ts:5-34 | the test's twenty lists give `[3, 4]` |
| CommonElements.TwentyListsShare | src/lib/findCommonElements.test.ts:5-26 | the test's twenty lists share exactly `{3, 4}` |
| Wrapping.Divide | src/lib/wrapping.ts:80 | `x / y` for `x >= 0`: finite iff `y != 0`, and then the exact quotient; NaN iff both are 0 |
| Wrapping.Least | src/lib/wrapping.ts:73 | `Math.min(...numbers)` is an element and bounds every element from below |
| Wrapping.Greatest | src/lib/wrapping.ts:74 | `Math.max(...numbers)` is an element and bounds every element from above |
| Wrapping.RelativeRangeA | src/lib/wrapping.ts:68-81 | the spread divided by the mean is NaN for no numbers, and finite iff the numbers' sum is non-zero |
| Wrapping.Scan | src/lib/wrapping.ts:84-93 | the single pass ends with the sum of the numbers and, for a non-empty list, their least and greatest element |
| Wrapping.RelativeRangeB | src/lib/wrapping.ts:82-103 | the single-pass version computes the same ratio as `calculateRelativeRangeA` for every input |
| Wrapping.SpreadNonNegative | src/lib/wrapping.ts:77 | the absolute range is never negative |
| Wrapping.ConstantHasZeroRange | src/lib/wrapping.ts:68-81 | a non-zero constant list has relative range 0 |
| Wrapping.ZeroSumNeverBelow | src/lib/wrapping.ts:40 | when the numbers sum to zero, no `eps` is greater than the relative range, because the division by a zero mean gives NaN or +Infinity |
| Wrapping.Spread3 | src/lib/wrapping.ts:32-39 | an `undefined` among the three neighbouring values makes the relative range NaN |
| Wrapping.ShouldBlank | src/lib/wrapping.ts:25-45 | a row is blanked iff `eps` exceeds the relative range of every dimension |
| Wrapping.RelativeRangeOf | src/lib/wrapping.ts:32-39 | `calculateRelativeRangeB(prev, cur, next)`: the relative range of three defined values, NaN otherwise |
| Wrapping.Wrapper | src/lib/wrapping.ts:8-66 | the filtered data has one row per input row; the first and last rows are kept; an inner row is blanked in every dimension iff it is boring, and kept as is otherwise |
| Wrapping.ZeroSumKeepsRow | src/lib/wrapping.ts:35-44 | a dimension whose three values sum to zero keeps the row |
| Wrapping.NoDimensionsAllBoring | src/lib/wrapping.ts:25-46 | with no dimensions the loop never clears `shouldSetValueToUndefined`, so every interior row is blanked |
| Compression.KeptExact | src/lib/clusteringB.ts:184-239 | the emitted indices, in increasing order, are exactly those that are significant or start a boring run |
| Compression.KeptCount | src/lib/clusteringB.ts:184-239 | the output length is the number of significant entries plus the number of boring runs |
| Compression.KeptKeepsSignificant | src/lib/clusteringB.ts:184-239 | the first timestamp and every non-boring timestamp are emitted; only repeats inside a boring run are dropped |
| Compression.BlankRowsNeverAdjacent | src/lib/clusteringB.ts:194-225 | two blanked rows are never adjacent in the output |
| Compression.LastKeptNotBoring | src/lib/clusteringB.ts:194-238 | the row the last step emits after a blanked row is significant |
| Compression.DroppedAfterLast | src/lib/clusteringB.ts:194-225 | every index after the last emitted one is boring, so it was dropped as part of a run |
| Compression.Emit | src/lib/clusteringB.ts:194-236 | a group's output has one row per emitted index: blanked if boring, the original row otherwise |
| Compression.PushEach | src/lib/clusteringB.ts:200-236 | one step pushes the row for that index onto every group |
| Compression.Compress | src/lib/clusteringB.ts:165-241 | every group is rewritten to the rows of the emitted indices of the shared timestamps, with boring rows blanked in the group's dimensions |
| Compression.CompressKeepsFirstColumns | src/lib/clusteringB.ts:206-221 | the compressed groups' first rows have the same columns as before |
| Compression.CompressAligned | src/lib/clusteringB.ts:184-239 | the compressed groups stay aligned: each has one row per emitted index, carrying group 0's timestamp at that index |
| Aggregator.OwnerFrom | src/lib/clusteringB.ts:252 | `findIndex` from `from`: the first group at or after `from` whose first row holds the dimension, and -1 iff there is none |
| Aggregator.ColumnOwner | src/lib/clusteringB.ts:252 | the first group whose first row holds the dimension, and -1 iff no group's first row holds it |
| Aggregator.ColsAccordingToAggregation | src/lib/clusteringB.ts:249-254 | one `[dimension, owner]` pair per dimension, in order (with empty groups skipped, see Findings) |
| Aggregator.OwnersOfPartition | src/lib/clusteringB.ts:249-254 | when the groups' first rows partition the dimensions, every dimension has a valid owner, and no other group holds it |
| Aggregator.OwnerFromAsWritten | src/lib/clusteringB.ts:252 | the search as written, `Object.keys(entries[0])` with no fallback: when it returns, it returns the corrected owner; when it throws, some group from `from` on is empty |
| Aggregator.OwnerFromAsWrittenThrows | src/lib/clusteringB.ts:252 | the search as written throws iff it meets an empty group before any group that holds the dimension; otherwise it agrees with `OwnerFrom` |
| Aggregator.OwnerFromAsWrittenAgrees | src/lib/clusteringB.ts:252 | without empty groups the search as written finds the corrected owner |
| Aggregator.ColsAsWritten | src/lib/clusteringB.ts:249-254 | `colsAccordingToAggregation` as written: when it does not throw, it is exactly the corrected table `ColsAccordingToAggregation` |
| Aggregator.ColsAsWrittenThrows | src/lib/clusteringB.ts:249-254 | the pairs as written throw iff the search for some dimension throws |
| Aggregator.ColsAsWrittenAgrees | src/lib/clusteringB.ts:249-254 | without empty groups, the code as written gives the corrected pairs |
| Aggregator.EmptyGroupsThrow | src/lib/clusteringB.ts:249-254 | a grouping of only empty groups throws as written whenever there is a dimension, while the corrected owners are all -1 |
| Aggregator.SingleEmptyGroupThrows | src/lib/clusteringB.ts:249-254 | `[[]]` with dimension `a` throws as written, and the corrected pairs are `[["a", -1]]` |
| Aggregator.DomainOf | src/lib/clusteringB.ts:263-265 | `[Math.min(...v), Math.max(...v)]` is the empty domain iff there are no values |
| Aggregator.DomainOfBounds | src/lib/clusteringB.ts:263-265 | the domain is NaN iff some value is undefined; otherwise both bounds are among the values and bound every value |
| Aggregator.RowValues | src/lib/clusteringB.ts:258-260 | a row's non-timestamp values, one per column, in column order |
| Aggregator.AllValuesMember | src/lib/clusteringB.ts:257-261 | a value is collected iff some row has it under some non-timestamp column |
| Aggregator.UniformDomain | src/lib/clusteringB.ts:257-265 | for a non-empty window of fully defined rows with columns, the domain is an ordered interval containing every cell |
| Aggregator.GroupWindow | src/lib/clusteringB.ts:71-124 | the grouping dispatch: truthy `eps` gives the density groups of the window's DBSCAN clusters, as `DensityGroups` states them; otherwise truthy `clusterCount` gives the ranked clustering; otherwise the window is the only group; groups are always aligned, and an empty window gives only empty groups |
| Aggregator.GroupedNonEmpty | src/lib/clusteringB.ts:71-124 | for a non-empty window every group has rows, under every grouping strategy |
| Aggregator.BoringLists | src/lib/clusteringB.ts:137-157 | each group's boring timestamps, computed from the group and its first row's columns |
| Aggregator.BoringCompression | src/lib/clusteringB.ts:129-243 | compression is off unless the mode is `standard` and both `meanRange` and `tickRange` are truthy; when on, `common` holds exactly the timestamps boring in every group; with none the groups are unchanged, otherwise every group is compressed; the groups stay aligned with unchanged first-row columns |
| Aggregator.CompressedNonEmpty | src/lib/clusteringB.ts:129-243 | compression never empties a group: the first index is always kept |
| Aggregator.AggregatedAgrees | src/lib/clusteringB.ts:249-254 | after grouping and compressing a non-empty window, the owner search as written finds an owner or -1 for every dimension without throwing, and agrees with the corrected one |
| Aggregator.AggregatorB | src/lib/clusteringB.ts:54-268 | the window is grouped by the dispatch of lines 71-124 (the density groups of its DBSCAN clusters, the ranked clustering, or the window alone), then compressed as `BoringCompression` states: unchanged unless compression is enabled and some timestamp is boring in every group, otherwise every group keeps the rows of the emitted indices, with boring ones blanked; the result is aligned with unchanged first-row columns; `yDomain` is the domain of the window's values; `cols` are the corrected owners; with `eps` and a non-empty window every dimension is paired with the cluster whose names hold it; an empty window gives only empty groups, on which the search as written throws whenever there is a dimension and a group, while on a non-empty window every group keeps rows and the search as written returns exactly `cols` |
| OverTime.ContextWindow | src/lib/clusteringOverTime.ts:32-34 | the context window is `dataTicks` when truthy, else 20 |
| OverTime.FirstView | src/lib/clusteringOverTime.ts:36-44 | rows below the context window are skipped: the first view is at `max(w, 0)`, or none when that reaches the end |
| OverTime.ViewWindow | src/lib/clusteringOverTime.ts:48-49 | the rows clustered for row `i` are the `w` rows just before it, and none for a negative window |
| OverTime.ViewAt | src/lib/clusteringOverTime.ts:45-63 | the view for row `i` carries its timestamp and one pair per dimension, in order; with `eps`, the returned clusters satisfy everything `Density.Cluster` states for the series of the rows before `i`, and every dimension is paired with the cluster whose series bears its name, or with -1 when there are no such rows; otherwise the pairs are those of the count groups, or of the window as a single group; the pairs are the corrected ones, and under density or no strategy the search as written throws on the same groups when the rows before `i` are empty, and returns exactly the view's pairs otherwise |
| OverTime.ClusteringOverTime | src/lib/clusteringOverTime.ts:21-67 | one view per row from the first view on, in row order, each the view for its row together with the DBSCAN clusters behind it |
| Highlighting.FindFirst | src/lib/highlighting.ts:46-48 | `find(...)?.[1]` is `undefined` iff no entry has the dimension, and otherwise the group of the first entry that has it |
| Highlighting.DifferingDiffer | src/lib/highlighting.ts:52-69 | none of the collected past groups equals the current group |
| Highlighting.DifferingCount | src/lib/highlighting.ts:52-69 | no past group differs iff every history entry agrees with the current group, and all differ iff none agrees |
| Highlighting.LatchFirstTruthy | src/lib/highlighting.ts:65-67 | `lastDimension` is the first truthy differing group; with none truthy, it is the last differing group (or `undefined`) |
| Highlighting.Share | src/lib/highlighting.ts:71-74 | the opacity `count / history length` lies in (0, 1] and is 1 iff every entry differs |
| Highlighting.HighlightOfMeaning | src/lib/highlighting.ts:44-76 | a dimension is highlighted iff some history entry differs from its current group; then the opacity is the share of differing entries, in (0, 1], and 1 iff all differ; `lastDimension` is the latch of the differing groups |
| Highlighting.HighlightsExact | src/lib/highlighting.ts:44-76 | a group's list holds exactly its highlighted dimensions, each with its own highlight; empty history highlights nothing |
| Highlighting.CountDifferences | src/lib/highlighting.ts:50-69 | the history loop counts the differing past groups and latches `lastDimension` |
| Highlighting.HighlightCluster | src/lib/highlighting.ts:44-76 | the dimension loop yields the group's highlights |
| Highlighting.Highlighter | src/lib/highlighting.ts:6-82 | one list per group, in order, each the highlights of its first row's columns |
| DeepMerge.Lookup | src/lib/utils.ts:16-18 | `obj[key]` is `undefined` iff the key is absent |
| DeepMerge.PutStores | src/lib/utils.ts:17-21 | `result[key] = v` stores `v` under `key` and changes no other key; an existing key keeps its place and a new key goes last |
| DeepMerge.MergeUpToKeys | src/lib/utils.ts:15-23 | after the first `n` keys of `obj2`, the result has the keys of both objects, keeps `obj1`'s values for keys not yet merged, keeps `obj1`'s keys first in order, and keeps keys distinct |
| DeepMerge.Merge | src/lib/utils.ts:8-25 | `deepMerge` gives `obj1` back for an empty `obj2`; its keys are exactly those of the two objects, with `obj1`'s first and in their order |
| DeepMerge.MergeKeys | src/lib/utils.ts:8-25 | `deepMerge` has the keys of both objects, `obj1`'s first and in order; a key missing from `obj2` keeps `obj1`'s value; an empty `obj2` gives `obj1` back |
| DeepMerge.MergeAt | src/lib/utils.ts:16-22 | for a key of `obj2`: two arrays are concatenated, an object merges recursively into the object there, and anything else (or a new key) takes `obj2`'s value |
| DeepMerge.MergeLast | src/lib/utils.ts:15-23 | right after the loop handles a key of `obj2`, that key holds the concatenated arrays, the recursively merged object, or `obj2`'s value |

## Left out

- Floating point: numbers are exact reals. Rounding, `-0` and overflow to `Infinity` are not modelled. `Math.sqrt` is replaced by comparing the squared sum with `eps * eps`, and `Density.WithinIsRootComparison` proves that this decides the same comparison.
- The identical private copy of `clusteringDBSCAN` in src/lib/clusteringB.ts:331-411 is modelled once, as `Density.Cluster`.
- DBSCAN clusters are lists of point indices. The source pushes `values[index]`; the callers map the indices back through `Pick`.
- `findBoringTimestamps` (src/lib/wrapping.ts does not contain it) and `clusteringByCount` are imported from modules outside this model, so they are passed in as parameters.
- `alert` and `console.count` are side effects. The alert condition is returned as a value and proved never to hold.
- `commonBoringData.sort()` converts numbers to strings before comparing. It is left out because the list is only read with `includes`, so its order does not matter.
- The "saveScreenSpace" TODOs do nothing in the code.
- `String(timestamp)` and the `"timestamp" in row` fallback of clusteringOverTime.ts:51-54: timestamps are kept as numbers, and every row has one.
- Fractional settings and timestamps: `dataTicks`, `clusterCount`, `tickRange` and timestamps are integers here, while the source accepts any number. A fractional `dataTicks` is truncated by `slice` (`slice(-2.5)` keeps the last 2 rows, and in `clusteringOverTime` it skips rows 0 to 2 and keeps 3 rows before each view). A fractional `clusterCount` makes `Array.from` truncate the number of groups while `Math.ceil` sizes the slices, so trailing columns can be dropped (2.5 groups of 5 columns give 2 groups of 2). None of this is covered.
- The settings union's `"eps" in settings` tests: a setting is present or absent, and only truthiness is modelled.
- Aggregator.AggregatorB: requires every row to hold the same columns, with defined values (`Uniform`), the dimensions to be distinct, and no dimension to be named `timestamp`. The callers build their data this way. The source runs on other data too, with results that depend on JavaScript coercions.
- Aggregator.AggregatorB: computes `cols` with the corrected owner search (`Aggregator.ColsAccordingToAggregation`, see Findings). On an empty window with at least one dimension and one group, the source throws a `TypeError` at clusteringB.ts:252 instead. The contract states that throw through `Aggregator.ColsAsWritten`, but the returned `cols` are the intended `-1` pairs.
- ClusteringData.DensityGroups: requires distinct dimensions, none named `timestamp`. With a repeated dimension the source builds a series twice, and a `timestamp` dimension collides with the row key.
- CountClustering.RankedClustering: requires well-formed rows and `Rankable`: every column of the first record has a numeric value in the last record. Otherwise the sort comparator returns `NaN`, and the order JavaScript's sort then produces is implementation-defined.
- ClusteringData.Group: requires distinct dimensions, none named `timestamp`, for the same reason.
- OverTime.ClusteringOverTime: the same requirement on the dimensions. A count grouping is only stated as "the pairs of `clusteringByCount`'s groups".
- OverTime.ViewAt: pairs the dimensions by the corrected owner search, as `Aggregator.AggregatorB` does. When the rows before row `i` are empty (a negative `dataTicks`), the source throws at clusteringOverTime.ts:60 for density or no strategy. The contract states that throw through `Aggregator.ColsAsWritten`, and the model goes on with `-1` pairs. `OverTime.ClusteringOverTime` inherits this: where the source stops at the first such row, the model returns a view for every row.
- Records.Assign: a new key always goes last. JavaScript lists integer-like keys (canonical array indices such as `"2020"`) before the others, in ascending order. Column names of that form would therefore be ordered differently, and so would the count slices of src/lib/clustering.ts:18 and src/lib/clusteringB.ts:287 and the ties of the ranked sort. Dimension names are assumed not to be array indices.
- Records.BuildRow: the columns come out in the order of the names, for the same reason. Array-index dimension names are not reordered.
- DeepMerge.Merge: requires a value of `obj2` that is an array or an object to meet a value of the same kind in `obj1`, when `obj1` has the key. The other pairings go through JavaScript coercions that are not modelled: spreading a string or an array into an object, or `key in` on a primitive. Inherited keys reached by `for … in` are not modelled either.
- DeepMerge.Merge: keys are kept in insertion order. JavaScript's rule that integer-like keys come first is not applied to settings objects.
- `cn` in src/lib/utils.ts wraps two styling libraries and is not part of this model.
- Aggregator.DomainOf: an empty domain and a NaN domain are datatype cases, not the numbers `[Infinity, -Infinity]` and `NaN`.

## Findings

| source | as written | input that shows it | evidently intended | confidence | as-written member | corrected member |
|---|---|---|---|---|---|---|
| src/lib/clusteringB.ts:249-254 | `Object.keys(entries[0])` throws a `TypeError` when a group is empty | a window of no rows (no rows at all, or `dataTicks` with `-dataTicks` at least the row count) and no grouping strategy gives `aggregated = [[]]`; with `dimensions = ["a"]` the call throws | skip empty groups, as line 144 of the same file does with `cluster[0] \|\| {}`: `[["a", -1]]` | not executed | Aggregator.ColsAsWritten, shown by Aggregator.SingleEmptyGroupThrows | Aggregator.ColsAccordingToAggregation |
| src/lib/clusteringOverTime.ts:58-61 | the same `Object.keys(entries[0])` on the grouping of the context window | `dataTicks = -1` makes every row's context window `slice(i + 1, i)`, which is empty; with `dimensions = ["a"]` and no grouping strategy the grouping is `[[]]`, and the first row already throws | the pairs of the corrected search, with -1 for a dimension no group holds | not executed | Aggregator.OwnerFromAsWritten, shown by Aggregator.EmptyGroupsThrow | Aggregator.ColumnOwner |
