# polioxxo in Dafny

A Dafny model of the data-processing core of polioxxo, a pipeline that assigns
the OXXO convenience stores of Mexico City to their borough (alcaldía) and to
their local electoral district, counts them per region, and joins the counts
with electoral results.

## What is modelled

The pipeline is modelled as the scripts write it: tables of rows whose cells
are nullable strings, a geometry per row, and the pandas/geopandas operations
the scripts use (`dropna`, `groupby(...).size()`, `nunique`, `count`,
`merge(how='left')`, `idxmin`, masked `.loc` writes).

- **Borough assignment** (`assign_oxxos_to_alcaldias`). The engine has three stages:
  1. a buffered spatial join, with a 1000 m buffer;
  2. nearest-centroid assignment for the stores still unassigned, where `idxmin` breaks ties toward the first borough;
  3. a forced assignment of whatever is left to the first borough.

  `AssignAlcaldias` is the function that specifies the whole operation.

  `AssignOxxosToAlcaldias` is the imperative version. It fills the `alcaldia` column, an array, cell by cell through three loops: `AssignByJoin`, `AssignByProximity` and `AssignByForce`. Its postcondition is equality with `AssignAlcaldias`.
- **District assignment** (`assign_oxxos_to_districts`). This is the two-stage variant, with a 500 m buffer and no forcing stage. It writes `distrito` and `diputado_ganador` together from one district row.
  - The function `AssignDistricts` is its specification.
  - The method `AssignOxxosToDistricts` fills two arrays through `CopyJoinResults` and `DistrictsByProximity`.
- **Loading**:
  - borough-name normalisation (upper case, then strip) with its column priority;
  - store defaults: the name `OXXO` and the first address column present, followed by the validity filter;
  - the electoral dictionary converted to rows.
- **Counting and merging**:
  - `calculate_statistics`;
  - `combine_all_data`, which left-joins the electoral rows and the counts, then fills the gaps;
  - the per-district and per-borough tables of `analyze_districts_vs_alcaldias`.
- **Synthetic data**:
  - the 24-entry district dictionary of `create_electoral_districts`;
  - the rectangle layer of `create_synthetic_districts`, with the listed ring for each key and a default ring otherwise. The rings are scaled to integers in thousandths of a degree.
- **Utilities**:
  - `validate_geometry`, an in-place masked repair of an array;
  - `ensure_same_crs`, a conditional conversion of two layers.

Geometry is abstract:
- A store location is `Option<Coord>` with integer coordinates.
- A region geometry is a type parameter `G`.
- The buffered-intersection test is a parameter `inBuffer(p, g, distance)`, and the centroid is a parameter `centroid(g)`.
- Distance is squared Euclidean distance. It has the same arg-min as Euclidean distance.

Axis-aligned rectangles (`Spatial.Rect`) supply concrete values for these parameters. A six-store example is worked through the borough engine and the statistics with them, and a three-store example through the district engine.

When a point lies in several buffers, the spatial join produces duplicate index labels, and the copy loop's `.loc` read on those is not a stable choice. The model fixes a policy: the first region in table order whose buffer contains the point and whose name is not null.

Each engine is a deterministic function of its inputs, so running it twice on the same inputs gives the same table.

## Model

| member | source | states |
|---|---|---|
| Spatial.ArgMin | scripts/process_data.py:270-271 | the result is the first position of a minimum distance (`idxmin`'s tie rule) |
| Spatial.FirstMinUnique | scripts/process_data.py:271 | the first minimum is unique, so `idxmin` has exactly one answer |
| Spatial.First | scripts/process_data.py:244-248 | the first position satisfying a test, and no earlier one does; None exactly when none does (the duplicate-match policy of the join copy) |
| Spatial.InRectIsInBuffer | scripts/analyze_districts.py:120 | a point inside a rectangle is inside its buffer, and a buffer grows with its distance |
| Spatial.Center | scripts/analyze_districts.py:151-152 | a rectangle's centroid is equidistant from opposite sides when the corner sums are even |
| Tables.Distances | scripts/process_data.py:270 | one distance per region, in table order |
| Tables.WithColumn | scripts/process_data.py:230 | writing a column sets exactly that column's cells and leaves geometry and every other cell alone |
| Tables.Present | scripts/process_data.py:326 | `dropna` keeps exactly the non-null values, as many as there are |
| Tables.NumPresentFull | scripts/process_data.py:333 | non-null count is at most the length, and equal to it exactly when nothing is null |
| Tables.NumPresentSame | scripts/analyze_districts.py:200 | two columns null on the same rows have the same non-null count |
| Tables.CountPositive | scripts/process_data.py:329 | a value is counted a positive number of times exactly when it occurs |
| Tables.CountPresent | scripts/process_data.py:326-329 | dropping nulls does not change the count of any value |
| Tables.Distinct | scripts/process_data.py:329 | the groups of `groupby` have no duplicates and are exactly the values that occur |
| Tables.DistinctSize | scripts/analyze_districts.py:208 | the number of groups is the size of the set of values (`nunique`) |
| Tables.DistinctNoLonger | scripts/analyze_districts.py:208 | there are never more groups than values |
| Tables.DistinctCountsSum | scripts/process_data.py:329 | the group sizes add up to the number of values |
| Tables.Matches | scripts/process_data.py:362-366 | the right rows a left key matches are exactly those carrying that key |
| Tables.LeftJoinKeepsLeft | scripts/process_data.py:362-373 | a left merge loses no left row and invents none |
| Tables.LeftJoinUnique | scripts/process_data.py:362-373 | with unique right keys the merge has one row per left row, in order, partnered exactly when some right row carries its key |
| Tables.LeftJoinLookup | scripts/process_data.py:362-373 | with unique right keys, row i's partner is the right row carrying its key, or nothing when none does |
| Tables.MatchesAtMostOne | scripts/process_data.py:362-366 | a unique right key matches at most once |
| Tables.NoMatches | scripts/process_data.py:362-366 | a key no right row carries matches nothing |
| Utils.AllValidUnchanged | scripts/utils.py:49-54 | when the valid count equals the row count every geometry is valid and the repair changes nothing |
| Utils.RepairKeepsValid | scripts/utils.py:56-60 | the repair keeps the row count and never lowers the valid count |
| Utils.ValidateGeometry | scripts/utils.py:42-62 | the array afterwards holds the repair of exactly the invalid geometries, every valid one unchanged, nothing dropped |
| Utils.RepairTable | scripts/utils.py:56 | repairing a table replaces the geometry column by its repair and keeps all other cells and the row count |
| Utils.EnsureSameCrs | scripts/utils.py:32-40 | both layers end in the target system with their sizes kept; a layer already there is returned as it is; fails exactly when a layer has no system |
| Utils.ElectoralDistrictsKeys | scripts/utils.py:145-173 | the table has 24 entries keyed DISTRITO_01 to DISTRITO_24 in order, pairwise distinct |
| Utils.DistrictKeyInjective | scripts/utils.py:145-173 | different district numbers give different keys |
| ProcessData.StripLeft | scripts/process_data.py:57 | removes exactly the leading whitespace |
| ProcessData.StripRight | scripts/process_data.py:57 | removes exactly the trailing whitespace |
| ProcessData.Strip | scripts/process_data.py:57 | the result is a contiguous middle part of the string, everything cut off on either side is whitespace, the result neither starts nor ends with whitespace, and a string already stripped is unchanged |
| ProcessData.CleanIdempotent | scripts/process_data.py:57-61 | upper-casing and stripping twice is the same as once |
| ProcessData.CleanFixes | scripts/process_data.py:57-61 | an upper-case stripped name is its own normal form |
| ProcessData.CleanCellIdempotent | scripts/process_data.py:57-61 | normalising a nullable cell twice is the same as once |
| ProcessData.FirstPresent | scripts/process_data.py:106-112 | whenever candidate k is a column and no earlier candidate is, the result is candidate k; the result is always a column; none exactly when no candidate is a column (an `if`/`elif` chain over column names) |
| ProcessData.NameSource | scripts/process_data.py:56-64 | `nomgeo` whenever present; else `nombre` whenever present; else `alcaldia`; none exactly when none of the three is present |
| ProcessData.LoadAlcaldias | scripts/process_data.py:30-67 | fails exactly on an empty layer or with no name column; otherwise repairs geometries, writes `alcaldia` as the normalised name column and keeps all other cells |
| ProcessData.LoadedNamesAreClean | scripts/process_data.py:56-61 | every loaded borough name is already normalised |
| ProcessData.AddressSource | scripts/process_data.py:106-112 | `direccion` whenever present; else `addr:street` whenever present; else `addr_street`; none exactly when none of the three is present |
| ProcessData.WithDefaults | scripts/process_data.py:100-120 | each store gets its name or `OXXO`, and its address or the empty string, every other cell unchanged |
| ProcessData.ValidPositionsExact | scripts/process_data.py:123 | the listed positions are strictly increasing and each holds a row with a valid geometry |
| ProcessData.ValidPositionsComplete | scripts/process_data.py:123 | the position of every row with a valid geometry is listed |
| ProcessData.KeepValid | scripts/process_data.py:123 | the j-th kept row is the row at the j-th valid position, so the valid rows are kept in order and with their multiplicity; all rows are kept when all are valid |
| ProcessData.KeepValidMembers | scripts/process_data.py:123 | a row is kept exactly when it is a row of the table with a valid geometry |
| ProcessData.LoadOxxos | scripts/process_data.py:73-130 | fails exactly on an empty file; adds `name` and `direccion`; never adds rows |
| ProcessData.LoadOxxosKeepsValid | scripts/process_data.py:100-123 | every loaded store is valid and has a name and an address, and a store survives exactly when its repaired geometry is valid |
| ProcessData.LoadElectoralData | scripts/process_data.py:140-168 | one row per dictionary entry, in order, with its party, votes and percentage |
| ProcessData.ElectoralKeysDistinct | scripts/process_data.py:140-157 | 16 boroughs, pairwise distinct |
| ProcessData.EngineNames | scripts/process_data.py:212-225 | name i is the cleaned `nomgeo` cell of row i when that column exists; else the cleaned `alcaldia` cell; else the i-th of the 16 real names; fails exactly when neither column exists and there are more rows than real names |
| ProcessData.Assignment | scripts/process_data.py:236-282 | one assigned value per store |
| ProcessData.Annotated | scripts/process_data.py:206-282 | writes `alcaldia`, adds `nomgeo` as null when absent, keeps geometry, row order and every other cell |
| ProcessData.AssignAlcaldias | scripts/process_data.py:182-315 | on success every store has a non-null borough, with its rows, order, geometry and other cells kept |
| ProcessData.AssignOxxosToAlcaldias | scripts/process_data.py:182-315 | the imperative engine returns exactly `AssignAlcaldias` |
| ProcessData.AssignByJoin | scripts/process_data.py:234-248 | after the join stage each cell holds the first matching borough's name, or null |
| ProcessData.AssignByProximity | scripts/process_data.py:257-275 | only null cells are revisited; each gets the nearest centroid's name or the first name when the lookup raises; it fails exactly when there are no boroughs and some store has a location |
| ProcessData.AssignByForce | scripts/process_data.py:277-282 | fills the remaining nulls with the first name, giving the final assignment |
| ProcessData.LoadedLayerNamesAgree | scripts/process_data.py:212-216 | on a loaded borough layer the engine's recomputed names are the loaded names |
| ProcessData.AssignFailsExactly | scripts/process_data.py:212-305 | returns None exactly when the names cannot be built, there are no boroughs for some stores, or a null first name leaves a store unassigned |
| ProcessData.JoinResultKept | scripts/process_data.py:244-266 | a store matched by the join keeps that borough; the later stages do not overwrite it |
| ProcessData.ContainedPointAssigned | scripts/process_data.py:210-248 | a store inside a borough, with no earlier buffer containing it, is assigned that borough |
| ProcessData.NearestCentroidAssigned | scripts/process_data.py:263-272 | an unmatched store gets the first nearest centroid's borough |
| ProcessData.FallbackToFirstBorough | scripts/process_data.py:269-282 | a store without a location, or whose lookup raised, gets the first borough's name |
| ProcessData.AssignedNamesFromLayer | scripts/process_data.py:248-281 | every assigned value is a name from the borough table |
| ProcessData.CalculateStatistics | scripts/process_data.py:317-344 | fails exactly without an `alcaldia` column; the address count is present exactly when `direccion` is |
| ProcessData.StatisticsGroups | scripts/process_data.py:326-329 | one row per borough that occurs, each once, with its store count, never zero; boroughs with no stores are absent |
| ProcessData.StatisticsTotal | scripts/process_data.py:326-329 | the counts add up to the number of stores with a borough |
| ProcessData.AddressCountBound | scripts/process_data.py:333 | a borough's address count is at most its store count, and equal when no address is null |
| ProcessData.StatisticsAddresses | scripts/process_data.py:332-335 | every address count is present and at most the store count, equal when no address is null |
| ProcessData.StatisticsEntry | scripts/process_data.py:329-335 | each statistics row holds its borough's store and address counts |
| ProcessData.AssignedStoresAllCounted | scripts/process_data.py:326-329 | after a successful assignment the counts add up to the number of stores |
| ProcessData.PipelineAddressesComplete | scripts/process_data.py:326-335 | through load, assignment and counting, every borough's address count equals its store count |
| ProcessData.MergeKey | scripts/process_data.py:357-359 | joins on `alcaldia` whenever it exists, else on `nomgeo`; none exactly when neither exists |
| ProcessData.CombineAllData | scripts/process_data.py:346-389 | fails exactly without a join key; the density equals the store count |
| ProcessData.CombineOneRowPerBorough | scripts/process_data.py:355-382 | with unique keys, one row per borough in order; each row carries the matching electoral and count values, or `Sin datos`, 0 and 0 when none matches |
| ProcessData.CombineKeepsBoroughs | scripts/process_data.py:362-373 | whatever the keys, every borough survives the merge and no row is invented |
| ProcessData.ExampleEngineNames | scripts/process_data.py:213-214 | on the example layer the engine names are the normalised `nomgeo` names |
| ProcessData.ExampleInside | scripts/process_data.py:236-248 | the example stores inside the first rectangle get TLALPAN |
| ProcessData.ExampleNearBorder | scripts/process_data.py:210-248 | a store 100 outside a rectangle, within the buffer, gets that borough |
| ProcessData.ExampleThird | scripts/process_data.py:236-248 | a store inside the third rectangle, outside the first two buffers, gets IZTAPALAPA |
| ProcessData.ExampleMissing | scripts/process_data.py:269-282 | the store with no location gets the first borough |
| ProcessData.ExampleFar | scripts/process_data.py:263-272 | a store outside every buffer gets the nearest centroid's borough |
| ProcessData.ExampleAssignment | scripts/process_data.py:182-315 | the whole example's `alcaldia` column |
| ProcessData.ExampleLabels | scripts/process_data.py:326 | the example column with nulls dropped |
| ProcessData.ExampleGroups | scripts/process_data.py:329 | the example's groups in order of first appearance: TLALPAN, COYOACAN, IZTAPALAPA |
| ProcessData.ExampleGroupSizes | scripts/process_data.py:329 | the example's group sizes: three, one and two |
| ProcessData.ExampleStatistics | scripts/process_data.py:326-329 | the statistics of the example's assignment: TLALPAN 3, COYOACAN 1, IZTAPALAPA 2 |
| AnalyzeDistricts.CreateSyntheticDistricts | scripts/analyze_districts.py:75-89 | one record per dictionary entry, in order, in EPSG:4326, each carrying that entry's values and its ring |
| AnalyzeDistricts.DistrictRingsAreSquares | scripts/analyze_districts.py:48-76 | every listed ring and the default ring is a square of side 50, listed from its lower-left corner counter-clockwise |
| AnalyzeDistricts.SyntheticDistrictsComplete | scripts/analyze_districts.py:48-89 | every key has a listed ring, so the default is never used; district i is DISTRITO_(i+1) with its listed square; keys are distinct |
| AnalyzeDistricts.DistrictTable | scripts/analyze_districts.py:119-126 | the layer as an engine table: one row per district with its key and deputy |
| AnalyzeDistricts.JoinedDistrict | scripts/analyze_districts.py:123-136 | the matched district is a row of the district table |
| AnalyzeDistricts.JoinedSeat | scripts/analyze_districts.py:123-136 | the join writes both columns exactly when it matched, and neither otherwise |
| AnalyzeDistricts.Seated | scripts/analyze_districts.py:114-116 | writes `distrito` and `diputado_ganador` and keeps geometry and every other cell |
| AnalyzeDistricts.AssignDistricts | scripts/analyze_districts.py:98-189 | on success the rows, order, geometry and other cells are kept, and each store holds its two-stage seat |
| AnalyzeDistricts.AssignOxxosToDistricts | scripts/analyze_districts.py:98-189 | the imperative engine returns exactly `AssignDistricts` |
| AnalyzeDistricts.CopyJoinResults | scripts/analyze_districts.py:132-136 | copies both columns from the join exactly where it matched |
| AnalyzeDistricts.DistrictsByProximity | scripts/analyze_districts.py:145-165 | revisits only unmatched stores; succeeds exactly when every store gets a seat, and then each holds it |
| AnalyzeDistricts.AssignDistrictsFailsExactly | scripts/analyze_districts.py:154-189 | returns None exactly when some store has a location and the district table is empty or lacks its columns |
| AnalyzeDistricts.SeatFromOneDistrict | scripts/analyze_districts.py:135-165 | a store without a location stays unassigned; otherwise both columns come from one district row |
| AnalyzeDistricts.UnassignedIffNoGeometry | scripts/analyze_districts.py:157-183 | with named districts, a store is left without a district exactly when it has no location |
| AnalyzeDistricts.DistrictJoinKept | scripts/analyze_districts.py:132-154 | a store matched by the join keeps that district |
| AnalyzeDistricts.NearestDistrictAssigned | scripts/analyze_districts.py:151-161 | an unmatched store gets the first nearest centroid's district |
| AnalyzeDistricts.ExampleDistrictGeometry | scripts/analyze_districts.py:120 | in a two-district example, which 500 m buffers the stores lie in and which centroid is nearest to the distant store |
| AnalyzeDistricts.ExampleDistrictAssignment | scripts/analyze_districts.py:98-189 | the example's stores get the first district by the join, no seat without a location, and the second district by the nearest centroid |
| AnalyzeDistricts.SyntheticLayerAssignsAll | scripts/analyze_districts.py:98-189 | against the synthetic layer the engine always succeeds, and leaves unassigned exactly the stores without a location |
| AnalyzeDistricts.Among | scripts/analyze_districts.py:207-210 | a borough group's cells: one per store of that borough, exactly its values |
| AnalyzeDistricts.AnalyzeDistrictsVsAlcaldias | scripts/analyze_districts.py:191-211 | fails exactly when `distrito`, `alcaldia` or `name` is missing; one borough row per borough that occurs |
| AnalyzeDistricts.DistrictCountsGroups | scripts/analyze_districts.py:200 | one row per district that occurs, each once, with its store count, never zero |
| AnalyzeDistricts.DistrictCountsTotal | scripts/analyze_districts.py:200 | the district counts add up to the number of stores with a district |
| AnalyzeDistricts.DistrictTotalIsLocated | scripts/analyze_districts.py:157-200 | after assignment against named districts, the counts add up to the number of stores with a location |
| AnalyzeDistricts.DistrictStatsMerged | scripts/analyze_districts.py:203-204 | with unique district keys, one row per district group, in order, with the record carrying its key or none |
| AnalyzeDistricts.AlcaldiaGroupsKeys | scripts/analyze_districts.py:207-211 | one row per borough that occurs, each once |
| AnalyzeDistricts.AlcaldiaGroupCounts | scripts/analyze_districts.py:207-211 | for each borough, `num_distritos` is the number of distinct districts among its stores, at most its store count; `num_oxxos_total` counts its named stores, all of them when none is null |

## Left out

- Logging, file I/O, report writing, the `main` functions and the map and chart scripts: they are outside the processing core.
- Reprojection and coordinate systems inside the engines. `to_crs` to EPSG:3857 or EPSG:6372 and its fallback are not modelled. Coordinates are taken as already projected. `ensure_same_crs` takes the transformation as a parameter.
- Shapely internals: the real `buffer`, `buffer(0)`, `is_valid`, `centroid` and `distance` are parameters. Real polygons are not modelled; only rectangles are given concrete geometry.
- Spatial.Center: the centroid of a rectangle is rounded down to the integer grid when a corner sum is odd; the source's centroid is exact. The example rectangles all have even corner sums.
- Floating point: `porcentaje` and `participacion` are integers in tenths of a percent, and the ring coordinates are in thousandths of a degree.
- The `astype(str)` retry of the address fill (scripts/process_data.py:117-118): filling nulls in a column of strings does not raise.
- Upper-casing maps ASCII `a`-`z` and the Latin-1 letters `à`-`þ` (except `÷`) to their capitals and leaves every other character alone. Python's full Unicode mapping also changes `ß`, `ÿ`, `µ` and letters beyond Latin-1.
- `groupby` sorts its keys; the model keeps groups in order of first appearance. Only the order of the output rows differs.
- Column-name collisions in the spatial join (suffixes such as `alcaldia_right` when the store table already has that column) are not modelled: the join reads the region's column.
- AnalyzeDistricts.AnalyzeDistrictsVsAlcaldias: the district records are typed, so the selection of five columns from `districts_data` (scripts/analyze_districts.py:203) cannot fail; the source fails there when one of them is missing.
- The partido analysis of `analyze_districts_vs_alcaldias` (scripts/analyze_districts.py:213-230) is left out: it is means and rounding of floats and log output.
- AnalyzeDistricts.DistrictTable: the layer-to-table conversion carries the key, borough and deputy columns only; the vote and turnout columns are not read by the engine.
- ProcessData.CombineOneRowPerBorough: stated for right tables keyed uniquely, which the electoral dictionary and the statistics are. With duplicate keys a borough fans out to several rows; only `CombineKeepsBoroughs` covers that case.
- ProcessData.CalculateStatistics: a borough with no stores is absent from the statistics. `combine_all_data` then fills its count with 0. Both behaviours are modelled; the model states no property that joins them.
- AnalyzeDistricts.AssignOxxosToDistricts: the duplicate-match policy, first district in table order with a non-null key, is a choice. When a store lies in two buffers the source's behaviour depends on pandas.
- ProcessData.AssignOxxosToAlcaldias: the same first-match policy applies to the borough join.
