# Hiking-track pipeline of the academic portfolio site — a Dafny model

The site is mostly static pages. This model covers only the part that
computes something: the hiking-track pipeline.

- **Track statistics** (`components/hiking/utils.ts`, module `TrackStats`).
  `parseGPX` starts from the points of a parsed GPX track. It derives a speed
  for each point: the distance from the previous point divided by the elapsed
  seconds, or 0 for the first point and when time did not move forward. It
  smooths those speeds with a 5-point moving average whose window is clipped
  at both ends. It also computes the duration, the start time, the file name
  (the last `/` segment of the URL) and the display name, which falls back
  to `"No.1"`.
- **Slippy-map tiles** (`scripts/generate-static-maps.js`, module
  `SlippyTiles`). `lon2tile` and its inverse `tile2lon` at zoom 15, over
  exact reals.
- **Static basemap batch** (`scripts/generate-static-maps.js`, module
  `StaticMaps`). This covers the retrying tile download, the tile grid, and
  the nested x/y loop that counts satellite successes and places each tile
  at its pixel offset. It also covers the 10% coverage floor, the
  skip-if-exists/`--force` rule and the batch loop, in which an exception in
  one file does not stop the rest. Tile servers are oracles answering each
  (x, y, attempt). The stitched image is the list of tiles placed on it.
  The generated files are two maps keyed by base name (class `MapStore`).
- **Manifest rebuild** (`scripts/update-hikes.cjs`, module `HikeManifest`).
  It keeps the directory entries that end in `.gpx` and sorts them in
  descending order.
- **Hike page** (`pages/GoFor2026.tsx`, module `HikePage`). The class
  `HikesPage` holds `hikes`, `selectedHike` and `loading`. `LoadHikes` loads
  every hike all-or-nothing, sorts them newest first and selects the first
  one. It clears `loading` on both the success and the failure path.
  `formatDuration` splits milliseconds into hours and minutes.

Times are integer milliseconds. Speeds, coordinates and distances are
reals. The haversine distance is a parameter `dist`; where a lemma needs it,
`dist` is required to be non-negative. `lat2tile`/`tile2lat` are parameters too
(`StaticMaps.Mercator`). `Wrappers.Option` stands for `null` and for a call
that threw. The `new Date()` that gives an empty track its start time is a
clock keyed by URL (`HikePage.Clock`): files load concurrently, and each
parse reads the clock when its own fetch resolved.

The 10% coverage floor is compared over exact reals. JavaScript multiplies by
the double nearest 0.1. For realistic tile counts that product is exactly
n/10 when n is a multiple of 10. Otherwise no whole success count lies
between the two values. So both comparisons reach the same decision.

## Model

| member | source | states |
|---|---|---|
| TrackStats.DerivePoints | components/hiking/utils.ts:39-53 | one derived point per track point, in order, with lat, lon and time copied unchanged and the speed of that index |
| TrackStats.FirstRawSpeedIsZero | components/hiking/utils.ts:40-41 | the first point's speed is 0 |
| TrackStats.RawSpeed | components/hiking/utils.ts:40-46 | a point's speed is non-zero only when it has a predecessor and time moved forward since it |
| TrackStats.ElapsedSeconds | components/hiking/utils.ts:44 | the time difference in seconds is positive exactly when the point is later than its predecessor |
| TrackStats.HopDistance | components/hiking/utils.ts:43 | no contract; `calculateDistance(prev, p)`, whose role in the speed is stated by `RawSpeedRecoversDistance` |
| TrackStats.RawSpeedRecoversDistance | components/hiking/utils.ts:41-46 | when time moved forward, speed × elapsed seconds is the distance from the previous point; otherwise the speed is 0 |
| TrackStats.RawSpeedNonNegative | components/hiking/utils.ts:40-46 | a non-negative distance never gives a negative speed |
| TrackStats.Window | components/hiking/utils.ts:57 | the averaging window of point i holds 1 to 5 points, i among them, from max(0,i−2) to min(n,i+3) |
| TrackStats.WindowStart | components/hiking/utils.ts:57 | `Math.max(0, i−2)`: at least both arguments and equal to one of them |
| TrackStats.WindowEnd | components/hiking/utils.ts:57 | `Math.min(n, i+3)`: at most both arguments and equal to one of them |
| TrackStats.Smooth | components/hiking/utils.ts:56-60 | smoothing keeps the length and every field except speed |
| TrackStats.MinSpeed | components/hiking/utils.ts:57-58 | the least speed of a window: a lower bound that some point attains |
| TrackStats.MaxSpeed | components/hiking/utils.ts:57-58 | the greatest speed of a window: an upper bound that some point attains |
| TrackStats.SpeedSumBounds | components/hiking/utils.ts:58 | a reduce-sum of speeds in [lo, hi] lies in [n·lo, n·hi] |
| TrackStats.SpeedSum | components/hiking/utils.ts:58 | no contract; the left-fold `reduce`, bounded by `SpeedSumBounds` |
| TrackStats.MeanSpeed | components/hiking/utils.ts:58 | no contract; the sum over the window length, bounded by `MeanWithinRange` |
| TrackStats.MeanWithinRange | components/hiking/utils.ts:58 | a window's mean lies between its least and greatest speed |
| TrackStats.SmoothedSpeedWithinWindow | components/hiking/utils.ts:57-58 | each smoothed speed is the mean of raw speeds max(0,i−2)..min(n,i+3)−1 (1 to 5 of them) and lies between their minimum and maximum |
| TrackStats.SmoothNonNegative | components/hiking/utils.ts:56-59 | smoothing non-negative speeds gives non-negative speeds |
| TrackStats.SmoothKeepsConstantSpeed | components/hiking/utils.ts:56-59 | a constant speed is left unchanged by smoothing |
| TrackStats.LastSegment | components/hiking/utils.ts:22 | the file name is a suffix of the URL without '/', and is the whole URL or follows a '/' (so a URL ending in '/' gives '') |
| TrackStats.LastSegmentOfPath | components/hiking/utils.ts:22 | a name without '/' appended to a directory is recovered exactly |
| TrackStats.HikeName | components/hiking/utils.ts:63 | the metadata name when present and non-empty, otherwise "No.1"; never empty |
| TrackStats.Duration | components/hiking/utils.ts:29-36 | a track of at most one point lasts 0 ms; a track whose times never go backwards has a non-negative duration |
| TrackStats.StartTime | components/hiking/utils.ts:30-34 | with points, start + duration is the last point's time; with none, the start is the clock's `new Date()` |
| TrackStats.ParseGpx | components/hiking/utils.ts:19-70 | one point per track point with position and time copied, a file name without '/', a non-empty name, the track's own total distance |
| TrackStats.DurationAndStart | components/hiking/utils.ts:29-36 | with points: duration = last − first time and start = first time (start + duration = last point's time), non-negative for non-decreasing times; without points: duration 0 and the supplied current time |
| TrackStats.ParsedSpeedsNonNegative | components/hiking/utils.ts:39-60 | every reported speed is non-negative when distances are |
| TrackStats.SinglePointTrack | components/hiking/utils.ts:32-58 | a one-point track has duration 0 and smoothed speed 0 |
| TrackStats.ThreePointScenario | components/hiking/utils.ts:39-59 | points at 0/10/20 s with two 10 m hops give raw speeds 0, 1, 1 m/s and smoothed speeds 2/3 m/s |
| SlippyTiles.Lon2TileMonotone | scripts/generate-static-maps.js:29-31 | lon2tile is monotone non-decreasing in the longitude |
| SlippyTiles.Lon2Tile | scripts/generate-static-maps.js:29-31 | the column is the whole part of the fractional tile coordinate: col ≤ (lon+180)/360·2^zoom < col+1 |
| SlippyTiles.Pow2 | scripts/generate-static-maps.js:30 | `Math.pow(2, zoom)` is at least 1 |
| SlippyTiles.TileCoord | scripts/generate-static-maps.js:30 | no contract; the fractional column `(lon+180)/360·2^zoom`, whose floor `Lon2Tile` brackets |
| SlippyTiles.Tile2Lon | scripts/generate-static-maps.js:158 | no contract; its properties are stated by `TileRoundTrip`, `TileBracketsLon` and `Tile2LonStrictlyIncreasing` |
| SlippyTiles.Tile2LonStrictlyIncreasing | scripts/generate-static-maps.js:158 | tile2lon is strictly increasing in the column |
| SlippyTiles.TileRoundTrip | scripts/generate-static-maps.js:29-31 | lon2tile(tile2lon(x)) = x |
| SlippyTiles.TileBracketsLon | scripts/generate-static-maps.js:29-31 | tile2lon(lon2tile(lon)) ≤ lon < tile2lon(lon2tile(lon)+1) |
| StaticMaps.DownloadSpec | scripts/generate-static-maps.js:37-58 | never more than `retries` attempts; a payload is the answer of the attempt it stopped at; null only after every attempt |
| StaticMaps.DownloadTile | scripts/generate-static-maps.js:37-58 | the retry loop returns what the attempt specification gives; it sleeps between attempts, never after the last |
| StaticMaps.DownloadReturnsFirstSuccess | scripts/generate-static-maps.js:37-58 | at most `retries` attempts; the payload of the first successful attempt; null exactly when every attempt failed, after all of them |
| StaticMaps.WestEdge | scripts/generate-static-maps.js:84-89 | no contract; `minLon - padding`, placed by `EdgesEnclose` |
| StaticMaps.EastEdge | scripts/generate-static-maps.js:85-90 | no contract; `maxLon + padding`, placed by `EdgesEnclose` |
| StaticMaps.EdgesEnclose | scripts/generate-static-maps.js:82-90 | every track longitude lies strictly between the padded west and east edges |
| StaticMaps.GridFor | scripts/generate-static-maps.js:79-92 | the padded bounding box always yields at least one column (xStart ≤ xEnd) |
| StaticMaps.Lats | scripts/generate-static-maps.js:79 | one latitude per track point, in order |
| StaticMaps.Lons | scripts/generate-static-maps.js:80 | one longitude per track point, in order |
| StaticMaps.Columns | scripts/generate-static-maps.js:94 | no contract; `xEnd − xStart + 1`, used by `GridMetadata` and `GeneratedImageFacts` |
| StaticMaps.Rows | scripts/generate-static-maps.js:95 | no contract; `yEnd − yStart + 1`, used by `GeneratedImageFacts` |
| StaticMaps.Width | scripts/generate-static-maps.js:94 | no contract; `(xEnd − xStart + 1)·256`; `GridMetadata` records it as the metadata's width, and `GeneratedImageFacts` states that a saved canvas has the same width, a positive multiple of 256 |
| StaticMaps.Height | scripts/generate-static-maps.js:95 | no contract; `(yEnd − yStart + 1)·256`; `GridMetadata` records it as the metadata's height, and `GeneratedImageFacts` states that a saved canvas has the same height, a positive multiple of 256 |
| StaticMaps.TotalTiles | scripts/generate-static-maps.js:106 | no contract; columns × rows, bounding the compositions in `CompositionsAtMostTotalTiles` |
| StaticMaps.GridCoversTrackLongitudes | scripts/generate-static-maps.js:79-90 | the grid has at least one column, and its edges strictly enclose every longitude of the track |
| StaticMaps.GridMetadata | scripts/generate-static-maps.js:164-173 | the metadata records the canvas size, and for a grid with a column minLon < maxLon and a positive width |
| StaticMaps.TooFewTiles | scripts/generate-static-maps.js:138 | `successCount < totalTiles * 0.1` holds exactly when 10 · successCount < totalTiles |
| StaticMaps.MapBase | scripts/generate-static-maps.js:62-63 | the base name is the file name unchanged or 4 characters shorter, and exactly the file name when `.gpx` occurs nowhere in it (which `.gpx` is taken out: `ReplaceFirstAtFirstMatch`) |
| StaticMaps.MapBaseOfGpxName | scripts/generate-static-maps.js:62-63 | for a name that holds no `.gpx`, `<name>.gpx` has base name `<name>`, so its map is `maps/<name>.jpg` and `maps/<name>.json` |
| StaticMaps.ReplaceFirst | scripts/generate-static-maps.js:62-63 | `String.prototype.replace` with a string pattern: the result is the input unchanged, or |pat|−|rep| characters shorter; which occurrence is exchanged is stated by `ReplaceFirstAtFirstMatch` and `ReplaceFirstWithoutMatch` |
| StaticMaps.ReplaceFirstAtFirstMatch | scripts/generate-static-maps.js:62-63 | when the pattern first occurs at k, the result is s[..k] + rep + s[k+|pat|..]: only the first occurrence is exchanged and everything around it is kept |
| StaticMaps.ReplaceFirstWithoutMatch | scripts/generate-static-maps.js:62-63 | when the pattern occurs nowhere, the string comes back unchanged |
| StaticMaps.ForceRequested | scripts/generate-static-maps.js:66 | no contract; its effect is stated by `ProcessGuarantees` and `SkipReadsNothing` |
| StaticMaps.Least | scripts/generate-static-maps.js:82-85 | `Math.min(...xs)`: a lower bound of every element that is itself an element |
| StaticMaps.Greatest | scripts/generate-static-maps.js:82-85 | `Math.max(...xs)`: an upper bound of every element that is itself an element |
| StaticMaps.AllComps | scripts/generate-static-maps.js:104-136 | the nested loop's specification, column by column and top to bottom within a column. It has no contract of its own (a size bound here slows the loop proof). `ComposeTiles` is proved equal to it, and the lemmas below state what it holds |
| StaticMaps.GridCompsMembers | scripts/generate-static-maps.js:108-134 | a composition is present exactly when it sits at a grid cell's offset, that cell's satellite tile arrived and its hillshade is that cell's download result |
| StaticMaps.TilePlacedIffSatelliteArrived | scripts/generate-static-maps.js:108-134 | cell (x, y) is placed at ((x−xStart)·256, (y−yStart)·256) exactly when its satellite download succeeded, and is blended exactly when its hillshade succeeded |
| StaticMaps.Placement | scripts/generate-static-maps.js:110-133 | no contract; the loop body for one cell, characterised by `TilePlacedIffSatelliteArrived` |
| StaticMaps.PlacementsInsideCanvas | scripts/generate-static-maps.js:108-114 | 0 ≤ left ≤ width−256 and 0 ≤ top ≤ height−256, both multiples of 256 |
| StaticMaps.CompositionsAtMostTotalTiles | scripts/generate-static-maps.js:104-136 | there are never more compositions than totalTiles = columns × rows |
| StaticMaps.EachCellComposedOnce | scripts/generate-static-maps.js:108-136 | compositions come column by column, top to bottom, so no cell is composed twice |
| StaticMaps.ComposeTiles | scripts/generate-static-maps.js:104-136 | the loop's compositions are the grid's; successCount = number of compositions; hillshade is requested once per composition, only for cells whose satellite tile arrived, and request k is the cell whose pixel offset composition k carries |
| StaticMaps.ComposeColumn | scripts/generate-static-maps.js:105-135 | one pass of the inner y loop appends exactly column x's compositions, counts them, and keeps every request matched with its composition's cell |
| StaticMaps.GenerateSpec | scripts/generate-static-maps.js:94-177 | a step adds the base name to both the image and the metadata keys when it generates, and no key otherwise; below 10% coverage nothing is saved, and a canvas of non-positive width or height fails |
| StaticMaps.ProcessSpec | scripts/generate-static-maps.js:60-177 | processing one file adds its base name to both key sets exactly when it generates a map, and touches no other key |
| StaticMaps.Generate | scripts/generate-static-maps.js:94-175 | the store ends as `GenerateSpec` says: below 10% coverage nothing is written; a canvas of non-positive width or height fails (the image library throws) and nothing is written; otherwise the image and the metadata are written under the map's base name |
| StaticMaps.MapStore.constructor | scripts/generate-static-maps.js:12 | the `maps` directory's images and metadata start as the given files |
| StaticMaps.ProcessGpx | scripts/generate-static-maps.js:60-177 | processGPX as its pure specification; a file is skipped exactly when its track is not read |
| StaticMaps.ProcessGuarantees | scripts/generate-static-maps.js:66-173 | skipped iff the map exists and --force is absent; nothing written unless generated |
| StaticMaps.SkipReadsNothing | scripts/generate-static-maps.js:66-71 | an existing map without `--force` gives Skipped with the files unchanged, whatever the track, projection and tile servers: nothing is read or downloaded |
| StaticMaps.GeneratedImageFacts | scripts/generate-static-maps.js:94-172 | a generated image has ≥ 10% of its tiles, never more than the grid holds, image and metadata of the same size (the grid's, multiples of 256), every tile inside the canvas |
| StaticMaps.GeneratedMapGuarantees | scripts/generate-static-maps.js:66-173 | a generated map came from a non-empty track, writes exactly its image and metadata, and its minLon < maxLon strictly enclose every longitude of the track |
| StaticMaps.ColumnsEnclose | scripts/generate-static-maps.js:79-90 | the columns of a west and an east edge are ordered and enclose every longitude strictly between the edges |
| StaticMaps.RegenerationIsSkipped | scripts/generate-static-maps.js:66-71 | after a map is generated, processing the file again without --force skips it and changes nothing |
| StaticMaps.Run | scripts/generate-static-maps.js:179-193 | no manifest: nothing happens; otherwise every file is processed in order as the batch specification says |
| StaticMaps.RunSpec | scripts/generate-static-maps.js:186-192 | the batch yields one outcome per manifest entry |
| StaticMaps.EveryFileProcessed | scripts/generate-static-maps.js:186-192 | file i's outcome is its processing on what files 0..i−1 left, whether or not they failed |
| StaticMaps.RunOnlyAdds | scripts/generate-static-maps.js:186-192 | a batch never removes a map, and each map it adds belongs to a manifest entry |
| HikeManifest.BelowTotal | scripts/update-hikes.cjs:10 | the comparison orders any two different names |
| HikeManifest.BelowIrreflexive | scripts/update-hikes.cjs:10 | no name sorts before itself |
| HikeManifest.BelowAsymmetric | scripts/update-hikes.cjs:10 | if a sorts before b, b does not sort before a |
| HikeManifest.BelowTransitive | scripts/update-hikes.cjs:10 | the comparison is transitive, so the sort order is well defined |
| HikeManifest.Below | scripts/update-hikes.cjs:10 | no contract; the order is stated by `BelowIrreflexive`, `BelowAsymmetric`, `BelowTransitive` and `BelowTotal` |
| HikeManifest.EndsWithGpx | scripts/update-hikes.cjs:9 | no contract; `file.endsWith('.gpx')`, whose use is stated by `GpxFiles` and `GpxFilesCounts` |
| HikeManifest.GpxFiles | scripts/update-hikes.cjs:9 | every kept entry ends with `.gpx` |
| HikeManifest.GpxFilesCounts | scripts/update-hikes.cjs:8-9 | the filter keeps each `.gpx` entry as often as it occurs and nothing else |
| HikeManifest.SortDescending | scripts/update-hikes.cjs:10 | the sort keeps the number of names (permutation and order: `SortFacts`) |
| HikeManifest.BuildManifest | scripts/update-hikes.cjs:8-10 | the manifest is in descending order and no longer than the directory listing |
| HikeManifest.SortFacts | scripts/update-hikes.cjs:10 | the sort returns a descending permutation of its input |
| HikeManifest.ManifestIsSortedGpxPermutation | scripts/update-hikes.cjs:8-10 | the manifest is a descending permutation of the `.gpx` entries |
| HikeManifest.RebuildIsIdempotent | scripts/update-hikes.cjs:8-10 | rebuilding from the manifest's own list returns it unchanged |
| HikeManifest.SuffixIsExact | scripts/update-hikes.cjs:9 | `a.gpx` is kept; `a.GPX`, `a.gpx.bak` and `gpx` are not |
| HikeManifest.ThreeFileScenario | scripts/update-hikes.cjs:8-10 | b.gpx, a.gpx, c.gpx (with a.GPX and a.gpx.bak) give c.gpx, b.gpx, a.gpx |
| HikePage.LoadAllIsAllOrNothing | pages/GoFor2026.tsx:35-37 | `Promise.all` succeeds exactly when every file parses |
| HikePage.LoadAll | pages/GoFor2026.tsx:35-37 | a successful `Promise.all` has one hike per file |
| HikePage.Parser | pages/GoFor2026.tsx:36 | no contract; the mapped callback `filename => parseGPX(...)`, used by `LoadAllKeepsNames` and `LoadResultFacts` |
| HikePage.LoadAllKeepsOrder | pages/GoFor2026.tsx:35-37 | hike i of a successful load is file i's parse |
| HikePage.ParseHikeKeepsName | pages/GoFor2026.tsx:36 | parsing `/data/hiking/<name>` reports `<name>` as the file name when it holds no '/' |
| HikePage.ParseHike | pages/GoFor2026.tsx:36 | no contract; `parseGPX('/data/hiking/' + filename)`, stated by `ParseHikeKeepsName` and `LoadAllKeepsNames` |
| HikePage.LoadAllKeepsNames | pages/GoFor2026.tsx:35-37 | hike i of a successful load carries file i's name when it holds no '/' |
| HikePage.SortNewestFirst | pages/GoFor2026.tsx:39 | the sort keeps the number of hikes (permutation and order: `SortNewestFirstFacts`) |
| HikePage.SortNewestFirstFacts | pages/GoFor2026.tsx:39 | the sort is a permutation ordered by start time, newest first |
| HikePage.FirstIsNewest | pages/GoFor2026.tsx:39-43 | the first hike after sorting started no earlier than any loaded hike |
| HikePage.LoadResult | pages/GoFor2026.tsx:29-40 | a successful try block had a manifest and yields one hike per manifest entry |
| HikePage.LoadResultFacts | pages/GoFor2026.tsx:29-40 | the try block succeeds iff the manifest is ok and every parse succeeds; the result is a newest-first permutation, one hike per entry |
| HikePage.HikesPage.constructor | pages/GoFor2026.tsx:23-25 | no hikes, no selection, loading |
| HikePage.HikesPage.LoadHikes | pages/GoFor2026.tsx:27-49 | success: hikes become the sorted list and hikes[0] is selected when non-empty; failure: nothing changes; loading is false afterwards |
| HikePage.HikesPage.SelectHike | pages/GoFor2026.tsx:138-141 | clicking a listed hike selects it |
| HikePage.Mount | pages/GoFor2026.tsx:21-52 | after mounting and loading, a failure leaves no hikes and no selection; a success selects the newest hike if any |
| HikePage.JsRem | pages/GoFor2026.tsx:57 | JavaScript's `%`: a − r is a multiple of b, and r has the dividend's sign and is smaller than b in size; together these fix r = a − trunc(a/b)·b |
| HikePage.Hours | pages/GoFor2026.tsx:56 | `Math.floor(ms / 3600000)`: the whole hours h with h·3600000 ≤ ms < (h+1)·3600000 |
| HikePage.Minutes | pages/GoFor2026.tsx:57 | 0..59 for a non-negative duration, −60..0 for a negative one |
| HikePage.HoursAndMinutes | pages/GoFor2026.tsx:55-57 | for ms ≥ 0, 0 ≤ minutes ≤ 59 and hours·60 + minutes = ⌊ms/60000⌋ |
| HikePage.NegativeDurationScenario | pages/GoFor2026.tsx:56-57 | −1 ms shows as −1 hours and −1 minutes |
| HikePage.NatToString | pages/GoFor2026.tsx:58 | a number prints as a non-empty string of decimal digits, with no leading zero: the first digit is 0 exactly for the number 0 |
| HikePage.NatToStringRoundTrip | pages/GoFor2026.tsx:58 | the printed digits read back as the number |
| HikePage.IntToString | pages/GoFor2026.tsx:58 | a number prints non-empty, starting with '-' exactly when it is negative |
| HikePage.FormatDuration | pages/GoFor2026.tsx:55-59 | the text starts with '-' exactly when the duration is negative (its full layout: `FormatDurationShows`) |
| HikePage.HourSuffix | pages/GoFor2026.tsx:58 | no contract; `小时 ` for zh and `h ` otherwise, laid out by `FormatDurationShows` |
| HikePage.MinuteSuffix | pages/GoFor2026.tsx:58 | no contract; `分` for zh and `m` otherwise, laid out by `FormatDurationShows` |
| HikePage.FormatDurationShows | pages/GoFor2026.tsx:55-59 | the text is hours, hour suffix, minutes, minute suffix, for the unique split with minutes 0..59; 小时/分 for zh and h/m otherwise |

## Left out

- Haversine distance (components/hiking/utils.ts:73-86): floating-point trigonometry. It is the parameter `dist`, and only non-negativity is required of it.
- `lat2tile`/`tile2lat` (scripts/generate-static-maps.js:33-35, 159-162): Mercator trigonometry. They are the parameters of `StaticMaps.Mercator`, and nothing is required of them. The latitude bounds are recorded but not proved to enclose the track.
- GPX parsing by the `gpxparser` library and `track.distance.total`: the parsed points, metadata name and distance are inputs. A file with no track, a failed fetch or a failed read is `None`. Points without a timestamp are not modelled.
- I/O: `fetch`, `axios`, `fs`, the directory creation, console logging, and `sharp` blending, stitching and JPEG encoding. Tile servers are oracles. The image is its list of placed tiles with the hillshade each was blended with. Files on disk are `MapStore`'s two maps.
- Timing: the 10 s request timeout and the 1 s pauses. `DownloadTile` counts the pauses instead. The `width > 4000` warning has no effect and is not modelled.
- StaticMaps.ProcessSpec: a track with no points makes JavaScript compute infinite and NaN tile indices, and the image library then throws. A canvas of non-positive height throws too. Both are modelled as the `Failed` outcome that `run` catches, not as the NaN arithmetic itself.
- StaticMaps.MapBase: `filename.replace('.gpx', '')` replaces the first occurrence of `.gpx`, not necessarily the suffix. The model does the same (`ReplaceFirst`). Its contract says the name is unchanged or 4 characters shorter, and unchanged when it holds no `.gpx`; which `.gpx` goes is stated by `ReplaceFirstAtFirstMatch`, and `MapBaseOfGpxName` pins the usual case, a name whose only `.gpx` is its suffix.
- HikeManifest.Below: `localeCompare` is locale-aware collation. The model uses lexicographic order on character codes as a stand-in total order.
- HikePage.SortNewestFirst: JavaScript's sort is stable, and this insertion sort keeps equal start times in input order too. That stability is not stated as a property.
- HikePage.Clock: each `parseGPX` reads its own `new Date()` after its fetch resolved. The model keys that clock by URL, so two manifest entries naming the same file share one instant. When the clock is read relative to other fetches is not modelled.
- HikePage.HikesPage.LoadHikes: it requires that nothing is selected yet, which is the state the component mounts in (`loadHikes` runs once, on mount). The stale-fetch race and React's asynchronous rendering are not modelled.
- `formatDistance`, `toFixed`, `toLocaleString`/`toLocaleDateString`, the average speed and the totals in the page header (pages/GoFor2026.tsx:54, 116, 122, 153, 230, 235): floating-point and locale formatting.
- `elevationGain`: the page reads it, but `parseGPX` never produces it.
- Leaflet map rendering and every other presentational component of the site.
