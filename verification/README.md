# Bermuda Triangle wreck visualisations — a Dafny model of the computational core

The repository has two small web pages.

- **The wreck map** (`worldmap-site/src/main.ts`) draws wreck markers inside a
  viewport. Over them it lays a heatmap: a `res` x `res` grid where each grid
  point takes its `k` nearest wrecks. It keeps those within `maxDist` and is
  coloured by the share of them dated inside a year window. A cell with no
  wreck in reach stays transparent.
- **The time-series chart** (`site/src/main.ts`) rolls wrecks up by year into
  total / inside-the-Triangle / outside counts. It slices the years to a
  window and optionally normalises each series to sum 1. It picks the y-axis
  top, and when the window holds at least two years it shows Pearson and
  Spearman coefficients for inside vs outside.

The model lifts these computations out of the DOM and d3 code as pure
functions over sequences. Coordinates are `real`, years and indices are
`int`. JavaScript's stable `Array.prototype.sort` is modelled as an
insertion sort by a real-valued key.

Modules, one per file:

- `Seqs` (`seqs.dfy`): order-preserving `Filter`, `slice(0, k)` including
  negative `k`, sums and maxima.
- `StableSort` (`stable_sort.dfy`): the stable sort, its permutation and
  sortedness, and stability. Also the facts the grid needs: filtering
  commutes with the sort, and a sorted prefix keeps the elements under a
  bound.
- `YearRange` (`year_range.dfy`): the inclusive year window and the swap
  both pages apply to the two year inputs.
- `Heatmap` (`heatmap.dfy`): `proportionGrid`, covering grid points,
  distances, nearest neighbours, tallies, the proportion, the flipped pixel
  layout and the image. It also holds the theorem that the pre-filter to
  the viewport plus a `2 * maxDist` margin changes no cell.
- `WorldMap` (`world_map.dfy`): one redraw of the map, covering the year
  swap, the visible-wreck filter and the overlay call.
- `Rank` (`rank.dfy`): the rank transform inside `spearman`, and Spearman
  with `pearson` as a parameter.
- `TimeSeries` (`time_series.dfy`): the yearly rollup, sorted years, the
  slice, normalisation, the y-domain, the series and the statistics guard.

Behaviour taken from the code as written:

- A cell's grid point is the lower-left corner of the cell,
  `xMin + i * (xMax - xMin) / res`, not its centre.
- Nothing validates the viewport, `res`, `k` or `maxDist`. The model keeps
  what the code then does.
  - `createImageData(0, 0)` throws an `IndexSizeError`
    (`GridResult.IndexSizeError`).
  - A negative `res` gives a blank `|res|` x `|res|` image, because the
    loops do not run.
  - A negative `k` makes `slice(0, k)` drop the last `-k` neighbours.
- A no-data cell writes only the alpha byte, `0`. Its colour bytes stay as
  `createImageData` left them. Cells with data get alpha 150.
- Ties in distance are broken by input order, since the sort is stable.

## Model

| member | source | states |
|---|---|---|
| Seqs.SlicePrefix | worldmap-site/src/main.ts:156 | `slice(0, k)` is a prefix of its input: `min(k, n)` elements for `k >= 0`, `max(n + k, 0)` for negative `k` |
| StableSort.Sort | worldmap-site/src/main.ts:154 | the sorted output has the input's length and is in ascending key order |
| StableSort.SortPermutes | worldmap-site/src/main.ts:154 | the sort output is a permutation (same multiset) of the input |
| StableSort.SortIsStable | worldmap-site/src/main.ts:154 | for every key value, the elements with that key appear in the output in their input order |
| StableSort.FilterSort | worldmap-site/src/main.ts:154 | filtering the sorted sequence by any predicate equals sorting the filtered sequence |
| StableSort.FilterSortedPrefix | worldmap-site/src/main.ts:154-156 | in a sorted sequence, the first `n` elements filtered to keys `<= bound` are the first `n` elements with key `<= bound` |
| YearRange.Ordered | worldmap-site/src/main.ts:197-199 | after the swap the window's low end is at most its high end, and the ends are the two inputs |
| YearRange.OrderedIsSymmetric | site/src/main.ts:72-74 | swapping the inputs gives the same window; a year is in it exactly when it lies between the inputs in either order |
| Heatmap.StepWithin | worldmap-site/src/main.ts:122-123 | for `lo <= hi` and `0 <= i < res`, `lo + i * (hi - lo) / res` lies in `[lo, hi]`, strictly below `hi` when `lo < hi` |
| Heatmap.GridPointInViewport | worldmap-site/src/main.ts:135-139 | with `xMin < xMax`, `yMin < yMax` and `res > 0`, every grid point has `xMin <= cx < xMax` and `yMin <= cy < yMax` |
| Heatmap.NearestIsClosest | worldmap-site/src/main.ts:154-156 | the selected neighbours are a prefix of the ascending-distance order, no farther than any left out, with `min(k, n)` of them for `k >= 0` |
| Heatmap.Tally | worldmap-site/src/main.ts:158-168 | `validCount` is the number of selected neighbours within `maxDistSq`; `inWindowCount` is how many of those have a year in the window; `inWindowCount <= validCount <= |nearest|` |
| Heatmap.CellCounts | worldmap-site/src/main.ts:156-168 | for every cell `inWindowCount <= validCount`, and for `k >= 0` also `validCount <= min(k, |candidates|)` |
| Heatmap.Proportion | worldmap-site/src/main.ts:170 | when `validCount > 0` the proportion times `validCount` is `inWindowCount`, and it lies in `[0, 1]` |
| Heatmap.PixelIndexLayout | worldmap-site/src/main.ts:173 | for `0 <= i, j < res` the index lies in `[0, 4*res*res - 4]` on a pixel boundary; its row is `res - 1 - j` (row `j = 0` is the last image row) and its column is `i` |
| Heatmap.PixelIndexInjective | worldmap-site/src/main.ts:173 | two cells share a pixel index exactly when they are the same cell |
| Heatmap.PixelIndexOnto | worldmap-site/src/main.ts:173 | every pixel of the `res` x `res` image is the pixel of some cell |
| Heatmap.CellPixel | worldmap-site/src/main.ts:175-183 | a cell's pixel has alpha 0 exactly when `validCount` is 0, and alpha 150 otherwise |
| Heatmap.NoDataIsNotZero | worldmap-site/src/main.ts:170-182 | a no-data cell never looks like a cell with proportion 0: their pixels differ, alpha 0 vs 150 |
| Heatmap.PaintFrom | worldmap-site/src/main.ts:135-185 | the two loops from cell `(ci, cj)` on give every cell the pixel its tallies call for, and keep the image's pixel set |
| Heatmap.ProportionGrid | worldmap-site/src/main.ts:111-189 | a zero `res` raises `IndexSizeError`; otherwise the image has `|res|` x `|res|` pixels. Negative `res` leaves them all transparent. Positive `res` gives each cell's pixel from its tallies over the pre-filtered wrecks |
| Heatmap.DroppedWreckOutOfReach | worldmap-site/src/main.ts:126-131 | with `maxDist >= 0` and an ordered viewport, a wreck the pre-filter drops is farther than `maxDist` from every grid point |
| Heatmap.PrefilterPreservesCounts | worldmap-site/src/main.ts:126-168 | for `k >= 0`, `maxDist >= 0` and an ordered viewport, each cell's `validCount` and `inWindowCount` over the pre-filtered wrecks equal those over all wrecks |
| Heatmap.ProportionGridIgnoresPrefilter | worldmap-site/src/main.ts:126-185 | under the same conditions, the whole image equals the one computed over all wrecks |
| Heatmap.PrefilterNeedsNonNegativeMaxDist | worldmap-site/src/main.ts:124-131 | with `maxDist = -1` a wreck on the grid point is dropped by the pre-filter but counted without it |
| Heatmap.PrefilterNeedsNonNegativeK | worldmap-site/src/main.ts:156 | with `k = -1` the pre-filter changes a cell's counts, since `slice(0, -1)` cuts whichever candidate is last |
| Heatmap.AllInReach | worldmap-site/src/main.ts:142-168 | with `k` at least the number of candidates and all of them in reach, `validCount` is the number of wrecks and `inWindowCount` the number dated in the window, wherever the point lies |
| Heatmap.SingleWreckOnGridPoint | worldmap-site/src/main.ts:142-170 | a lone wreck on a grid point (with `k >= 1`) gives that cell counts `(1, 1)` and proportion 1 when its year is in the window, and `(1, 0)` and proportion 0 when not |
| Heatmap.SingleWreckExample | worldmap-site/src/main.ts:135-183 | a lone wreck at the viewport's lower-left corner makes cell `(0, 0)` opaque at alpha 150, coloured for 1 or 0 by its year, never "no data"; with `res = 1` that pixel is at offset 0 |
| Heatmap.NoWrecksNoData | worldmap-site/src/main.ts:120-176 | with no wrecks every pixel of the image is transparent |
| WorldMap.VisibleWrecksExactly | worldmap-site/src/main.ts:261-265 | the marker list holds exactly the wrecks with year in `[y1, y2]` and position in the closed viewport box |
| WorldMap.VisibleWrecksKeepOrder | worldmap-site/src/main.ts:261-265 | markers keep input order: the markers of `a + b` are those of `a` followed by those of `b` |
| WorldMap.MarkersAreCandidates | worldmap-site/src/main.ts:261-265 | for `maxDist >= 0` every marker is also among the heatmap's pre-filtered candidates |
| WorldMap.Update | worldmap-site/src/main.ts:259-285 | no markers unless they are switched on; an overlay exactly when it is switched on, failing exactly when `res` is 0 |
| WorldMap.UpdateMarkers | worldmap-site/src/main.ts:197-265 | the markers are the wrecks in the viewport whose year lies between the two year inputs, in either order |
| WorldMap.UpdateOverlayWindow | worldmap-site/src/main.ts:197-282 | the overlay is the grid over the window from the smaller year input to the larger |
| WorldMap.UpdateIgnoresYearOrder | worldmap-site/src/main.ts:197-199 | entering the two years the other way round draws the same map |
| Rank.SortLex | site/src/main.ts:38 | sorting entries whose positions ascend orders them by value, with ties in position order |
| Rank.OrderEntries | site/src/main.ts:38 | the sorted entries are the input's `(value, position)` pairs, each position present |
| Rank.PlaceAt | site/src/main.ts:39-40 | with distinct positions, the slot of the `k`-th sorted entry ends up holding `k + 1` |
| Rank.RankIsSortedPosition | site/src/main.ts:37-42 | every value's rank is one more than its entry's sorted position |
| Rank.RankFollowsValues | site/src/main.ts:37-42 | `rank[a] < rank[b]` exactly when `arr[a] < arr[b]`, or the values are equal and `a < b` |
| Rank.RankIsPermutation | site/src/main.ts:37-42 | the ranks are a permutation of `1..n`: in range, pairwise distinct, and every value taken |
| Rank.RankInvariant | site/src/main.ts:37-42 | a strictly increasing transform of the values leaves every rank unchanged |
| Rank.SpearmanInvariant | site/src/main.ts:36-44 | Spearman is unchanged by strictly increasing transforms of either input, whatever `pearson` computes |
| TimeSeries.GroupIsFilter | site/src/main.ts:54-62 | the rollup's groups are exactly the years that occur, each holding the rows of that year in input order |
| TimeSeries.RollupCounts | site/src/main.ts:54-62 | per year, `total` is the number of rows of that year, `in`/`out` count those inside/outside, and `in + out = total` |
| TimeSeries.FirstSeen | site/src/main.ts:64 | the rollup's keys in first-appearance order: distinct, and exactly the years that occur |
| TimeSeries.SortedYears | site/src/main.ts:64 | the sorted years are strictly ascending and are exactly the years that occur |
| TimeSeries.Load | site/src/main.ts:54-64 | every sorted year has a rollup record |
| TimeSeries.SliceExactly | site/src/main.ts:72-76 | the slice holds exactly the data years in the window, strictly ascending, each with its rolled-up counts |
| TimeSeries.Normalise | site/src/main.ts:82-87 | a series with nonzero sum is scaled to sum 1, proportionally; a zero-sum series is left unchanged |
| TimeSeries.YTop | site/src/main.ts:90-94 | the y-axis top meets `AxisTop`: it is the largest shown value when that is nonzero, and 1 when nothing is shown or the largest is 0. It is at least every shown value, and equals the largest when one is positive |
| TimeSeries.AxisTopUnique | site/src/main.ts:94 | the axis top, `d3.max(allY)` with its fallback 1, is fully determined: at most one value meets `AxisTop` for given shown values |
| TimeSeries.MakeSeries | site/src/main.ts:96-100 | one series per ticked box, in the order total, in Bermuda, outside. Each is keyed by its column's name, with a `% ` prefix when normalised. Point `k` carries the `k`-th slice year and that column's `k`-th value |
| TimeSeries.SeriesValuesShown | site/src/main.ts:90-100 | every plotted value is one of the values `allY` collects for the y-domain, so the y-axis takes each drawn point into account |
| TimeSeries.SeriesFollowSlice | site/src/main.ts:76-100 | in the drawn chart, every point is dated with its slice year and lies under the y-axis top |
| TimeSeries.StatsNeedTwoYears | site/src/main.ts:116-120 | the statistics appear exactly when the window holds at least two data years, and then correlate the inside and outside columns |
| TimeSeries.Update | site/src/main.ts:71-121 | the x-domain runs from the smaller year input to the larger. The y-top meets `AxisTop` over the shown columns of that slice. The series are those `MakeSeries` describes for the slice, one per ticked box, each as long as the slice |
| TimeSeries.UpdateIgnoresYearOrder | site/src/main.ts:72-74 | entering the two years the other way round draws the same chart |

## Left out

- DOM lookups, labels, event listeners and the redraw's drawing calls: UI plumbing with no computation to state.
- The debounce with `setTimeout`/`clearTimeout`: timer behaviour.
- Loading the CSV and JSON files, `Date` parsing to a year, and dropping rows with non-numeric coordinates: I/O and JavaScript parsing. Rows arrive with an integer year.
- `parseInt`/`parseFloat` of the map page's inputs: parameters arrive already parsed. `NaN` inputs are not modelled.
- TimeSeries.ChartInputs: the chart reads its year boxes with `Number(...)`, which can yield a fraction such as 2000.5. The model takes the boxes to hold whole numbers (`int`), so a fractional bound is not modelled. Such a bound would select the same data years as its ceiling (lower end) or floor (upper end), but would appear as itself in the x-domain.
- Deriving the viewport from centre and zoom (margin `100 / zoom`): the viewport is an input.
- The d3 projection, country paths, the triangle outline, the axes, canvas `drawImage` and smoothing: foreign drawing code.
- The colour scale `d3.interpolateCool` and `d3.rgb`: a parameter `colour: real -> Rgb` that yields three bytes. The clamping and rounding of `Uint8ClampedArray` are inside it.
- The series colours (`d3.scaleOrdinal`): drawing only. Series keys are modelled.
- The value of `pearson`: floating point with `sqrt` and a `1e-12` floor. It is a parameter of `Spearman` and of the chart's `Update`; only what it is called with is modelled.
- Floating-point rounding everywhere: coordinates, distances and proportions are exact reals.
- Rank.Place: `Array(n)` starts with holes. The model starts with zeros, all of which are overwritten (`RankIsSortedPosition`).
- Heatmap.PrefilterPreservesCounts: holds only for `k >= 0`, `maxDist >= 0` and `xMin <= xMax`, `yMin <= yMax`, while the code applies the pre-filter unconditionally. `PrefilterNeedsNonNegativeMaxDist` and `PrefilterNeedsNonNegativeK` show it fails otherwise. `worldmap-site/src/main.ts` does not constrain `k` or `maxDist`. Only the page's HTML controls, which are not part of this model, could keep them non-negative.
- Heatmap.SingleWreckExample: stated for any resolution with the wreck at the viewport's lower-left corner, rather than for the literal one-cell example. The one-cell grid is the case `res = 1`.
