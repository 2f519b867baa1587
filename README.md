# Aral Sea dashboard — a Dafny model of its selection, data shaping and timelapse

The web page explores an uploaded table and a fixed set of Aral Sea datasets.
This project models the parts of it that hold state or reshape data. The
drawing itself is left out.

- **Linked selection** (`dataVis.js`): a click on a scatterplot mark toggles
  the record in `selectedDataPoints`, an ordered array of at most ten records
  compared by identity. Each selected record's identifier (`Year`, else `ID`,
  else the record's JSON text) gets the first free colour of the ten-colour
  palette in `colorAssignments`. The legend's ✕ removes a record again.
  `Selection` holds the transitions as functions on a value (`Toggle`,
  `LegendRemoval`). The class `Selection.SelectionSet` applies them in place,
  as the page does, and keeps the invariant: at most ten records, none twice,
  colours only for selected identifiers, all from the palette and pairwise
  different.
- **Dataset structure** (`dataVis.js`):
  - `Cells`: cells are coerced to numbers at load time.
  - `Dataset`:
    - the identifier chain;
    - per-dimension extents, built by a loop;
    - the numeric dimensions.
  - `Views`:
    - the style of each scatter mark: fill, stroke and radius;
    - what the radar chart draws: legend entries and closed polygons, one
      vertex per numeric dimension plus the closing repeat.
- **Temperature charts** (`dashboard.js`, module `Temperature`):
  - the raw monthly temperatures are pivoted into one row per year, sorted
    by year;
  - the rows are flattened into heatmap cells by nested loops;
  - one year is drilled into as a monthly series in calendar order.
- **Timelapse player** (`dashboard.js`, module `Timelapse`):
  - an index into the 38 image years, moved by "previous"/"next" (clamped),
    the year slider and play ticks (wrapping);
  - a play/pause flag and a speed slider.
  - Timers are a count of live intervals. The player never has more than one
    live interval, and has one exactly while playing.

JavaScript numbers are modelled as `real`. JavaScript's unary `+` on a
non-empty string is the uninterpreted parameter `parse`, which returns None
for NaN. The empty string converts to 0.

## Model

| member | source | states |
|---|---|---|
| JsArray.FindIndex | dataVis.js:79-81 | `findIndex` returns -1 iff no element matches; otherwise it returns the first matching index |
| JsArray.Find | dataVis.js:90-92 | `find` returns undefined iff no element matches; otherwise it returns the first matching element |
| JsArray.Any | dataVis.js:73-75 | `some` is true iff some element matches |
| JsArray.Filter | dataVis.js:233 | `filter` keeps only matching elements, keeps every matching element, and keeps the input's order (a subsequence of the input) |
| JsArray.FilterMultiplicity | dataVis.js:233 | each matching element occurs in the result as often as in the input, and no other element occurs; with the subsequence clause this fixes the result |
| JsArray.FilterAppend | dashboard.js:955-964 | filtering distributes over concatenation, so relative order is kept |
| Cells.Coerce | dataVis.js:193-196 | a cell becomes a number iff it is non-empty and parses. Otherwise it stays the same text. `+cell` yields the same afterwards as on the raw text |
| Cells.CoerceRow | dataVis.js:191-198 | the row loop gives every column of the raw row, and no other, its coerced cell |
| Dataset.Identifier | dataVis.js:114-116 | the identifier is a truthy `Year`, else a truthy `ID`, else the whole record. A falsy `Year` (0 or empty) falls through |
| Dataset.SameYearSameIdentifier | dataVis.js:114-116 | two records with the same truthy `Year` get the same identifier, whatever their other fields |
| Dataset.NumericValues | dataVis.js:233 | the non-NaN values of a column are non-empty iff some record has a number there. Every record's number is in the list, and every entry is the number of some record |
| Dataset.Extent | dataVis.js:235 | `d3.extent` of a non-empty list gives a min and a max that both occur in the list and bound every value |
| Dataset.ComputeExtents | dataVis.js:230-238 | the loop's dictionary has an entry exactly for the dimensions holding at least one number, and that entry is the dimension's extent |
| Dataset.NumericDims | dataVis.js:598-603 | a dimension is kept iff some record has a number in it |
| Dataset.NumericDimsHaveExtents | dataVis.js:288-291 | every numeric dimension has an extent entry |
| Selection.IsSelected | dataVis.js:73-75 | `isSelected(p)` holds exactly when `p` is in the selection |
| Selection.FreeColor | dataVis.js:89-92 | gives the first palette colour not in use; none is free iff every palette colour is in use |
| Selection.ChooseColor | dataVis.js:88-96 | a newly assigned colour is always a palette colour |
| Selection.IndexOf | dataVis.js:79-81 | -1 iff the record is not selected; otherwise the position of its first occurrence |
| Selection.RemoveAt | dataVis.js:103 | `splice(i, 1)` drops entry `i` and keeps the rest in order |
| Selection.Toggle | dataVis.js:78-107 | unselected with fewer than ten selected: appended at the end, keeping its identifier's colour or receiving the first free one. Unselected with ten selected: the array and the colours are unchanged. Selected: that entry is spliced out and its identifier's colour deleted |
| Selection.LegendRemoval | dataVis.js:654-665 | the legend ✕ on a selected record is exactly a toggle of it, deleting its identifier's colour; on a record no longer selected it does nothing |
| Selection.PaletteDistinct | dataVis.js:39-40 | the palette has ten different colours, none of them the grey of unselected marks |
| Selection.ChooseColorIsFirstFree | dataVis.js:88-96 | with fewer than ten colours assigned, a free palette colour exists, so the `colorScale` fallback is never taken |
| Selection.RemovalKeepsOthers | dataVis.js:101-106 | removal keeps every other selected record, drops the removed one entirely and leaves no duplicates |
| Selection.IdsOfCard | dataVis.js:114-116 | there are no more identifiers than selected records |
| Selection.RemoveKeepsValid | dataVis.js:101-106 | deselecting preserves the selection invariant |
| Selection.AddKeepsValid | dataVis.js:84-96 | selecting while there is room preserves the invariant, including distinct palette colours |
| Selection.ToggleKeepsValid | dataVis.js:78-107 | every toggle preserves the invariant |
| Selection.ToggleAllKeepsValid | dataVis.js:83-99 | any run of clicks from a valid state stays valid, so never more than ten records are selected |
| Selection.ToggleAllAppend | dataVis.js:83-99 | a run of clicks split in two has the same effect as the first part followed by the second |
| Selection.ToggleAllPoints | dataVis.js:83-99 | which records a run of clicks leaves selected does not depend on the colour map |
| Selection.AcceptAll | dataVis.js:83-96 | while there is room, clicks on distinct unselected records push each of them, in click order |
| Selection.RejectAll | dataVis.js:85-99 | with ten records selected, clicks on unselected records change neither the array nor the colours |
| Selection.FirstTenAccepted | dataVis.js:83-99 | clicking distinct records on an empty selection accepts the first ten, in click order, and rejects the rest |
| Selection.AddThenRemove | dataVis.js:84-106 | selecting and then deselecting a record restores the array and deletes its identifier's colour |
| Selection.ToggleTwiceRestores | dataVis.js:84-106 | for an identifier without a colour, select-then-deselect restores the array and the colour map exactly |
| Selection.SharedIdentifierLosesColour | dataVis.js:103-105 | removing a second record with the same identifier deletes the colour the first, still-selected record was using |
| Selection.SelectionSet.constructor | dataVis.js:38-42 | the page starts with an empty selection and no colours |
| Selection.SelectionSet.ToggleDataPointSelection | dataVis.js:78-107 | the in-place push/splice and assign/delete reach the state `Toggle` describes and preserve the invariant |
| Selection.SelectionSet.RemoveFromLegend | dataVis.js:654-665 | the in-place ✕ handler reaches the state `LegendRemoval` describes and preserves the invariant |
| Selection.SelectionSet.Clear | dataVis.js:389-390 | `clear()` leaves the selection and the colour map empty |
| Views.ScatterMarks | dataVis.js:511-523 | one mark per record. The fill is the identifier's colour when the record is selected and coloured, else grey. The stroke is 1 for selected records and 0.5 for the others. The radius comes from the record's size cell, and is the default 5 exactly when that cell is not a number |
| Views.FillShowsSelection | dataVis.js:515-520 | under the invariant, a mark shows a palette colour iff it is selected and coloured, and marks with different identifiers show different colours |
| Views.RadiusWithinExtent | dataVis.js:493-514 | the radius of every drawn scatter mark is scaled over the size dimension's extent, and its size value lies within it |
| Views.RadarLine | dataVis.js:679-702 | a polygon has one vertex per numeric dimension, in order, plus the first again. The vertex value is the record's number, or 0 when it has none. Its domain is the dimension's extent, or `[0, 1]` when there is none |
| Views.BuildLineData | dataVis.js:679-702 | the map-then-push construction yields that closed vertex list |
| Views.RenderRadar | dataVis.js:577-740 | no data: nothing is done. Empty selection: the placeholder. No numeric dimension: no polygons. Otherwise one legend entry and one polygon per selected record, in order. Each legend caption is the record's first-dimension value or `Item i+1`. Each polygon is that record's own closed line with one marker per dimension. Swatch and polygon share one colour, and so does the scatter mark of a record whose identifier has a colour |
| Views.RadarDomainsAreExtents | dataVis.js:679-688 | each vertex is scaled over its own dimension's extent (never the `[0, 1]` fallback), and a numeric vertex lies within it |
| Views.DrawnPolygonsWithinExtents | dataVis.js:671-702 | for selected records taken from the data, every vertex of every drawn polygon is scaled over its dimension's extent and a numeric vertex lies within it |
| Temperature.GroupKeys | dashboard.js:95-97 | the group keys are every year of the raw data, each once |
| Temperature.InsertByYear | dashboard.js:105 | insertion adds exactly the row (as a multiset) and nothing else |
| Temperature.InsertKeepsAscending | dashboard.js:105 | inserting into rows sorted by year keeps them sorted |
| Temperature.InsertKeepsStrict | dashboard.js:105 | inserting a new year into strictly sorted rows keeps them strictly sorted |
| Temperature.SortByYear | dashboard.js:105 | the sort is a permutation of the rows |
| Temperature.SortByYearSorts | dashboard.js:105 | the sorted rows ascend by year, strictly when no two rows share a year |
| Temperature.GroupFirstMonth | dashboard.js:99-102 | `find` on a year's group gives the temperature of the first raw entry for that year and month |
| Temperature.PivotRowsAreGroups | dashboard.js:95-104 | every pivot row is the row built from its own year's group, for a year present in the raw data |
| Temperature.PivotStrictlyAscending | dashboard.js:95-105 | the pivot rows strictly ascend by year, so no year has two rows |
| Temperature.PivotCoversYears | dashboard.js:95-105 | every year of the raw data has a pivot row |
| Temperature.PivotIsYearByMonth | dashboard.js:95-105 | the pivot has one row per distinct year, sorted ascending. Month `m` of year `Y` is the first matching raw entry's temperature, or undefined |
| Temperature.HeatmapCells | dashboard.js:774-786 | the nested loops push exactly the cells `HeatmapCellsOf` lists |
| Temperature.RowCellsSpec | dashboard.js:776-785 | a row yields a cell exactly for each defined month, in calendar order |
| Temperature.HeatmapCellsSpec | dashboard.js:774-786 | there is one cell per (row, month) with a defined value; for year-sorted rows they run by row, then calendar order |
| Temperature.HeatmapOfPivot | dashboard.js:774-786 | on the pivot, a cell is listed iff its year occurs and its month has a first entry with that temperature; the cells run by year, then month |
| Temperature.MonthlyTemperatureChart | dashboard.js:931-934 | the chart is cleared exactly for a falsy (null or 0) year; otherwise it is labelled with that year |
| Temperature.MonthlySeriesSpec | dashboard.js:942-964 | "No data" iff the year has no raw entries. Otherwise only the months present appear, in calendar order, with the first matching entry's temperature |
| Temperature.FilterKeepsOrder | dashboard.js:955-964 | filtering the month slots keeps calendar order |
| Temperature.ConsAscending | dashboard.js:955-964 | a month placed before later months keeps the series in calendar order |
| Temperature.InitialDrillDownHasData | dashboard.js:192-197 | on load the drill-down shows the first raw entry's year, which has data; it is cleared only if that year is 0 |
| Temperature.ClickedCellAppearsInSeries | dashboard.js:814-818 | clicking a heatmap cell of a non-zero year shows a series containing that cell's month and temperature |
| Timelapse.PrevIndex | dashboard.js:599-604 | "previous" steps back by one, except at index 0, where it stays |
| Timelapse.NextIndex | dashboard.js:620-625 | "next" steps forward by one, except at the last index, where it stays; the index stays in range |
| Timelapse.TickIndex | dashboard.js:690-697 | a tick moves to `(i + 1) mod n`: forward, wrapping from the last year to the first |
| Timelapse.TicksWrapAround | dashboard.js:689-699 | `k` ticks move from `i` to `(i + k) mod n` |
| Timelapse.TicksFullCycle | dashboard.js:689-699 | one tick per year returns to the same year |
| Timelapse.NextsClamp | dashboard.js:620-625 | `k` clicks on "next" reach `min(i + k, n - 1)` |
| Timelapse.PrevsClamp | dashboard.js:599-604 | `k` clicks on "previous" reach `max(i - k, 0)` |
| Timelapse.StepSpec | dashboard.js:599-721 | every event moves the index as its handler promises, and `togglePlay` flips `isPlaying`. A speed change sets the speed and keeps playing as it was. Every event preserves the invariant: the shown year matches the index, one live interval iff playing, at the current speed |
| Timelapse.Run | dashboard.js:689-721 | any feasible sequence of events from a valid state ends in a valid state |
| Timelapse.AtMostOneInterval | dashboard.js:701-721 | from the initial state, at most one interval is ever live, exactly one while playing, and it ticks at the displayed speed |
| Timelapse.TimelapsePlayer.constructor | dashboard.js:510-513 | the player starts at the first year, paused, at 500 ms, with no interval |
| Timelapse.TimelapsePlayer.UpdateImage | dashboard.js:677-687 | the caption, image and year slider show the year at the current index |
| Timelapse.TimelapsePlayer.Previous | dashboard.js:599-604 | the "previous" handler performs the `PreviousClick` step and keeps the invariant |
| Timelapse.TimelapsePlayer.Next | dashboard.js:620-625 | the "next" handler performs the `NextClick` step and keeps the invariant |
| Timelapse.TimelapsePlayer.SlideTo | dashboard.js:672-675 | the year slider sets the index to its value and keeps the invariant |
| Timelapse.TimelapsePlayer.StartPlay | dashboard.js:689-699 | `startPlay` adds one live interval at the current speed |
| Timelapse.TimelapsePlayer.ClearInterval | dashboard.js:703 | `clearInterval` stops the stored interval |
| Timelapse.TimelapsePlayer.Tick | dashboard.js:690-697 | the interval callback advances with wrap-around and keeps the invariant |
| Timelapse.TimelapsePlayer.TogglePlay | dashboard.js:701-711 | pausing clears the interval and playing starts one; the invariant is kept |
| Timelapse.TimelapsePlayer.ChangeSpeed | dashboard.js:714-721 | a speed change updates speed and caption; while playing, it clears the interval before starting a new one at the new speed |

## Left out

- D3/SVG drawing (axes, transitions, tooltips, legend DOM, grid polygons), the river line and bar charts, and hover highlighting: rendering side effects with nothing to state. The hover handlers use `colorScale(index)`, not the colour map.
- Radar trigonometry (`radarX`, `radarY`), linear/band/sequential scales and their arithmetic: floating point and library-defined. A vertex records its axis, value and scale domain instead of coordinates. A scatter radius records its value and domain.
- File loading (`FileReader`, `d3.csvParse`, `d3.csv`, `Promise.all`): asynchronous I/O. Cells are taken as already split into a column-to-text map.
- The jQuery menus: the chosen size dimension is a parameter.
- `alert`, tab switching, image preloading, the image `src` strings and the play button's ▶/⏸ label: page chrome. The timelapse models the shown year, not the image file.
- Timer timing: intervals are a count of live intervals plus the period of the latest one. A tick is an event that can occur while an interval is live.
- Cells.Parser: JavaScript number syntax (whitespace, hex, exponent, `Infinity`) is abstract, and NaN is None. A NaN produced by `+d.Year` or `+d.Temperature` in the temperature file is not modelled: years are integers and temperatures reals.
- Dataset.Ident: object keys in JavaScript are strings, so a numeric `Year` 1990 and a text `"1990"` would share a colour slot. The model keeps them apart.
- Selection.ChooseColor: the `colorScale(keys % 10)` fallback is an ordinal scale whose domain depends on all earlier calls. It is modelled as the palette entry at that position. `ChooseColorIsFirstFree` proves the branch is never taken from a valid state.
- Views.PointColor: the `colorScale(i)` fallback for an uncoloured record has the same history-dependent domain. It is modelled as the `i`-th palette entry (modulo ten).
- Dataset.ComputeExtents: the `if (_data)` check for a missing dataset is not modelled; the data is always a list.
- Selection.SelectionSet.ToggleDataPointSelection: the new array and colour map are built in locals and both fields are assigned at the end, where the page pushes and assigns field by field. No other code runs in between, so the state reached is the same.
- Timelapse.TimelapsePlayer: every call of `createChart3` creates a fresh player, and an interval still running in an old one is never cleared. The model covers one player.
- Timelapse.TimelapsePlayer.ChangeSpeed: the speed slider's first `input` handler is replaced by the second one registered for the same event. Only the second (which also updates the caption) is modelled; both restart the interval the same way.
- Temperature: the heatmap's colour scale, band scales and the line chart's 5% padded domain are drawing. Month names are derived from the month index.
