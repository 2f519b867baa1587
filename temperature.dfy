/**
  The temperature charts of dashboard.js: the raw monthly temperatures are
  pivoted into one row per year with a column per month (`dashboardInit`),
  flattened into heatmap cells (`renderTemperatureHeatmap`), and one year is
  drilled into as a monthly series (`renderMonthlyTemperatureLineChart`).
*/
module Temperature {
  import opened Options
  import opened JsArray

  /** A row of the temperature file: `{Year: +d.Year, Month: d.Month, Temperature: +d.Temperature}`. */
  datatype TempEntry = TempEntry(year: int, month: string, temperature: real)

  /** `orderedMonthKeys`: the month keys in calendar order. */
  const MonthKeys: seq<string> := ["I", "II", "III", "IV", "V", "VI", "VII", "VIII", "IX", "X", "XI", "XII"]

  /** `orderedMonthNames`, the display names of the same months. */
  const MonthNames: seq<string> := ["Jan", "Feb", "Mar", "Apr", "May", "Jun", "Jul", "Aug", "Sep", "Oct", "Nov", "Dec"]

  /**
    A pivot row `{Year, I, ..., XII}`: `cells[k]` is the value under month key
    `MonthKeys[k]`, None where it is undefined.
  */
  datatype PivotRow = PivotRow(year: int, cells: seq<Option<real>>)

  /** `row[MonthKeys[k]]`, undefined for a column the row lacks. */
  function CellAt(row: PivotRow, k: nat): Option<real> {
    if k < |row.cells| then row.cells[k] else None
  }

  /** Some raw entry is for year `y`. */
  ghost predicate HasYear(raw: seq<TempEntry>, y: int) {
    exists j :: 0 <= j < |raw| && raw[j].year == y
  }

  /** Reference: the temperature of the first raw entry for year `y` and month key `m`. */
  function FirstTemperature(raw: seq<TempEntry>, y: int, m: string): Option<real> {
    if raw == [] then None
    else if raw[0].year == y && raw[0].month == m then Some(raw[0].temperature)
    else FirstTemperature(raw[1..], y, m)
  }

  /** The keys of `d3.group(raw, (d) => d.Year)`: every year once, in order of first appearance. */
  function GroupKeys(raw: seq<TempEntry>): (keys: seq<int>)
    ensures NoDuplicates(keys)
    ensures forall i :: 0 <= i < |keys| ==> HasYear(raw, keys[i])
    ensures forall j :: 0 <= j < |raw| ==> raw[j].year in keys
  {
    if raw == [] then []
    else
      var init := raw[..|raw| - 1];
      var keys := GroupKeys(init);
      assert forall i :: 0 <= i < |keys| ==> HasYear(init, keys[i]);
      if raw[|raw| - 1].year in keys then keys else keys + [raw[|raw| - 1].year]
  }

  /** The entries of one group: `raw` restricted to year `y`, in file order. */
  function YearGroup(raw: seq<TempEntry>, y: int): seq<TempEntry> {
    Filter(raw, (e: TempEntry) => e.year == y)
  }

  /** `value.find((d) => d.Month === monthKey)`, as its temperature or undefined. */
  function MonthValue(group: seq<TempEntry>, monthKey: string): Option<real> {
    match Find(group, (e: TempEntry) => e.month == monthKey)
    case Some(e) => Some(e.temperature)
    case None => None
  }

  /** The row built for one group: `{Year: key}` plus every month key's value. */
  function PivotRowOf(y: int, group: seq<TempEntry>): PivotRow {
    PivotRow(y, seq(|MonthKeys|, k requires 0 <= k < |MonthKeys| => MonthValue(group, MonthKeys[k])))
  }

  /** Years never decrease along the rows. */
  ghost predicate Ascending(rows: seq<PivotRow>) {
    forall i, j :: 0 <= i < j < |rows| ==> rows[i].year <= rows[j].year
  }

  /** Years strictly increase along the rows: sorted, and each year once. */
  ghost predicate StrictlyAscending(rows: seq<PivotRow>) {
    forall i, j :: 0 <= i < j < |rows| ==> rows[i].year < rows[j].year
  }

  /** Inserts `x` before the first row whose year is not smaller (a stable insertion). */
  function InsertByYear(x: PivotRow, sorted: seq<PivotRow>): (r: seq<PivotRow>)
    ensures multiset(r) == multiset(sorted) + multiset{x}
    ensures forall i :: 0 <= i < |r| ==> r[i] == x || r[i] in sorted
  {
    if sorted == [] then [x]
    else if x.year <= sorted[0].year then [x] + sorted
    else
      assert sorted == [sorted[0]] + sorted[1..];
      [sorted[0]] + InsertByYear(x, sorted[1..])
  }

  /** Inserting into rows sorted by year keeps them sorted. */
  lemma {:induction false} InsertKeepsAscending(x: PivotRow, sorted: seq<PivotRow>)
    requires Ascending(sorted)
    ensures Ascending(InsertByYear(x, sorted))
  {
    if sorted != [] && x.year > sorted[0].year {
      InsertKeepsAscending(x, sorted[1..]);
      var rest := InsertByYear(x, sorted[1..]);
      assert InsertByYear(x, sorted) == [sorted[0]] + rest;
      forall j | 0 <= j < |rest| ensures sorted[0].year <= rest[j].year {
        if rest[j] != x {
          var i :| 0 <= i < |sorted[1..]| && sorted[1..][i] == rest[j];
          assert sorted[i + 1] == rest[j];
        }
      }
    }
  }

  /** Inserting a row of a new year into strictly sorted rows keeps them strictly sorted. */
  lemma {:induction false} InsertKeepsStrict(x: PivotRow, sorted: seq<PivotRow>)
    requires StrictlyAscending(sorted)
    requires forall i :: 0 <= i < |sorted| ==> sorted[i].year != x.year
    ensures StrictlyAscending(InsertByYear(x, sorted))
  {
    if sorted != [] && x.year > sorted[0].year {
      InsertKeepsStrict(x, sorted[1..]);
      var rest := InsertByYear(x, sorted[1..]);
      assert InsertByYear(x, sorted) == [sorted[0]] + rest;
      forall j | 0 <= j < |rest| ensures sorted[0].year < rest[j].year {
        if rest[j] != x {
          var i :| 0 <= i < |sorted[1..]| && sorted[1..][i] == rest[j];
          assert sorted[i + 1] == rest[j];
        }
      }
    }
  }

  /** `rows.sort((a, b) => a.Year - b.Year)`, as a stable insertion sort. */
  function SortByYear(rows: seq<PivotRow>): (r: seq<PivotRow>)
    ensures multiset(r) == multiset(rows)
  {
    if rows == [] then []
    else
      assert rows == [rows[0]] + rows[1..];
      InsertByYear(rows[0], SortByYear(rows[1..]))
  }

  /**
    The sort puts the rows in ascending order of year, and in strictly
    ascending order when no two rows share a year.
  */
  lemma {:induction false} SortByYearSorts(rows: seq<PivotRow>)
    ensures Ascending(SortByYear(rows))
    ensures (forall i, j :: 0 <= i < j < |rows| ==> rows[i].year != rows[j].year) ==> StrictlyAscending(SortByYear(rows))
  {
    if rows != [] {
      SortByYearSorts(rows[1..]);
      var rest := SortByYear(rows[1..]);
      InsertKeepsAscending(rows[0], rest);
      if forall i, j :: 0 <= i < j < |rows| ==> rows[i].year != rows[j].year {
        assert forall i, j :: 0 <= i < j < |rows[1..]| ==> rows[1..][i].year != rows[1..][j].year by {
          forall i, j | 0 <= i < j < |rows[1..]| ensures rows[1..][i].year != rows[1..][j].year {
            assert rows[1..][i] == rows[i + 1] && rows[1..][j] == rows[j + 1];
          }
        }
        forall k | 0 <= k < |rest| ensures rest[k].year != rows[0].year {
          assert rest[k] in multiset(rows[1..]);
          var i :| 0 <= i < |rows[1..]| && rows[1..][i] == rest[k];
          assert rows[i + 1] == rest[k];
        }
        InsertKeepsStrict(rows[0], rest);
      }
    }
  }

  /**
    `temperatureDataHeatmap`: one row per group of `d3.group(raw, d => d.Year)`,
    then sorted by year.
  */
  function Pivot(raw: seq<TempEntry>): seq<PivotRow> {
    var keys := GroupKeys(raw);
    SortByYear(seq(|keys|, i requires 0 <= i < |keys| => PivotRowOf(keys[i], YearGroup(raw, keys[i]))))
  }

  /** Looking a month up in a year's group finds the first raw entry for that year and month. */
  lemma {:induction false} GroupFirstMonth(raw: seq<TempEntry>, y: int, m: string)
    ensures MonthValue(YearGroup(raw, y), m) == FirstTemperature(raw, y, m)
  {
    if raw != [] {
      GroupFirstMonth(raw[1..], y, m);
      var rest := YearGroup(raw[1..], y);
      if raw[0].year == y {
        assert YearGroup(raw, y) == [raw[0]] + rest;
        FindCons(raw[0], rest, (e: TempEntry) => e.month == m);
      } else {
        assert YearGroup(raw, y) == rest;
      }
    }
  }

  /** Each pivot row is the row built from the group of its own year, a year present in the raw data. */
  lemma PivotRowsAreGroups(raw: seq<TempEntry>)
    ensures forall i :: 0 <= i < |Pivot(raw)| ==>
              HasYear(raw, Pivot(raw)[i].year) &&
              Pivot(raw)[i] == PivotRowOf(Pivot(raw)[i].year, YearGroup(raw, Pivot(raw)[i].year))
  {
    var keys := GroupKeys(raw);
    var rows := seq(|keys|, i requires 0 <= i < |keys| => PivotRowOf(keys[i], YearGroup(raw, keys[i])));
    var p := Pivot(raw);
    assert p == SortByYear(rows);
    forall i | 0 <= i < |p|
      ensures HasYear(raw, p[i].year) && p[i] == PivotRowOf(p[i].year, YearGroup(raw, p[i].year))
    {
      assert p[i] in multiset(rows);
      var j :| 0 <= j < |rows| && rows[j] == p[i];
      assert HasYear(raw, keys[j]);
    }
  }

  /** The pivot rows strictly ascend by year: sorted, and no year has two rows. */
  lemma PivotStrictlyAscending(raw: seq<TempEntry>)
    ensures StrictlyAscending(Pivot(raw))
  {
    var keys := GroupKeys(raw);
    var rows := seq(|keys|, i requires 0 <= i < |keys| => PivotRowOf(keys[i], YearGroup(raw, keys[i])));
    assert Pivot(raw) == SortByYear(rows);
    assert forall i :: 0 <= i < |rows| ==> rows[i].year == keys[i];
    SortByYearSorts(rows);
  }

  /** Every year of the raw data has a pivot row. */
  lemma PivotCoversYears(raw: seq<TempEntry>)
    ensures forall j :: 0 <= j < |raw| ==> exists i :: 0 <= i < |Pivot(raw)| && Pivot(raw)[i].year == raw[j].year
  {
    var keys := GroupKeys(raw);
    var rows := seq(|keys|, i requires 0 <= i < |keys| => PivotRowOf(keys[i], YearGroup(raw, keys[i])));
    var p := Pivot(raw);
    assert p == SortByYear(rows);
    forall j | 0 <= j < |raw|
      ensures exists i :: 0 <= i < |p| && p[i].year == raw[j].year
    {
      var a :| 0 <= a < |keys| && keys[a] == raw[j].year;
      assert rows[a].year == raw[j].year;
      var i := SortedPosition(rows, a);
      assert p[i].year == raw[j].year;
    }
  }

  /** Where a row ends up after sorting. */
  lemma SortedPosition(rows: seq<PivotRow>, a: nat) returns (i: nat)
    requires a < |rows|
    ensures i < |SortByYear(rows)| && SortByYear(rows)[i] == rows[a]
  {
    assert rows[a] in multiset(SortByYear(rows));
    i :| 0 <= i < |SortByYear(rows)| && SortByYear(rows)[i] == rows[a];
  }

  /**
    The pivot has exactly one row per distinct year of the raw data, sorted
    ascending, and row `Y`'s month `m` holds the temperature of the first raw
    entry with year `Y` and month `m`, or undefined if there is none.
  */
  lemma PivotIsYearByMonth(raw: seq<TempEntry>)
    ensures StrictlyAscending(Pivot(raw))
    ensures forall i :: 0 <= i < |Pivot(raw)| ==> HasYear(raw, Pivot(raw)[i].year)
    ensures forall j :: 0 <= j < |raw| ==> exists i :: 0 <= i < |Pivot(raw)| && Pivot(raw)[i].year == raw[j].year
    ensures forall i, k :: 0 <= i < |Pivot(raw)| && 0 <= k < |MonthKeys| ==>
              CellAt(Pivot(raw)[i], k) == FirstTemperature(raw, Pivot(raw)[i].year, MonthKeys[k])
  {
    var p := Pivot(raw);
    PivotRowsAreGroups(raw);
    PivotStrictlyAscending(raw);
    PivotCoversYears(raw);
    forall i, k | 0 <= i < |p| && 0 <= k < |MonthKeys|
      ensures CellAt(p[i], k) == FirstTemperature(raw, p[i].year, MonthKeys[k])
    {
      GroupFirstMonth(raw, p[i].year, MonthKeys[k]);
    }
  }

  /** A heatmap cell `{year, monthKey, monthName, temperature}`; `month` is the calendar position. */
  datatype HeatCell = HeatCell(year: int, month: nat, temperature: real) {
    function MonthKey(): string requires month < |MonthKeys| { MonthKeys[month] }
    function MonthName(): string requires month < |MonthNames| { MonthNames[month] }
  }

  /** The cells of one row for the first `k` months, skipping undefined ones. */
  function RowCells(row: PivotRow, k: nat): seq<HeatCell> {
    if k == 0 then []
    else
      var v := CellAt(row, k - 1);
      RowCells(row, k - 1) + (if v.Some? then [HeatCell(row.year, k - 1, v.value)] else [])
  }

  /** All cells, row by row; each row's cells in calendar order. */
  function HeatmapCellsOf(rows: seq<PivotRow>): seq<HeatCell> {
    if rows == [] then []
    else HeatmapCellsOf(rows[..|rows| - 1]) + RowCells(rows[|rows| - 1], |MonthKeys|)
  }

  /** The nested `forEach` of `renderTemperatureHeatmap` pushing one cell per defined value. */
  method HeatmapCells(rows: seq<PivotRow>) returns (heatmapCellsData: seq<HeatCell>)
    ensures heatmapCellsData == HeatmapCellsOf(rows)
  {
    heatmapCellsData := [];
    var i := 0;
    while i < |rows|
      invariant 0 <= i <= |rows|
      invariant heatmapCellsData == HeatmapCellsOf(rows[..i])
    {
      var yearRow := rows[i];
      var k := 0;
      while k < |MonthKeys|
        invariant 0 <= k <= |MonthKeys|
        invariant heatmapCellsData == HeatmapCellsOf(rows[..i]) + RowCells(yearRow, k)
      {
        var value := CellAt(yearRow, k);
        if value.Some? {
          heatmapCellsData := heatmapCellsData + [HeatCell(yearRow.year, k, value.value)];
        }
        k := k + 1;
      }
      assert rows[..i + 1][..i] == rows[..i];
      i := i + 1;
    }
    assert rows[..i] == rows;
  }

  /** `a` is drawn before `b`: an earlier row, or the same row and an earlier month. */
  predicate Before(a: HeatCell, b: HeatCell) {
    a.year < b.year || (a.year == b.year && a.month < b.month)
  }

  /** A row contributes exactly its defined months below `k`, in calendar order. */
  lemma {:induction false} RowCellsSpec(row: PivotRow, k: nat)
    ensures forall c :: c in RowCells(row, k) <==> c.year == row.year && c.month < k && CellAt(row, c.month) == Some(c.temperature)
    ensures forall a, b :: 0 <= a < b < |RowCells(row, k)| ==> RowCells(row, k)[a].month < RowCells(row, k)[b].month
  {
    if k > 0 {
      RowCellsSpec(row, k - 1);
    }
  }

  /**
    The heatmap holds one cell per (row, month) whose value is defined, and
    lists them in row order and, within a row, in calendar order.
  */
  lemma {:induction false} HeatmapCellsSpec(rows: seq<PivotRow>)
    ensures forall c :: c in HeatmapCellsOf(rows) <==>
              c.month < |MonthKeys| &&
              exists i :: 0 <= i < |rows| && rows[i].year == c.year && CellAt(rows[i], c.month) == Some(c.temperature)
    ensures StrictlyAscending(rows) ==>
              forall a, b :: 0 <= a < b < |HeatmapCellsOf(rows)| ==> Before(HeatmapCellsOf(rows)[a], HeatmapCellsOf(rows)[b])
  {
    if rows != [] {
      var init := rows[..|rows| - 1];
      var last := rows[|rows| - 1];
      HeatmapCellsSpec(init);
      RowCellsSpec(last, |MonthKeys|);
      var front := HeatmapCellsOf(init);
      var tail := RowCells(last, |MonthKeys|);
      assert HeatmapCellsOf(rows) == front + tail;
      forall c ensures c in HeatmapCellsOf(rows) <==>
              c.month < |MonthKeys| &&
              exists i :: 0 <= i < |rows| && rows[i].year == c.year && CellAt(rows[i], c.month) == Some(c.temperature)
      {
        if c in front {
          var i :| 0 <= i < |init| && init[i].year == c.year && CellAt(init[i], c.month) == Some(c.temperature);
          assert rows[i] == init[i];
        }
        if c.month < |MonthKeys| && exists i :: 0 <= i < |rows| && rows[i].year == c.year && CellAt(rows[i], c.month) == Some(c.temperature) {
          var i :| 0 <= i < |rows| && rows[i].year == c.year && CellAt(rows[i], c.month) == Some(c.temperature);
          if i < |init| {
            assert init[i] == rows[i];
          }
        }
      }
      if StrictlyAscending(rows) {
        assert StrictlyAscending(init);
        var all := HeatmapCellsOf(rows);
        forall a, b | 0 <= a < b < |all| ensures Before(all[a], all[b]) {
          if b >= |front| && a < |front| {
            var c := all[a];
            assert c in front;
            var i :| 0 <= i < |init| && init[i].year == c.year && CellAt(init[i], c.month) == Some(c.temperature);
            assert rows[i].year < last.year;
            assert all[b] in tail;
          } else if a >= |front| {
            assert all[a] == tail[a - |front|] && all[b] == tail[b - |front|];
          }
        }
      }
    }
  }

  /**
    The heatmap of the pivot: a cell is listed exactly when its year occurs in
    the raw data and its month has a first raw entry with that temperature;
    the list runs by year, then month.
  */
  lemma HeatmapOfPivot(raw: seq<TempEntry>)
    ensures forall c :: c in HeatmapCellsOf(Pivot(raw)) <==>
              c.month < |MonthKeys| && HasYear(raw, c.year) &&
              FirstTemperature(raw, c.year, MonthKeys[c.month]) == Some(c.temperature)
    ensures forall a, b :: 0 <= a < b < |HeatmapCellsOf(Pivot(raw))| ==>
              Before(HeatmapCellsOf(Pivot(raw))[a], HeatmapCellsOf(Pivot(raw))[b])
  {
    var p := Pivot(raw);
    PivotIsYearByMonth(raw);
    HeatmapCellsSpec(p);
    forall c: HeatCell | c.month < |MonthKeys| && HasYear(raw, c.year) &&
               FirstTemperature(raw, c.year, MonthKeys[c.month]) == Some(c.temperature)
      ensures c in HeatmapCellsOf(p)
    {
      var j :| 0 <= j < |raw| && raw[j].year == c.year;
      var i :| 0 <= i < |p| && p[i].year == raw[j].year;
      assert CellAt(p[i], c.month) == Some(c.temperature);
    }
  }

  /** One point of the monthly line chart: `{monthKey, monthName, value}` with `month` the calendar position. */
  datatype MonthPoint = MonthPoint(month: nat, value: Option<real>)

  /** `d.value !== undefined`: the month has a temperature. */
  predicate HasValue(d: MonthPoint) {
    d.value.Some?
  }

  /**
    The monthly line chart: blank with an empty year label for a falsy year,
    "No data for this year." when no raw entry has that year, else the series.
  */
  datatype MonthlyChart = Cleared | NoData(year: int) | Series(year: int, points: seq<MonthPoint>)

  /** `renderMonthlyTemperatureLineChart(_dataRaw, selectedYear)`; `None` stands for null. */
  function MonthlyTemperatureChart(raw: seq<TempEntry>, selectedYear: Option<int>): (c: MonthlyChart)
    ensures c.Cleared? <==> selectedYear.None? || selectedYear.value == 0
    ensures !c.Cleared? ==> c.year == selectedYear.value
  {
    if selectedYear.None? || selectedYear.value == 0 then Cleared
    else
      var y := selectedYear.value;
      var yearDataRaw := YearGroup(raw, y);
      if |yearDataRaw| == 0 then NoData(y)
      else
        var monthlyData := seq(|MonthKeys|, k requires 0 <= k < |MonthKeys| => MonthPoint(k, MonthValue(yearDataRaw, MonthKeys[k])));
        Series(y, Filter(monthlyData, HasValue))
  }

  /**
    The drill-down for a truthy year: "No data" exactly when no raw entry has
    that year; otherwise the months with an entry, in calendar order, each with
    the first matching entry's temperature.
  */
  lemma MonthlySeriesSpec(raw: seq<TempEntry>, y: int)
    requires y != 0
    ensures MonthlyTemperatureChart(raw, Some(y)).NoData? <==> !HasYear(raw, y)
    ensures MonthlyTemperatureChart(raw, Some(y)).Series? <==> HasYear(raw, y)
    ensures var c := MonthlyTemperatureChart(raw, Some(y));
            c.Series? ==>
              && c.year == y
              && MonthsAscending(c.points)
              && (forall i :: 0 <= i < |c.points| ==>
                    c.points[i].month < |MonthKeys| &&
                    c.points[i].value.Some? &&
                    c.points[i].value == FirstTemperature(raw, y, MonthKeys[c.points[i].month]))
              && (forall k :: 0 <= k < |MonthKeys| && FirstTemperature(raw, y, MonthKeys[k]).Some? ==>
                    MonthPoint(k, FirstTemperature(raw, y, MonthKeys[k])) in c.points)
  {
    var g := YearGroup(raw, y);
    var c := MonthlyTemperatureChart(raw, Some(y));
    if |g| > 0 {
      assert g[0] in raw;
    }
    if HasYear(raw, y) {
      var j :| 0 <= j < |raw| && raw[j].year == y;
      assert raw[j] in g;
      var monthlyData := seq(|MonthKeys|, k requires 0 <= k < |MonthKeys| => MonthPoint(k, MonthValue(g, MonthKeys[k])));
      assert c == Series(y, Filter(monthlyData, HasValue));
      forall k | 0 <= k < |MonthKeys|
        ensures monthlyData[k] == MonthPoint(k, FirstTemperature(raw, y, MonthKeys[k]))
      {
        GroupFirstMonth(raw, y, MonthKeys[k]);
      }
      FilterKeepsOrder(monthlyData);
      forall k | 0 <= k < |MonthKeys| && FirstTemperature(raw, y, MonthKeys[k]).Some?
        ensures MonthPoint(k, FirstTemperature(raw, y, MonthKeys[k])) in c.points
      {
        assert HasValue(monthlyData[k]);
      }
    }
  }

  /** Months strictly increase along the points. */
  ghost predicate MonthsAscending(points: seq<MonthPoint>) {
    forall a, b :: 0 <= a < b < |points| ==> points[a].month < points[b].month
  }

  /** Filtering the twelve month slots keeps them in calendar order. */
  lemma {:induction false} FilterKeepsOrder(slots: seq<MonthPoint>)
    requires MonthsAscending(slots)
    ensures MonthsAscending(Filter(slots, HasValue))
  {
    if slots != [] {
      assert MonthsAscending(slots[1..]) by {
        forall a, b | 0 <= a < b < |slots[1..]| ensures slots[1..][a].month < slots[1..][b].month {
          assert slots[1..][a] == slots[a + 1] && slots[1..][b] == slots[b + 1];
        }
      }
      FilterKeepsOrder(slots[1..]);
      var rest := Filter(slots[1..], HasValue);
      assert forall b :: 0 <= b < |rest| ==> slots[0].month < rest[b].month by {
        forall b | 0 <= b < |rest| ensures slots[0].month < rest[b].month {
          var i :| 0 <= i < |slots[1..]| && slots[1..][i] == rest[b];
          assert slots[i + 1] == rest[b];
        }
      }
      if slots[0].value.Some? {
        ConsAscending(slots[0], rest);
        assert Filter(slots, HasValue) == [slots[0]] + rest;
      } else {
        assert Filter(slots, HasValue) == rest;
      }
    }
  }

  /** A point placed before points of later months keeps the months ascending. */
  lemma ConsAscending(p: MonthPoint, rest: seq<MonthPoint>)
    requires MonthsAscending(rest)
    requires forall b :: 0 <= b < |rest| ==> p.month < rest[b].month
    ensures MonthsAscending([p] + rest)
  {
    var r := [p] + rest;
    forall a, b | 0 <= a < b < |r| ensures r[a].month < r[b].month {
      assert r[b] == rest[b - 1];
      if a > 0 {
        assert r[a] == rest[a - 1];
      }
    }
  }

  /** `selectedHeatmapYear` on load: the first raw entry's year, when there is one. */
  function InitialSelectedYear(raw: seq<TempEntry>): Option<int> {
    if |raw| > 0 then Some(raw[0].year) else None
  }

  /**
    On load the drill-down shows the year of the first raw entry, which always
    has data: the chart is a series unless that year is the falsy 0.
  */
  lemma InitialDrillDownHasData(raw: seq<TempEntry>)
    requires |raw| > 0
    ensures var c := MonthlyTemperatureChart(raw, InitialSelectedYear(raw));
            if raw[0].year == 0 then c.Cleared? else c.Series? && c.year == raw[0].year
  {
    if raw[0].year != 0 {
      assert HasYear(raw, raw[0].year);
      MonthlySeriesSpec(raw, raw[0].year);
    }
  }

  /**
    Clicking a heatmap cell selects its year, and the drill-down then shows the
    cell's month with the cell's temperature (unless the year is 0, which is
    falsy and clears the chart).
  */
  lemma ClickedCellAppearsInSeries(raw: seq<TempEntry>, c: HeatCell)
    requires c in HeatmapCellsOf(Pivot(raw)) && c.year != 0
    ensures MonthlyTemperatureChart(raw, Some(c.year)).Series?
    ensures MonthPoint(c.month, Some(c.temperature)) in MonthlyTemperatureChart(raw, Some(c.year)).points
  {
    HeatmapOfPivot(raw);
    MonthlySeriesSpec(raw, c.year);
  }
}
