/**
  What the scatterplot and the radar chart of dataVis.js draw from the shared
  state: the style of each scatter mark (`renderScatterplot`,
  `updateScatterplotSelection`) and the legend and polygons of the radar
  (`renderRadarChart`). Positions are left abstract: a radar vertex records
  its axis, the value it encodes and the scale domain, not its coordinates.
*/
module Views {
  import opened Options
  import opened JsArray
  import opened Cells
  import opened Dataset
  import opened Selection

  /** The radius of a scatter mark: 5 when the size cell is not a number, else the [3, 15] size scale over `domain` at `value`. */
  datatype Radius = DefaultRadius | ScaledRadius(value: real, domain: (real, real))

  /** Fill, stroke width and radius of one scatter mark. */
  datatype MarkStyle = MarkStyle(fill: Color, strokeWidth: real, radius: Radius)

  /** The fill of a scatter mark: its identifier's colour when selected and coloured, grey otherwise. */
  function MarkFill(s: SelState, p: Point): Color {
    var identifier := Identifier(p.record);
    if IsSelected(s, p) then
      (if HasColor(s.colors, identifier) then s.colors[identifier] else UnselectedColor)
    else
      UnselectedColor
  }

  /** The radius of a scatter mark, from the cell in the size dimension. */
  function MarkRadius(parse: Parser, extents: map<string, (real, real)>, sizeDim: string, d: Record): Radius {
    var sizeValue := NumberAt(parse, d, sizeDim);
    if sizeValue.None? then DefaultRadius
    else ScaledRadius(sizeValue.value, if sizeDim in extents then extents[sizeDim] else (0.0, 1.0))
  }

  /** The marks of `renderScatterplot`, one per record in data order; nothing is drawn for no data. */
  function ScatterMarks(s: SelState, parse: Parser, extents: map<string, (real, real)>,
                        sizeDim: string, data: seq<Record>): (marks: seq<MarkStyle>)
    ensures |marks| == |data|
    ensures forall i :: 0 <= i < |data| ==>
      && marks[i].fill == MarkFill(s, Point(i, data[i]))
      && marks[i].strokeWidth == (if Point(i, data[i]) in s.points then 1.0 else 0.5)
      && marks[i].radius == MarkRadius(parse, extents, sizeDim, data[i])
    ensures forall i :: 0 <= i < |data| ==>
      (marks[i].radius.DefaultRadius? <==> NumberAt(parse, data[i], sizeDim).None?)
  {
    seq(|data|, i requires 0 <= i < |data| =>
      var p := Point(i, data[i]);
      MarkStyle(MarkFill(s, p), if IsSelected(s, p) then 1.0 else 0.5, MarkRadius(parse, extents, sizeDim, data[i])))
  }

  /**
    With a valid selection a mark shows a palette colour exactly when its record
    is selected and its identifier is coloured, and two such marks with
    different identifiers never show the same colour.
  */
  lemma FillShowsSelection(s: SelState, p: Point, q: Point)
    requires Valid(s)
    ensures MarkFill(s, p) in Palette <==> p in s.points && Identifier(p.record) in s.colors
    ensures (MarkFill(s, p) in Palette && MarkFill(s, q) in Palette &&
             Identifier(p.record) != Identifier(q.record)) ==> MarkFill(s, p) != MarkFill(s, q)
  {
    PaletteDistinct();
    assert "" !in Palette;
  }

  /**
    The size value of every mark lies within the extent used as the size
    scale's domain, so every radius drawn is between 3 and 15.
  */
  lemma RadiusWithinExtent(s: SelState, extents: map<string, (real, real)>, parse: Parser, data: seq<Record>,
                           dims: seq<string>, sizeDim: string, i: nat)
    requires ExtentsOf(extents, parse, data, dims)
    requires sizeDim in dims && i < |data|
    ensures var r := ScatterMarks(s, parse, extents, sizeDim, data)[i].radius;
            r.ScaledRadius? ==> r.domain == extents[sizeDim] && r.domain.0 <= r.value <= r.domain.1
  {
    var n := NumberAt(parse, data[i], sizeDim);
    if n.Some? {
      assert HasNumeric(parse, data, sizeDim);
      assert n.value in NumericValues(parse, data, sizeDim);
    }
  }

  /** One vertex of a radar polygon: axis index, dimension, the value drawn and the scale domain. */
  datatype RadarVertex = RadarVertex(axis: nat, dimension: string, value: real, domain: (real, real))

  /** A record's polygon: closed vertex list, the marker circles, and its colour. */
  datatype Polygon = Polygon(color: Color, vertices: seq<RadarVertex>, markers: seq<RadarVertex>)

  /** A legend label: the first dimension's value if truthy, else "Item n". */
  datatype Label = FieldLabel(v: Value) | ItemLabel(n: nat)

  /** One legend entry: swatch colour, label and the record its ✕ removes. */
  datatype LegendEntry = LegendEntry(point: Point, color: Color, caption: Label)

  /**
    The outcome of `renderRadarChart`: nothing touched without data; the
    instructional placeholder with an empty selection; polygons removed but no
    new ones without numeric dimensions; otherwise the legend and one polygon
    per selected record.
  */
  datatype RadarView =
    | Untouched
    | Placeholder
    | NoNumericAxes
    | Drawn(legend: seq<LegendEntry>, polygons: seq<Polygon>)

  /** The vertex on axis `k`: the record's number in that dimension, 0 when it has none. */
  function AxisVertex(parse: Parser, extents: map<string, (real, real)>, d: Record,
                      dims: seq<string>, k: nat): RadarVertex
    requires k < |dims|
  {
    var dim := dims[k];
    var value := NumberAt(parse, d, dim);
    var normalizedValue := if value.None? then 0.0 else value.value;
    RadarVertex(k, dim, normalizedValue, if dim in extents then extents[dim] else (0.0, 1.0))
  }

  /** `lineData`: one vertex per numeric dimension, then the first again to close the polygon. */
  function RadarLine(parse: Parser, extents: map<string, (real, real)>, d: Record, dims: seq<string>)
    : (line: seq<RadarVertex>)
    ensures |dims| == 0 ==> line == []
    ensures |dims| > 0 ==> |line| == |dims| + 1 && line[|dims|] == line[0]
    ensures forall k :: 0 <= k < |dims| ==> line[k].axis == k && line[k].dimension == dims[k]
    ensures forall k :: 0 <= k < |dims| && NumberAt(parse, d, dims[k]).Some? ==>
              line[k].value == NumberAt(parse, d, dims[k]).value
    ensures forall k :: 0 <= k < |dims| && NumberAt(parse, d, dims[k]).None? ==> line[k].value == 0.0
    ensures forall k :: 0 <= k < |dims| ==>
              line[k].domain == if dims[k] in extents then extents[dims[k]] else (0.0, 1.0)
  {
    var lineData := seq(|dims|, k requires 0 <= k < |dims| => AxisVertex(parse, extents, d, dims, k));
    if |lineData| > 0 then lineData + [lineData[0]] else lineData
  }

  /** The construction of `lineData`: map the numeric dimensions to vertices, then push the first one again. */
  method BuildLineData(parse: Parser, extents: map<string, (real, real)>, dataPoint: Record, numericDimensions: seq<string>)
    returns (lineData: seq<RadarVertex>)
    ensures lineData == RadarLine(parse, extents, dataPoint, numericDimensions)
  {
    lineData := seq(|numericDimensions|, k requires 0 <= k < |numericDimensions| =>
      AxisVertex(parse, extents, dataPoint, numericDimensions, k));
    if |lineData| > 0 {
      lineData := lineData + [lineData[0]];
    }
  }

  /** `lineData.slice(0, -1)`: the marker circles, without the closing repeat. */
  function Markers(line: seq<RadarVertex>): seq<RadarVertex> {
    if |line| == 0 then [] else line[..|line| - 1]
  }

  /** `colorAssignments[identifier] || colorScale(i)`, the ordinal fallback taken as the i-th palette entry. */
  function PointColor(s: SelState, p: Point, i: nat): Color {
    var identifier := Identifier(p.record);
    if HasColor(s.colors, identifier) then s.colors[identifier] else Palette[i % |Palette|]
  }

  /** The legend label of the i-th selected record. */
  function LegendLabel(d: Record, dims: seq<string>, i: nat): Label {
    if |dims| > 0 && TruthyField(d, dims[0]) then FieldLabel(d[dims[0]]) else ItemLabel(i + 1)
  }

  /**
    `renderRadarChart`. When it draws, the legend lists the selection in order
    and the polygons are exactly one per selected record, each with one vertex
    per numeric dimension plus the closing repeat and one marker per numeric
    dimension, in the same colour as its legend swatch and, for a coloured
    record, its scatter mark.
  */
  function RenderRadar(s: SelState, parse: Parser, data: seq<Record>, dims: seq<string>,
                       extents: map<string, (real, real)>): (v: RadarView)
    ensures v.Untouched? <==> data == []
    ensures v.Placeholder? <==> data != [] && s.points == []
    ensures v.NoNumericAxes? <==> data != [] && s.points != [] && NumericDims(parse, data, dims) == []
    ensures v.Drawn? ==>
      var n := |NumericDims(parse, data, dims)|;
      && |v.legend| == |v.polygons| == |s.points|
      && forall i :: 0 <= i < |s.points| ==>
           && v.legend[i].point == s.points[i]
           && v.legend[i].caption == LegendLabel(s.points[i].record, dims, i)
           && v.polygons[i].vertices == RadarLine(parse, extents, s.points[i].record, NumericDims(parse, data, dims))
           && v.polygons[i].color == v.legend[i].color
           && |v.polygons[i].vertices| == n + 1
           && v.polygons[i].vertices[n] == v.polygons[i].vertices[0]
           && |v.polygons[i].markers| == n
           && v.polygons[i].markers == v.polygons[i].vertices[..n]
           && (HasColor(s.colors, Identifier(s.points[i].record)) ==>
                 v.polygons[i].color == MarkFill(s, s.points[i]))
  {
    if data == [] then Untouched
    else if s.points == [] then Placeholder
    else
      var numericDimensions := NumericDims(parse, data, dims);
      if numericDimensions == [] then NoNumericAxes
      else
        var legend := seq(|s.points|, i requires 0 <= i < |s.points| =>
          LegendEntry(s.points[i], PointColor(s, s.points[i], i), LegendLabel(s.points[i].record, dims, i)));
        var polygons := seq(|s.points|, i requires 0 <= i < |s.points| =>
          var lineData := RadarLine(parse, extents, s.points[i].record, numericDimensions);
          Polygon(PointColor(s, s.points[i], i), lineData, Markers(lineData)));
        Drawn(legend, polygons)
  }

  /**
    With the extents computed from the same data, every radar vertex is scaled
    over its own dimension's extent (the `[0, 1]` fallback never applies), and
    a vertex for a record with a number there lies within that extent.
  */
  lemma RadarDomainsAreExtents(extents: map<string, (real, real)>, parse: Parser, data: seq<Record>,
                               dims: seq<string>, i: nat, k: nat)
    requires ExtentsOf(extents, parse, data, dims)
    requires i < |data| && k < |NumericDims(parse, data, dims)|
    ensures var nd := NumericDims(parse, data, dims);
            var vx := RadarLine(parse, extents, data[i], nd)[k];
            && vx.domain == extents[nd[k]]
            && (NumberAt(parse, data[i], nd[k]).Some? ==> vx.domain.0 <= vx.value <= vx.domain.1)
  {
    var nd := NumericDims(parse, data, dims);
    var dim := nd[k];
    assert dim in extents && IsExtent(extents[dim], NumericValues(parse, data, dim)) by {
      NumericDimsHaveExtents(extents, parse, data, dims);
    }
    var n := NumberAt(parse, data[i], dim);
    if n.Some? {
      assert n.value in NumericValues(parse, data, dim);
    }
  }

  /**
    When every selected point is the record at its row of the data, every
    vertex of every drawn polygon is scaled over its own dimension's extent,
    and a vertex for a number the record holds lies within that extent.
  */
  lemma DrawnPolygonsWithinExtents(s: SelState, extents: map<string, (real, real)>, parse: Parser,
                                   data: seq<Record>, dims: seq<string>, i: nat, k: nat)
    requires ExtentsOf(extents, parse, data, dims)
    requires forall p :: p in s.points ==> p.row < |data| && data[p.row] == p.record
    requires RenderRadar(s, parse, data, dims, extents).Drawn?
    requires i < |s.points| && k < |NumericDims(parse, data, dims)|
    ensures var nd := NumericDims(parse, data, dims);
            var vx := RenderRadar(s, parse, data, dims, extents).polygons[i].vertices[k];
            && vx.domain == extents[nd[k]]
            && (NumberAt(parse, s.points[i].record, nd[k]).Some? ==> vx.domain.0 <= vx.value <= vx.domain.1)
  {
    var p := s.points[i];
    assert p in s.points;
    RadarDomainsAreExtents(extents, parse, data, dims, p.row, k);
  }
}
