/**
  The loaded dataset (dataVis.js): records, the identifier a record is keyed by
  in the colour map, and the per-dimension structure derived in `initVis`
  and `renderRadarChart` (extents and the numeric dimensions).
*/
module Dataset {
  import opened Options
  import opened JsArray
  import opened Cells

  /** One parsed row: column name to coerced cell. */
  type Record = map<string, Value>

  /** `+d[dim]`: the cell's number, or None (NaN) when it is missing or not numeric. */
  function NumberAt(parse: Parser, d: Record, dim: string): Option<real> {
    if dim in d then ToNumber(parse, d[dim]) else None
  }

  /** `d[key]` is truthy (a missing key reads as undefined, which is falsy). */
  predicate TruthyField(d: Record, key: string) {
    key in d && Truthy(d[key])
  }

  /**
    What `getDataPointIdentifier` returns: the value of a truthy `Year` or `ID`
    field, or the record's JSON text, which is determined by its content.
  */
  datatype Ident = Key(v: Value) | Structural(rec: Record)

  /** `d.Year || d.ID || JSON.stringify(d)`. */
  function Identifier(d: Record): (id: Ident)
    ensures id.Key? <==> TruthyField(d, "Year") || TruthyField(d, "ID")
    ensures id.Key? ==> Truthy(id.v)
    ensures TruthyField(d, "Year") ==> id.v == d["Year"]
    ensures !TruthyField(d, "Year") && TruthyField(d, "ID") ==> id.v == d["ID"]
    ensures id.Structural? ==> id.rec == d
  {
    if TruthyField(d, "Year") then Key(d["Year"])
    else if TruthyField(d, "ID") then Key(d["ID"])
    else Structural(d)
  }

  /** Some record has a number in column `dim`. */
  ghost predicate HasNumeric(parse: Parser, data: seq<Record>, dim: string) {
    exists i :: 0 <= i < |data| && NumberAt(parse, data[i], dim).Some?
  }

  /**
    `_data.map((d) => +d[dim]).filter((v) => !isNaN(v))`: exactly the numbers
    the records hold in column `dim`.
  */
  function NumericValues(parse: Parser, data: seq<Record>, dim: string): (vs: seq<real>)
    ensures |vs| > 0 <==> HasNumeric(parse, data, dim)
    ensures forall i :: 0 <= i < |data| && NumberAt(parse, data[i], dim).Some? ==>
              NumberAt(parse, data[i], dim).value in vs
    ensures forall v :: v in vs ==> exists i :: 0 <= i < |data| && NumberAt(parse, data[i], dim) == Some(v)
  {
    if data == [] then []
    else
      var head := NumberAt(parse, data[0], dim);
      var rest := NumericValues(parse, data[1..], dim);
      assert forall i :: 1 <= i < |data| ==> data[i] == data[1..][i - 1];
      assert HasNumeric(parse, data[1..], dim) ==> HasNumeric(parse, data, dim) by {
        if HasNumeric(parse, data[1..], dim) {
          var j :| 0 <= j < |data[1..]| && NumberAt(parse, data[1..][j], dim).Some?;
          assert NumberAt(parse, data[j + 1], dim).Some?;
        }
      }
      (if head.Some? then [head.value] else []) + rest
  }

  /** `e` is the (min, max) of a non-empty list: both ends occur and bound every value. */
  ghost predicate IsExtent(e: (real, real), vs: seq<real>) {
    e.0 in vs && e.1 in vs && forall v :: v in vs ==> e.0 <= v <= e.1
  }

  /** `d3.extent(values)` on a non-empty list of numbers. */
  function Extent(vs: seq<real>): (e: (real, real))
    requires |vs| > 0
    ensures IsExtent(e, vs)
  {
    if |vs| == 1 then (vs[0], vs[0])
    else
      var rest := Extent(vs[1..]);
      assert forall v :: v in vs ==> v == vs[0] || v in vs[1..];
      (if vs[0] < rest.0 then vs[0] else rest.0, if vs[0] > rest.1 then vs[0] else rest.1)
  }

  /**
    The contract of the extents dictionary of `initVis`: exactly the dimensions
    holding at least one number have an entry, and it is their (min, max).
  */
  ghost predicate ExtentsOf(extents: map<string, (real, real)>, parse: Parser, data: seq<Record>, dims: seq<string>) {
    && (forall dim :: dim in extents <==> dim in dims && HasNumeric(parse, data, dim))
    && (forall dim :: dim in extents ==> IsExtent(extents[dim], NumericValues(parse, data, dim)))
  }

  /** The `dimensions.forEach` loop of `initVis` that fills `extents`. */
  method ComputeExtents(parse: Parser, data: seq<Record>, dims: seq<string>)
    returns (extents: map<string, (real, real)>)
    ensures ExtentsOf(extents, parse, data, dims)
  {
    extents := map[];
    var i := 0;
    while i < |dims|
      invariant 0 <= i <= |dims|
      invariant forall dim :: dim in extents <==> dim in dims[..i] && HasNumeric(parse, data, dim)
      invariant forall dim :: dim in extents ==> IsExtent(extents[dim], NumericValues(parse, data, dim))
    {
      var dim := dims[i];
      var values := NumericValues(parse, data, dim);
      if |values| > 0 {
        extents := extents[dim := Extent(values)];
      }
      assert dims[..i + 1] == dims[..i] + [dim];
      i := i + 1;
    }
    assert dims[..i] == dims;
  }

  /**
    The radar's numeric dimensions: `dimensions.filter` keeping a dimension iff
    some record has a number in it, in column order.
  */
  function NumericDims(parse: Parser, data: seq<Record>, dims: seq<string>): (r: seq<string>)
    ensures forall k :: 0 <= k < |r| ==> r[k] in dims && HasNumeric(parse, data, r[k])
    ensures forall k :: 0 <= k < |dims| && HasNumeric(parse, data, dims[k]) ==> dims[k] in r
  {
    Filter(dims, dim => |NumericValues(parse, data, dim)| > 0)
  }

  /**
    Every numeric dimension has an extent, so the `|| [0, 1]` domain fallback of
    the radar scales is never taken.
  */
  lemma NumericDimsHaveExtents(extents: map<string, (real, real)>, parse: Parser, data: seq<Record>, dims: seq<string>)
    requires ExtentsOf(extents, parse, data, dims)
    ensures forall k :: 0 <= k < |NumericDims(parse, data, dims)| ==> NumericDims(parse, data, dims)[k] in extents
  {
  }

  /** Two records with the same truthy `Year` share an identifier, whatever else they hold. */
  lemma SameYearSameIdentifier(d1: Record, d2: Record)
    requires TruthyField(d1, "Year") && "Year" in d2 && d2["Year"] == d1["Year"]
    ensures Identifier(d1) == Identifier(d2)
  {
  }
}
