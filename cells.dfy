/**
  Cells of the uploaded table (dataVis.js, CSV parsing callback). Every cell is
  coerced once at load time: it becomes a number when JavaScript's unary `+`
  parses it and it is not the empty string, and stays text otherwise.
*/
module Cells {
  import opened Options

  /** A cell after coercion: a JavaScript number (never NaN) or the original text. */
  datatype Value = Num(x: real) | Text(s: string)

  /**
    JavaScript's unary `+` on a NON-EMPTY string: the number it denotes, or None
    for NaN. Number syntax (whitespace, hex, exponents, Infinity) is left abstract.
  */
  type Parser = string -> Option<real>

  /** Unary `+` on any string; the empty string converts to 0. */
  function StringToNumber(parse: Parser, s: string): Option<real> {
    if s == "" then Some(0.0) else parse(s)
  }

  /** Unary `+` on a coerced cell. */
  function ToNumber(parse: Parser, v: Value): Option<real> {
    match v
    case Num(x) => Some(x)
    case Text(s) => StringToNumber(parse, s)
  }

  /** JavaScript truthiness of a cell: 0 and the empty string are falsy. */
  predicate Truthy(v: Value) {
    match v
    case Num(x) => x != 0.0
    case Text(s) => s != ""
  }

  /**
    The per-cell coercion: keep the text when it is empty or does not parse,
    otherwise store the number. Coercion never changes what `+cell` yields later.
  */
  function Coerce(parse: Parser, raw: string): (v: Value)
    ensures v.Num? <==> raw != "" && parse(raw).Some?
    ensures v.Text? ==> v.s == raw
    ensures ToNumber(parse, v) == StringToNumber(parse, raw)
  {
    var numVal := StringToNumber(parse, raw);
    if numVal.None? || raw == "" then Text(raw) else Num(numVal.value)
  }

  /**
    The row callback: `for (const key in d)` copies every column of the raw row
    into a new object, coerced.
  */
  method CoerceRow(parse: Parser, d: map<string, string>) returns (newD: map<string, Value>)
    ensures newD.Keys == d.Keys
    ensures forall key :: key in d ==> newD[key] == Coerce(parse, d[key])
  {
    newD := map[];
    var remaining := d.Keys;
    while remaining != {}
      invariant remaining <= d.Keys
      invariant newD.Keys == d.Keys - remaining
      invariant forall key :: key in newD ==> newD[key] == Coerce(parse, d[key])
      decreases remaining
    {
      var key :| key in remaining;
      newD := newD[key := Coerce(parse, d[key])];
      remaining := remaining - {key};
    }
  }
}
