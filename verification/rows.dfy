/** A table row as `csv.DictReader` yields it, and the two ways the
    scripts read a cell: `row[key]`, which raises when the column is
    missing, and `safe_get(row, key, default)`, which does not. */
module Rows {
  import opened Wrappers
  import opened Numbers

  /** Column name to cell text; every column of the table's header is a key. */
  type Row = map<string, string>

  /** The exceptions a row can raise, which end the script's run. */
  datatype PyError =
    | KeyError(key: string)     // `row[key]` on a column the table lacks
    | ValueError(text: string)  // `int(text)` / `float(text)` on text they reject
    | IndexError                // `parts[1]` on a one-piece split
    | TypeError                 // arithmetic on `None`, or `None` formatted as `04d`

  /** The two copies of the conversion script: the one under `public/`
      and the older one under `src/`. */
  datatype Variant = Public | Legacy

  /** `safe_get(row, key)`. */
  function Get(row: Row, key: string): (r: Option<string>)
    ensures r.Some? <==> key in row
  {
    if key in row then Some(row[key]) else None
  }

  /** `safe_get(row, key, default)`. */
  function GetOr(row: Row, key: string, default: string): string {
    Get(row, key).GetOr(default)
  }

  /** `row[key]`. */
  function Cell(row: Row, key: string): (r: Result<string, PyError>)
    ensures r.Failure? <==> key !in row
  {
    if key in row then Success(row[key]) else Failure(KeyError(key))
  }

  /** `int(text)`, which raises on text it cannot read. */
  function Int(text: string): (r: Result<int, PyError>)
    ensures r.Success? <==> ParseInt(text).Some?
  {
    match ParseInt(text)
    case Some(n) => Success(n)
    case None => Failure(ValueError(text))
  }

  /** `float(text)`, which raises on text it cannot read. */
  function Float(text: string): (r: Result<real, PyError>)
    ensures r.Success? <==> ParseFloat(text).Some?
  {
    match ParseFloat(text)
    case Some(x) => Success(x)
    case None => Failure(ValueError(text))
  }

  /** `float(row[key]) if row[key] else None`: a missing column raises
      `KeyError`, a blank cell is null, and any other cell is `float()` of
      its text, which raises `ValueError` on text it cannot read. */
  function FloatOrNone(row: Row, key: string): (r: Result<Option<real>, PyError>)
    ensures r == Success(None) <==> key in row && row[key] == ""
    ensures key !in row ==> r == Failure(KeyError(key))
    ensures key in row && row[key] != "" ==>
      (if ParseFloat(row[key]).Some? then r == Success(Some(ParseFloat(row[key]).value))
       else r == Failure(ValueError(row[key])))
  {
    var text :- Cell(row, key);
    if text == "" then Success(None)
    else
      var x :- Float(text);
      Success(Some(x))
  }

  /** `float(row[key]) if row[key] else 0`: as `FloatOrNone`, with 0 for
      a blank cell. */
  function FloatOrZero(row: Row, key: string): (r: Result<real, PyError>)
    ensures key in row && row[key] == "" ==> r == Success(0.0)
    ensures key !in row ==> r == Failure(KeyError(key))
    ensures key in row && row[key] != "" ==>
      (if ParseFloat(row[key]).Some? then r == Success(ParseFloat(row[key]).value)
       else r == Failure(ValueError(row[key])))
  {
    var text :- Cell(row, key);
    if text == "" then Success(0.0) else Float(text)
  }
}
