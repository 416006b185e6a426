/**
 * Spreadsheet cells as the decoder hands them over: the first sheet becomes an array of rows,
 * each row an array of heterogeneous cell values, holes being `undefined`.
 */
module Cells {
  import opened Wrappers
  import opened JsStrings

  /**
   * One decoded cell. A number keeps its value and the text `String(n)` renders it as. The
   * model assumes, without enforcing it, that this text is the canonical rendering of the value
   * (as the decoder produces it); under that assumption equality of cells coincides with
   * JavaScript's `===` and with a `Map`'s key equality. Two `Num` cells with the same value but
   * different texts would be told apart here, where JavaScript sees one number.
   * `Empty` is `undefined`: a hole in the row or an index outside it.
   */
  datatype Cell = Empty | Bool(b: bool) | Num(value: real, text: string) | Str(s: string)

  type Row = seq<Cell>

  /** Row 0 is the header row. A missing row is modelled as an empty one: both are skipped. */
  type Table = seq<Row>

  /** JavaScript truthiness of a cell value. */
  predicate Truthy(c: Cell) {
    match c
    case Empty => false
    case Bool(b) => b
    case Num(v, _) => v != 0.0
    case Str(s) => s != ""
  }

  /** `String(c)`. */
  function Text(c: Cell): string {
    match c
    case Empty => "undefined"
    case Bool(b) => if b then "true" else "false"
    case Num(_, t) => t
    case Str(s) => s
  }

  /** `row[i]`: `undefined` for a negative index (a column that was not found) or past the end. */
  function CellAt(row: Row, i: int): Cell {
    if 0 <= i < |row| then row[i] else Empty
  }

  /**
   * `parseFloat(c) || 0`. A number parses back to itself; `undefined`, `true` and `false`
   * print as words and parse to NaN; a string goes through the decimal prefix parser.
   * NaN and 0 both become 0.
   */
  function ParseCost(c: Cell): real {
    match c
    case Empty => 0.0
    case Bool(_) => 0.0
    case Num(v, _) => v
    case Str(s) => ParseFloat(s).GetOr(0.0)
  }
}
