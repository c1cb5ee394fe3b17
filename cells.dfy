/**
 * Cells: the values that sit in a CSV cell once it has been read, the way a
 * cell is read (`float(cell)`, falling back to the text) and the way a value is
 * written back.
 */
module Cells {
  import opened Wrappers

  /** A decoded cell: a float, or the text `float()` rejected. */
  datatype Cell = Num(x: real) | Str(s: string)

  /** The text of the sentinel that row filtering treats as a missing value. */
  const NoneText: string := "None"

  /**
   * The cell decoding of load_csv and load_csv_rows: `float(cell)`, and on
   * ValueError the cell itself. Float parsing is not modelled: `parse` stands
   * for `float()`, giving None where Python raises ValueError.
   */
  function Decode(parse: string -> Option<real>, cell: string): (c: Cell)
    ensures c.Str? <==> parse(cell).None?
    ensures c.Str? ==> c.s == cell
    ensures c.Num? ==> parse(cell) == Some(c.x)
  {
    match parse(cell)
    case Some(x) => Num(x)
    case None => Str(cell)
  }

  /**
   * How csv.writer writes one field: None as the empty string, text as it is,
   * a float through `show` (its repr, which is not modelled).
   */
  function Text(show: real -> string, v: Option<Cell>): string
  {
    match v
    case None => ""
    case Some(Str(s)) => s
    case Some(Num(x)) => show(x)
  }

  /** One written line: every field through Text. */
  function TextLine(show: real -> string, tuple: seq<Option<Cell>>): (line: seq<string>)
    ensures |line| == |tuple|
    ensures forall j | 0 <= j < |tuple| :: line[j] == Text(show, tuple[j])
  {
    seq(|tuple|, j requires 0 <= j < |tuple| => Text(show, tuple[j]))
  }

  /** Every written line of a list of tuples. */
  function TextLines(show: real -> string, tuples: seq<seq<Option<Cell>>>): (lines: seq<seq<string>>)
    ensures |lines| == |tuples|
    ensures forall i | 0 <= i < |tuples| :: lines[i] == TextLine(show, tuples[i])
  {
    seq(|tuples|, i requires 0 <= i < |tuples| => TextLine(show, tuples[i]))
  }
}
