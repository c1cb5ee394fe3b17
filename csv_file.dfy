/**
 * CsvFiles: the writing side of the library and append_csv_rows, over a file
 * held in memory. A file is whether it exists plus its lines, each already
 * split into cells; the csv writer's quoting and the tab delimiter are not
 * part of the model.
 */
module CsvFiles {
  import opened Wrappers
  import opened Errors
  import opened Seqs
  import opened Strings
  import opened Dicts
  import opened Cells
  import opened RowTabulator
  import opened CsvLoader

  /** A file that write_csv_rows left: its header line, then the rows' tuples under that header. */
  predicate RowsFile(lines: seq<seq<string>>, rows: seq<Row<Cell>>, headers: Option<seq<string>>,
                     show: real -> string)
  {
    && |lines| == |rows| + 1
    && (headers.Some? ==> lines[0] == headers.value)
    && (headers.None? ==> StrictlySorted(lines[0]) && Elems(lines[0]) == AllKeys(rows))
    && lines[1..] == TextLines(show, Tuples(rows, lines[0]))
  }

  /** `columns.keys()`, in the dictionary's order. */
  function Names(columns: Dict<seq<Cell>>): seq<string>
  {
    seq(|columns|, j requires 0 <= j < |columns| => columns[j].0)
  }

  /** The length of the shortest column, where `izip` stops; 0 when there is no column. */
  function Shortest(columns: Dict<seq<Cell>>): (n: nat)
    ensures forall j | 0 <= j < |columns| :: n <= |columns[j].1|
    ensures columns != [] ==> exists j | 0 <= j < |columns| :: n == |columns[j].1|
    ensures columns == [] ==> n == 0
    decreases |columns|
  {
    if columns == [] then 0
    else if |columns| == 1 then |columns[0].1|
    else
      var init := columns[..|columns| - 1];
      var m := Shortest(init);
      assert forall j | 0 <= j < |init| :: init[j] == columns[j];
      var last := |columns[|columns| - 1].1|;
      if last < m then last else m
  }

  /** `izip(*[columns[key] for key in headers])`: row `i` holds entry `i` of every column. */
  function Zipped(columns: Dict<seq<Cell>>): seq<seq<Option<Cell>>>
  {
    var n := Shortest(columns);
    seq(n, i requires 0 <= i < n =>
      seq(|columns|, j requires 0 <= j < |columns| && i < |columns[j].1| => Some(columns[j].1[i])))
  }

  /** The file write_csv_columns leaves. */
  function ColumnLines(columns: Dict<seq<Cell>>, show: real -> string): seq<seq<string>>
  {
    [Names(columns)] + TextLines(show, Zipped(columns))
  }

  /** What write_csv does with the arguments it was given. */
  datatype WriteChoice = WriteColumns | WriteRows | Refuse(error: Error)

  /**
   * write_csv's dispatch as written (lines 98-104). The rows branch calls
   * `write_csv_rows(fname, columns)`, and `columns` is None there, so
   * rows_to_tuples raises TypeError at `list(None)`: rows are never written.
   */
  function ChoiceAsWritten(hasColumns: bool, hasRows: bool): (c: WriteChoice)
    ensures c != WriteRows
    ensures c.Refuse? <==> !hasColumns
    ensures !hasColumns && hasRows ==> c == Refuse(RowsNotIterable)
  {
    if hasColumns then WriteColumns
    else if hasRows then Refuse(RowsNotIterable)
    else Refuse(NothingToWrite)
  }

  /** The dispatch evidently intended: columns if given, else rows if given, else the error. */
  function Choice(hasColumns: bool, hasRows: bool): (c: WriteChoice)
    ensures c.Refuse? <==> !hasColumns && !hasRows
    ensures c.Refuse? ==> c.error == NothingToWrite
    ensures c == WriteRows <==> !hasColumns && hasRows
  {
    if hasColumns then WriteColumns
    else if hasRows then WriteRows
    else Refuse(NothingToWrite)
  }

  /** The two dispatches differ exactly when only rows are given. */
  lemma ChoiceFinding(hasColumns: bool, hasRows: bool)
    ensures ChoiceAsWritten(hasColumns, hasRows) != Choice(hasColumns, hasRows) <==> !hasColumns && hasRows
  {
  }

  /** `list(old_headers_set | headers_set)`: the union, each name once, in an order Python leaves open. */
  method UnionHeader(oldNames: seq<string>, newNames: seq<string>) returns (u: seq<string>)
    ensures NoDup(u)
    ensures Elems(u) == Elems(oldNames) + Elems(newNames)
  {
    u := [];
    var all := oldNames + newNames;
    var i := 0;
    while i < |all|
      invariant 0 <= i <= |all|
      invariant NoDup(u)
      invariant Elems(u) == Elems(all[..i])
    {
      assert all[..i + 1] == all[..i] + [all[i]];
      assert Elems(all[..i + 1]) == Elems(all[..i]) + {all[i]};
      if all[i] !in u {
        assert Elems(u + [all[i]]) == Elems(u) + {all[i]};
        u := u + [all[i]];
      }
      i := i + 1;
    }
    assert all[..|all|] == all;
    assert Elems(all) == Elems(oldNames) + Elems(newNames);
  }

  /** No data line of the file is wider than its header line. */
  predicate Fits(file: seq<seq<string>>)
    requires file != []
  {
    forall i | 1 <= i < |file| :: |file[i]| <= |file[0]|
  }

  /** Reloading a file whose lines fit its header gives one dictionary per data line. */
  lemma Reloaded(file: seq<seq<string>>, parse: string -> Option<real>, k: nat)
    requires file != [] && Fits(file) && 1 <= k < |file|
    ensures Loaded(file[1..], file[0], false, false, parse).Ok?
    ensures var rs := Loaded(file[1..], file[0], false, false, parse).value;
      |rs| == |file| - 1 && rs[k - 1] == ZipRow(file[0], file[k], parse)
  {
    var data := file[1..];
    assert forall i | 0 <= i < |data| :: data[i] == file[i + 1];
    LoadedAll(data, file[0], parse);
  }

  /**
   * In the rewrite branch of append_csv_rows, every cell of an old data line
   * is written again under its own column name, as it reads back through
   * `float()`, and the new rows follow the old ones.
   */
  lemma RewriteKeepsOldCells(file: seq<seq<string>>, rows: seq<Row<Cell>>, u: seq<string>,
                             parse: string -> Option<real>, show: real -> string, k: nat, j: nat, p: nat)
    requires file != [] && Fits(file) && NoDup(file[0])
    requires 1 <= k < |file| && j < |file[k]| && p < |u| && u[p] == file[0][j]
    ensures Loaded(file[1..], file[0], false, false, parse).Ok?
    ensures var rs := Loaded(file[1..], file[0], false, false, parse).value;
      && |rs| == |file| - 1
      && TextLines(show, Tuples(rs + rows, u))[k - 1][p] == Text(show, Some(Decode(parse, file[k][j])))
  {
    Reloaded(file, parse, k);
    var rs := Loaded(file[1..], file[0], false, false, parse).value;
    assert Get(rs[k - 1], u[p]) == Some(Decode(parse, file[k][j])) by {
      ZipRowAt(file[0], file[k], parse, j);
    }
    var ts := Tuples(rs + rows, u);
    assert ts[k - 1] == TupleOf(rs[k - 1], u) by {
      assert (rs + rows)[k - 1] == rs[k - 1];
    }
    assert TextLines(show, ts)[k - 1] == TextLine(show, ts[k - 1]);
  }

  /** A tab-separated file: whether it exists, and its lines split into cells. */
  class CsvFile {
    var present: bool
    var lines: seq<seq<string>>

    /** A file that does not exist has no lines. */
    ghost predicate Valid()
      reads this
    {
      !present ==> lines == []
    }

    constructor (present: bool, lines: seq<seq<string>>)
      requires !present ==> lines == []
      ensures Valid()
      ensures this.present == present && this.lines == lines
    {
      this.present := present;
      this.lines := lines;
    }

    /** write_csv_headers_rows (lines 91-96): the file is replaced by the header line and one line per row. */
    method WriteHeadersRows(headers: seq<string>, rows: seq<seq<Option<Cell>>>, show: real -> string)
      modifies this
      ensures Valid() && present
      ensures lines == [headers] + TextLines(show, rows)
    {
      present := true;
      lines := [headers];
      var i := 0;
      while i < |rows|
        invariant 0 <= i <= |rows|
        invariant present
        invariant lines == [headers] + TextLines(show, rows[..i])
      {
        assert TextLines(show, rows[..i + 1]) == TextLines(show, rows[..i]) + [TextLine(show, rows[i])];
        lines := lines + [TextLine(show, rows[i])];
        i := i + 1;
      }
      assert rows[..|rows|] == rows;
    }

    /** The append at lines 162-165: one line per tuple after the existing lines. */
    method AppendLines(rows: seq<seq<Option<Cell>>>, show: real -> string)
      requires Valid() && present
      modifies this
      ensures Valid() && present
      ensures lines == old(lines) + TextLines(show, rows)
    {
      var i := 0;
      while i < |rows|
        invariant 0 <= i <= |rows|
        invariant present
        invariant lines == old(lines) + TextLines(show, rows[..i])
      {
        assert TextLines(show, rows[..i + 1]) == TextLines(show, rows[..i]) + [TextLine(show, rows[i])];
        lines := lines + [TextLine(show, rows[i])];
        i := i + 1;
      }
      assert rows[..|rows|] == rows;
    }

    /** write_csv_rows (lines 111-113): rows_to_tuples, then the file is rewritten. */
    method WriteCsvRows(rows: seq<Row<Cell>>, headers: Option<seq<string>>, show: real -> string)
      modifies this
      ensures Valid() && present
      ensures RowsFile(lines, rows, headers, show)
    {
      var hs, tuples := RowsToTuples(rows, headers);
      WriteHeadersRows(hs, tuples, show);
    }

    /**
     * write_csv_columns (lines 106-109): the header is the column names; line
     * `i` holds entry `i` of every column, for as many lines as the shortest
     * column has entries.
     */
    method WriteCsvColumns(columns: Dict<seq<Cell>>, show: real -> string)
      modifies this
      ensures Valid() && present
      ensures lines == ColumnLines(columns, show)
      ensures |lines| == Shortest(columns) + 1 && lines[0] == Names(columns)
      ensures forall i, j | 0 <= i < Shortest(columns) && 0 <= j < |columns| ::
        |lines[1..][i]| == |columns| && lines[1..][i][j] == Text(show, Some(columns[j].1[i]))
    {
      var n := 0;
      if columns != [] {
        n := |columns[0].1|;
        var j := 1;
        while j < |columns|
          invariant 1 <= j <= |columns|
          invariant n == Shortest(columns[..j])
        {
          assert columns[..j + 1][..j] == columns[..j];
          if |columns[j].1| < n {
            n := |columns[j].1|;
          }
          j := j + 1;
        }
        assert columns[..|columns|] == columns;
      }
      var zipped := seq(n, i requires 0 <= i < n =>
        seq(|columns|, j requires 0 <= j < |columns| && i < |columns[j].1| => Some(columns[j].1[i])));
      WriteHeadersRows(Names(columns), zipped, show);
    }

    /** write_csv (lines 98-104), with the rows branch as evidently intended (see ChoiceAsWritten). */
    method WriteCsv(columns: Option<Dict<seq<Cell>>>, rows: Option<seq<Row<Cell>>>, show: real -> string)
      returns (r: Result<(), Error>)
      requires Valid()
      modifies this
      ensures Valid()
      ensures r.Err? <==> Choice(columns.Some?, rows.Some?).Refuse?
      ensures r.Err? ==> r.error == NothingToWrite && present == old(present) && lines == old(lines)
      ensures columns.Some? ==> present && lines == ColumnLines(columns.value, show)
      ensures columns.None? && rows.Some? ==> present && RowsFile(lines, rows.value, None, show)
    {
      match Choice(columns.Some?, rows.Some?)
      case WriteColumns =>
        WriteCsvColumns(columns.value, show);
        r := Ok(());
      case WriteRows =>
        WriteCsvRows(rows.value, None, show);
        r := Ok(());
      case Refuse(e) =>
        r := Err(e);
    }

    /**
     * append_csv_rows (lines 132-165). A missing file gets the header and all
     * rows. On an existing file, new names that are all among the old header's
     * mean an append under the old header; any new name means the union header,
     * the old rows reloaded, and the whole file rewritten.
     */
    method AppendCsvRows(rows: seq<Row<Cell>>, headers: Option<seq<string>>, parse: string -> Option<real>,
                         show: real -> string) returns (r: Result<(), Error>)
      requires Valid()
      modifies this
      ensures Valid()
      ensures r.Err? ==> present == old(present) && lines == old(lines)
      // the file does not exist: written from scratch
      ensures !old(present) ==> r.Ok? && present && RowsFile(lines, rows, headers, show)
      // `reader.next()` on an empty file
      ensures old(present) && old(lines) == [] ==> r == Err(EmptyFile)
      // `set(None)`
      ensures old(present) && old(lines) != [] && headers.None? ==> r == Err(HeadersRequired)
      // no new name: the old lines stay, the rows follow under the old header
      ensures old(present) && old(lines) != [] && headers.Some? && Elems(headers.value) <= Elems(old(lines)[0]) ==>
        && r.Ok?
        && lines == old(lines) + TextLines(show, Tuples(rows, old(lines)[0]))
      // a new name: union header, then the old rows as reloaded, then the new rows
      ensures old(present) && old(lines) != [] && headers.Some? && !(Elems(headers.value) <= Elems(old(lines)[0])) ==>
        var reloaded := Loaded(old(lines)[1..], old(lines)[0], false, false, parse);
        && (reloaded.Err? ==> r == Err(RowTooLong))
        && (reloaded.Ok? ==>
             && r.Ok? && present && lines != []
             && NoDup(lines[0])
             && Elems(lines[0]) == Elems(old(lines)[0]) + Elems(headers.value)
             && lines[1..] == TextLines(show, Tuples(reloaded.value + rows, lines[0])))
    {
      if !present {
        WriteCsvRows(rows, headers, show);
        return Ok(());
      }
      if lines == [] {
        return Err(EmptyFile);
      }
      var oldHeaders := lines[0];
      if headers.None? {
        return Err(HeadersRequired);
      }
      if Elems(headers.value) <= Elems(oldHeaders) {
        var hs, tuples := RowsToTuples(rows, Some(oldHeaders));
        AppendLines(tuples, show);
        return Ok(());
      }
      var union := UnionHeader(oldHeaders, headers.value);
      var loaded := LoadCsvRows(lines, None, false, false, parse);
      LoadedOk(lines[1..], oldHeaders, false, false, parse);
      if loaded.Err? {
        return Err(loaded.error);
      }
      var hs, tuples := RowsToTuples(loaded.value + rows, Some(union));
      WriteHeadersRows(hs, tuples, show);
      return Ok(());
    }
  }
}
