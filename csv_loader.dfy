/**
 * CsvLoader: the row logic of load_csv_rows and load_csv, over a file whose
 * lines have already been split into cells by the csv reader. When no header
 * is given, the first line is the header; the remaining lines are the data
 * rows, counted from 0 below.
 */
module CsvLoader {
  import opened Wrappers
  import opened Errors
  import opened Seqs
  import opened Strings
  import opened Cells
  import opened RowTabulator

  // ---------------------------------------------------------------------------
  // load_csv_rows (lines 65-89)
  // ---------------------------------------------------------------------------

  /**
   * Whether data row `k` survives the filters of lines 73-80. The `odd` flag is
   * toggled before anything else, so it is true for rows 0, 2, 4, … of the raw
   * data, whatever `no_nones` later skips.
   */
  predicate Kept(k: nat, row: seq<string>, header: seq<string>, noNones: bool, dropOdds: bool)
  {
    && !(dropOdds && k % 2 == 0)
    && (noNones ==> |row| == |header| && NoneText !in row)
  }

  /** The indices of the data rows that pass the filters, in order. */
  function KeptIndices(data: seq<seq<string>>, header: seq<string>, noNones: bool, dropOdds: bool): (ks: seq<nat>)
    ensures forall m | 0 <= m < |ks| :: ks[m] < |data| && Kept(ks[m], data[ks[m]], header, noNones, dropOdds)
    decreases |data|
  {
    if data == [] then []
    else
      var n := |data| - 1;
      var ks := KeptIndices(data[..n], header, noNones, dropOdds);
      assert forall m | 0 <= m < |ks| :: data[ks[m]] == data[..n][ks[m]];
      if Kept(n, data[n], header, noNones, dropOdds) then ks + [n] else ks
  }

  /** Every row that passes the filters is kept. */
  lemma {:induction false} KeptComplete(data: seq<seq<string>>, header: seq<string>, noNones: bool, dropOdds: bool,
                                        k: nat)
    requires k < |data| && Kept(k, data[k], header, noNones, dropOdds)
    ensures k in KeptIndices(data, header, noNones, dropOdds)
    decreases |data|
  {
    var n := |data| - 1;
    if k < n {
      assert data[..n][k] == data[k];
      KeptComplete(data[..n], header, noNones, dropOdds, k);
    }
  }

  predicate Increasing(ks: seq<nat>)
  {
    forall m, m' | 0 <= m < m' < |ks| :: ks[m] < ks[m']
  }

  /** The kept indices increase. */
  lemma {:induction false} KeptIncreasing(data: seq<seq<string>>, header: seq<string>, noNones: bool, dropOdds: bool)
    ensures Increasing(KeptIndices(data, header, noNones, dropOdds))
    decreases |data|
  {
    if data != [] {
      var n := |data| - 1;
      KeptIncreasing(data[..n], header, noNones, dropOdds);
      var ks := KeptIndices(data[..n], header, noNones, dropOdds);
      assert forall m | 0 <= m < |ks| :: ks[m] < n;
      var all := KeptIndices(data, header, noNones, dropOdds);
      assert all == if Kept(n, data[n], header, noNones, dropOdds) then ks + [n] else ks;
      if Kept(n, data[n], header, noNones, dropOdds) {
        forall m, m' | 0 <= m < m' < |all| ensures all[m] < all[m'] {
          assert all[m] == ks[m] && ks[m] < n;
          assert all[m'] == if m' < |ks| then ks[m'] else n;
        }
      }
    }
  }

  /**
   * The dictionary built for one row (lines 81-87): cell `i` decoded and
   * assigned to `header[i]`, in order, so a repeated name keeps its last cell.
   */
  function ZipRow(header: seq<string>, row: seq<string>, parse: string -> Option<real>): Row<Cell>
    requires |row| <= |header|
    decreases |row|
  {
    if row == [] then map[]
    else
      var n := |row| - 1;
      ZipRow(header, row[..n], parse)[header[n] := Decode(parse, row[n])]
  }

  /** A row shorter than the header gives a partial dictionary: the names of its cells only. */
  lemma {:induction false} ZipRowKeys(header: seq<string>, row: seq<string>, parse: string -> Option<real>)
    requires |row| <= |header|
    ensures ZipRow(header, row, parse).Keys == Elems(header[..|row|])
    decreases |row|
  {
    if row != [] {
      var n := |row| - 1;
      ZipRowKeys(header, row[..n], parse);
      assert header[..n + 1] == header[..n] + [header[n]];
    }
  }

  /** A name that is not repeated further on holds the decoding of its own cell. */
  lemma {:induction false} ZipRowAt(header: seq<string>, row: seq<string>, parse: string -> Option<real>, j: nat)
    requires |row| <= |header| && j < |row|
    requires forall j' | j < j' < |row| :: header[j'] != header[j]
    ensures header[j] in ZipRow(header, row, parse)
    ensures ZipRow(header, row, parse)[header[j]] == Decode(parse, row[j])
    decreases |row|
  {
    var n := |row| - 1;
    if j < n {
      ZipRowAt(header, row[..n], parse, j);
    }
  }

  /** What load_csv_rows gives for the data rows: the kept rows as dictionaries, or the IndexError. */
  function Loaded(data: seq<seq<string>>, header: seq<string>, noNones: bool, dropOdds: bool,
                  parse: string -> Option<real>): Result<seq<Row<Cell>>, Error>
    decreases |data|
  {
    if data == [] then Ok([])
    else
      var n := |data| - 1;
      match Loaded(data[..n], header, noNones, dropOdds, parse)
      case Err(e) => Err(e)
      case Ok(rs) =>
        if !Kept(n, data[n], header, noNones, dropOdds) then Ok(rs)
        else if |data[n]| > |header| then Err(RowTooLong)
        else Ok(rs + [ZipRow(header, data[n], parse)])
  }

  /** No kept row is wider than the header. */
  predicate KeptFit(data: seq<seq<string>>, header: seq<string>, noNones: bool, dropOdds: bool)
  {
    forall k | 0 <= k < |data| && Kept(k, data[k], header, noNones, dropOdds) :: |data[k]| <= |header|
  }

  /** A kept row is wider than the header either among the first rows or in the last one. */
  lemma KeptFitStep(data: seq<seq<string>>, header: seq<string>, noNones: bool, dropOdds: bool)
    requires data != []
    ensures var n := |data| - 1;
      KeptFit(data, header, noNones, dropOdds) <==>
        && KeptFit(data[..n], header, noNones, dropOdds)
        && (Kept(n, data[n], header, noNones, dropOdds) ==> |data[n]| <= |header|)
  {
    var n := |data| - 1;
    assert forall k | 0 <= k < n :: data[..n][k] == data[k];
  }

  /**
   * load_csv_rows succeeds exactly when no kept row is wider than the header,
   * and raises IndexError otherwise.
   */
  lemma {:induction false} LoadedOk(data: seq<seq<string>>, header: seq<string>, noNones: bool, dropOdds: bool,
                                    parse: string -> Option<real>)
    ensures Loaded(data, header, noNones, dropOdds, parse).Ok? <==> KeptFit(data, header, noNones, dropOdds)
    ensures Loaded(data, header, noNones, dropOdds, parse).Err? ==>
      Loaded(data, header, noNones, dropOdds, parse) == Err(RowTooLong)
    decreases |data|
  {
    if data != [] {
      LoadedOk(data[..|data| - 1], header, noNones, dropOdds, parse);
      KeptFitStep(data, header, noNones, dropOdds);
    }
  }

  /** When it succeeds, load_csv_rows gives one dictionary per kept row, in order. */
  lemma {:induction false} LoadedRows(data: seq<seq<string>>, header: seq<string>, noNones: bool, dropOdds: bool,
                                      parse: string -> Option<real>)
    requires KeptFit(data, header, noNones, dropOdds)
    ensures Loaded(data, header, noNones, dropOdds, parse).Ok?
    ensures var ks := KeptIndices(data, header, noNones, dropOdds);
      var rs := Loaded(data, header, noNones, dropOdds, parse).value;
      && |rs| == |ks|
      && forall m | 0 <= m < |ks| :: rs[m] == ZipRow(header, data[ks[m]], parse)
    decreases |data|
  {
    LoadedOk(data, header, noNones, dropOdds, parse);
    if data != [] {
      var n := |data| - 1;
      var init := data[..n];
      KeptFitStep(data, header, noNones, dropOdds);
      LoadedRows(init, header, noNones, dropOdds, parse);
      var ks := KeptIndices(init, header, noNones, dropOdds);
      var rs := Loaded(init, header, noNones, dropOdds, parse).value;
      forall m | 0 <= m < |ks| ensures rs[m] == ZipRow(header, data[ks[m]], parse) {
        assert init[ks[m]] == data[ks[m]];
      }
    }
  }

  /** Without `no_nones` or drop_odds every data row is kept. */
  lemma {:induction false} KeptAll(data: seq<seq<string>>, header: seq<string>)
    ensures KeptIndices(data, header, false, false) == seq(|data|, m => m)
    decreases |data|
  {
    if data != [] {
      var n := |data| - 1;
      KeptAll(data[..n], header);
      assert seq(n + 1, m => m) == seq(n, m => m) + [n];
    }
  }

  /** One dictionary per row. */
  function ZipRows(header: seq<string>, data: seq<seq<string>>, parse: string -> Option<real>): seq<Row<Cell>>
    requires forall i | 0 <= i < |data| :: |data[i]| <= |header|
  {
    seq(|data|, i requires 0 <= i < |data| => ZipRow(header, data[i], parse))
  }

  /** Without filters, load_csv_rows gives one dictionary per data row when none is wider than the header. */
  lemma {:induction false} LoadedAll(data: seq<seq<string>>, header: seq<string>, parse: string -> Option<real>)
    requires forall i | 0 <= i < |data| :: |data[i]| <= |header|
    ensures Loaded(data, header, false, false, parse) == Ok(ZipRows(header, data, parse))
    decreases |data|
  {
    if data != [] {
      var n := |data| - 1;
      var init := data[..n];
      LoadedAll(init, header, parse);
      assert Kept(n, data[n], header, false, false);
      assert ZipRows(header, data, parse) == ZipRows(header, init, parse) + [ZipRow(header, data[n], parse)];
    }
  }

  /**
   * Without `no_nones`, drop_odds keeps exactly the 2nd, 4th, 6th, … data rows
   * (indices 1, 3, 5, …).
   */
  lemma {:induction false} KeptOdd(data: seq<seq<string>>, header: seq<string>)
    ensures var ks := KeptIndices(data, header, false, true);
      |ks| == |data| / 2 && forall m | 0 <= m < |ks| :: ks[m] == 2 * m + 1
    decreases |data|
  {
    if data != [] {
      var n := |data| - 1;
      KeptOdd(data[..n], header);
      if n % 2 == 1 {
        assert n == 2 * (n / 2) + 1;
        assert (n + 1) / 2 == n / 2 + 1;
      } else {
        assert (n + 1) / 2 == n / 2;
      }
    }
  }

  /**
   * With `no_nones` nothing can raise, and every dictionary has exactly the
   * header's names, from a row that had the header's width and no 'None' cell.
   */
  lemma NoNonesRows(data: seq<seq<string>>, header: seq<string>, dropOdds: bool, parse: string -> Option<real>)
    ensures Loaded(data, header, true, dropOdds, parse).Ok?
    ensures var ks := KeptIndices(data, header, true, dropOdds);
      var rs := Loaded(data, header, true, dropOdds, parse).value;
      && |rs| == |ks|
      && forall m | 0 <= m < |ks| ::
        && |data[ks[m]]| == |header|
        && NoneText !in data[ks[m]]
        && rs[m].Keys == Elems(header)
  {
    LoadedRows(data, header, true, dropOdds, parse);
    var ks := KeptIndices(data, header, true, dropOdds);
    var rs := Loaded(data, header, true, dropOdds, parse).value;
    forall m | 0 <= m < |ks| ensures rs[m].Keys == Elems(header) {
      ZipRowKeys(header, data[ks[m]], parse);
      assert header[..|header|] == header;
    }
  }

  /** Once a prefix of the data has raised, the whole load raises the same way. */
  lemma {:induction false} LoadedErrPrefix(data: seq<seq<string>>, i: nat, header: seq<string>, noNones: bool,
                                           dropOdds: bool, parse: string -> Option<real>)
    requires i <= |data|
    requires Loaded(data[..i], header, noNones, dropOdds, parse).Err?
    ensures Loaded(data, header, noNones, dropOdds, parse) == Loaded(data[..i], header, noNones, dropOdds, parse)
    decreases |data| - i
  {
    if i < |data| {
      assert data[..i + 1][..i] == data[..i];
      LoadedErrPrefix(data, i + 1, header, noNones, dropOdds, parse);
    } else {
      assert data[..i] == data;
    }
  }

  /**
   * load_csv_rows (lines 65-89). Without a header an empty file raises
   * StopIteration at `reader.next()`.
   */
  method LoadCsvRows(lines: seq<seq<string>>, header: Option<seq<string>>, noNones: bool, dropOdds: bool,
                     parse: string -> Option<real>) returns (r: Result<seq<Row<Cell>>, Error>)
    ensures header.None? && lines == [] ==> r == Err(EmptyFile)
    ensures header.None? && lines != [] ==> r == Loaded(lines[1..], lines[0], noNones, dropOdds, parse)
    ensures header.Some? ==> r == Loaded(lines, header.value, noNones, dropOdds, parse)
  {
    if header.None? {
      if lines == [] {
        return Err(EmptyFile);
      }
      r := LoadRows(lines[1..], lines[0], noNones, dropOdds, parse);
    } else {
      r := LoadRows(lines, header.value, noNones, dropOdds, parse);
    }
  }

  /** The loop of load_csv_rows over the data rows (lines 71-88). */
  method LoadRows(data: seq<seq<string>>, header: seq<string>, noNones: bool, dropOdds: bool,
                  parse: string -> Option<real>) returns (r: Result<seq<Row<Cell>>, Error>)
    ensures r == Loaded(data, header, noNones, dropOdds, parse)
  {
    var rows: seq<Row<Cell>> := [];
    var odd := false;
    var k := 0;
    while k < |data|
      invariant 0 <= k <= |data|
      invariant odd == (k % 2 == 1)
      invariant Loaded(data[..k], header, noNones, dropOdds, parse) == Ok(rows)
    {
      var row := data[k];
      assert data[..k + 1][..k] == data[..k] && data[..k + 1][k] == row;
      odd := !odd;
      if dropOdds && odd {
        assert !Kept(k, row, header, noNones, dropOdds);
        k := k + 1;
        continue;
      }
      if noNones {
        if |row| != |header| || NoneText in row {
          assert !Kept(k, row, header, noNones, dropOdds);
          k := k + 1;
          continue;
        }
      }
      assert Kept(k, row, header, noNones, dropOdds);
      var made := RowDict(header, row, parse);
      if made.Err? {
        LoadedErrPrefix(data, k + 1, header, noNones, dropOdds, parse);
        return Err(made.error);
      }
      rows := rows + [made.value];
      k := k + 1;
    }
    assert data[..|data|] == data;
    r := Ok(rows);
  }

  /** The loop at lines 81-87: a dictionary for the row, or IndexError at a cell past the header. */
  method RowDict(header: seq<string>, row: seq<string>, parse: string -> Option<real>)
    returns (r: Result<Row<Cell>, Error>)
    ensures |row| <= |header| ==> r == Ok(ZipRow(header, row, parse))
    ensures |row| > |header| ==> r == Err(RowTooLong)
  {
    var rowDict: Row<Cell> := map[];
    var i := 0;
    while i < |row|
      invariant 0 <= i <= |row| && i <= |header|
      invariant rowDict == ZipRow(header, row[..i], parse)
    {
      if i >= |header| {
        return Err(RowTooLong);
      }
      assert row[..i + 1][..i] == row[..i];
      rowDict := rowDict[header[i] := Decode(parse, row[i])];
      i := i + 1;
    }
    assert row[..|row|] == row;
    r := Ok(rowDict);
  }

  // ---------------------------------------------------------------------------
  // load_csv (lines 40-63)
  // ---------------------------------------------------------------------------

  /** `data[name].append(val)`, creating the list on first use (lines 56-59). */
  function AppendTo(cols: map<string, seq<Cell>>, name: string, val: Cell): map<string, seq<Cell>>
  {
    cols[name := (if name in cols then cols[name] else []) + [val]]
  }

  /** One row's cells appended to their columns, cell `i` to `header[i]`. */
  function AddRow(cols: map<string, seq<Cell>>, header: seq<string>, row: seq<string>,
                  parse: string -> Option<real>): map<string, seq<Cell>>
    requires |row| <= |header|
    decreases |row|
  {
    if row == [] then cols
    else
      var n := |row| - 1;
      AppendTo(AddRow(cols, header, row[..n], parse), header[n], Decode(parse, row[n]))
  }

  /** The data rows with no cell equal to 'None' (the skip at lines 49-50). */
  function CleanRows(data: seq<seq<string>>): (clean: seq<seq<string>>)
    ensures forall m | 0 <= m < |clean| :: clean[m] in data && NoneText !in clean[m]
    ensures forall k | 0 <= k < |data| && NoneText !in data[k] :: data[k] in clean
    decreases |data|
  {
    if data == [] then []
    else
      var n := |data| - 1;
      var clean := CleanRows(data[..n]);
      assert forall m | 0 <= m < |clean| :: clean[m] in data;
      if NoneText !in data[n] then clean + [data[n]] else clean
  }

  /** Every row has the header's width. */
  predicate Uniform(data: seq<seq<string>>, header: seq<string>)
  {
    forall k | 0 <= k < |data| :: |data[k]| == |header|
  }

  /** What load_csv gives for the data rows: the columns, or "csv not uniform width". */
  function Columns(data: seq<seq<string>>, header: seq<string>, parse: string -> Option<real>)
    : Result<map<string, seq<Cell>>, Error>
    decreases |data|
  {
    if data == [] then Ok(map[])
    else
      var n := |data| - 1;
      match Columns(data[..n], header, parse)
      case Err(e) => Err(e)
      case Ok(cols) =>
        if |data[n]| != |header| then Err(NotUniformWidth)
        else if NoneText in data[n] then Ok(cols)
        else Ok(AddRow(cols, header, data[n], parse))
  }

  /** Column `j` of a list of rows, decoded. */
  function ColumnOf(rows: seq<seq<string>>, j: nat, parse: string -> Option<real>): seq<Cell>
    requires forall m | 0 <= m < |rows| :: j < |rows[m]|
  {
    seq(|rows|, m requires 0 <= m < |rows| && j < |rows[m]| => Decode(parse, rows[m][j]))
  }

  /** The list under `name`, empty when there is none yet. */
  function Column(cols: map<string, seq<Cell>>, name: string): seq<Cell>
  {
    if name in cols then cols[name] else []
  }

  /** Adding a row creates the columns named by its cells and no others. */
  lemma {:induction false} AddRowKeys(cols: map<string, seq<Cell>>, header: seq<string>, row: seq<string>,
                                      parse: string -> Option<real>)
    requires |row| <= |header|
    ensures AddRow(cols, header, row, parse).Keys == cols.Keys + Elems(header[..|row|])
    decreases |row|
  {
    if row != [] {
      var n := |row| - 1;
      AddRowKeys(cols, header, row[..n], parse);
      assert header[..n + 1] == header[..n] + [header[n]];
    }
  }

  /** A column no cell of the row is named after is left as it was. */
  lemma {:induction false} AddRowOther(cols: map<string, seq<Cell>>, header: seq<string>, row: seq<string>,
                                       parse: string -> Option<real>, name: string)
    requires |row| <= |header|
    requires name !in header[..|row|]
    ensures Column(AddRow(cols, header, row, parse), name) == Column(cols, name)
    decreases |row|
  {
    if row != [] {
      var n := |row| - 1;
      assert header[..n] == header[..n + 1][..n];
      AddRowOther(cols, header, row[..n], parse, name);
    }
  }

  /** With distinct names, adding a row appends cell `j` to column `header[j]`. */
  lemma {:induction false} AddRowCol(cols: map<string, seq<Cell>>, header: seq<string>, row: seq<string>,
                                     parse: string -> Option<real>, j: nat)
    requires |row| <= |header| && NoDup(header) && j < |row|
    ensures Column(AddRow(cols, header, row, parse), header[j]) == Column(cols, header[j]) + [Decode(parse, row[j])]
    decreases |row|
  {
    var n := |row| - 1;
    var prev := AddRow(cols, header, row[..n], parse);
    if j == n {
      assert header[n] !in header[..n];
      AddRowOther(cols, header, row[..n], parse, header[n]);
    } else {
      AddRowCol(cols, header, row[..n], parse, j);
      assert header[j] != header[n];
    }
  }

  /** load_csv raises exactly when some data row's width differs from the header's. */
  lemma {:induction false} ColumnsOk(data: seq<seq<string>>, header: seq<string>, parse: string -> Option<real>)
    ensures Columns(data, header, parse).Ok? <==> Uniform(data, header)
    ensures Columns(data, header, parse).Err? ==> Columns(data, header, parse) == Err(NotUniformWidth)
    decreases |data|
  {
    if data != [] {
      var n := |data| - 1;
      ColumnsOk(data[..n], header, parse);
      assert forall k | 0 <= k < n :: data[..n][k] == data[k];
    }
  }

  /** The columns load_csv creates: one per name, as soon as some row has no 'None' cell. */
  lemma {:induction false} ColumnsKeys(data: seq<seq<string>>, header: seq<string>, parse: string -> Option<real>)
    requires Uniform(data, header)
    ensures Columns(data, header, parse).Ok?
    ensures Columns(data, header, parse).value.Keys == if CleanRows(data) == [] then {} else Elems(header)
    decreases |data|
  {
    ColumnsOk(data, header, parse);
    if data != [] {
      var n := |data| - 1;
      var init := data[..n];
      assert forall k | 0 <= k < n :: init[k] == data[k];
      ColumnsKeys(init, header, parse);
      if NoneText !in data[n] {
        AddRowKeys(Columns(init, header, parse).value, header, data[n], parse);
        assert header[..|data[n]|] == header;
      }
    }
  }

  /**
   * When every row has the header's width and the names are distinct, column
   * `header[j]` lists cell `j` of every row without a 'None' cell, in order.
   */
  lemma {:induction false} ColumnsAre(data: seq<seq<string>>, header: seq<string>, parse: string -> Option<real>)
    requires NoDup(header) && Uniform(data, header)
    ensures Columns(data, header, parse).Ok?
    ensures forall m | 0 <= m < |CleanRows(data)| :: |CleanRows(data)[m]| == |header|
    ensures forall j | 0 <= j < |header| ::
      Column(Columns(data, header, parse).value, header[j]) == ColumnOf(CleanRows(data), j, parse)
    decreases |data|
  {
    ColumnsOk(data, header, parse);
    if data != [] {
      var n := |data| - 1;
      var init := data[..n];
      assert forall k | 0 <= k < n :: init[k] == data[k];
      ColumnsAre(init, header, parse);
      var cols := Columns(init, header, parse).value;
      var clean := CleanRows(init);
      if NoneText !in data[n] {
        var clean' := clean + [data[n]];
        assert CleanRows(data) == clean';
        forall j | 0 <= j < |header|
          ensures Column(AddRow(cols, header, data[n], parse), header[j]) == ColumnOf(clean', j, parse)
        {
          AddRowCol(cols, header, data[n], parse, j);
        }
      }
    }
  }

  /**
   * load_csv (lines 40-63), numpy conversion aside. Every row is checked for
   * width before its 'None' test; cells go to their columns in order.
   */
  method LoadCsv(lines: seq<seq<string>>, header: Option<seq<string>>, parse: string -> Option<real>)
    returns (r: Result<map<string, seq<Cell>>, Error>)
    ensures header.None? && lines == [] ==> r == Err(EmptyFile)
    ensures header.None? && lines != [] ==> r == Columns(lines[1..], lines[0], parse)
    ensures header.Some? ==> r == Columns(lines, header.value, parse)
  {
    if header.None? {
      if lines == [] {
        return Err(EmptyFile);
      }
      r := LoadColumns(lines[1..], lines[0], parse);
    } else {
      r := LoadColumns(lines, header.value, parse);
    }
  }

  /** The loop of load_csv over the data rows (lines 46-59). */
  method LoadColumns(data: seq<seq<string>>, header: seq<string>, parse: string -> Option<real>)
    returns (r: Result<map<string, seq<Cell>>, Error>)
    ensures r == Columns(data, header, parse)
  {
    var cols: map<string, seq<Cell>> := map[];
    var k := 0;
    while k < |data|
      invariant 0 <= k <= |data|
      invariant Columns(data[..k], header, parse) == Ok(cols)
    {
      var row := data[k];
      assert data[..k + 1][..k] == data[..k] && data[..k + 1][k] == row;
      if |row| != |header| {
        ColumnsErrPrefix(data, k + 1, header, parse);
        return Err(NotUniformWidth);
      }
      if NoneText in row {
        k := k + 1;
        continue;
      }
      cols := AddCells(cols, header, row, parse);
      k := k + 1;
    }
    assert data[..|data|] == data;
    r := Ok(cols);
  }

  /** The loop at lines 51-59: each cell appended to its column. */
  method AddCells(cols: map<string, seq<Cell>>, header: seq<string>, row: seq<string>, parse: string -> Option<real>)
    returns (r: map<string, seq<Cell>>)
    requires |row| <= |header|
    ensures r == AddRow(cols, header, row, parse)
  {
    r := cols;
    var i := 0;
    while i < |row|
      invariant 0 <= i <= |row|
      invariant r == AddRow(cols, header, row[..i], parse)
    {
      assert row[..i + 1][..i] == row[..i];
      r := AppendTo(r, header[i], Decode(parse, row[i]));
      i := i + 1;
    }
    assert row[..|row|] == row;
  }

  /** Once a prefix of the data has raised, the whole load raises the same way. */
  lemma {:induction false} ColumnsErrPrefix(data: seq<seq<string>>, i: nat, header: seq<string>,
                                            parse: string -> Option<real>)
    requires i <= |data|
    requires Columns(data[..i], header, parse).Err?
    ensures Columns(data, header, parse) == Columns(data[..i], header, parse)
    decreases |data| - i
  {
    if i < |data| {
      assert data[..i + 1][..i] == data[..i];
      ColumnsErrPrefix(data, i + 1, header, parse);
    } else {
      assert data[..i] == data;
    }
  }
}
