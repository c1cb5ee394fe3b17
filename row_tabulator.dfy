/**
 * RowTabulator: rows_to_tuples, which turns a list of row dictionaries into a
 * header list and one position-aligned tuple per row. Only membership and
 * lookup are used on a row, so a row is a `map`.
 */
module RowTabulator {
  import opened Wrappers
  import opened Seqs
  import opened Strings

  type Row<V> = map<string, V>

  /** `row.get(h)`: the value, or None when the row has no such field. */
  function Get<V>(row: Row<V>, h: string): Option<V>
  {
    if h in row then Some(row[h]) else None
  }

  /** The union of the keys of all rows (the set built at lines 120-122). */
  function AllKeys<V>(rows: seq<Row<V>>): set<string>
    decreases |rows|
  {
    if rows == [] then {} else AllKeys(rows[..|rows| - 1]) + rows[|rows| - 1].Keys
  }

  /** A name is in the union exactly when some row has it. */
  lemma {:induction false} AllKeysMember<V>(rows: seq<Row<V>>, k: string)
    ensures k in AllKeys(rows) <==> exists i | 0 <= i < |rows| :: k in rows[i]
    decreases |rows|
  {
    if rows != [] {
      var init := rows[..|rows| - 1];
      AllKeysMember(init, k);
      if exists i | 0 <= i < |init| :: k in init[i] {
        var i :| 0 <= i < |init| && k in init[i];
        assert k in rows[i];
      }
      if exists i | 0 <= i < |rows| :: k in rows[i] {
        var i :| 0 <= i < |rows| && k in rows[i];
        if i < |init| { assert k in init[i]; }
      }
    }
  }

  /** The tuple written for one row (line 128). */
  function TupleOf<V>(row: Row<V>, hs: seq<string>): seq<Option<V>>
  {
    seq(|hs|, j requires 0 <= j < |hs| => Get(row, hs[j]))
  }

  /** The tuples of all rows, in order. */
  function Tuples<V>(rows: seq<Row<V>>, hs: seq<string>): seq<seq<Option<V>>>
  {
    seq(|rows|, i requires 0 <= i < |rows| => TupleOf(rows[i], hs))
  }

  /** `sorted(list(keys))`: the names in ascending order, each once. */
  method SortedKeys(keys: set<string>) returns (r: seq<string>)
    ensures StrictlySorted(r)
    ensures Elems(r) == keys
  {
    r := [];
    var rest := keys;
    while rest != {}
      invariant StrictlySorted(r)
      invariant Elems(r) + rest == keys
      invariant Elems(r) !! rest
      decreases rest
    {
      var x :| x in rest;
      assert x !in Elems(r);
      r := Insert(r, x);
      rest := rest - {x};
    }
  }

  /**
   * rows_to_tuples (lines 115-130). Without a header the header is the sorted
   * union of all row keys; then one tuple per row, in order, holding the row's
   * value for each header name or None.
   */
  method RowsToTuples<V>(rows: seq<Row<V>>, headers: Option<seq<string>>)
    returns (hs: seq<string>, tuples: seq<seq<Option<V>>>)
    ensures headers.Some? ==> hs == headers.value
    ensures headers.None? ==> StrictlySorted(hs) && Elems(hs) == AllKeys(rows)
    ensures |tuples| == |rows|
    ensures forall i | 0 <= i < |rows| ::
      |tuples[i]| == |hs| && forall j | 0 <= j < |hs| :: tuples[i][j] == Get(rows[i], hs[j])
    ensures tuples == Tuples(rows, hs)
  {
    if headers.None? {
      var keys: set<string> := {};
      var i := 0;
      while i < |rows|
        invariant 0 <= i <= |rows|
        invariant keys == AllKeys(rows[..i])
      {
        assert rows[..i + 1][..i] == rows[..i];
        keys := keys + rows[i].Keys;
        i := i + 1;
      }
      assert rows[..|rows|] == rows;
      hs := SortedKeys(keys);
    } else {
      hs := headers.value;
    }
    tuples := [];
    var i := 0;
    while i < |rows|
      invariant 0 <= i <= |rows|
      invariant |tuples| == i
      invariant forall m | 0 <= m < i :: tuples[m] == TupleOf(rows[m], hs)
    {
      tuples := tuples + [TupleOf(rows[i], hs)];
      i := i + 1;
    }
    assert tuples == Tuples(rows, hs);
  }

  /**
   * With the inferred header nothing is lost: every field of every row sits
   * at the position of its name, and the header has no name twice.
   */
  lemma InferredHeaderKeepsFields<V>(rows: seq<Row<V>>, hs: seq<string>, i: nat, k: string)
    requires StrictlySorted(hs) && Elems(hs) == AllKeys(rows)
    requires i < |rows| && k in rows[i]
    ensures NoDup(hs)
    ensures exists j | 0 <= j < |hs| :: hs[j] == k && TupleOf(rows[i], hs)[j] == Some(rows[i][k])
  {
    StrictlySortedNoDup(hs);
    AllKeysMember(rows, k);
    assert k in Elems(hs);
    var j :| 0 <= j < |hs| && hs[j] == k;
    assert TupleOf(rows[i], hs)[j] == Some(rows[i][k]);
  }

  /** The inferred header is determined by the rows: any two candidates are equal. */
  lemma InferredHeaderUnique<V>(rows: seq<Row<V>>, hs1: seq<string>, hs2: seq<string>)
    requires StrictlySorted(hs1) && Elems(hs1) == AllKeys(rows)
    requires StrictlySorted(hs2) && Elems(hs2) == AllKeys(rows)
    ensures hs1 == hs2
  {
    StrictlySortedUnique(hs1, hs2);
  }
}
