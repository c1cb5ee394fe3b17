/**
 * Dicts: a Python dictionary as an ordered association list with unique keys.
 * Order matters to the library (which flattened entry wins a collision, the
 * order of keys in an unflattened record), so a `map` is not enough.
 * Assigning to a present key keeps its position; a new key goes at the end.
 */
module Dicts {
  import opened Wrappers

  type Dict<V> = seq<(string, V)>

  /** `k in d`. */
  predicate HasKey<V>(d: Dict<V>, k: string)
  {
    exists i | 0 <= i < |d| :: d[i].0 == k
  }

  /** What a dict is: no key twice. */
  predicate UniqueKeys<V>(d: Dict<V>)
  {
    forall i, j | 0 <= i < j < |d| :: d[i].0 != d[j].0
  }

  /** `d.get(k)`. */
  function Lookup<V>(d: Dict<V>, k: string): Option<V>
  {
    if d == [] then None
    else if d[0].0 == k then Some(d[0].1)
    else Lookup(d[1..], k)
  }

  lemma {:induction false} LookupNone<V>(d: Dict<V>, k: string)
    ensures Lookup(d, k).None? <==> !HasKey(d, k)
  {
    if d != [] {
      LookupNone(d[1..], k);
      if d[0].0 != k && HasKey(d, k) {
        var i :| 0 <= i < |d| && d[i].0 == k;
        assert d[1..][i - 1].0 == k;
      }
    }
  }

  lemma {:induction false} LookupAt<V>(d: Dict<V>, i: nat)
    requires UniqueKeys(d) && i < |d|
    ensures Lookup(d, d[i].0) == Some(d[i].1)
  {
    if i > 0 { LookupAt(d[1..], i - 1); }
  }

  /** `d[k] = v`. */
  function Put<V>(d: Dict<V>, k: string, v: V): Dict<V>
  {
    if d == [] then [(k, v)]
    else if d[0].0 == k then [(k, v)] + d[1..]
    else [d[0]] + Put(d[1..], k, v)
  }

  /** After `d[k] = v`, `k` maps to `v` and every other key is as before. */
  lemma {:induction false} PutLookup<V>(d: Dict<V>, k: string, v: V, k': string)
    ensures Lookup(Put(d, k, v), k') == if k' == k then Some(v) else Lookup(d, k')
  {
    if d != [] && d[0].0 != k {
      PutLookup(d[1..], k, v, k');
    }
  }

  /** A new key is appended; a present key keeps its place. */
  lemma {:induction false} PutShape<V>(d: Dict<V>, k: string, v: V)
    ensures !HasKey(d, k) ==> Put(d, k, v) == d + [(k, v)]
    ensures |Put(d, k, v)| == if HasKey(d, k) then |d| else |d| + 1
    ensures forall i | 0 <= i < |d| :: Put(d, k, v)[i].0 == d[i].0
  {
    if d != [] && d[0].0 != k {
      PutShape(d[1..], k, v);
      assert HasKey(d, k) ==> HasKey(d[1..], k) by {
        if HasKey(d, k) {
          var i :| 0 <= i < |d| && d[i].0 == k;
          assert d[1..][i - 1].0 == k;
        }
      }
      assert HasKey(d[1..], k) ==> HasKey(d, k) by {
        if HasKey(d[1..], k) {
          var i :| 0 <= i < |d[1..]| && d[1..][i].0 == k;
          assert d[i + 1].0 == k;
        }
      }
    }
  }

  lemma {:induction false} PutUnique<V>(d: Dict<V>, k: string, v: V)
    requires UniqueKeys(d)
    ensures UniqueKeys(Put(d, k, v))
  {
    PutShape(d, k, v);
    var r := Put(d, k, v);
    if !HasKey(d, k) {
      forall i, j | 0 <= i < j < |r| ensures r[i].0 != r[j].0 {
        if j == |d| { assert r[i].0 == d[i].0; }
      }
    }
  }

  /** Assigning the value a key already has changes nothing. */
  lemma {:induction false} PutSame<V>(d: Dict<V>, k: string, v: V)
    requires Lookup(d, k) == Some(v)
    ensures Put(d, k, v) == d
  {
    if d != [] && d[0].0 != k {
      PutSame(d[1..], k, v);
    }
  }

  /** A second assignment to a key overrides the first. */
  lemma {:induction false} PutPut<V>(d: Dict<V>, k: string, v: V, w: V)
    ensures Put(Put(d, k, v), k, w) == Put(d, k, w)
  {
    if d != [] && d[0].0 != k {
      PutPut(d[1..], k, v, w);
    }
  }

  /** Python's `dict(kvs)` / a dict comprehension: assign the pairs in order. */
  function Collect<V>(d: Dict<V>, kvs: Dict<V>): Dict<V>
    decreases |kvs|
  {
    if kvs == [] then d else Collect(Put(d, kvs[0].0, kvs[0].1), kvs[1..])
  }

  /** A key no pair mentions keeps its old value. */
  lemma {:induction false} CollectAbsent<V>(d: Dict<V>, kvs: Dict<V>, k: string)
    requires forall j | 0 <= j < |kvs| :: kvs[j].0 != k
    ensures Lookup(Collect(d, kvs), k) == Lookup(d, k)
    decreases |kvs|
  {
    if kvs != [] {
      CollectAbsent(Put(d, kvs[0].0, kvs[0].1), kvs[1..], k);
      PutLookup(d, kvs[0].0, kvs[0].1, k);
    }
  }

  /** The last pair with a given key wins. */
  lemma {:induction false} CollectLast<V>(d: Dict<V>, kvs: Dict<V>, j: nat)
    requires j < |kvs|
    requires forall j' | j < j' < |kvs| :: kvs[j'].0 != kvs[j].0
    ensures Lookup(Collect(d, kvs), kvs[j].0) == Some(kvs[j].1)
    decreases |kvs|
  {
    var d' := Put(d, kvs[0].0, kvs[0].1);
    if j == 0 {
      CollectAbsent(d', kvs[1..], kvs[0].0);
      PutLookup(d, kvs[0].0, kvs[0].1, kvs[0].0);
    } else {
      CollectLast(d', kvs[1..], j - 1);
    }
  }

  /** With no repeated key, the comprehension keeps the pairs in order. */
  lemma {:induction false} CollectFresh<V>(d: Dict<V>, kvs: Dict<V>)
    requires UniqueKeys(d + kvs)
    ensures Collect(d, kvs) == d + kvs
    decreases |kvs|
  {
    if kvs != [] {
      var k := kvs[0].0;
      assert (d + kvs)[|d|].0 == k;
      assert forall i | 0 <= i < |d| :: (d + kvs)[i] == d[i];
      PutShape(d, k, kvs[0].1);
      assert (d + [kvs[0]]) + kvs[1..] == d + kvs;
      CollectFresh(d + [kvs[0]], kvs[1..]);
    }
  }

  /** A found key sits in some entry. */
  lemma {:induction false} LookupFound<V>(d: Dict<V>, k: string, v: V)
    requires Lookup(d, k) == Some(v)
    ensures exists j | 0 <= j < |d| :: d[j] == (k, v)
  {
    if d[0].0 != k {
      LookupFound(d[1..], k, v);
      var j :| 0 <= j < |d[1..]| && d[1..][j] == (k, v);
      assert d[j + 1] == (k, v);
    }
  }

  lemma HasKeyAppend<V>(d: Dict<V>, e: (string, V), k: string)
    ensures HasKey(d + [e], k) <==> HasKey(d, k) || e.0 == k
  {
    assert (d + [e])[|d|] == e;
    assert forall i | 0 <= i < |d| :: (d + [e])[i] == d[i];
  }

  /** After `d[k] = v` every entry is the new one or an old one. */
  lemma {:induction false} PutEntries<V>(d: Dict<V>, k: string, v: V)
    ensures forall e | e in Put(d, k, v) :: e == (k, v) || e in d
  {
    if d != [] && d[0].0 != k {
      PutEntries(d[1..], k, v);
    }
  }

  /** When every pair with key `k` carries `w`, the comprehension maps `k` to `w`. */
  lemma {:induction false} CollectAgreeing<V>(d: Dict<V>, kvs: Dict<V>, k: string, w: V)
    requires HasKey(kvs, k)
    requires forall j | 0 <= j < |kvs| && kvs[j].0 == k :: kvs[j].1 == w
    ensures Lookup(Collect(d, kvs), k) == Some(w)
    decreases |kvs|
  {
    var d' := Put(d, kvs[0].0, kvs[0].1);
    var rest := kvs[1..];
    if HasKey(rest, k) {
      CollectAgreeing(d', rest, k, w);
    } else {
      assert forall i | 0 < i < |kvs| :: kvs[i] == rest[i - 1];
      CollectAbsent(d', rest, k);
      PutLookup(d, k, kvs[0].1, k);
    }
  }
}
