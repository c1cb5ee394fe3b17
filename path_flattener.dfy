/**
 * PathFlattener: nested records and their flat, dotted-key form
 * (`set_deep`, `unflatten`, `dict_to_flat_pairs`, `flatten_obj`).
 *
 * A record is an ordered dict whose values are scalars or further records.
 * Python tells the two apart by probing for `iteritems`; here the value type
 * is closed: `Leaf(scalar) | Nested(entries)`.
 */
module PathFlattener {
  import opened Wrappers
  import opened Strings
  import opened Dicts
  import Errors

  datatype Value<S> = Leaf(scalar: S) | Nested(entries: Dict<Value<S>>)

  /** A key path, one token per level. */
  type Path = seq<string>

  /** A leaf with the path that leads to it. */
  type Pair<S> = (Path, S)

  type Outcome<S> = Result<Dict<Value<S>>, Errors.Error>

  /** Follows a path down a record: `x[p0][p1]...`, None where a key is missing or a scalar is indexed. */
  function Walk<S>(v: Value<S>, path: Path): Option<Value<S>>
    decreases |path|
  {
    if path == [] then Some(v)
    else match v
      case Leaf(_) => None
      case Nested(es) =>
        match Lookup(es, path[0])
        case None => None
        case Some(c) => Walk(c, path[1..])
  }

  /** A scalar sits at `path`. */
  predicate LeafAt<S>(v: Value<S>, path: Path)
  {
    Walk(v, path).Some? && Walk(v, path).value.Leaf?
  }

  predicate IsPrefix(p: Path, q: Path)
  {
    |p| <= |q| && p == q[..|p|]
  }

  /** Hangs an updated child record back under key `k` (the in-place update of `obj[k]`). */
  function PutChild<S>(obj: Dict<Value<S>>, k: string, r: Outcome<S>): Outcome<S>
  {
    match r
    case Ok(c) => Ok(Put(obj, k, Nested(c)))
    case Err(e) => Err(e)
  }

  /**
   * set_deep: assign `val` at the path `toks`, reusing an intermediate record
   * that is there and creating `{}` where the key is missing. Descending into a
   * scalar is the TypeError Python raises there.
   */
  function SetDeep<S>(obj: Dict<Value<S>>, toks: Path, val: Value<S>): Outcome<S>
    requires |toks| >= 1
    decreases |toks|
  {
    if |toks| == 1 then Ok(Put(obj, toks[0], val))
    else
      var found: Option<Value<S>> := Lookup(obj, toks[0]);
      match found
      case Some(Leaf(_)) => Err(Errors.Conflict)
      case Some(Nested(c)) => PutChild(obj, toks[0], SetDeep(c, toks[1..], val))
      case None => PutChild(obj, toks[0], SetDeep([], toks[1..], val))
  }

  /** set_deep fails exactly when some proper prefix of the path already holds a scalar. */
  lemma {:induction false} SetDeepOk<S>(obj: Dict<Value<S>>, toks: Path, val: Value<S>)
    requires |toks| >= 1
    ensures SetDeep(obj, toks, val).Ok? <==> forall n | 0 < n < |toks| :: !LeafAt(Nested(obj), toks[..n])
    decreases |toks|
  {
    if |toks| > 1 {
      var k := toks[0];
      assert toks[..1] == [k];
      var found: Option<Value<S>> := Lookup(obj, k);
      match found
      case Some(Leaf(_)) =>
        assert LeafAt(Nested(obj), toks[..1]);
      case Some(Nested(c)) =>
        SetDeepOk(c, toks[1..], val);
        assert toks[..1][1..] == [];
        assert Walk(Nested(obj), toks[..1]) == Walk(Nested(c), []);
        forall n | 1 < n < |toks|
          ensures LeafAt(Nested(obj), toks[..n]) == LeafAt(Nested(c), toks[1..][..n - 1])
        {
          assert toks[..n][0] == k && toks[..n][1..] == toks[1..][..n - 1];
        }
        assert (forall n | 0 < n < |toks| :: !LeafAt(Nested(obj), toks[..n]))
          <==> (forall m | 0 < m < |toks| - 1 :: !LeafAt(Nested(c), toks[1..][..m])) by {
          forall m | 0 < m < |toks| - 1 ensures LeafAt(Nested(c), toks[1..][..m]) == LeafAt(Nested(obj), toks[..m + 1]) {
          }
        }
      case None =>
        SetDeepOk([], toks[1..], val);
        forall n | 0 < n < |toks| ensures !LeafAt(Nested(obj), toks[..n]) {
          assert toks[..n][0] == k;
        }
        var empty: Dict<Value<S>> := [];
        forall n | 0 < n < |toks| - 1 ensures !LeafAt(Nested(empty), toks[1..][..n]) {
          assert Walk(Nested(empty), toks[1..][..n]) == None;
        }
    }
  }

  /**
   * What set_deep changes: the path itself now leads to `val`, the records on
   * the way are records, and every path that neither extends nor is extended
   * by it reads as before (earlier branches are kept).
   */
  lemma {:induction false} WalkAfterSetDeep<S>(obj: Dict<Value<S>>, p: Path, val: Value<S>, q: Path)
    requires |p| >= 1 && SetDeep(obj, p, val).Ok?
    ensures IsPrefix(p, q) ==> Walk(Nested(SetDeep(obj, p, val).value), q) == Walk(val, q[|p|..])
    ensures IsPrefix(q, p) && |q| < |p| ==>
      Walk(Nested(SetDeep(obj, p, val).value), q).Some? && Walk(Nested(SetDeep(obj, p, val).value), q).value.Nested?
    ensures !IsPrefix(p, q) && !IsPrefix(q, p) ==>
      Walk(Nested(SetDeep(obj, p, val).value), q) == Walk(Nested(obj), q)
    decreases |p|
  {
    var d' := SetDeep(obj, p, val).value;
    var k := p[0];
    if q != [] {
      if |p| == 1 {
        PutLookup(obj, k, val, q[0]);
        if q[0] == k {
          assert q[..1] == p;
        }
      } else {
        var found: Option<Value<S>> := Lookup(obj, k);
        var c := match found case Some(Nested(c)) => c case _ => [];
        var c' := SetDeep(c, p[1..], val).value;
        assert d' == Put(obj, k, Nested(c'));
        PutLookup(obj, k, Nested(c'), q[0]);
        PrefixStep(p, q);
        PrefixStep(q, p);
        if q[0] == k {
          WalkAfterSetDeep(c, p[1..], val, q[1..]);
        }
      }
    }
  }

  /** Being a prefix, one step down both paths. */
  lemma PrefixStep(p: Path, q: Path)
    requires |p| >= 1 && |q| >= 1
    ensures p[0] != q[0] ==> !IsPrefix(p, q)
    ensures p[0] == q[0] ==> (IsPrefix(p, q) <==> IsPrefix(p[1..], q[1..]))
    ensures IsPrefix(p, q) ==> q[|p|..] == q[1..][|p| - 1..]
  {
    if |p| <= |q| {
      assert p == [p[0]] + p[1..] && q[..|p|] == [q[0]] + q[1..][..|p| - 1];
    }
  }

  predicate NonEmptyPaths<S>(ps: seq<Pair<S>>)
  {
    forall i | 0 <= i < |ps| :: |ps[i].0| >= 1
  }

  /** No path is a prefix of another (nor equal to it). */
  predicate PrefixFree<S>(ps: seq<Pair<S>>)
  {
    forall i, j | 0 <= i < |ps| && 0 <= j < |ps| && i != j :: !IsPrefix(ps[i].0, ps[j].0)
  }

  /** The loop of unflatten: set_deep for every pair in turn, stopping at the first failure. */
  function FoldSetDeep<S>(obj: Dict<Value<S>>, ps: seq<Pair<S>>): Outcome<S>
    requires NonEmptyPaths(ps)
    decreases |ps|
  {
    if ps == [] then Ok(obj)
    else match SetDeep(obj, ps[0].0, Leaf(ps[0].1))
      case Err(e) => Err(e)
      case Ok(o) => FoldSetDeep(o, ps[1..])
  }

  /** Paths unrelated to every pair read the same after the loop. */
  lemma {:induction false} FoldKeeps<S>(obj: Dict<Value<S>>, ps: seq<Pair<S>>, q: Path)
    requires NonEmptyPaths(ps) && FoldSetDeep(obj, ps).Ok?
    requires forall i | 0 <= i < |ps| :: !IsPrefix(ps[i].0, q) && !IsPrefix(q, ps[i].0)
    ensures Walk(Nested(FoldSetDeep(obj, ps).value), q) == Walk(Nested(obj), q)
    decreases |ps|
  {
    if ps != [] {
      var o := SetDeep(obj, ps[0].0, Leaf(ps[0].1)).value;
      WalkAfterSetDeep(obj, ps[0].0, Leaf(ps[0].1), q);
      FoldKeeps(o, ps[1..], q);
    }
  }

  /**
   * For prefix-free paths, starting from a record with no scalar on the way
   * to any of them, the loop succeeds and every path leads to its own value.
   */
  lemma {:induction false} FoldReaches<S>(obj: Dict<Value<S>>, ps: seq<Pair<S>>)
    requires NonEmptyPaths(ps) && PrefixFree(ps)
    requires forall i, n | 0 <= i < |ps| && 0 < n < |ps[i].0| :: !LeafAt(Nested(obj), ps[i].0[..n])
    ensures FoldSetDeep(obj, ps).Ok?
    ensures forall i | 0 <= i < |ps| :: Walk(Nested(FoldSetDeep(obj, ps).value), ps[i].0) == Some(Leaf(ps[i].1))
    decreases |ps|
  {
    if ps != [] {
      var p0 := ps[0].0;
      SetDeepOk(obj, p0, Leaf(ps[0].1));
      var o := SetDeep(obj, p0, Leaf(ps[0].1)).value;
      var rest := ps[1..];
      forall i, n | 0 <= i < |rest| && 0 < n < |rest[i].0| ensures !LeafAt(Nested(o), rest[i].0[..n]) {
        var q := rest[i].0[..n];
        assert rest[i] == ps[i + 1];
        var pi := ps[i + 1].0;
        assert IsPrefix(p0, q) ==> IsPrefix(p0, pi);
        WalkAfterSetDeep(obj, p0, Leaf(ps[0].1), q);
      }
      FoldReaches(o, rest);
      var r := FoldSetDeep(o, rest).value;
      assert FoldSetDeep(obj, ps) == Ok(r);
      forall i | 0 <= i < |rest| ensures !IsPrefix(rest[i].0, p0) && !IsPrefix(p0, rest[i].0) {
        assert rest[i] == ps[i + 1];
      }
      FoldKeeps(o, rest, p0);
      WalkAfterSetDeep(obj, p0, Leaf(ps[0].1), p0);
      assert p0[|p0|..] == [];
      forall i | 0 <= i < |ps| ensures Walk(Nested(r), ps[i].0) == Some(Leaf(ps[i].1)) {
        if i > 0 { assert ps[i] == rest[i - 1]; }
      }
    }
  }

  /** The pairs unflatten works on: each key split on '.'. */
  function SplitKeys<S>(x: Dict<S>): (ps: seq<Pair<S>>)
    ensures |ps| == |x| && NonEmptyPaths(ps)
    ensures forall i | 0 <= i < |x| :: ps[i] == (Split(x[i].0), x[i].1)
  {
    seq(|x|, i requires 0 <= i < |x| => (Split(x[i].0), x[i].1))
  }

  /** unflatten, as a value: set_deep for every entry of `x`, in order. */
  function Unflattened<S>(x: Dict<S>): Outcome<S>
  {
    FoldSetDeep([], SplitKeys(x))
  }

  /** No key's dotted path is a prefix of another key's (which also rules out repeated keys). */
  predicate DottedPrefixFree<S>(x: Dict<S>)
  {
    forall i, j | 0 <= i < |x| && 0 <= j < |x| && i != j :: !IsPrefix(Split(x[i].0), Split(x[j].0))
  }

  /**
   * When no key is a dotted prefix of another, unflatten succeeds and walking
   * `k.split('.')` down the result reaches `x[k]`, for every key.
   */
  lemma UnflattenReaches<S>(x: Dict<S>)
    requires DottedPrefixFree(x)
    ensures Unflattened(x).Ok?
    ensures forall i | 0 <= i < |x| :: Walk(Nested(Unflattened(x).value), Split(x[i].0)) == Some(Leaf(x[i].1))
  {
    var ps := SplitKeys(x);
    var empty: Dict<Value<S>> := [];
    forall i, n | 0 <= i < |ps| && 0 < n < |ps[i].0| ensures !LeafAt(Nested(empty), ps[i].0[..n]) {
      assert Walk(Nested(empty), ps[i].0[..n]) == None;
    }
    FoldReaches([], ps);
  }

  /**
   * unflatten (lines 16-20): a fresh record, filled entry by entry with set_deep.
   */
  method Unflatten<S>(x: Dict<S>) returns (r: Outcome<S>)
    ensures r == Unflattened(x)
    ensures DottedPrefixFree(x) ==>
      r.Ok? && forall i | 0 <= i < |x| :: Walk(Nested(r.value), Split(x[i].0)) == Some(Leaf(x[i].1))
  {
    ghost var ps := SplitKeys(x);
    var obj: Dict<Value<S>> := [];
    var i := 0;
    while i < |x|
      invariant 0 <= i <= |x|
      invariant FoldSetDeep(obj, ps[i..]) == Unflattened(x)
    {
      assert ps[i..][1..] == ps[i + 1..];
      var step := SetDeep(obj, Split(x[i].0), Leaf(x[i].1));
      match step {
        case Err(e) =>
          r := Err(e);
          if DottedPrefixFree(x) { UnflattenReaches(x); }
          return;
        case Ok(o) =>
          obj := o;
      }
      i := i + 1;
    }
    r := Ok(obj);
    if DottedPrefixFree(x) { UnflattenReaches(x); }
  }

  /**
   * dict_to_flat_pairs (lines 22-31): every scalar together with the path that
   * leads to it, in iteration order; a record contributes the pairs of its
   * entries one after the other.
   */
  function Pairs<S>(x: Value<S>, root: Path): seq<Pair<S>>
    decreases x
  {
    match x
    case Leaf(s) => [(root, s)]
    case Nested(es) => PairsFrom(es, 0, root)
  }

  /** The chained pairs of the entries `es[i..]` (the generator of lines 27-30). */
  function PairsFrom<S>(es: Dict<Value<S>>, i: nat, root: Path): seq<Pair<S>>
    requires i <= |es|
    decreases Nested(es), |es| - i
  {
    if i == |es| then []
    else Pairs(es[i].1, root + [es[i].0]) + PairsFrom(es, i + 1, root)
  }

  /** Each path '.'-joined into a flat key. */
  function Joined<S>(ps: seq<Pair<S>>): (kvs: Dict<S>)
    ensures |kvs| == |ps|
    ensures forall i | 0 <= i < |ps| :: kvs[i] == (Join(ps[i].0), ps[i].1)
  {
    seq(|ps|, i requires 0 <= i < |ps| => (Join(ps[i].0), ps[i].1))
  }

  /** flatten_obj (lines 33-34): a dict comprehension over the joined pairs. */
  function FlattenObj<S>(x: Value<S>): Dict<S>
  {
    Collect([], Joined(Pairs(x, [])))
  }

  /** Every record in the value is a real dict: no key twice, at any level. */
  predicate Proper<S>(es: Dict<Value<S>>)
    decreases Nested(es)
  {
    UniqueKeys(es) && forall i | 0 <= i < |es| :: es[i].1.Nested? ==> Proper(es[i].1.entries)
  }

  /**
   * What the round trip needs of a record: a real dict at every level, no '.'
   * in any key, and no empty record below the top.
   */
  predicate Flattenable<S>(es: Dict<Value<S>>)
    decreases Nested(es)
  {
    && UniqueKeys(es)
    && forall i | 0 <= i < |es| ::
         && '.' !in es[i].0
         && (es[i].1.Nested? ==> |es[i].1.entries| > 0 && Flattenable(es[i].1.entries))
  }

  /** Walk's path for a pair, below `root`. */
  lemma {:induction false} PairsFromContains<S>(es: Dict<Value<S>>, i: nat, j: nat, root: Path, e: Pair<S>)
    requires i <= j < |es|
    requires e in Pairs(es[j].1, root + [es[j].0])
    ensures e in PairsFrom(es, i, root)
    decreases j - i
  {
    if i < j {
      PairsFromContains(es, i + 1, j, root, e);
    }
  }

  /**
   * Every pair of dict_to_flat_pairs is a scalar with the exact path (below
   * `root`) that leads to it.
   */
  lemma {:induction false} PairsSound<S>(x: Value<S>, root: Path)
    requires x.Leaf? || Proper(x.entries)
    ensures forall m | 0 <= m < |Pairs(x, root)| ::
      && IsPrefix(root, Pairs(x, root)[m].0)
      && Walk(x, Pairs(x, root)[m].0[|root|..]) == Some(Leaf(Pairs(x, root)[m].1))
    decreases x
  {
    match x
    case Leaf(s) =>
      assert root[|root|..] == [];
    case Nested(es) =>
      PairsFromSound(es, 0, root);
  }

  lemma {:induction false} PairsFromSound<S>(es: Dict<Value<S>>, i: nat, root: Path)
    requires i <= |es| && Proper(es)
    ensures forall m | 0 <= m < |PairsFrom(es, i, root)| ::
      && |PairsFrom(es, i, root)[m].0| > |root|
      && IsPrefix(root, PairsFrom(es, i, root)[m].0)
      && Walk(Nested(es), PairsFrom(es, i, root)[m].0[|root|..]) == Some(Leaf(PairsFrom(es, i, root)[m].1))
    decreases Nested(es), |es| - i
  {
    if i < |es| {
      var k, c := es[i].0, es[i].1;
      var a := Pairs(c, root + [k]);
      var b := PairsFrom(es, i + 1, root);
      PairsSound(c, root + [k]);
      PairsFromSound(es, i + 1, root);
      LookupAt(es, i);
      forall m | 0 <= m < |a|
        ensures |a[m].0| > |root| && IsPrefix(root, a[m].0)
        ensures Walk(Nested(es), a[m].0[|root|..]) == Some(Leaf(a[m].1))
      {
        var p := a[m].0;
        assert p[..|root| + 1] == root + [k];
        assert p[..|root|] == root;
        assert p[|root|..][0] == k;
        assert p[|root|..][1..] == p[|root| + 1..];
      }
      assert PairsFrom(es, i, root) == a + b;
    }
  }

  /**
   * Conversely, every scalar in the value appears among the pairs, with the
   * path that leads to it.
   */
  lemma {:induction false} PairsComplete<S>(x: Value<S>, q: Path, s: S, root: Path)
    requires Walk(x, q) == Some(Leaf(s))
    ensures (root + q, s) in Pairs(x, root)
    decreases |q|
  {
    if q == [] {
      assert root + q == root;
    } else {
      var es := x.entries;
      var c := Lookup(es, q[0]).value;
      LookupFound(es, q[0], c);
      var j :| 0 <= j < |es| && es[j] == (q[0], c);
      PairsComplete(c, q[1..], s, root + [q[0]]);
      assert (root + [q[0]]) + q[1..] == root + q;
      PairsFromContains(es, 0, j, root, (root + q, s));
    }
  }

  /** The pairs with `r` put in front of every path. */
  function Prefixed<S>(r: Path, ps: seq<Pair<S>>): (qs: seq<Pair<S>>)
    ensures |qs| == |ps|
    ensures forall i | 0 <= i < |ps| :: qs[i] == (r + ps[i].0, ps[i].1)
  {
    seq(|ps|, i requires 0 <= i < |ps| => (r + ps[i].0, ps[i].1))
  }

  lemma PrefixedAppend<S>(r: Path, a: seq<Pair<S>>, b: seq<Pair<S>>)
    ensures Prefixed(r, a + b) == Prefixed(r, a) + Prefixed(r, b)
  {
    assert forall i | 0 <= i < |a + b| :: Prefixed(r, a + b)[i] == (Prefixed(r, a) + Prefixed(r, b))[i];
  }

  /** The `root` argument only prefixes the paths. */
  lemma {:induction false} PairsRoot<S>(x: Value<S>, r1: Path, r2: Path)
    ensures Pairs(x, r1 + r2) == Prefixed(r1, Pairs(x, r2))
    decreases x
  {
    match x
    case Leaf(s) =>
    case Nested(es) => PairsFromRoot(es, 0, r1, r2);
  }

  lemma {:induction false} PairsFromRoot<S>(es: Dict<Value<S>>, i: nat, r1: Path, r2: Path)
    requires i <= |es|
    ensures PairsFrom(es, i, r1 + r2) == Prefixed(r1, PairsFrom(es, i, r2))
    decreases Nested(es), |es| - i
  {
    if i < |es| {
      var k := es[i].0;
      assert (r1 + r2) + [k] == r1 + (r2 + [k]);
      PairsRoot(es[i].1, r1, r2 + [k]);
      PairsFromRoot(es, i + 1, r1, r2);
      PrefixedAppend(r1, Pairs(es[i].1, r2 + [k]), PairsFrom(es, i + 1, r2));
    }
  }

  predicate DotFree(p: Path)
  {
    forall t | t in p :: '.' !in t
  }

  predicate DistinctPaths<S>(ps: seq<Pair<S>>)
  {
    forall m, n | 0 <= m < n < |ps| :: ps[m].0 != ps[n].0
  }

  function KeysFrom<V>(es: Dict<V>, i: nat): set<string>
  {
    set j | i <= j < |es| :: es[j].0
  }

  /**
   * In a flattenable value the paths extend the root (strictly, below a
   * record), are dot-free and pairwise distinct.
   */
  lemma {:induction false} PairsShape<S>(x: Value<S>, root: Path)
    requires x.Leaf? || Flattenable(x.entries)
    requires DotFree(root)
    ensures forall m | 0 <= m < |Pairs(x, root)| ::
      IsPrefix(root, Pairs(x, root)[m].0) && DotFree(Pairs(x, root)[m].0)
    ensures x.Nested? ==> forall m | 0 <= m < |Pairs(x, root)| :: |Pairs(x, root)[m].0| > |root|
    ensures DistinctPaths(Pairs(x, root))
    decreases x
  {
    match x
    case Leaf(s) =>
    case Nested(es) => PairsFromShape(es, 0, root);
  }

  lemma {:induction false} PairsFromShape<S>(es: Dict<Value<S>>, i: nat, root: Path)
    requires i <= |es| && Flattenable(es)
    requires DotFree(root)
    ensures forall m | 0 <= m < |PairsFrom(es, i, root)| ::
      && |PairsFrom(es, i, root)[m].0| > |root|
      && IsPrefix(root, PairsFrom(es, i, root)[m].0)
      && DotFree(PairsFrom(es, i, root)[m].0)
      && PairsFrom(es, i, root)[m].0[|root|] in KeysFrom(es, i)
    ensures DistinctPaths(PairsFrom(es, i, root))
    decreases Nested(es), |es| - i
  {
    if i < |es| {
      var k, c := es[i].0, es[i].1;
      var a := Pairs(c, root + [k]);
      var b := PairsFrom(es, i + 1, root);
      assert DotFree(root + [k]);
      PairsShape(c, root + [k]);
      PairsFromShape(es, i + 1, root);
      assert k !in KeysFrom(es, i + 1);
      forall m | 0 <= m < |a|
        ensures |a[m].0| > |root| && IsPrefix(root, a[m].0) && a[m].0[|root|] == k
      {
        var p := a[m].0;
        assert p[..|root| + 1] == root + [k];
        assert p[..|root|] == root;
      }
      var ab := a + b;
      assert PairsFrom(es, i, root) == ab;
      forall m, n | 0 <= m < n < |ab| ensures ab[m].0 != ab[n].0 {
        if m < |a| && n >= |a| {
          assert ab[m].0[|root|] == k;
          assert ab[n] == b[n - |a|];
        } else if m >= |a| {
          assert ab[m] == b[m - |a|] && ab[n] == b[n - |a|];
        }
      }
    }
  }

  /** A flattenable record with entries yields at least one pair. */
  lemma {:induction false} PairsNonEmpty<S>(es: Dict<Value<S>>, i: nat, root: Path)
    requires i < |es| && Flattenable(es)
    ensures |PairsFrom(es, i, root)| >= 1
    decreases Nested(es), |es| - i
  {
    match es[i].1
    case Leaf(_) =>
    case Nested(ces) => PairsNonEmpty(ces, 0, root + [es[i].0]);
  }

  /** The unflatten loop over a concatenation runs the two halves in turn. */
  lemma {:induction false} FoldAppend<S>(obj: Dict<Value<S>>, a: seq<Pair<S>>, b: seq<Pair<S>>)
    requires NonEmptyPaths(a) && NonEmptyPaths(b)
    ensures NonEmptyPaths(a + b)
    ensures FoldSetDeep(obj, a + b) ==
      match FoldSetDeep(obj, a) case Ok(o) => FoldSetDeep(o, b) case Err(e) => Err(e)
    decreases |a|
  {
    assert NonEmptyPaths(a + b) by {
      forall m | 0 <= m < |a + b| ensures |(a + b)[m].0| >= 1 {
        if m >= |a| { assert (a + b)[m] == b[m - |a|]; }
      }
    }
    if a == [] {
      assert a + b == b;
    } else {
      assert (a + b)[0] == a[0];
      assert (a + b)[1..] == a[1..] + b;
      match SetDeep(obj, a[0].0, Leaf(a[0].1))
      case Err(e) =>
      case Ok(o) => FoldAppend(o, a[1..], b);
    }
  }

  /** Setting paths below an existing record `k` works inside that record. */
  lemma {:induction false} FoldUnder<S>(d: Dict<Value<S>>, k: string, c: Dict<Value<S>>, ps: seq<Pair<S>>)
    requires Lookup(d, k) == Some(Nested(c))
    requires NonEmptyPaths(ps)
    ensures NonEmptyPaths(Prefixed([k], ps))
    ensures FoldSetDeep(d, Prefixed([k], ps)) == PutChild(d, k, FoldSetDeep(c, ps))
    decreases |ps|
  {
    var kps := Prefixed([k], ps);
    if ps == [] {
      PutSame(d, k, Nested(c));
    } else {
      var p0 := ps[0].0;
      assert kps[0].0 == [k] + p0;
      assert kps[0].0[1..] == p0;
      assert kps[1..] == Prefixed([k], ps[1..]);
      match SetDeep(c, p0, Leaf(ps[0].1))
      case Err(e) =>
      case Ok(c1) =>
        var d1 := Put(d, k, Nested(c1));
        PutLookup(d, k, Nested(c1), k);
        FoldUnder(d1, k, c1, ps[1..]);
        match FoldSetDeep(c1, ps[1..])
        case Ok(c2) => PutPut(d, k, Nested(c1), Nested(c2));
        case Err(_) =>
    }
  }

  /** Setting paths below a missing key `k` builds a new record there. */
  lemma {:induction false} FoldUnderNew<S>(d: Dict<Value<S>>, k: string, ps: seq<Pair<S>>)
    requires Lookup(d, k) == None
    requires NonEmptyPaths(ps) && |ps| >= 1
    ensures NonEmptyPaths(Prefixed([k], ps))
    ensures FoldSetDeep(d, Prefixed([k], ps)) == PutChild(d, k, FoldSetDeep([], ps))
  {
    var kps := Prefixed([k], ps);
    var p0 := ps[0].0;
    assert kps[0].0 == [k] + p0;
    assert kps[0].0[1..] == p0;
    assert kps[1..] == Prefixed([k], ps[1..]);
    match SetDeep([], p0, Leaf(ps[0].1))
    case Err(e) =>
    case Ok(c1) =>
      var d1 := Put(d, k, Nested(c1));
      PutLookup(d, k, Nested(c1), k);
      FoldUnder(d1, k, c1, ps[1..]);
      match FoldSetDeep(c1, ps[1..])
      case Ok(c2) => PutPut(d, k, Nested(c1), Nested(c2));
      case Err(_) =>
  }

  /** Unflattening the pairs of `es[i..]` onto `d` appends those entries, unchanged. */
  lemma {:induction false} RebuildFrom<S>(es: Dict<Value<S>>, i: nat, d: Dict<Value<S>>)
    requires i <= |es| && Flattenable(es)
    requires forall j | i <= j < |es| :: !HasKey(d, es[j].0)
    ensures NonEmptyPaths(PairsFrom(es, i, []))
    ensures FoldSetDeep(d, PairsFrom(es, i, [])) == Ok(d + es[i..])
    decreases Nested(es), |es| - i
  {
    if i == |es| {
      assert d + es[i..] == d;
    } else {
      var k, c := es[i].0, es[i].1;
      var a := Pairs(c, [k]);
      var b := PairsFrom(es, i + 1, []);
      assert PairsFrom(es, i, []) == a + b by {
        assert [] + [k] == [k];
      }
      var d' := d + [es[i]];
      assert NonEmptyPaths(a) && FoldSetDeep(d, a) == Ok(d') by {
        FlattenableAt(es, i);
        RebuildChild(k, c, d);
      }
      assert NonEmptyPaths(b) && FoldSetDeep(d', b) == Ok(d' + es[i + 1..]) by {
        forall j | i + 1 <= j < |es| ensures !HasKey(d', es[j].0) {
          HasKeyAppend(d, es[i], es[j].0);
        }
        RebuildFrom(es, i + 1, d');
      }
      FoldAppend(d, a, b);
      assert d' + es[i + 1..] == d + es[i..];
    }
  }

  /** What Flattenable says of one entry. */
  lemma FlattenableAt<S>(es: Dict<Value<S>>, i: nat)
    requires Flattenable(es) && i < |es|
    ensures '.' !in es[i].0
    ensures es[i].1.Nested? ==> |es[i].1.entries| > 0 && Flattenable(es[i].1.entries)
    ensures forall j | 0 <= j < |es| && j != i :: es[j].0 != es[i].0
  {
  }

  /** Unflattening the pairs of one entry onto `d` appends that entry, unchanged. */
  lemma {:induction false} RebuildChild<S>(k: string, c: Value<S>, d: Dict<Value<S>>)
    requires !HasKey(d, k)
    requires c.Leaf? || (|c.entries| > 0 && Flattenable(c.entries))
    ensures NonEmptyPaths(Pairs(c, [k]))
    ensures FoldSetDeep(d, Pairs(c, [k])) == Ok(d + [(k, c)])
    decreases c
  {
    PutShape(d, k, c);
    match c
    case Leaf(s) =>
      assert Pairs(c, [k]) == [([k], s)];
    case Nested(ces) =>
      var ps := PairsFrom(ces, 0, []);
      PairsFromRoot(ces, 0, [k], []);
      assert [k] + [] == [k];
      PairsFromShape(ces, 0, []);
      PairsNonEmpty(ces, 0, []);
      LookupNone(d, k);
      FoldUnderNew(d, k, ps);
      RebuildFrom(ces, 0, []);
      assert [] + ces[0..] == ces;
  }

  /**
   * Round trip: a record with no '.' in any key and no empty sub-record comes
   * back unchanged, order included, from unflatten(flatten_obj(r)).
   */
  lemma RoundTrip<S>(es: Dict<Value<S>>)
    requires Flattenable(es)
    ensures Unflattened(FlattenObj(Nested(es))) == Ok(es)
  {
    var ps := PairsFrom(es, 0, []);
    assert Pairs(Nested(es), []) == ps;
    PairsFromShape(es, 0, []);
    var kvs := Joined(ps);
    forall m, n | 0 <= m < n < |kvs| ensures kvs[m].0 != kvs[n].0 {
      JoinInjective(ps[m].0, ps[n].0);
    }
    assert [] + kvs == kvs;
    CollectFresh([], kvs);
    forall m | 0 <= m < |ps| ensures Split(Join(ps[m].0)) == ps[m].0 {
      SplitJoin(ps[m].0);
    }
    assert SplitKeys(kvs) == ps;
    RebuildFrom(es, 0, []);
    assert [] + es[0..] == es;
  }

  /** flatten_obj: when several paths join to the same key, the last pair wins. */
  lemma FlattenObjLastWins<S>(x: Value<S>, j: nat)
    requires j < |Pairs(x, [])|
    requires forall j' | j < j' < |Pairs(x, [])| :: Join(Pairs(x, [])[j'].0) != Join(Pairs(x, [])[j].0)
    ensures Lookup(FlattenObj(x), Join(Pairs(x, [])[j].0)) == Some(Pairs(x, [])[j].1)
  {
    CollectLast([], Joined(Pairs(x, [])), j);
  }

  /** flatten_obj has no key that is not the join of some path. */
  lemma FlattenObjMissing<S>(x: Value<S>, k: string)
    requires forall j | 0 <= j < |Pairs(x, [])| :: Join(Pairs(x, [])[j].0) != k
    ensures Lookup(FlattenObj(x), k) == None
  {
    CollectAbsent([], Joined(Pairs(x, [])), k);
  }

  /**
   * The collision the naive '.'-join allows: the key "a.b" and the path a -> b
   * both flatten to "a.b", and only the later value survives.
   */
  lemma FlattenObjCollision()
    ensures FlattenObj(Nested([("a.b", Leaf(1)), ("a", Nested([("b", Leaf(2))]))])) == [("a.b", 2)]
  {
    var inner: Dict<Value<int>> := [("b", Leaf(2))];
    var x := Nested([("a.b", Leaf(1)), ("a", Nested(inner))]);
    var es := [("a.b", Leaf(1)), ("a", Nested(inner))];
    assert ["a"] + ["b"] == ["a", "b"] && [] + ["a.b"] == ["a.b"] && [] + ["a"] == ["a"];
    assert Pairs(inner[0].1, ["a"] + [inner[0].0]) == [(["a", "b"], 2)];
    assert Pairs(es[0].1, [] + [es[0].0]) == [(["a.b"], 1)];
    assert PairsFrom(inner, 1, ["a"]) == [];
    assert PairsFrom(inner, 0, ["a"]) == [(["a", "b"], 2)];
    assert PairsFrom(es, 2, []) == [];
    assert PairsFrom(es, 1, []) == [(["a", "b"], 2)];
    assert PairsFrom(es, 0, []) == [(["a.b"], 1), (["a", "b"], 2)];
    assert Pairs(x, []) == [(["a.b"], 1), (["a", "b"], 2)];
    assert Join(["a", "b"]) == "a.b";
    assert Joined(Pairs(x, [])) == [("a.b", 1), ("a.b", 2)];
  }

  /** Assigning keeps a record proper when the new value is proper. */
  lemma ProperPut<S>(d: Dict<Value<S>>, k: string, v: Value<S>)
    requires Proper(d) && (v.Nested? ==> Proper(v.entries))
    ensures Proper(Put(d, k, v))
  {
    PutUnique(d, k, v);
    PutEntries(d, k, v);
    var r := Put(d, k, v);
    forall i | 0 <= i < |r| && r[i].1.Nested? ensures Proper(r[i].1.entries) {
      assert r[i] in r;
      if r[i] != (k, v) {
        var j :| 0 <= j < |d| && d[j] == r[i];
      }
    }
  }

  /** set_deep of a scalar keeps a record proper: no key twice at any level. */
  lemma {:induction false} SetDeepProper<S>(obj: Dict<Value<S>>, toks: Path, s: S)
    requires |toks| >= 1 && Proper(obj) && SetDeep(obj, toks, Leaf(s)).Ok?
    ensures Proper(SetDeep(obj, toks, Leaf(s)).value)
    decreases |toks|
  {
    var k := toks[0];
    if |toks| == 1 {
      ProperPut(obj, k, Leaf(s));
    } else {
      var found: Option<Value<S>> := Lookup(obj, k);
      match found
      case Some(Leaf(_)) =>
      case Some(Nested(c)) =>
        LookupFound(obj, k, Nested(c));
        SetDeepProper(c, toks[1..], s);
        ProperPut(obj, k, Nested(SetDeep(c, toks[1..], Leaf(s)).value));
      case None =>
        SetDeepProper([], toks[1..], s);
        ProperPut(obj, k, Nested(SetDeep([], toks[1..], Leaf(s)).value));
    }
  }

  /** The unflatten loop keeps a record proper. */
  lemma {:induction false} FoldProper<S>(obj: Dict<Value<S>>, ps: seq<Pair<S>>)
    requires NonEmptyPaths(ps) && Proper(obj) && FoldSetDeep(obj, ps).Ok?
    ensures Proper(FoldSetDeep(obj, ps).value)
    decreases |ps|
  {
    if ps != [] {
      SetDeepProper(obj, ps[0].0, ps[0].1);
      FoldProper(SetDeep(obj, ps[0].0, Leaf(ps[0].1)).value, ps[1..]);
    }
  }

  /** After set_deep of a scalar, a scalar sits only at the path set or where one sat before. */
  lemma SetDeepLeaves<S>(obj: Dict<Value<S>>, p: Path, s: S, q: Path, t: S)
    requires |p| >= 1 && SetDeep(obj, p, Leaf(s)).Ok?
    requires Walk(Nested(SetDeep(obj, p, Leaf(s)).value), q) == Some(Leaf(t))
    ensures q == p || Walk(Nested(obj), q) == Some(Leaf(t))
  {
    WalkAfterSetDeep(obj, p, Leaf(s), q);
    assert IsPrefix(p, q) && q != p ==> |q| > |p|;
    assert IsPrefix(q, p) && q != p ==> |q| < |p|;
  }

  /** After the unflatten loop, a scalar sits only at one of the paths or where one sat before. */
  lemma {:induction false} FoldLeaves<S>(obj: Dict<Value<S>>, ps: seq<Pair<S>>, q: Path, t: S)
    requires NonEmptyPaths(ps) && FoldSetDeep(obj, ps).Ok?
    requires Walk(Nested(FoldSetDeep(obj, ps).value), q) == Some(Leaf(t))
    ensures Walk(Nested(obj), q) == Some(Leaf(t)) || exists i | 0 <= i < |ps| :: ps[i].0 == q
    decreases |ps|
  {
    if ps != [] {
      var o := SetDeep(obj, ps[0].0, Leaf(ps[0].1)).value;
      FoldLeaves(o, ps[1..], q, t);
      if Walk(Nested(o), q) == Some(Leaf(t)) {
        SetDeepLeaves(obj, ps[0].0, ps[0].1, q, t);
      } else {
        var i :| 0 <= i < |ps[1..]| && ps[1..][i].0 == q;
        assert ps[i + 1].0 == q;
      }
    }
  }

  /** Each pair flattened out of an unflattened dict is one of its entries, path split. */
  lemma UnflattenedPair<S>(x: Dict<S>, m: nat) returns (i: nat)
    requires DottedPrefixFree(x)
    requires Unflattened(x).Ok? && m < |Pairs(Nested(Unflattened(x).value), [])|
    ensures i < |x| && Pairs(Nested(Unflattened(x).value), [])[m] == (Split(x[i].0), x[i].1)
  {
    UnflattenReaches(x);
    var v := Nested(Unflattened(x).value);
    var empty: Dict<Value<S>> := [];
    FoldProper(empty, SplitKeys(x));
    PairsSound(v, []);
    var e := Pairs(v, [])[m];
    assert e.0[0..] == e.0;
    FoldLeaves(empty, SplitKeys(x), e.0, e.1);
    assert Walk(Nested(empty), e.0) != Some(Leaf(e.1));
    i :| 0 <= i < |x| && SplitKeys(x)[i].0 == e.0;
  }

  /**
   * flatten_obj(unflatten(x)) == x, as Python compares dicts: when no key is a
   * dotted prefix of another, every key has the same value (or is absent in
   * both). The order of the entries may differ: unflatten groups them by their
   * first token.
   */
  lemma FlattenUnflatten<S>(x: Dict<S>, k: string)
    requires DottedPrefixFree(x)
    ensures Unflattened(x).Ok?
    ensures Lookup(FlattenObj(Nested(Unflattened(x).value)), k) == Lookup(x, k)
  {
    UnflattenReaches(x);
    var v := Nested(Unflattened(x).value);
    var ps := Pairs(v, []);
    var kvs := Joined(ps);
    forall i, j | 0 <= i < j < |x| ensures x[i].0 != x[j].0 {
      assert IsPrefix(Split(x[i].0), Split(x[i].0));
    }
    if HasKey(x, k) {
      var i :| 0 <= i < |x| && x[i].0 == k;
      LookupAt(x, i);
      PairsComplete(v, Split(k), x[i].1, []);
      assert [] + Split(k) == Split(k);
      var m :| 0 <= m < |ps| && ps[m] == (Split(k), x[i].1);
      JoinSplit(k);
      assert kvs[m].0 == k;
      forall j | 0 <= j < |kvs| && kvs[j].0 == k ensures kvs[j].1 == x[i].1 {
        var i' := UnflattenedPair(x, j);
        JoinSplit(x[i'].0);
      }
      CollectAgreeing([], kvs, k, x[i].1);
    } else {
      LookupNone(x, k);
      forall j | 0 <= j < |kvs| ensures kvs[j].0 != k {
        var i' := UnflattenedPair(x, j);
        JoinSplit(x[i'].0);
      }
      CollectAbsent([], kvs, k);
    }
  }
}
