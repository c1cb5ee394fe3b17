/**
 * Strings: the two string facilities the library leans on.
 *  - Python's ordering of `str` values (byte-wise lexicographic, a proper prefix
 *    sorts first), used by `sorted(...)` when a header is inferred;
 *  - `key.split('.')` and `'.'.join(path)`, the dotted-path encoding of nested keys.
 */
module Strings {
  import opened Seqs

  /** Python's `a < b` on strings: lexicographic by character code. */
  predicate Less(a: string, b: string)
    decreases |a|
  {
    if |a| == 0 then |b| > 0
    else if |b| == 0 then false
    else if a[0] != b[0] then a[0] < b[0]
    else Less(a[1..], b[1..])
  }

  lemma LessIrreflexive(a: string)
    ensures !Less(a, a)
    decreases |a|
  {
    if |a| > 0 { LessIrreflexive(a[1..]); }
  }

  lemma LessTransitive(a: string, b: string, c: string)
    requires Less(a, b) && Less(b, c)
    ensures Less(a, c)
    decreases |a|
  {
    if |a| > 0 && |b| > 0 && |c| > 0 && a[0] == b[0] == c[0] {
      LessTransitive(a[1..], b[1..], c[1..]);
    }
  }

  lemma LessTotal(a: string, b: string)
    requires a != b
    ensures Less(a, b) || Less(b, a)
    decreases |a|
  {
    if |a| > 0 && |b| > 0 && a[0] == b[0] {
      assert a == [a[0]] + a[1..] && b == [b[0]] + b[1..];
      LessTotal(a[1..], b[1..]);
    }
  }

  /** Sorted in ascending order with no repetitions. */
  predicate StrictlySorted(xs: seq<string>)
  {
    forall i, j | 0 <= i < j < |xs| :: Less(xs[i], xs[j])
  }

  lemma StrictlySortedNoDup(xs: seq<string>)
    requires StrictlySorted(xs)
    ensures NoDup(xs)
  {
    forall i, j | 0 <= i < j < |xs| ensures xs[i] != xs[j] {
      LessIrreflexive(xs[i]);
    }
  }

  /** Places `x` in a sorted list, keeping it sorted: one step of `sorted`. */
  function Insert(xs: seq<string>, x: string): (r: seq<string>)
    requires StrictlySorted(xs) && x !in xs
    ensures StrictlySorted(r)
    ensures Elems(r) == Elems(xs) + {x}
    ensures |r| == |xs| + 1
  {
    if xs == [] then [x]
    else if Less(x, xs[0]) then
      assert forall j | 0 < j < |xs| :: Less(x, xs[j]) by {
        forall j | 0 < j < |xs| ensures Less(x, xs[j]) { LessTransitive(x, xs[0], xs[j]); }
      }
      [x] + xs
    else
      LessTotal(x, xs[0]);
      var tail := Insert(xs[1..], x);
      assert Elems(xs) == {xs[0]} + Elems(xs[1..]);
      assert forall j | 0 <= j < |tail| :: Less(xs[0], tail[j]) by {
        forall j | 0 <= j < |tail| ensures Less(xs[0], tail[j]) {
          assert tail[j] in Elems(tail);
        }
      }
      [xs[0]] + tail
  }

  /** A strictly sorted list is determined by its set of elements. */
  lemma {:induction false} StrictlySortedUnique(xs: seq<string>, ys: seq<string>)
    requires StrictlySorted(xs) && StrictlySorted(ys)
    requires Elems(xs) == Elems(ys)
    ensures xs == ys
    decreases |xs|
  {
    assert ys != [] ==> ys[0] in Elems(ys);
    if xs != [] {
      assert xs[0] in Elems(ys);
      assert ys != [];
      if xs[0] != ys[0] {
        assert ys[0] in Elems(xs);
        var k :| 0 <= k < |ys| && ys[k] == xs[0];
        var m :| 0 <= m < |xs| && xs[m] == ys[0];
        assert k > 0 && m > 0;
        LessTransitive(xs[0], ys[0], xs[0]);
        LessIrreflexive(xs[0]);
      }
      StrictlySortedNoDup(xs);
      StrictlySortedNoDup(ys);
      assert Elems(xs[1..]) == Elems(xs) - {xs[0]} by {
        assert xs == [xs[0]] + xs[1..];
      }
      assert Elems(ys[1..]) == Elems(ys) - {ys[0]} by {
        assert ys == [ys[0]] + ys[1..];
      }
      StrictlySortedUnique(xs[1..], ys[1..]);
      assert xs == [xs[0]] + xs[1..] && ys == [ys[0]] + ys[1..];
    }
  }

  /** Python's `s.split('.')`: always at least one token; consecutive dots give empty tokens. */
  function Split(s: string): (r: seq<string>)
    ensures |r| >= 1
    ensures forall t | t in r :: '.' !in t
    decreases |s|
  {
    if |s| == 0 then [""]
    else
      var rest := Split(s[1..]);
      if s[0] == '.' then [""] + rest
      else [[s[0]] + rest[0]] + rest[1..]
  }

  /** Python's `'.'.join(ts)`. */
  function Join(ts: seq<string>): string
  {
    if |ts| == 0 then ""
    else if |ts| == 1 then ts[0]
    else ts[0] + "." + Join(ts[1..])
  }

  /** Joining the tokens of a split gives the string back, for every string. */
  lemma {:induction false} JoinSplit(s: string)
    ensures Join(Split(s)) == s
    decreases |s|
  {
    if |s| > 0 {
      var rest := Split(s[1..]);
      JoinSplit(s[1..]);
      if s[0] == '.' {
        assert Split(s) == [""] + rest;
        assert Join([""] + rest) == "" + "." + Join(rest) by {
          assert ([""] + rest)[1..] == rest;
        }
        assert s == "." + s[1..];
      } else if |rest| == 1 {
        assert s == [s[0]] + s[1..];
      } else {
        var r := [[s[0]] + rest[0]] + rest[1..];
        assert r[1..] == rest[1..];
        assert Join(rest) == rest[0] + "." + Join(rest[1..]);
        assert s == [s[0]] + s[1..];
      }
    }
  }

  lemma {:induction false} SplitPlain(a: string)
    requires '.' !in a
    ensures Split(a) == [a]
    decreases |a|
  {
    if |a| > 0 {
      SplitPlain(a[1..]);
      assert a == [a[0]] + a[1..];
    }
  }

  lemma {:induction false} SplitDotted(a: string, b: string)
    requires '.' !in a
    ensures Split(a + "." + b) == [a] + Split(b)
    decreases |a|
  {
    var s := a + "." + b;
    if |a| == 0 {
      assert s[0] == '.' && s[1..] == b;
    } else {
      assert s[0] == a[0] && s[1..] == a[1..] + "." + b;
      SplitDotted(a[1..], b);
      assert a == [a[0]] + a[1..];
    }
  }

  /** Splitting a join of dot-free tokens gives the tokens back (a non-empty path). */
  lemma {:induction false} SplitJoin(ts: seq<string>)
    requires |ts| >= 1
    requires forall i | 0 <= i < |ts| :: '.' !in ts[i]
    ensures Split(Join(ts)) == ts
    decreases |ts|
  {
    if |ts| == 1 {
      SplitPlain(ts[0]);
    } else {
      SplitJoin(ts[1..]);
      SplitDotted(ts[0], Join(ts[1..]));
      assert ts == [ts[0]] + ts[1..];
    }
  }

  /** `'.'.join` is injective on non-empty paths of dot-free tokens. */
  lemma JoinInjective(p: seq<string>, q: seq<string>)
    requires |p| >= 1 && |q| >= 1
    requires forall i | 0 <= i < |p| :: '.' !in p[i]
    requires forall i | 0 <= i < |q| :: '.' !in q[i]
    ensures Join(p) == Join(q) ==> p == q
  {
    SplitJoin(p);
    SplitJoin(q);
  }
}
