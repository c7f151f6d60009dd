/**
 * Sequence operations with the semantics of `Array.prototype.filter` and of
 * `Array.from(new Set(xs))` (de-duplication in first-insertion order).
 */
module Seqs {
  import opened Wrappers

  /** `a` is an order-preserving subsequence of `b`. */
  predicate IsSubseq<T(==)>(a: seq<T>, b: seq<T>)
    decreases |b|
  {
    if |a| == 0 then true
    else if |b| == 0 then false
    else (a[0] == b[0] && IsSubseq(a[1..], b[1..])) || IsSubseq(a, b[1..])
  }

  /** No element occurs twice. */
  predicate Distinct<T(==)>(xs: seq<T>) {
    forall i, j :: 0 <= i < j < |xs| ==> xs[i] != xs[j]
  }

  /** `xs.filter(f)`: the elements satisfying `f`, in their original order. */
  function Filter<T>(f: T -> bool, xs: seq<T>): (r: seq<T>)
    ensures |r| <= |xs|
    ensures forall i :: 0 <= i < |r| ==> r[i] in xs && f(r[i])
    ensures forall i :: 0 <= i < |xs| && f(xs[i]) ==> xs[i] in r
    decreases |xs|
  {
    if |xs| == 0 then []
    else (if f(xs[0]) then [xs[0]] else []) + Filter(f, xs[1..])
  }

  /** A filter keeps every copy of an element it accepts and no copy of one it rejects. */
  lemma {:induction false} FilterCounts<T>(f: T -> bool, xs: seq<T>)
    ensures forall x :: multiset(Filter(f, xs))[x] == if f(x) then multiset(xs)[x] else 0
    decreases |xs|
  {
    if |xs| > 0 {
      FilterCounts(f, xs[1..]);
      assert xs == [xs[0]] + xs[1..];
      assert multiset(xs) == multiset([xs[0]]) + multiset(xs[1..]);
    }
  }

  /** A filter result is a subsequence of its input. */
  lemma {:induction false} FilterIsSubseq<T>(f: T -> bool, xs: seq<T>)
    ensures IsSubseq(Filter(f, xs), xs)
    decreases |xs|
  {
    if |xs| > 0 {
      FilterIsSubseq(f, xs[1..]);
      var r := Filter(f, xs[1..]);
      if f(xs[0]) {
        assert ([xs[0]] + r)[1..] == r;
      } else {
        assert [] + r == r;
        if |r| > 0 {
          assert IsSubseq(r, xs[1..]);
        }
      }
    }
  }

  /** Filtering with a predicate every element satisfies returns the input. */
  lemma {:induction false} FilterKeepsAll<T>(f: T -> bool, xs: seq<T>)
    requires forall i :: 0 <= i < |xs| ==> f(xs[i])
    ensures Filter(f, xs) == xs
    decreases |xs|
  {
    if |xs| > 0 {
      FilterKeepsAll(f, xs[1..]);
      assert [xs[0]] + xs[1..] == xs;
    }
  }

  /** Filtering distributes over concatenation. */
  lemma {:induction false} FilterConcat<T>(f: T -> bool, a: seq<T>, b: seq<T>)
    ensures Filter(f, a + b) == Filter(f, a) + Filter(f, b)
    decreases |a|
  {
    if |a| > 0 {
      assert (a + b)[1..] == a[1..] + b;
      FilterConcat(f, a[1..], b);
    } else {
      assert a + b == b;
    }
  }

  /**
   * Filtering with a stronger predicate `g` is the same as first filtering
   * with the weaker `f` and then with `g`: the stronger result is carved out
   * of the weaker one.
   */
  lemma {:induction false} FilterStronger<T>(f: T -> bool, g: T -> bool, xs: seq<T>)
    requires forall i :: 0 <= i < |xs| ==> g(xs[i]) ==> f(xs[i])
    ensures Filter(g, xs) == Filter(g, Filter(f, xs))
    decreases |xs|
  {
    if |xs| > 0 {
      FilterStronger(f, g, xs[1..]);
      var rest := Filter(f, xs[1..]);
      if f(xs[0]) {
        assert ([xs[0]] + rest)[1..] == rest;
      } else {
        assert [] + rest == rest;
      }
    }
  }

  /** A filter that rejects some element returns a strictly shorter sequence. */
  lemma {:induction false} FilterDrops<T>(f: T -> bool, xs: seq<T>, i: nat)
    requires i < |xs| && !f(xs[i])
    ensures |Filter(f, xs)| < |xs|
    decreases |xs|
  {
    if i > 0 {
      FilterDrops(f, xs[1..], i - 1);
    }
  }

  /** Filters whose predicates agree on every element of the input agree. */
  lemma {:induction false} FilterExt<T>(f: T -> bool, g: T -> bool, xs: seq<T>)
    requires forall i :: 0 <= i < |xs| ==> f(xs[i]) == g(xs[i])
    ensures Filter(f, xs) == Filter(g, xs)
    decreases |xs|
  {
    if |xs| > 0 {
      FilterExt(f, g, xs[1..]);
    }
  }

  /** Dropping every occurrence of one element from a duplicate-free sequence keeps it duplicate-free. */
  lemma {:induction false} FilterKeepsDistinct<T>(f: T -> bool, xs: seq<T>)
    requires Distinct(xs)
    ensures Distinct(Filter(f, xs))
    decreases |xs|
  {
    if |xs| > 0 {
      assert Distinct(xs[1..]) by {
        forall i, j | 0 <= i < j < |xs[1..]| ensures xs[1..][i] != xs[1..][j] {
          assert xs[1..][i] == xs[i + 1] && xs[1..][j] == xs[j + 1];
        }
      }
      FilterKeepsDistinct(f, xs[1..]);
      assert xs[0] !in xs[1..];
    }
  }

  /** `xs.map(f)`. */
  function Map<A, B>(f: A -> B, xs: seq<A>): (r: seq<B>)
    ensures |r| == |xs|
    ensures forall i :: 0 <= i < |xs| ==> r[i] == f(xs[i])
    decreases |xs|
  {
    if |xs| == 0 then [] else [f(xs[0])] + Map(f, xs[1..])
  }

  /** `xs.map(f).filter(present)`: the present results of `f`, in order. */
  function FilterMap<A, B>(f: A -> Option<B>, xs: seq<A>): (r: seq<B>)
    ensures |r| <= |xs|
    decreases |xs|
  {
    if |xs| == 0 then []
    else
      var rest := FilterMap(f, xs[1..]);
      match f(xs[0])
      case Some(y) => [y] + rest
      case None => rest
  }

  /** A value is in the result iff `f` produces it from some element. */
  lemma {:induction false} FilterMapMembers<A, B>(f: A -> Option<B>, xs: seq<A>, y: B)
    ensures y in FilterMap(f, xs) <==> exists i :: 0 <= i < |xs| && f(xs[i]) == Some(y)
    decreases |xs|
  {
    if |xs| > 0 {
      FilterMapMembers(f, xs[1..], y);
      if i :| 0 <= i < |xs| && f(xs[i]) == Some(y) {
        if i > 0 {
          assert xs[1..][i - 1] == xs[i];
        }
      }
      if i :| 0 <= i < |xs[1..]| && f(xs[1..][i]) == Some(y) {
        assert xs[i + 1] == xs[1..][i];
      }
    }
  }

  /** Each element is mapped or dropped on its own: the result distributes over concatenation. */
  lemma {:induction false} FilterMapConcat<A, B>(f: A -> Option<B>, a: seq<A>, b: seq<A>)
    ensures FilterMap(f, a + b) == FilterMap(f, a) + FilterMap(f, b)
    decreases |a|
  {
    if |a| == 0 {
      assert a + b == b;
    } else {
      assert (a + b)[0] == a[0];
      assert (a + b)[1..] == a[1..] + b;
      FilterMapConcat(f, a[1..], b);
    }
  }

  /** Mapping with `g` and then keeping the present results of a left inverse `f` of `g` gives back the input. */
  lemma {:induction false} FilterMapInverse<A, B>(f: A -> Option<B>, g: B -> A, ys: seq<B>)
    requires forall y :: y in ys ==> f(g(y)) == Some(y)
    ensures FilterMap(f, Map(g, ys)) == ys
    decreases |ys|
  {
    if |ys| > 0 {
      var m := Map(g, ys);
      assert m[1..] == Map(g, ys[1..]);
      FilterMapInverse(f, g, ys[1..]);
      assert f(m[0]) == Some(ys[0]);
      assert ys == [ys[0]] + ys[1..];
    }
  }

  /** A single element contributes its result, if present. */
  lemma FilterMapSingle<A, B>(f: A -> Option<B>, x: A)
    ensures FilterMap(f, [x]) == (match f(x) case Some(y) => [y] case None => [])
  {
    assert [x][1..] == [];
  }

  /** Of three elements whose middle one maps to nothing, the outer two results remain, in order. */
  lemma FilterMapDropsMiddle<A, B>(f: A -> Option<B>, a: A, b: A, c: A, n: B, m: B)
    requires f(a) == Some(n) && f(b) == None && f(c) == Some(m)
    ensures FilterMap(f, [a, b, c]) == [n, m]
  {
    assert [c][1..] == [];
    assert FilterMap(f, [c]) == [m];
    assert [b, c][1..] == [c];
    assert FilterMap(f, [b, c]) == [m];
    assert [a, b, c][1..] == [b, c];
    assert FilterMap(f, [a, b, c]) == [n] + [m];
  }

  /**
   * `Array.from(new Set(xs))`: each element once, at the place it was first
   * inserted. A later repeat leaves the set (and its iteration order) unchanged.
   */
  function Dedup<T(==)>(xs: seq<T>): (r: seq<T>)
    ensures forall i :: 0 <= i < |r| ==> r[i] in xs
    ensures forall i :: 0 <= i < |xs| ==> xs[i] in r
    ensures Distinct(r)
    decreases |xs|
  {
    if |xs| == 0 then []
    else
      var init := Dedup(xs[..|xs| - 1]);
      var last := xs[|xs| - 1];
      if last in xs[..|xs| - 1] then init else init + [last]
  }

  /** Index of the first occurrence of `x` in `xs`. */
  function FirstIndex<T(==)>(xs: seq<T>, x: T): (k: nat)
    requires x in xs
    ensures k < |xs| && xs[k] == x
    ensures forall j :: 0 <= j < k ==> xs[j] != x
    decreases |xs|
  {
    if xs[0] == x then 0 else 1 + FirstIndex(xs[1..], x)
  }

  /** Extending a sequence does not move the first occurrence of an element already present. */
  lemma FirstIndexExtend<T>(xs: seq<T>, y: T, x: T)
    requires x in xs
    ensures FirstIndex(xs + [y], x) == FirstIndex(xs, x)
  {
    var k := FirstIndex(xs, x);
    assert (xs + [y])[k] == x;
  }

  /** `Dedup` lists the elements in the order of their first occurrence in the input. */
  lemma {:induction false} DedupFirstOccurrenceOrder<T>(xs: seq<T>)
    ensures forall i, j :: 0 <= i < j < |Dedup(xs)| ==>
              FirstIndex(xs, Dedup(xs)[i]) < FirstIndex(xs, Dedup(xs)[j])
    decreases |xs|
  {
    if |xs| > 0 {
      var pre := xs[..|xs| - 1];
      var last := xs[|xs| - 1];
      assert xs == pre + [last];
      DedupFirstOccurrenceOrder(pre);
      var d := Dedup(pre);
      forall y | y in d ensures FirstIndex(xs, y) == FirstIndex(pre, y) {
        FirstIndexExtend(pre, last, y);
      }
      if last !in pre {
        assert FirstIndex(xs, last) == |xs| - 1;
        forall i, j | 0 <= i < j < |d + [last]|
          ensures FirstIndex(xs, (d + [last])[i]) < FirstIndex(xs, (d + [last])[j])
        {
          assert (d + [last])[i] == d[i];
          if j < |d| {
            assert (d + [last])[j] == d[j];
          }
        }
      }
    }
  }
}
