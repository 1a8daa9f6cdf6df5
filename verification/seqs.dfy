/** Small sequence vocabulary: mapping, filtering, first occurrence and
    first-appearance de-duplication. */
module Seqs {

  /** `f` applied to every element, in order. */
  function Project<T, U>(f: T -> U, xs: seq<T>): (ys: seq<U>)
    ensures |ys| == |xs|
    ensures forall i :: 0 <= i < |xs| ==> ys[i] == f(xs[i])
  {
    seq(|xs|, i requires 0 <= i < |xs| => f(xs[i]))
  }

  lemma ProjectConcat<T, U>(f: T -> U, xs: seq<T>, ys: seq<T>)
    ensures Project(f, xs + ys) == Project(f, xs) + Project(f, ys)
  {
  }

  lemma PrefixMultiset<T>(xs: seq<T>, k: nat)
    requires k <= |xs|
    ensures multiset(xs[..k]) <= multiset(xs)
  {
    assert xs == xs[..k] + xs[k..];
  }

  lemma MultisetConcatLe<T>(a: seq<T>, b: seq<T>, c: seq<T>, d: seq<T>)
    requires multiset(a) <= multiset(c) && multiset(b) <= multiset(d)
    ensures multiset(a + b) <= multiset(c + d)
  {
  }

  /** The elements of `xs` satisfying `p`, in order. */
  function Keep<T>(p: T -> bool, xs: seq<T>): (ys: seq<T>)
    ensures |ys| <= |xs|
    ensures forall y :: y in ys ==> y in xs && p(y)
  {
    if |xs| == 0 then [] else (if p(xs[0]) then [xs[0]] else []) + Keep(p, xs[1..])
  }

  /** Position of the first occurrence of `x` in `xs`, or `|xs|` when absent. */
  function IndexOf<T(==)>(xs: seq<T>, x: T): (k: nat)
    ensures k <= |xs|
    ensures k < |xs| ==> xs[k] == x
    ensures forall j :: 0 <= j < k ==> xs[j] != x
    ensures k == |xs| <==> x !in xs
  {
    if |xs| == 0 then 0 else if xs[0] == x then 0 else 1 + IndexOf(xs[1..], x)
  }

  /** Appending at the end does not move the first occurrence of a present element. */
  lemma IndexOfSnoc<T>(xs: seq<T>, y: T, x: T)
    requires x in xs
    ensures IndexOf(xs + [y], x) == IndexOf(xs, x)
  {
    var k := IndexOf(xs, x);
    var k' := IndexOf(xs + [y], x);
    assert (xs + [y])[k] == x;
    if k' < k {
      assert (xs + [y])[k'] == xs[k'];
    }
  }

  predicate NoDuplicates<T(==)>(xs: seq<T>) {
    forall i, j :: 0 <= i < j < |xs| ==> xs[i] != xs[j]
  }

  /** Without duplicates, the tail has no duplicates and lacks the head. */
  lemma NoDuplicatesTail<T>(xs: seq<T>)
    requires NoDuplicates(xs) && |xs| > 0
    ensures NoDuplicates(xs[1..]) && xs[0] !in xs[1..]
  {
    var rest := xs[1..];
    forall i, j | 0 <= i < j < |rest| ensures rest[i] != rest[j] {
      assert rest[i] == xs[i + 1] && rest[j] == xs[j + 1];
    }
    forall j | 0 <= j < |rest| ensures rest[j] != xs[0] {
      assert rest[j] == xs[j + 1];
    }
  }

  /** Every element of `xs` once, at the place of its first appearance. */
  function Distinct<T(==)>(xs: seq<T>): seq<T>
  {
    if |xs| == 0 then []
    else
      var d := Distinct(xs[..|xs| - 1]);
      if xs[|xs| - 1] in d then d else d + [xs[|xs| - 1]]
  }

  /** `d` lists the elements of `xs`, each once, ordered by where each first
      appears in `xs`. */
  ghost predicate FirstAppearanceOrder<T>(xs: seq<T>, d: seq<T>) {
    && (forall i :: 0 <= i < |d| ==> d[i] in xs)
    && (forall i :: 0 <= i < |xs| ==> xs[i] in d)
    && NoDuplicates(d)
    && (forall i, j :: 0 <= i < j < |d| ==> IndexOf(xs, d[i]) < IndexOf(xs, d[j]))
  }

  /** `Distinct` lists each element once, in first-appearance order. */
  lemma {:induction false} DistinctOrder<T>(xs: seq<T>)
    ensures FirstAppearanceOrder(xs, Distinct(xs))
  {
    if |xs| > 0 {
      var n := |xs| - 1;
      var p := xs[..n];
      assert xs == p + [xs[n]];
      DistinctOrder(p);
      SnocOrder(p, xs[n], Distinct(p));
    }
  }

  /** Appending one element keeps a first-appearance listing one, extended
      by the element when it is new. */
  lemma SnocOrder<T>(p: seq<T>, x: T, d: seq<T>)
    requires FirstAppearanceOrder(p, d)
    ensures FirstAppearanceOrder(p + [x], if x in d then d else d + [x])
  {
    var xs := p + [x];
    forall y | y in p
      ensures IndexOf(xs, y) == IndexOf(p, y)
    {
      IndexOfSnoc(p, x, y);
    }
    forall i | 0 <= i < |p| ensures xs[i] in d {
      assert xs[i] == p[i];
    }
    if x !in d {
      assert x !in p;
      SnocNew(p, x, d);
      var d' := d + [x];
      forall i | 0 <= i < |d'| ensures d'[i] in xs {
        if i < |d| { assert d'[i] == d[i]; }
      }
      assert NoDuplicates(d') by {
        forall i, j | 0 <= i < j < |d'| ensures d'[i] != d'[j] {
          assert d'[i] == d[i];
        }
      }
    }
  }

  lemma SnocNew<T>(p: seq<T>, x: T, d: seq<T>)
    requires x !in p
    requires forall i :: 0 <= i < |d| ==> d[i] in p
    requires forall i, j :: 0 <= i < j < |d| ==> IndexOf(p + [x], d[i]) < IndexOf(p + [x], d[j])
    ensures forall i, j :: 0 <= i < j < |d + [x]| ==> IndexOf(p + [x], (d + [x])[i]) < IndexOf(p + [x], (d + [x])[j])
  {
    var xs, d' := p + [x], d + [x];
    assert IndexOf(xs, x) == |p| by {
      assert xs[|p|] == x;
    }
    forall i, j | 0 <= i < j < |d'|
      ensures IndexOf(xs, d'[i]) < IndexOf(xs, d'[j])
    {
      assert d'[i] == d[i] && d[i] in p;
      if j < |d| {
        assert d'[j] == d[j];
      } else {
        assert xs[IndexOf(xs, d[i])] == d[i];
      }
    }
  }
}
