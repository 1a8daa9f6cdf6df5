/** Order-preserving grouping of a sequence by a key: the reshaping behind
    the per-account and per-region snapshot records. The insertion step is the
    one the scripts perform with their linear scan: append to the first group
    whose key matches, or open a new group at the end. */
module Grouping {
  import opened Seqs

  /** One group: its key and the items carrying that key, in input order. */
  datatype Bucket<K, T> = Bucket(key: K, items: seq<T>)

  function Keys<K, T>(bs: seq<Bucket<K, T>>): (ks: seq<K>)
    ensures |ks| == |bs|
    ensures forall i :: 0 <= i < |bs| ==> ks[i] == bs[i].key
  {
    seq(|bs|, i requires 0 <= i < |bs| => bs[i].key)
  }

  /** Adds `x`, whose key is `k`, to the first bucket keyed `k`, or opens one. */
  function Insert<K(==), T>(bs: seq<Bucket<K, T>>, k: K, x: T): seq<Bucket<K, T>>
  {
    var i := IndexOf(Keys(bs), k);
    if i < |bs| then bs[i := Bucket(k, bs[i].items + [x])] else bs + [Bucket(k, [x])]
  }

  /** The buckets obtained by inserting the elements of `xs` one by one. */
  function Group<K(==), T>(xs: seq<T>, key: T -> K): seq<Bucket<K, T>>
  {
    if |xs| == 0 then []
    else
      var n := |xs| - 1;
      Insert(Group(xs[..n], key), key(xs[n]), xs[n])
  }

  /** The elements of `xs` whose key is `k`, in input order. */
  function Select<K(==), T>(xs: seq<T>, key: T -> K, k: K): seq<T>
  {
    if |xs| == 0 then []
    else
      var n := |xs| - 1;
      Select(xs[..n], key, k) + (if key(xs[n]) == k then [xs[n]] else [])
  }

  /** All items of all buckets, bucket after bucket. */
  function Flatten<K, T>(bs: seq<Bucket<K, T>>): seq<T>
  {
    if |bs| == 0 then [] else bs[0].items + Flatten(bs[1..])
  }

  lemma {:induction false} SelectAbsent<K, T>(xs: seq<T>, key: T -> K, k: K)
    requires k !in Project(key, xs)
    ensures Select(xs, key, k) == []
  {
    if |xs| > 0 {
      var n := |xs| - 1;
      assert Project(key, xs[..n]) == Project(key, xs)[..n];
      SelectAbsent(xs[..n], key, k);
      assert key(xs[n]) == Project(key, xs)[n];
    }
  }

  /** Every selected element carries the selecting key and comes from `xs`. */
  lemma {:induction false} SelectKeys<K, T>(xs: seq<T>, key: T -> K, k: K)
    ensures forall y :: y in Select(xs, key, k) ==> key(y) == k && y in xs
  {
    if |xs| > 0 {
      var n := |xs| - 1;
      SelectKeys(xs[..n], key, k);
      assert xs == xs[..n] + [xs[n]];
    }
  }

  lemma {:induction false} FlattenSnoc<K, T>(bs: seq<Bucket<K, T>>, b: Bucket<K, T>)
    ensures Flatten(bs + [b]) == Flatten(bs) + b.items
  {
    if |bs| > 0 {
      assert (bs + [b])[1..] == bs[1..] + [b];
      FlattenSnoc(bs[1..], b);
    }
  }

  /** Appending `x` to one bucket adds exactly `x` to the flattened contents. */
  lemma {:induction false} FlattenAppendAt<K, T>(bs: seq<Bucket<K, T>>, i: nat, x: T)
    requires i < |bs|
    ensures multiset(Flatten(bs[i := Bucket(bs[i].key, bs[i].items + [x])]))
         == multiset(Flatten(bs)) + multiset{x}
  {
    var bs' := bs[i := Bucket(bs[i].key, bs[i].items + [x])];
    var a := bs[0].items;
    if i > 0 {
      var rest' := bs[1..][i - 1 := Bucket(bs[i].key, bs[i].items + [x])];
      assert bs'[1..] == rest';
      assert bs[1..][i - 1] == bs[i];
      FlattenAppendAt(bs[1..], i - 1, x);
      assert Flatten(bs') == a + Flatten(rest');
      assert Flatten(bs) == a + Flatten(bs[1..]);
    } else {
      assert bs'[1..] == bs[1..];
      assert Flatten(bs') == (a + [x]) + Flatten(bs[1..]);
    }
  }

  /** The buckets' keys are the input's keys in order of first appearance. */
  lemma {:induction false} GroupKeys<K, T>(xs: seq<T>, key: T -> K)
    ensures Keys(Group(xs, key)) == Distinct(Project(key, xs))
  {
    if |xs| > 0 {
      var n := |xs| - 1;
      var p, x := xs[..n], xs[n];
      var k := key(x);
      GroupKeys(p, key);
      var g := Group(p, key);
      var ks := Project(key, xs);
      assert ks[..n] == Project(key, p);
      assert ks[n] == k;
      var i := IndexOf(Keys(g), k);
      if i < |g| {
        assert Keys(Insert(g, k, x)) == Keys(g);
      } else {
        assert Keys(Insert(g, k, x)) == Keys(g) + [k];
      }
    }
  }

  /** Each bucket holds exactly the input elements with its key, in input order. */
  lemma {:induction false} GroupItems<K, T>(xs: seq<T>, key: T -> K)
    ensures forall i :: 0 <= i < |Group(xs, key)| ==>
      Group(xs, key)[i].items == Select(xs, key, Group(xs, key)[i].key)
  {
    if |xs| > 0 {
      var n := |xs| - 1;
      var p, x := xs[..n], xs[n];
      GroupItems(p, key);
      var g := Group(p, key);
      GroupKeysCover(p, key);
      assert Group(xs, key) == Insert(g, key(x), x);
      InsertItems(p, x, key, g);
      assert p + [x] == xs;
    }
  }

  lemma SelectSnoc<K, T>(p: seq<T>, x: T, key: T -> K, k: K)
    ensures Select(p + [x], key, k) == Select(p, key, k) + (if key(x) == k then [x] else [])
  {
    assert (p + [x])[..|p|] == p;
  }

  /** The buckets' keys are distinct and cover the input's keys. */
  lemma GroupKeysCover<K, T>(xs: seq<T>, key: T -> K)
    ensures NoDuplicates(Keys(Group(xs, key)))
    ensures forall m :: 0 <= m < |xs| ==> key(xs[m]) in Keys(Group(xs, key))
  {
    GroupKeys(xs, key);
    DistinctOrder(Project(key, xs));
    forall m | 0 <= m < |xs| ensures key(xs[m]) in Keys(Group(xs, key)) {
      assert Project(key, xs)[m] == key(xs[m]);
    }
  }

  /** The insertion step keeps every bucket equal to the selection of its key. */
  lemma InsertItems<K, T>(p: seq<T>, x: T, key: T -> K, g: seq<Bucket<K, T>>)
    requires forall j :: 0 <= j < |g| ==> g[j].items == Select(p, key, g[j].key)
    requires NoDuplicates(Keys(g))
    requires forall m :: 0 <= m < |p| ==> key(p[m]) in Keys(g)
    ensures var g' := Insert(g, key(x), x);
      forall j :: 0 <= j < |g'| ==> g'[j].items == Select(p + [x], key, g'[j].key)
  {
    var k := key(x);
    var i := IndexOf(Keys(g), k);
    var g' := Insert(g, k, x);
    forall j | 0 <= j < |g'|
      ensures g'[j].items == Select(p + [x], key, g'[j].key)
    {
      SelectSnoc(p, x, key, g'[j].key);
      if j < |g| && j != i {
        OtherBucket(g, k, x, j);
      } else if i < |g| {
        assert g'[j] == Bucket(k, g[i].items + [x]);
      } else {
        NewBucket(p, key, g, k);
      }
    }
  }

  lemma OtherBucket<K, T>(g: seq<Bucket<K, T>>, k: K, x: T, j: nat)
    requires NoDuplicates(Keys(g))
    requires j < |g| && j != IndexOf(Keys(g), k)
    ensures Insert(g, k, x)[j] == g[j] && g[j].key != k
  {
    assert Keys(g)[j] == g[j].key;
  }

  lemma NewBucket<K, T>(p: seq<T>, key: T -> K, g: seq<Bucket<K, T>>, k: K)
    requires forall m :: 0 <= m < |p| ==> key(p[m]) in Keys(g)
    requires k !in Keys(g)
    ensures Select(p, key, k) == []
  {
    assert k !in Project(key, p);
    SelectAbsent(p, key, k);
  }

  /** Every item of a bucket comes from the input and carries the bucket's key. */
  lemma GroupMembers<K, T>(xs: seq<T>, key: T -> K)
    ensures forall i, y :: 0 <= i < |Group(xs, key)| && y in Group(xs, key)[i].items ==>
      key(y) == Group(xs, key)[i].key && y in xs
  {
    var g := Group(xs, key);
    GroupItems(xs, key);
    forall i, y | 0 <= i < |g| && y in g[i].items
      ensures key(y) == g[i].key && y in xs
    {
      SelectKeys(xs, key, g[i].key);
    }
  }

  lemma InsertMultiset<K, T>(g: seq<Bucket<K, T>>, k: K, x: T)
    ensures multiset(Flatten(Insert(g, k, x))) == multiset(Flatten(g)) + multiset{x}
  {
    var i := IndexOf(Keys(g), k);
    if i < |g| {
      assert Insert(g, k, x) == g[i := Bucket(g[i].key, g[i].items + [x])];
      FlattenAppendAt(g, i, x);
    } else {
      var b := Bucket(k, [x]);
      assert Insert(g, k, x) == g + [b];
      FlattenSnoc(g, b);
    }
  }

  /** No element is lost or invented by grouping. */
  lemma {:induction false} GroupMultiset<K, T>(xs: seq<T>, key: T -> K)
    ensures multiset(Flatten(Group(xs, key))) == multiset(xs)
  {
    if |xs| > 0 {
      var n := |xs| - 1;
      assert xs == xs[..n] + [xs[n]];
      GroupMultiset(xs[..n], key);
      InsertMultiset(Group(xs[..n], key), key(xs[n]), xs[n]);
    }
  }

  /** Grouping is a partition of the input: the keys are the input's keys in
      order of first appearance, each bucket holds exactly the input elements
      with its key in input order, and no element is lost or invented. */
  lemma GroupSpec<K, T>(xs: seq<T>, key: T -> K)
    ensures FirstAppearanceOrder(Project(key, xs), Keys(Group(xs, key)))
    ensures forall i :: 0 <= i < |Group(xs, key)| ==>
      Group(xs, key)[i].items == Select(xs, key, Group(xs, key)[i].key)
    ensures multiset(Flatten(Group(xs, key))) == multiset(xs)
    ensures |Flatten(Group(xs, key))| == |xs|
  {
    GroupKeys(xs, key);
    DistinctOrder(Project(key, xs));
    GroupItems(xs, key);
    GroupMultiset(xs, key);
    assert |multiset(Flatten(Group(xs, key)))| == |multiset(xs)|;
  }
}
