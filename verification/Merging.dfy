/** Bottom-up merging on sequences: what HASH_SRT computes, and why it is a stable sort. */
module Merging {
  import opened Bytes
  import opened HashItems

  type Compare = (Item, Item) -> int

  ghost predicate Total(cmp: Compare, all: set<Item>) {
    && (forall x, y :: x in all && y in all ==> cmp(x, y) <= 0 || cmp(y, x) <= 0)
    && (forall x, y, z :: x in all && y in all && z in all && cmp(x, y) <= 0 && cmp(y, z) <= 0 ==> cmp(x, z) <= 0)
  }

  lemma Transitive(cmp: Compare, all: set<Item>, x: Item, y: Item, z: Item)
    requires Total(cmp, all) && x in all && y in all && z in all && cmp(x, y) <= 0 && cmp(y, z) <= 0
    ensures cmp(x, z) <= 0
  {
  }

  lemma Connected(cmp: Compare, all: set<Item>, x: Item, y: Item)
    requires Total(cmp, all) && x in all && y in all
    ensures cmp(x, y) <= 0 || cmp(y, x) <= 0
  {
  }

  ghost predicate Sorted(cmp: Compare, s: seq<Item>) { forall i, j :: 0 <= i < j < |s| ==> cmp(s[i], s[j]) <= 0 }

  function Min(a: nat, b: nat): (r: nat) { if a <= b then a else b }

  /** Ties go to the left run. */
  ghost function Merge(cmp: Compare, a: seq<Item>, b: seq<Item>): (r: seq<Item>) {
    if a == [] then b
    else if b == [] then a
    else if cmp(a[0], b[0]) <= 0 then [a[0]] + Merge(cmp, a[1..], b)
    else [b[0]] + Merge(cmp, a, b[1..])
  }

  /** One pass: neighbouring runs of length `k` merged two by two. */
  ghost function Pass(cmp: Compare, s: seq<Item>, k: nat): (r: seq<Item>)
    requires k > 0
  {
    if s == [] then []
    else
      var m := Min(k, |s|);
      var e := Min(2 * k, |s|);
      Merge(cmp, s[..m], s[m..e]) + Pass(cmp, s[e..], k)
  }

  /** Passes with doubling run length until one merge covers the list. */
  ghost function Passes(cmp: Compare, s: seq<Item>, k: nat): (r: seq<Item>)
    requires k > 0
    decreases |s| - k
  {
    PassSize(cmp, s, k);
    if |s| <= 2 * k then Pass(cmp, s, k) else Passes(cmp, Pass(cmp, s, k), 2 * k)
  }

  lemma ConsPermutes(s: seq<Item>)
    requires s != []
    ensures multiset(s) == multiset{s[0]} + multiset(s[1..])
  {
    assert s == [s[0]] + s[1..];
  }

  lemma {:induction false} MergePermutes(cmp: Compare, a: seq<Item>, b: seq<Item>)
    ensures multiset(Merge(cmp, a, b)) == multiset(a) + multiset(b)
    decreases |a| + |b|
  {
    if a != [] && b != [] {
      if cmp(a[0], b[0]) <= 0 {
        MergePermutes(cmp, a[1..], b);
        ConsPermutes(a);
      } else {
        MergePermutes(cmp, a, b[1..]);
        ConsPermutes(b);
      }
    }
  }

  lemma SplitRuns(s: seq<Item>, k: nat)
    requires k > 0 && s != []
    ensures var m, e := Min(k, |s|), Min(2 * k, |s|); 0 < m <= e <= |s| && s == s[..m] + s[m..e] + s[e..]
  {
  }

  lemma {:induction false} PassPermutes(cmp: Compare, s: seq<Item>, k: nat)
    requires k > 0
    ensures multiset(Pass(cmp, s, k)) == multiset(s)
  {
    if s != [] {
      var m, e := Min(k, |s|), Min(2 * k, |s|);
      SplitRuns(s, k);
      MergePermutes(cmp, s[..m], s[m..e]);
      PassPermutes(cmp, s[e..], k);
    }
  }

  lemma PassSize(cmp: Compare, s: seq<Item>, k: nat)
    requires k > 0
    ensures |Pass(cmp, s, k)| == |s|
  {
    PassPermutes(cmp, s, k);
    assert |multiset(Pass(cmp, s, k))| == |multiset(s)|;
  }

  lemma {:induction false} PassesPermutes(cmp: Compare, s: seq<Item>, k: nat)
    requires k > 0
    ensures multiset(Passes(cmp, s, k)) == multiset(s)
    decreases |s| - k
  {
    PassPermutes(cmp, s, k);
    PassSize(cmp, s, k);
    if |s| > 2 * k { PassesPermutes(cmp, Pass(cmp, s, k), 2 * k); }
  }

  // ---------------------------------------------------------------- sortedness

  lemma SortedRest(cmp: Compare, s: seq<Item>)
    requires Sorted(cmp, s) && s != []
    ensures Sorted(cmp, s[1..])
  {
  }

  lemma SortedCons(cmp: Compare, x: Item, s: seq<Item>)
    requires Sorted(cmp, s) && forall y :: y in s ==> cmp(x, y) <= 0
    ensures Sorted(cmp, [x] + s)
  {
  }

  /** Nothing in two sorted runs comes before the smaller of their heads. */
  lemma HeadIsLeast(cmp: Compare, x: Item, z: Item, a: seq<Item>, y: Item, all: set<Item>)
    requires Total(cmp, all) && x in all && Members(a) <= all && Sorted(cmp, a)
    requires a != [] && z == a[0] && y in a && cmp(x, z) <= 0
    ensures cmp(x, y) <= 0
  {
    if y != z { Transitive(cmp, all, x, z, y); }
  }

  lemma {:induction false} MergeSorts(cmp: Compare, a: seq<Item>, b: seq<Item>, all: set<Item>)
    requires Total(cmp, all) && Members(a) <= all && Members(b) <= all && Sorted(cmp, a) && Sorted(cmp, b)
    ensures Sorted(cmp, Merge(cmp, a, b))
    decreases |a| + |b|
  {
    hide Total, Sorted;
    if a != [] && b != [] {
      SortedRest(cmp, a);
      SortedRest(cmp, b);
      var left := cmp(a[0], b[0]) <= 0;
      Connected(cmp, all, a[0], b[0]);
      Connected(cmp, all, a[0], a[0]);
      Connected(cmp, all, b[0], b[0]);
      var x := if left then a[0] else b[0];
      var a', b' := if left then a[1..] else a, if left then b else b[1..];
      MergeSorts(cmp, a', b', all);
      MergePermutes(cmp, a', b');
      forall y | y in Merge(cmp, a', b') ensures cmp(x, y) <= 0 {
        assert y in multiset(a') + multiset(b');
        if y in a { HeadIsLeast(cmp, x, a[0], a, y, all); } else { HeadIsLeast(cmp, x, b[0], b, y, all); }
      }
      SortedCons(cmp, x, Merge(cmp, a', b'));
    }
  }

  ghost predicate RunsSorted(cmp: Compare, s: seq<Item>, k: nat)
    requires k > 0
    decreases |s|
  {
    s == [] || (Sorted(cmp, s[..Min(k, |s|)]) && RunsSorted(cmp, s[Min(k, |s|)..], k))
  }

  lemma RunsPieces(cmp: Compare, s: seq<Item>, k: nat)
    requires k > 0 && RunsSorted(cmp, s, k) && s != []
    ensures var m, e := Min(k, |s|), Min(2 * k, |s|);
            Sorted(cmp, s[..m]) && Sorted(cmp, s[m..e]) && RunsSorted(cmp, s[e..], k)
  {
    var m, e := Min(k, |s|), Min(2 * k, |s|);
    var t := s[m..];
    if t != [] {
      assert t[..Min(k, |t|)] == s[m..e] && t[Min(k, |t|)..] == s[e..];
    }
  }

  /** A pass over sorted runs leaves sorted runs twice as long. */
  lemma {:induction false} PassDoubles(cmp: Compare, s: seq<Item>, k: nat, all: set<Item>)
    requires k > 0 && Total(cmp, all) && Members(s) <= all && RunsSorted(cmp, s, k)
    ensures RunsSorted(cmp, Pass(cmp, s, k), 2 * k)
    decreases |s|
  {
    hide Total, Sorted;
    if s != [] {
      var m, e := Min(k, |s|), Min(2 * k, |s|);
      SplitRuns(s, k);
      RunsPieces(cmp, s, k);
      var merged := Merge(cmp, s[..m], s[m..e]);
      MergeSorts(cmp, s[..m], s[m..e], all);
      MergePermutes(cmp, s[..m], s[m..e]);
      assert |merged| == |multiset(merged)| == e;
      PassDoubles(cmp, s[e..], k, all);
      PassSize(cmp, s[e..], k);
      var p := Pass(cmp, s, k);
      assert Min(2 * k, |p|) == e && p[..e] == merged && p[e..] == Pass(cmp, s[e..], k);
    }
  }

  lemma {:induction false} PassesSort(cmp: Compare, s: seq<Item>, k: nat, all: set<Item>)
    requires k > 0 && Total(cmp, all) && Members(s) <= all && RunsSorted(cmp, s, k)
    ensures Sorted(cmp, Passes(cmp, s, k))
    decreases |s| - k
  {
    var p := Pass(cmp, s, k);
    PassDoubles(cmp, s, k, all);
    PassSize(cmp, s, k);
    if |s| <= 2 * k {
      assert p[..|p|] == p;
    } else {
      PassPermutes(cmp, s, k);
      forall x | x in p ensures x in s { assert x in multiset(p); }
      PassesSort(cmp, p, 2 * k, all);
    }
  }

  lemma {:induction false} SinglesSorted(cmp: Compare, s: seq<Item>)
    ensures RunsSorted(cmp, s, 1)
  {
    if s != [] { SinglesSorted(cmp, s[1..]); }
  }

  // ---------------------------------------------------------------- stability

  /** The items that compare equal to `x`, in their order. */
  ghost function Equals(cmp: Compare, x: Item, s: seq<Item>): (r: seq<Item>) {
    if s == [] then []
    else (if cmp(x, s[0]) <= 0 && cmp(s[0], x) <= 0 then [s[0]] else []) + Equals(cmp, x, s[1..])
  }

  lemma {:induction false} EqualsAppend(cmp: Compare, x: Item, a: seq<Item>, b: seq<Item>)
    ensures Equals(cmp, x, a + b) == Equals(cmp, x, a) + Equals(cmp, x, b)
  {
    if a == [] {
      assert a + b == b;
    } else {
      assert (a + b)[1..] == a[1..] + b;
      EqualsAppend(cmp, x, a[1..], b);
    }
  }

  lemma {:induction false} NoEquals(cmp: Compare, x: Item, s: seq<Item>)
    requires forall y :: y in s ==> !(cmp(x, y) <= 0 && cmp(y, x) <= 0)
    ensures Equals(cmp, x, s) == []
  {
    if s != [] { NoEquals(cmp, x, s[1..]); }
  }

  /** Nothing in a sorted run equals `x` once its head is above an item equal to `x`. */
  lemma NoTies(cmp: Compare, x: Item, a: seq<Item>, z: Item, all: set<Item>)
    requires Total(cmp, all) && x in all && z in all && Members(a) <= all && Sorted(cmp, a) && a != []
    requires cmp(x, z) <= 0 && !(cmp(a[0], z) <= 0)
    ensures Equals(cmp, x, a) == []
  {
    hide Total;
    forall y | y in a ensures !(cmp(x, y) <= 0 && cmp(y, x) <= 0) {
      if cmp(y, x) <= 0 {
        Transitive(cmp, all, y, x, z);
        if y != a[0] { Transitive(cmp, all, a[0], y, z); }
      }
    }
    NoEquals(cmp, x, a);
  }

  lemma {:induction false} MergeStable(cmp: Compare, x: Item, a: seq<Item>, b: seq<Item>, all: set<Item>)
    requires Total(cmp, all) && x in all && Members(a) <= all && Members(b) <= all && Sorted(cmp, a) && Sorted(cmp, b)
    ensures Equals(cmp, x, Merge(cmp, a, b)) == Equals(cmp, x, a) + Equals(cmp, x, b)
    decreases |a| + |b|
  {
    hide Total;
    if a != [] && b != [] {
      if cmp(a[0], b[0]) <= 0 {
        MergeStable(cmp, x, a[1..], b, all);
        EqualsAppend(cmp, x, [a[0]], Merge(cmp, a[1..], b));
        EqualsAppend(cmp, x, [a[0]], a[1..]);
      } else {
        MergeStable(cmp, x, a, b[1..], all);
        EqualsAppend(cmp, x, [b[0]], Merge(cmp, a, b[1..]));
        EqualsAppend(cmp, x, [b[0]], b[1..]);
        if cmp(x, b[0]) <= 0 && cmp(b[0], x) <= 0 {
          NoTies(cmp, x, a, b[0], all);
        }
      }
    }
  }

  lemma {:induction false} PassStable(cmp: Compare, x: Item, s: seq<Item>, k: nat, all: set<Item>)
    requires k > 0 && Total(cmp, all) && x in all && Members(s) <= all && RunsSorted(cmp, s, k)
    ensures Equals(cmp, x, Pass(cmp, s, k)) == Equals(cmp, x, s)
    decreases |s|
  {
    if s != [] {
      var m, e := Min(k, |s|), Min(2 * k, |s|);
      SplitRuns(s, k);
      RunsPieces(cmp, s, k);
      MergeStable(cmp, x, s[..m], s[m..e], all);
      PassStable(cmp, x, s[e..], k, all);
      EqualsAppend(cmp, x, Merge(cmp, s[..m], s[m..e]), Pass(cmp, s[e..], k));
      EqualsAppend(cmp, x, s[..m], s[m..e]);
      EqualsAppend(cmp, x, s[..m] + s[m..e], s[e..]);
    }
  }

  lemma {:induction false} PassesStable(cmp: Compare, x: Item, s: seq<Item>, k: nat, all: set<Item>)
    requires k > 0 && Total(cmp, all) && x in all && Members(s) <= all && RunsSorted(cmp, s, k)
    ensures Equals(cmp, x, Passes(cmp, s, k)) == Equals(cmp, x, s)
    decreases |s| - k
  {
    var p := Pass(cmp, s, k);
    PassStable(cmp, x, s, k, all);
    PassSize(cmp, s, k);
    if |s| > 2 * k {
      PassDoubles(cmp, s, k, all);
      PassPermutes(cmp, s, k);
      forall y | y in p ensures y in s { assert y in multiset(p); }
      PassesStable(cmp, x, p, 2 * k, all);
    }
  }

  /** The result of HASH_SRT: sorted, a permutation, and items that compare equal keep their order. */
  lemma SortIsStable(cmp: Compare, s: seq<Item>)
    requires Total(cmp, Members(s))
    ensures var r := Passes(cmp, s, 1);
            && Sorted(cmp, r) && multiset(r) == multiset(s)
            && forall x :: x in s ==> Equals(cmp, x, r) == Equals(cmp, x, s)
  {
    SinglesSorted(cmp, s);
    PassesSort(cmp, s, 1, Members(s));
    PassesPermutes(cmp, s, 1);
    forall x | x in s ensures Equals(cmp, x, Passes(cmp, s, 1)) == Equals(cmp, x, s) {
      PassesStable(cmp, x, s, 1, Members(s));
    }
  }

  /** Inserting behind the last item that is not greater keeps a sorted list sorted. */
  lemma InsertSorted(cmp: Compare, s: seq<Item>, k: nat, x: Item)
    requires k <= |s| && Total(cmp, Members(s) + {x}) && Sorted(cmp, s)
    requires forall i :: 0 <= i < k ==> cmp(s[i], x) <= 0
    requires k < |s| ==> cmp(s[k], x) > 0
    ensures Sorted(cmp, With(s, k, x))
    ensures forall i :: k <= i < |s| ==> cmp(s[i], x) > 0
  {
    hide Total;
    var all := Members(s) + {x};
    forall i | k <= i < |s| ensures cmp(s[i], x) > 0 && cmp(x, s[i]) <= 0 {
      if cmp(s[i], x) <= 0 && i > k { Transitive(cmp, all, s[k], s[i], x); }
      Connected(cmp, all, s[i], x);
    }
    var t := With(s, k, x);
    forall i, j | 0 <= i < j < |t| ensures cmp(t[i], t[j]) <= 0 {
      assert t[i] == if i < k then s[i] else if i == k then x else s[i - 1];
      assert t[j] == if j < k then s[j] else if j == k then x else s[j - 1];
    }
  }
}
