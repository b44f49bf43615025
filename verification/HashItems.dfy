/** Items of a hash table and the two doubly linked structures each of them sits in: the list in
    application order (`prev`, `next`) and the chain of its bucket (`hhPrev`, `hhNext`). */
module HashItems {
  import opened Bytes
  import opened HashLoad

  /** An element with its hash handle.  The key and its hash value are fixed while it is stored. */
  class Item {
    const key: string
    const hashv: nat
    var prev: Item?
    var next: Item?
    var hhPrev: Item?
    var hhNext: Item?

    constructor (key: string, hashv: nat)
      ensures this.key == key && this.hashv == hashv
    {
      this.key, this.hashv := key, hashv;
      prev, next, hhPrev, hhNext := null, null, null, null;
    }
  }

  datatype Bucket = Bucket(head: Item?, count: nat, expandMult: nat)

  function At(s: seq<Item>, i: int): (x: Item?) { if 0 <= i < |s| then s[i] else null }

  ghost function Members(s: seq<Item>): (r: set<Item>) { set x | x in s }

  lemma MembersStep(s: seq<Item>, j: nat)
    requires j < |s|
    ensures Members(s[..j + 1]) == Members(s[..j]) + {s[j]}
  {
    assert s[..j + 1] == s[..j] + [s[j]];
  }

  lemma {:induction false} DistinctSize(s: seq<Item>)
    requires Distinct(s)
    ensures |Members(s)| == |s|
  {
    if s != [] {
      assert Members(s) == Members(s[1..]) + {s[0]};
      DistinctSize(s[1..]);
    }
  }

  // ---------------------------------------------------------------- application order

  ghost predicate Linked(s: seq<Item>)
    reads s`prev, s`next
  {
    forall i :: 0 <= i < |s| ==> s[i].prev == At(s, i - 1) && s[i].next == At(s, i + 1)
  }

  ghost function Without(s: seq<Item>, k: nat): (r: seq<Item>)
    requires k < |s|
  {
    s[..k] + s[k + 1..]
  }

  lemma DistinctWith(s: seq<Item>, k: nat, x: Item)
    requires Distinct(s) && x !in s && k <= |s|
    ensures Distinct(With(s, k, x)) && Members(With(s, k, x)) == Members(s) + {x}
  {
    var t := With(s, k, x);
    assert s == s[..k] + s[k..];
    forall i, j | 0 <= i < j < |t| ensures t[i] != t[j] {
      assert t[i] == if i < k then s[i] else if i == k then x else s[i - 1];
      assert t[j] == if j < k then s[j] else if j == k then x else s[j - 1];
    }
  }

  lemma DistinctWithout(s: seq<Item>, k: nat)
    requires Distinct(s) && k < |s|
    ensures Distinct(Without(s, k)) && Members(Without(s, k)) == Members(s) - {s[k]}
  {
    var t := Without(s, k);
    assert s == s[..k] + [s[k]] + s[k + 1..];
    forall i, j | 0 <= i < j < |t| ensures t[i] != t[j] {
      assert t[i] == if i < k then s[i] else s[i + 1];
      assert t[j] == if j < k then s[j] else s[j + 1];
    }
  }

  /** HASH_APPEND_LIST: puts `x` behind the last item. */
  method LinkLast(ghost s: seq<Item>, x: Item, tail: Item)
    requires Linked(s) && Distinct(s) && x !in s && s != [] && tail == s[|s| - 1]
    modifies x`prev, x`next, s`next
    ensures Linked(s + [x])
  {
    x.next := null;
    x.prev := tail;
    tail.next := x;
    ghost var t := s + [x];
    forall i | 0 <= i < |t| ensures t[i].prev == At(t, i - 1) && t[i].next == At(t, i + 1) {
      if i < |s| { assert t[i] == s[i]; }
    }
  }

  /** Puts `x` before `at`, the item at index `k`. */
  method LinkBefore(ghost s: seq<Item>, ghost k: nat, x: Item, at: Item)
    requires Linked(s) && Distinct(s) && x !in s && k < |s| && at == s[k]
    modifies x`prev, x`next, s`prev, s`next
    ensures Linked(With(s, k, x))
    ensures x.prev == old(at.prev)
  {
    hide With;
    x.next := at;
    x.prev := at.prev;
    if x.prev != null {
      x.prev.next := x;
    }
    at.prev := x;
    LinkedWith(s, k, x);
  }

  lemma LinkedWith(s: seq<Item>, k: nat, x: Item)
    requires k <= |s| && x.prev == At(s, k - 1) && x.next == At(s, k)
    requires forall j :: 0 <= j < |s| ==> s[j].prev == if j == k then x else At(s, j - 1)
    requires forall j :: 0 <= j < |s| ==> s[j].next == if j == k - 1 then x else At(s, j + 1)
    ensures Linked(With(s, k, x))
  {
    hide With;
    var t := With(s, k, x);
    WithAt(s, k, x, 0);
    forall i | 0 <= i < |t| ensures t[i].prev == At(t, i - 1) && t[i].next == At(t, i + 1) {
      WithAt(s, k, x, i);
      WithAt(s, k, x, i + 1);
      if i > 0 { WithAt(s, k, x, i - 1); }
    }
  }

  /** Takes `x`, at index `k` of the order, out of the list. */
  method UnlinkItem(ghost s: seq<Item>, ghost k: nat, x: Item)
    requires Linked(s) && Distinct(s) && k < |s| && s[k] == x
    modifies s`prev, s`next
    ensures Linked(Without(s, k))
  {
    if x.prev != null {
      x.prev.next := x.next;
    }
    if x.next != null {
      x.next.prev := x.prev;
    }
    ghost var t := Without(s, k);
    forall i | 0 <= i < |t| ensures t[i].prev == At(t, i - 1) && t[i].next == At(t, i + 1) {
      if i < k { assert t[i] == s[i]; } else { assert t[i] == s[i + 1]; }
    }
  }

  // ---------------------------------------------------------------- bucket chains

  ghost predicate Chained(c: seq<Item>)
    reads Members(c)`hhPrev, Members(c)`hhNext
  {
    forall i :: 0 <= i < |c| ==> c[i].hhPrev == At(c, i - 1) && c[i].hhNext == At(c, i + 1)
  }

  /** HASH_TO_BKT: `hashv & (num_buckets - 1)` for a power of two. */
  function Slot(x: Item, n: nat): (b: nat)
    requires n > 0
    ensures b < n
  {
    x.hashv % n
  }

  ghost function Lengths(chains: seq<seq<Item>>): (r: seq<nat>) {
    seq(|chains|, i requires 0 <= i < |chains| => |chains[i]|)
  }

  /** The chains hold exactly the items of `all`, each once and in the bucket of its hash. */
  ghost predicate Placed(all: set<Item>, chains: seq<seq<Item>>) {
    && |chains| > 0
    && (forall b :: 0 <= b < |chains| ==> Distinct(chains[b]))
    && (forall b, x :: 0 <= b < |chains| && x in chains[b] ==> x in all && Slot(x, |chains|) == b)
    && (forall x :: x in all ==> x in chains[Slot(x, |chains|)])
    && Sum(Lengths(chains)) == |all|
  }

  ghost predicate BucketHolds(bkt: Bucket, c: seq<Item>)
    reads Members(c)`hhPrev, Members(c)`hhNext
  {
    bkt.head == At(c, 0) && bkt.count == |c| && Chained(c)
  }

  /** The bucket half of HASH_FSCK: counts, heads and both link directions of every chain. */
  ghost predicate Built(bkts: array<Bucket>, chains: seq<seq<Item>>, all: set<Item>)
    reads bkts, all`hhPrev, all`hhNext
  {
    && bkts.Length == |chains| > 0 && Placed(all, chains)
    && forall b :: 0 <= b < |chains| ==> BucketHolds(bkts[b], chains[b])
  }

  /** Chains of different buckets share no item. */
  lemma ChainsApart(all: set<Item>, chains: seq<seq<Item>>, b: nat)
    requires Placed(all, chains) && b < |chains|
    ensures Members(chains[b]) <= all
    ensures forall c :: 0 <= c < |chains| && c != b ==> Members(chains[c]) !! Members(chains[b])
  {
    forall c | 0 <= c < |chains| && c != b ensures Members(chains[c]) !! Members(chains[b]) {
      forall y | y in Members(chains[c]) ensures y !in Members(chains[b]) {
        assert Slot(y, |chains|) == c;
      }
    }
  }

  lemma PlacedWith(all: set<Item>, chains: seq<seq<Item>>, x: Item)
    requires Placed(all, chains) && x !in all
    ensures var b := Slot(x, |chains|); Placed(all + {x}, chains[b := [x] + chains[b]])
  {
    var b := Slot(x, |chains|);
    var chains' := chains[b := [x] + chains[b]];
    assert Lengths(chains') == Lengths(chains)[b := |chains[b]| + 1];
    SumUpdate(Lengths(chains), b, |chains[b]| + 1);
  }

  lemma PlacedWithout(all: set<Item>, chains: seq<seq<Item>>, x: Item, k: nat)
    requires Placed(all, chains) && x in all
    requires var b := Slot(x, |chains|); k < |chains[b]| && chains[b][k] == x
    ensures var b := Slot(x, |chains|); Placed(all - {x}, chains[b := Without(chains[b], k)])
  {
    var b := Slot(x, |chains|);
    var c := chains[b];
    var chains' := chains[b := Without(c, k)];
    assert Lengths(chains') == Lengths(chains)[b := |c| - 1];
    SumUpdate(Lengths(chains), b, |c| - 1);
    forall y | y in all - {x} ensures y in chains'[Slot(y, |chains|)] {
      assert y in chains[Slot(y, |chains|)];
      if Slot(y, |chains|) == b {
        var i :| 0 <= i < |c| && c[i] == y;
        assert y == if i < k then Without(c, k)[i] else Without(c, k)[i - 1];
      }
    }
  }

  method ChainPush(ghost c: seq<Item>, x: Item, head: Item?)
    requires Chained(c) && Distinct(c) && x !in c && head == At(c, 0)
    modifies x`hhPrev, x`hhNext, Members(c)`hhPrev
    ensures Chained([x] + c)
  {
    x.hhNext := head;
    x.hhPrev := null;
    if head != null {
      head.hhPrev := x;
    }
    ghost var t := [x] + c;
    forall i | 0 <= i < |t| ensures t[i].hhPrev == At(t, i - 1) && t[i].hhNext == At(t, i + 1) {
      if i > 0 { assert t[i] == c[i - 1]; }
    }
  }

  method ChainUnlink(ghost c: seq<Item>, ghost k: nat, x: Item, head: Item?) returns (head': Item?)
    requires Chained(c) && Distinct(c) && k < |c| && c[k] == x && head == c[0]
    modifies Members(c)`hhPrev, Members(c)`hhNext
    ensures Chained(Without(c, k)) && head' == At(Without(c, k), 0)
  {
    head' := if head == x then x.hhNext else head;
    assert c[0] == x <==> k == 0;
    if x.hhPrev != null {
      x.hhPrev.hhNext := x.hhNext;
    }
    if x.hhNext != null {
      x.hhNext.hhPrev := x.hhPrev;
    }
    ghost var t := Without(c, k);
    forall i | 0 <= i < |t| ensures t[i].hhPrev == At(t, i - 1) && t[i].hhNext == At(t, i + 1) {
      if i < k { assert t[i] == c[i]; } else { assert t[i] == c[i + 1]; }
    }
  }

  /** HASH_ADD_TO_BKT without the expansion test: `x` becomes the head of its chain. */
  method PushFront(bkts: array<Bucket>, ghost chains: seq<seq<Item>>, ghost all: set<Item>, b: nat, x: Item)
    requires Built(bkts, chains, all) && x !in all && b == Slot(x, bkts.Length)
    modifies bkts, x`hhPrev, x`hhNext, all`hhPrev
    ensures Built(bkts, chains[b := [x] + chains[b]], all + {x})
    ensures forall c :: 0 <= c < bkts.Length && c != b ==> bkts[c] == old(bkts[c])
    ensures bkts[b].expandMult == old(bkts[b].expandMult) && bkts[b].count == old(bkts[b].count) + 1
  {
    PlacedWith(all, chains, x);
    ChainsApart(all, chains, b);
    var bkt := bkts[b];
    assert BucketHolds(bkt, chains[b]);
    ChainPush(chains[b], x, bkt.head);
    bkts[b] := bkt.(head := x, count := bkt.count + 1);
    ghost var chains' := chains[b := [x] + chains[b]];
    forall c | 0 <= c < |chains| ensures BucketHolds(bkts[c], chains'[c]) {
      if c != b {
        assert old(BucketHolds(bkts[c], chains[c]));
        assert x !in Members(chains[c]);
      }
    }
  }

  /** HASH_DEL_IN_BKT: takes `x`, at index `k` of its chain, out of the chain. */
  method UnlinkInBucket(bkts: array<Bucket>, ghost chains: seq<seq<Item>>,
      ghost all: set<Item>, b: nat, ghost k: nat, x: Item)
    requires Built(bkts, chains, all) && x in all && b == Slot(x, bkts.Length)
    requires k < |chains[b]| && chains[b][k] == x
    modifies bkts, all`hhPrev, all`hhNext
    ensures Built(bkts, chains[b := Without(chains[b], k)], all - {x})
    ensures forall c :: 0 <= c < bkts.Length && c != b ==> bkts[c] == old(bkts[c])
    ensures bkts[b].expandMult == old(bkts[b].expandMult) && bkts[b].count == old(bkts[b].count) - 1
  {
    PlacedWithout(all, chains, x, k);
    ChainsApart(all, chains, b);
    var bkt := bkts[b];
    assert BucketHolds(bkt, chains[b]);
    var head := ChainUnlink(chains[b], k, x, bkt.head);
    bkts[b] := Bucket(head, bkt.count - 1, bkt.expandMult);
    ghost var chains' := chains[b := Without(chains[b], k)];
    forall c | 0 <= c < |chains| ensures BucketHolds(bkts[c], chains'[c]) {
      if c != b {
        assert old(BucketHolds(bkts[c], chains[c]));
      }
    }
  }
}
