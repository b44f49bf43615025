/** The hash table of uthash.h.

    `order` and `chains` are the ghost view: the items in application order and, per bucket, in
    chain order.  `Valid` is the invariant HASH_FSCK checks in code, together with the tail pointer,
    the placement of items and the bounds on bucket loads; every operation keeps it. */
module HashTable {
  import opened Bytes
  import opened HashLoad
  import opened HashItems
  import opened Merging

  const INITIAL_NUM_BUCKETS_LOG2 := 7

  function MultsOf(bkts: seq<Bucket>): (r: seq<nat>) {
    seq(|bkts|, i requires 0 <= i < |bkts| => bkts[i].expandMult)
  }

  /** Expansion bookkeeping of a bucket array right after it was filled. */
  ghost predicate Tallied(bkts: seq<Bucket>, chains: seq<seq<Item>>, ideal: nat, nonideal: nat)
    requires ideal > 0
  {
    && MultsOf(bkts) == Mults(Lengths(chains), ideal)
    && nonideal == Sum(Overs(Lengths(chains), ideal))
  }

  /** One item of the redistribution loop: into its new bucket, counted against the ideal. */
  method Move(bkts: array<Bucket>, ghost chains: seq<seq<Item>>, ghost all: set<Item>, x: Item,
              ideal: nat, nonideal: nat) returns (nonideal': nat)
    requires Built(bkts, chains, all) && x !in all
    requires ideal > 0 && Tallied(bkts[..], chains, ideal, nonideal)
    modifies bkts, x`hhPrev, x`hhNext, all`hhPrev
    ensures var b := Slot(x, |chains|); var chains' := chains[b := [x] + chains[b]];
            Built(bkts, chains', all + {x}) && Tallied(bkts[..], chains', ideal, nonideal')
  {
    hide Placed, Tallied, Slot;
    var b := Slot(x, bkts.Length);
    ghost var was, chains' := bkts[..], chains[b := [x] + chains[b]];
    PushFront(bkts, chains, all, b, x);
    nonideal' := nonideal;
    var count := bkts[b].count;
    if count > ideal {
      nonideal' := nonideal + 1;
      bkts[b] := bkts[b].(expandMult := count / ideal);
    }
    TalliedWith(was, bkts[..], chains, b, x, ideal, nonideal);
    forall c | 0 <= c < |chains'| ensures BucketHolds(bkts[c], chains'[c]) {
    }
  }

  lemma TalliedWith(was: seq<Bucket>, now: seq<Bucket>, chains: seq<seq<Item>>,
      b: nat, x: Item, ideal: nat, nonideal: nat)
    requires |was| == |now| == |chains| && b < |chains| && ideal > 0 && Tallied(was, chains, ideal, nonideal)
    requires forall c :: 0 <= c < |was| && c != b ==> now[c] == was[c]
    requires var n := |chains[b]| + 1; now[b].expandMult == if n > ideal then n / ideal else was[b].expandMult
    ensures Tallied(now, chains[b := [x] + chains[b]], ideal, nonideal + if |chains[b]| + 1 > ideal then 1 else 0)
  {
    var n := |chains[b]| + 1;
    var chains' := chains[b := [x] + chains[b]];
    assert Lengths(chains') == Lengths(chains)[b := n];
    assert MultsOf(was)[b] == Mult(|chains[b]|, ideal);
    assert MultsOf(now) == MultsOf(was)[b := Mult(n, ideal)];
    assert Mults(Lengths(chains'), ideal) == Mults(Lengths(chains), ideal)[b := Mult(n, ideal)];
    assert Overs(Lengths(chains'), ideal) == Overs(Lengths(chains), ideal)[b := Over(n, ideal)];
    SumUpdate(Overs(Lengths(chains), ideal), b, Over(n, ideal));
  }

  /** One old bucket of the redistribution: walks its chain, saving each successor first. */
  method MoveChain(first: Item?, ghost c: seq<Item>, bkts: array<Bucket>, ghost chains: seq<seq<Item>>,
                   ghost moved: set<Item>, ideal: nat, nonideal: nat)
    returns (nonideal': nat, ghost chains': seq<seq<Item>>, ghost moved': set<Item>)
    requires Built(bkts, chains, moved) && ideal > 0 && Tallied(bkts[..], chains, ideal, nonideal)
    requires Distinct(c) && Members(c) !! moved && first == At(c, 0)
    requires forall j :: 0 <= j < |c| ==> c[j].hhNext == At(c, j + 1)
    modifies bkts, Members(c)`hhPrev, Members(c)`hhNext, moved`hhPrev
    ensures |chains'| == |chains| && moved' == moved + Members(c)
    ensures Built(bkts, chains', moved') && Tallied(bkts[..], chains', ideal, nonideal')
  {
    hide Built, Tallied;
    nonideal', chains', moved' := nonideal, chains, moved;
    var x := first;
    ghost var j := 0;
    while x != null
      invariant 0 <= j <= |c| && x == At(c, j)
      invariant moved' == moved + Members(c[..j]) && |chains'| == |chains|
      invariant Built(bkts, chains', moved') && Tallied(bkts[..], chains', ideal, nonideal')
      invariant forall k :: j <= k < |c| ==> c[k].hhNext == At(c, k + 1)
      decreases |c| - j
    {
      var next := x.hhNext;
      MembersStep(c, j);
      assert x !in moved' && x in Members(c);
      nonideal' := Move(bkts, chains', moved', x, ideal, nonideal');
      chains' := chains'[Slot(x, |chains'|) := [x] + chains'[Slot(x, |chains'|)]];
      moved' := moved' + {x};
      x := next;
      j := j + 1;
    }
    assert c[..j] == c;
  }

  /** The successors recorded in `nexts` are those of the chain. */
  ghost predicate Steps(c: seq<Item>, nexts: map<Item, Item?>) {
    forall j :: 0 <= j < |c| ==> c[j] in nexts && nexts[c[j]] == At(c, j + 1)
  }

  lemma ChainSteps(bkts: array<Bucket>, chains: seq<seq<Item>>, all: set<Item>, nexts: map<Item, Item?>)
    requires Built(bkts, chains, all) && nexts == map y | y in all :: y.hhNext
    ensures Placed(all, chains) && |chains| == bkts.Length > 0
    ensures forall i :: 0 <= i < |chains| ==> Steps(chains[i], nexts) && bkts[i].head == At(chains[i], 0)
  {
    forall i | 0 <= i < |chains| ensures Steps(chains[i], nexts) && bkts[i].head == At(chains[i], 0) {
      assert BucketHolds(bkts[i], chains[i]);
      ChainsApart(all, chains, i);
      assert forall j :: 0 <= j < |chains[i]| ==> chains[i][j] in Members(chains[i]);
    }
  }

  /** The items of the first `i` buckets. */
  ghost function Below(all: set<Item>, n: nat, i: nat): (r: set<Item>)
    requires n > 0
    ensures r <= all
  {
    set y | y in all && Slot(y, n) < i
  }

  lemma BelowStep(all: set<Item>, chains: seq<seq<Item>>, i: nat)
    requires Placed(all, chains) && i < |chains|
    ensures Distinct(chains[i]) && Members(chains[i]) <= all
    ensures Members(chains[i]) !! Below(all, |chains|, i)
    ensures Below(all, |chains|, i + 1) == Below(all, |chains|, i) + Members(chains[i])
  {
    forall y | y in all && Slot(y, |chains|) == i ensures y in Members(chains[i]) {
    }
  }

  lemma BelowAll(all: set<Item>, n: nat)
    requires n > 0
    ensures Below(all, n, n) == all && Below(all, n, 0) == {}
  {
  }

  method EmptyBuckets(n: nat, ghost ideal: nat) returns (bkts: array<Bucket>, ghost chains: seq<seq<Item>>)
    requires n > 0
    ensures fresh(bkts) && bkts.Length == n == |chains| && Built(bkts, chains, {}) && Sum(MultsOf(bkts[..])) == 0
    ensures AllBounded(Lengths(chains), MultsOf(bkts[..]))
    ensures forall b :: 0 <= b < bkts.Length ==> bkts[b].count == 0
    ensures ideal > 0 ==> Tallied(bkts[..], chains, ideal, 0)
  {
    hide Tallied;
    bkts := new Bucket[n](_ => Bucket(null, 0, 0));
    chains := seq(n, _ => []);
    EmptyChains(n, bkts[..], ideal);
  }

  /** The two nested loops of HASH_EXPAND_BUCKETS: every item into an array twice as long. */
  method Redistribute(from: array<Bucket>, ghost chains: seq<seq<Item>>, ghost all: set<Item>, ideal: nat)
    returns (bkts: array<Bucket>, nonideal: nat, ghost nchains: seq<seq<Item>>)
    requires Built(from, chains, all) && ideal > 0
    modifies all`hhPrev, all`hhNext
    ensures fresh(bkts) && bkts.Length == |nchains| == 2 * from.Length && Placed(all, nchains)
    ensures Built(bkts, nchains, all) && Tallied(bkts[..], nchains, ideal, nonideal)
    ensures forall i :: 0 <= i < |nchains| ==>
              bkts[i].expandMult == if |nchains[i]| > ideal then |nchains[i]| / ideal else 0
    ensures nonideal == Sum(seq(|nchains|, i requires 0 <= i < |nchains| =>
                                  if |nchains[i]| > ideal then |nchains[i]| - ideal else 0))
  {
    hide Built, Tallied, Placed, Below, Distinct, Steps, Members, At, Sum, AllBounded;
    ghost var nexts: map<Item, Item?> := map y | y in all :: y.hhNext;
    ChainSteps(from, chains, all, nexts);
    var n := 2 * from.Length;
    bkts, nchains := EmptyBuckets(n, ideal);
    nonideal := 0;
    ghost var moved: set<Item> := {};
    BelowAll(all, from.Length);
    var i := 0;
    while i < from.Length
      invariant 0 <= i <= from.Length
      invariant |nchains| == n && Built(bkts, nchains, moved) && moved == Below(all, from.Length, i)
      invariant Tallied(bkts[..], nchains, ideal, nonideal)
      invariant forall y :: y in all && y !in moved ==> y.hhNext == nexts[y]
    {
      BelowStep(all, chains, i);
      nonideal, nchains, moved :=
        MoveUntouched(from[i].head, chains[i], bkts, nchains, moved, ideal, nonideal, all, nexts);
      i := i + 1;
    }
    BuiltPlaced(bkts, nchains, all);
    TalliedEach(bkts[..], nchains, ideal, nonideal);
  }

  lemma TalliedEach(bkts: seq<Bucket>, chains: seq<seq<Item>>, ideal: nat, nonideal: nat)
    requires ideal > 0 && |bkts| == |chains| && Tallied(bkts, chains, ideal, nonideal)
    ensures forall i :: 0 <= i < |chains| ==>
              bkts[i].expandMult == if |chains[i]| > ideal then |chains[i]| / ideal else 0
    ensures nonideal == Sum(seq(|chains|, i requires 0 <= i < |chains| =>
                                  if |chains[i]| > ideal then |chains[i]| - ideal else 0))
  {
    forall i | 0 <= i < |chains|
      ensures bkts[i].expandMult == if |chains[i]| > ideal then |chains[i]| / ideal else 0
    {
      assert MultsOf(bkts)[i] == Mults(Lengths(chains), ideal)[i];
    }
    assert Overs(Lengths(chains), ideal) == seq(|chains|, i requires 0 <= i < |chains| =>
                                                  if |chains[i]| > ideal then |chains[i]| - ideal else 0);
  }

  lemma BuiltPlaced(bkts: array<Bucket>, chains: seq<seq<Item>>, all: set<Item>)
    requires Built(bkts, chains, all)
    ensures Placed(all, chains) && bkts.Length == |chains| > 0
  {
  }

  method MoveUntouched(first: Item?, ghost c: seq<Item>, bkts: array<Bucket>, ghost chains: seq<seq<Item>>,
                       ghost moved: set<Item>, ideal: nat, nonideal: nat,
                       ghost all: set<Item>, ghost nexts: map<Item, Item?>)
    returns (nonideal': nat, ghost chains': seq<seq<Item>>, ghost moved': set<Item>)
    requires Built(bkts, chains, moved) && ideal > 0 && Tallied(bkts[..], chains, ideal, nonideal)
    requires Distinct(c) && Members(c) !! moved && Members(c) <= all && moved <= all
    requires first == At(c, 0) && Steps(c, nexts)
    requires nexts.Keys == all && forall y :: y in all && y !in moved ==> y.hhNext == nexts[y]
    modifies bkts, all`hhPrev, all`hhNext
    ensures |chains'| == |chains| && moved' == moved + Members(c)
    ensures Built(bkts, chains', moved') && Tallied(bkts[..], chains', ideal, nonideal')
    ensures forall y :: y in all && y !in moved' ==> y.hhNext == nexts[y]
  {
    hide Built, Tallied;
    forall j | 0 <= j < |c| ensures c[j].hhNext == At(c, j + 1) { assert c[j] in Members(c); }
    nonideal', chains', moved' := MoveChain(first, c, bkts, chains, moved, ideal, nonideal);
  }

  lemma ExpandedLoad(bkts: seq<Bucket>, chains: seq<seq<Item>>, all: set<Item>, ideal: nat, nonideal: nat)
    requires |bkts| == |chains| && Placed(all, chains) && |all| > 0 && ideal == Ideal(|all|, |chains|) <= THRESHOLD
    requires ideal > 0 && Tallied(bkts, chains, ideal, nonideal)
    ensures Sum(MultsOf(bkts)) <= |chains| && AllBounded(Lengths(chains), MultsOf(bkts))
  {
    MultsAtMostBuckets(Lengths(chains), |chains|);
    ExpandedIsBounded(Lengths(chains), ideal);
  }

  lemma EmptyChains(n: nat, bkts: seq<Bucket>, ideal: nat)
    requires n == |bkts| > 0 && forall c :: 0 <= c < n ==> bkts[c] == Bucket(null, 0, 0)
    ensures Placed({}, seq(n, _ => []))
    ensures Sum(MultsOf(bkts)) == 0 && Sum(Lengths(seq(n, _ => []))) == 0
    ensures ideal > 0 ==> Tallied(bkts, seq(n, _ => []), ideal, 0)
  {
    var zeros: seq<nat> := seq(n, _ => 0);
    var empty: seq<seq<Item>> := seq(n, _ => []);
    SumOfZeros(n);
    assert Lengths(empty) == zeros && MultsOf(bkts) == zeros;
    if ideal > 0 {
      assert Mults(Lengths(empty), ideal) == zeros && Overs(Lengths(empty), ideal) == zeros;
    }
  }

  /** HASH_FIND_IN_BKT */
  method FindInBucket(head: Item?, ghost c: seq<Item>, key: string, hashv: nat) returns (x: Item?)
    requires Chained(c) && head == At(c, 0)
    ensures x == null ==> forall y :: y in c ==> !(y.hashv == hashv && y.key == key)
    ensures x != null ==> x in c && x.hashv == hashv && x.key == key
  {
    x := head;
    ghost var j := 0;
    while x != null && !(x.hashv == hashv && x.key == key)
      invariant 0 <= j <= |c| && x == At(c, j)
      invariant forall i :: 0 <= i < j ==> !(c[i].hashv == hashv && c[i].key == key)
      decreases |c| - j
    {
      x := x.hhNext;
      j := j + 1;
    }
  }

  class Table {
    const hash: string -> nat
    var head: Item?
    var tail: Item?
    var buckets: array<Bucket>
    var numBuckets: nat
    var log2: nat
    var numItems: nat
    var ideal: nat
    var nonideal: nat
    var ineff: nat
    var noexpand: bool
    ghost var order: seq<Item>
    ghost var chains: seq<seq<Item>>

    /** The application-order half of HASH_FSCK, with `tail`. */
    ghost predicate Ordered()
      reads this`head, this`tail, this`order, order`prev, order`next
    {
      && head == At(order, 0) && tail == At(order, |order| - 1)
      && Linked(order) && Distinct(order)
    }

    /** The table proper, filled with exactly the items of `all`. */
    ghost predicate Stocked(all: set<Item>)
      reads this`buckets, this`chains, this`numBuckets, this`log2, this`numItems, this`ideal, this`noexpand
      reads buckets, all`hhPrev, all`hhNext
    {
      && Built(buckets, chains, all)
      && numBuckets == buckets.Length == Pow2(log2) && numItems == |all|
      && Loaded()
    }

    /** Multipliers add up to at most one per bucket; while expansion is on, every chain is within
        its bound and the ideal chain length within the threshold. */
    ghost predicate Loaded()
      reads this`buckets, this`chains, this`ideal, this`noexpand, buckets
    {
      && Sum(MultsOf(buckets[..])) <= buckets.Length
      && (!noexpand ==> AllBounded(Lengths(chains), MultsOf(buckets[..])) && ideal <= THRESHOLD)
    }

    ghost predicate Valid()
      reads this, buckets, order
    {
      && (head == null <==> order == [])
      && (forall x :: x in order ==> x.hashv == hash(x.key))
      && (head != null ==> Ordered() && Stocked(Members(order)))
    }

    /** One more item brings the chain of its bucket to ten times its multiplier plus one. */
    ghost predicate Fills(x: Item)
      reads this`buckets, this`numBuckets, buckets
    {
      var b := x.hashv % (if numBuckets > 0 then numBuckets else 1);
      b < buckets.Length && buckets[b].count + 1 >= (buckets[b].expandMult + 1) * 10
    }

    constructor (hash: string -> nat)
      ensures Valid() && order == [] && this.hash == hash && fresh(buckets)
    {
      this.hash := hash;
      head, tail, order, chains := null, null, [], [];
      buckets := new Bucket[0];
      numBuckets, log2, numItems, ideal, nonideal, ineff, noexpand := 0, 0, 0, 0, 0, 0, false;
    }

    /** HASH_MAKE_TABLE: a fresh bucket array and cleared counters. */
    method MakeTable()
      modifies this`buckets, this`numBuckets, this`log2, this`numItems, this`ideal, this`nonideal,
               this`ineff, this`noexpand, this`chains
      ensures fresh(buckets) && Stocked({}) && noexpand == false && numBuckets == 128
      ensures numItems == ideal == nonideal == ineff == 0
      ensures forall b :: 0 <= b < buckets.Length ==> buckets[b].count == 0
    {
      hide Built, AllBounded, MultsOf, Sum;
      var n := 128;
      assert Pow2(INITIAL_NUM_BUCKETS_LOG2) == n by { assert Pow2(4) == 16; }
      buckets, chains := EmptyBuckets(n, 0);
      numBuckets, log2, numItems, ideal, nonideal, ineff, noexpand := n, INITIAL_NUM_BUCKETS_LOG2, 0, 0, 0, 0, false;
    }

    /** HASH_EXPAND_BUCKETS. */
    method Expand(ghost all: set<Item>)
      requires Built(buckets, chains, all) && numItems == |all| > 0
      requires numBuckets == buckets.Length == Pow2(log2)
      requires Ideal(numItems, 2 * numBuckets) <= THRESHOLD
      modifies this`buckets, this`numBuckets, this`log2, this`ideal, this`nonideal, this`ineff,
               this`noexpand, this`chains, all`hhPrev, all`hhNext
      ensures fresh(buckets) && Stocked(all) && numBuckets == 2 * old(numBuckets)
      ensures ideal == Ideal(numItems, numBuckets) > 0 && Tallied(buckets[..], chains, ideal, nonideal)
      ensures ineff == (if nonideal > numItems / 2 then old(ineff) + 1 else 0)
      ensures noexpand == (old(noexpand) || ineff > 1)
    {
      hide Built, Tallied, Placed, AllBounded, MultsOf, Sum;
      var n := 2 * numBuckets;
      ideal := numItems / n + (if numItems % n != 0 then 1 else 0);
      buckets, nonideal, chains := Redistribute(buckets, chains, all, ideal);
      numBuckets := n;
      log2 := log2 + 1;
      ineff := if nonideal > numItems / 2 then ineff + 1 else 0;
      if ineff > 1 { noexpand := true; }
      ExpandedLoad(buckets[..], chains, all, ideal, nonideal);
    }

    /** HASH_ADD_TO_TABLE: into the chain of its bucket, expanding when the chain is at its bound. */
    method AddToTable(ghost all: set<Item>, x: Item)
      requires Stocked(all) && x !in all
      modifies this`buckets, this`numBuckets, this`log2, this`ideal, this`nonideal, this`ineff, this`noexpand,
               this`chains, this`numItems, buckets, all`hhPrev, all`hhNext, x`hhPrev, x`hhNext
      ensures Stocked(all + {x}) && (buckets == old(buckets) || fresh(buckets))
      ensures numBuckets == if old(Fills(x)) && !old(noexpand) then 2 * old(numBuckets) else old(numBuckets)
      ensures noexpand && !old(noexpand) ==> old(Fills(x)) && old(ineff) >= 1 && nonideal > numItems / 2
      ensures old(noexpand) ==> noexpand
    {
      hide Placed, Slot, Chained, AllBounded, MultsOf, Sum;
      SlotIs(x, numBuckets);
      numItems := numItems + 1;
      var b := Slot(x, numBuckets);
      ghost var was, bkts := chains, buckets[..];
      assert BucketHolds(buckets[b], chains[b]);
      PushFront(buckets, chains, all, b, x);
      chains := chains[b := [x] + chains[b]];
      var bkt := buckets[b];
      var full := bkt.count >= (bkt.expandMult + 1) * THRESHOLD;
      PushedLoad(bkts, buckets[..], was, all, b, x, noexpand);
      if full && !noexpand {
        Expand(all + {x});
      }
    }

    lemma NewTakes(x: Item)
      requires forall b :: 0 <= b < buckets.Length ==> buckets[b].count == 0
      ensures !Fills(x)
    {
    }

    /** HASH_ADD: at the end of the application order. */
    method Add(x: Item)
      requires Valid() && x !in order && x.hashv == hash(x.key)
      modifies this, buckets, order, x
      ensures Valid() && order == old(order) + [x] && (buckets == old(buckets) || fresh(buckets))
      ensures old(head) == null ==> numBuckets == 128 && !noexpand
      ensures old(head) != null ==>
                numBuckets == if old(Fills(x)) && !old(noexpand) then 2 * old(numBuckets) else old(numBuckets)
      ensures old(head) != null && noexpand && !old(noexpand) ==>
                old(Fills(x)) && old(ineff) >= 1 && nonideal > numItems / 2
      ensures old(head) != null && old(noexpand) ==> noexpand
    {
      hide Stocked, Linked, Distinct, Table.Fills;
      ghost var s := order;
      if head == null {
        MakeTable();
        NewTakes(x);
      }
      AppendOrder(x);
      assert forall y :: y in order ==> y in Members(s) + {x};
      AddToTable(Members(s), x);
    }

    /** HASH_APPEND_LIST, or the first item of a new table. */
    method AppendOrder(x: Item)
      requires x !in order && (head == null <==> order == []) && (head != null ==> Ordered())
      modifies this`head, this`tail, this`order, order`next, x`prev, x`next
      ensures Ordered() && order == old(order) + [x] && head != null
      ensures Members(order) == Members(old(order)) + {x} && x !in Members(old(order))
      ensures old(head) == null ==> Members(old(order)) == {}
    {
      hide Linked, Distinct;
      AppendMembers(order, x);
      if head == null {
        x.next, x.prev := null, null;
        head, tail := x, x;
        LinkedOne(x);
        assert order + [x] == [x];
      } else {
        LinkLast(order, x, tail);
        tail := x;
      }
      order := order + [x];
    }

    /** HASH_ADD_INORDER: before the first item greater than `x`, or at the end; a sorted table stays
        sorted, with `x` behind its equals. */
    method AddInorder(x: Item, cmp: Compare) returns (ghost k: nat)
      requires Valid() && x !in order && x.hashv == hash(x.key)
      modifies this, buckets, order, x
      ensures Valid() && (buckets == old(buckets) || fresh(buckets))
      ensures k <= |old(order)| && order == With(old(order), k, x)
      ensures forall i :: 0 <= i < k ==> cmp(old(order)[i], x) <= 0
      ensures k < |old(order)| ==> cmp(old(order)[k], x) > 0
      ensures old(head) == null ==> numBuckets == 128 && !noexpand
      ensures old(head) != null ==>
                numBuckets == if old(Fills(x)) && !old(noexpand) then 2 * old(numBuckets) else old(numBuckets)
      ensures old(head) != null && noexpand && !old(noexpand) ==>
                old(Fills(x)) && old(ineff) >= 1 && nonideal > numItems / 2
      ensures old(head) != null && old(noexpand) ==> noexpand
      ensures Total(cmp, Members(old(order)) + {x}) && Sorted(cmp, old(order)) ==>
                Sorted(cmp, order) && forall i :: k <= i < |old(order)| ==> cmp(old(order)[i], x) > 0
    {
      hide Table.Valid, With, Members, Sorted, Total;
      ghost var s := order;
      k := PutInorder(x, cmp);
      if Total(cmp, Members(s) + {x}) && Sorted(cmp, s) { InsertSorted(cmp, s, k, x); }
    }

    method PutInorder(x: Item, cmp: Compare) returns (ghost k: nat)
      requires Valid() && x !in order && x.hashv == hash(x.key)
      modifies this, buckets, order, x
      ensures Valid() && (buckets == old(buckets) || fresh(buckets))
      ensures k <= |old(order)| && order == With(old(order), k, x)
      ensures forall i :: 0 <= i < k ==> cmp(old(order)[i], x) <= 0
      ensures k < |old(order)| ==> cmp(old(order)[k], x) > 0
      ensures old(head) == null ==> numBuckets == 128 && !noexpand
      ensures old(head) != null ==>
                numBuckets == if old(Fills(x)) && !old(noexpand) then 2 * old(numBuckets) else old(numBuckets)
      ensures old(head) != null && noexpand && !old(noexpand) ==>
                old(Fills(x)) && old(ineff) >= 1 && nonideal > numItems / 2
      ensures old(head) != null && old(noexpand) ==> noexpand
    {
      hide Table.Valid, With, Table.Fills;
      ghost var s := order;
      var at: Item?;
      at, k := InsertPoint(x, cmp);
      if at == null {
        WithLast(s, x);
        Add(x);
      } else {
        PutBefore(k, x, at);
      }
    }

    /** Before an item that is there: linked into the order, then added to the table. */
    method PutBefore(ghost k: nat, x: Item, at: Item)
      requires Valid() && x !in order && x.hashv == hash(x.key) && k < |order| && at == order[k]
      modifies this, buckets, order, x
      ensures Valid() && old(head) != null && (buckets == old(buckets) || fresh(buckets))
      ensures order == With(old(order), k, x)
      ensures numBuckets == if old(Fills(x)) && !old(noexpand) then 2 * old(numBuckets) else old(numBuckets)
      ensures noexpand && !old(noexpand) ==> old(Fills(x)) && old(ineff) >= 1 && nonideal > numItems / 2
      ensures old(noexpand) ==> noexpand
    {
      hide Stocked, Linked, Distinct, With, Table.Fills;
      ghost var s := order;
      InsertBefore(k, x, at);
      assert forall y :: y in order ==> y in Members(s) + {x};
      AddToTable(Members(s), x);
    }

    method InsertBefore(ghost k: nat, x: Item, at: Item)
      requires Ordered() && x !in order && k < |order| && at == order[k]
      modifies this`head, this`order, order`prev, order`next, x`prev, x`next
      ensures Ordered() && order == With(old(order), k, x)
      ensures Members(order) == Members(old(order)) + {x} && x !in Members(old(order))
    {
      hide Distinct, Linked;
      ghost var s := order;
      LinkedAt(s, k);
      WithMembers(s, k, x);
      LinkBefore(order, k, x, at);
      if x.prev == null { head := x; }
      order := With(s, k, x);
    }

    /** HASH_AKBI_INNER_LOOP: the first item that compares greater than `x`. */
    method InsertPoint(x: Item, cmp: Compare) returns (at: Item?, ghost k: nat)
      requires Valid()
      ensures k <= |order| && at == At(order, k)
      ensures forall i :: 0 <= i < k ==> cmp(order[i], x) <= 0
      ensures k < |order| ==> cmp(order[k], x) > 0
    {
      hide Stocked, Distinct;
      at, k := head, 0;
      while at != null && cmp(at, x) <= 0
        invariant k <= |order| && at == At(order, k)
        invariant forall i :: 0 <= i < k ==> cmp(order[i], x) <= 0
        decreases |order| - k
      {
        at := at.next;
        k := k + 1;
      }
    }

    /** HASH_FIND: walks the chain of the key's bucket, comparing hash value and key. */
    method Find(key: string) returns (x: Item?)
      requires Valid()
      ensures x == null ==> forall y :: y in order ==> y.key != key
      ensures x != null ==> x in order && x.key == key
    {
      hide Chained, Loaded, Linked, Distinct, Sum;
      x := null;
      if head != null {
        var hashv := hash(key);
        var b := hashv % numBuckets;
        assert BucketHolds(buckets[b], chains[b]);
        x := FindInBucket(buckets[b].head, chains[b], key, hashv);
        if x == null {
          forall y | y in order ensures y.key != key {
            assert y in Members(order) && y in chains[Slot(y, numBuckets)];
          }
        } else {
          assert x in Members(order);
        }
      }
    }

    /** HASH_DELETE: the last item takes the whole table with it. */
    method Delete(x: Item) returns (ghost k: nat)
      requires Valid() && x in order
      modifies this, buckets, order
      ensures Valid() && buckets == old(buckets) && numBuckets == old(numBuckets) && noexpand == old(noexpand)
      ensures k < |old(order)| && old(order)[k] == x && order == Without(old(order), k)
    {
      hide Stocked, Linked, Distinct;
      ghost var s := order;
      k :| 0 <= k < |order| && order[k] == x;
      LinkedAt(s, k);
      if x.prev == null && x.next == null {
        head := null;
        order := [];
      } else {
        DeleteFromOrder(k, x);
        DeleteFromBucket(Members(s), x);
      }
    }

    method DeleteFromOrder(ghost k: nat, x: Item)
      requires Ordered() && |order| > 1 && k < |order| && x == order[k]
      modifies this`head, this`tail, this`order, order`prev, order`next
      ensures Ordered() && order == Without(old(order), k)
      ensures Members(order) == Members(old(order)) - {x} && x in Members(old(order))
    {
      hide Distinct, Linked;
      ghost var s := order;
      LinkedAt(s, k);
      WithoutMembers(s, k);
      DistinctAt(s, k);
      if x == tail { tail := x.prev; }
      if x.prev == null { head := x.next; }
      UnlinkItem(order, k, x);
      order := Without(s, k);
    }

    method DeleteFromBucket(ghost all: set<Item>, x: Item)
      requires Stocked(all) && x in all
      modifies this`numItems, this`chains, buckets, all`hhPrev, all`hhNext
      ensures Stocked(all - {x})
    {
      hide Placed, Slot, Chained, AllBounded, MultsOf, Sum;
      var b := Slot(x, numBuckets);
      ghost var k := ChainIndex(all, chains, x);
      assert BucketHolds(buckets[b], chains[b]);
      ghost var bkts, was := buckets[..], chains;
      UnlinkInBucket(buckets, chains, all, b, k, x);
      chains := chains[b := Without(chains[b], k)];
      numItems := numItems - 1;
      PulledLoad(bkts, buckets[..], was, b, k);
    }

    /** HASH_REPLACE: the item with the same key, if any, makes way for `x`. */
    method Replace(x: Item) returns (replaced: Item?)
      requires Valid() && x !in order && x.hashv == hash(x.key)
      modifies this, buckets, order, x
      ensures Valid() && (buckets == old(buckets) || fresh(buckets))
      ensures replaced == null ==> (forall y :: y in old(order) ==> y.key != x.key) && order == old(order) + [x]
      ensures replaced != null ==>
                exists k :: && 0 <= k < |old(order)| && old(order)[k] == replaced && replaced.key == x.key
                            && order == Without(old(order), k) + [x]
    {
      hide Stocked, Linked, Distinct, Ordered;
      replaced := Find(x.key);
      ghost var k := 0;
      if replaced != null {
        k := Delete(replaced);
      }
      Add(x);
    }
  }

  lemma SlotIs(x: Item, n: nat)
    requires n > 0
    ensures Slot(x, n) == x.hashv % n
  {
  }

  lemma ChainIndex(all: set<Item>, chains: seq<seq<Item>>, x: Item) returns (k: nat)
    requires Placed(all, chains) && x in all
    ensures var c := chains[Slot(x, |chains|)]; k < |c| && c[k] == x
  {
    k :| 0 <= k < |chains[Slot(x, |chains|)]| && chains[Slot(x, |chains|)][k] == x;
  }

  lemma LinkedAt(s: seq<Item>, k: nat)
    requires Linked(s) && k < |s|
    ensures s[k].prev == At(s, k - 1) && s[k].next == At(s, k + 1)
  {
  }

  lemma DistinctAt(s: seq<Item>, k: nat)
    requires Distinct(s) && k < |s|
    ensures forall i :: 0 <= i < |s| ==> (s[i] == s[k] <==> i == k)
  {
  }

  lemma WithLast(s: seq<Item>, x: Item)
    ensures With(s, |s|, x) == s + [x]
  {
  }

  lemma WithMembers(s: seq<Item>, k: nat, x: Item)
    requires Distinct(s) && x !in s && k < |s|
    ensures var t := With(s, k, x);
            && Members(t) == Members(s) + {x} && x !in Members(s) && Distinct(t)
            && At(t, |t| - 1) == At(s, |s| - 1) && At(t, 0) == (if k == 0 then x else At(s, 0)) && t != []
  {
    DistinctWith(s, k, x);
  }

  lemma WithoutMembers(s: seq<Item>, k: nat)
    requires Distinct(s) && k < |s|
    ensures var t := Without(s, k);
            && Members(t) == Members(s) - {s[k]} && s[k] in Members(s) && Distinct(t)
            && At(t, 0) == (if k == 0 then At(s, 1) else At(s, 0))
            && At(t, |t| - 1) == (if k == |s| - 1 then At(s, |s| - 2) else At(s, |s| - 1))
  {
    DistinctWithout(s, k);
  }

  /** Loads after one item less. */
  lemma PulledLoad(was: seq<Bucket>, now: seq<Bucket>, chains: seq<seq<Item>>, b: nat, k: nat)
    requires |was| == |now| == |chains| && b < |chains| && k < |chains[b]|
    requires forall c :: 0 <= c < |now| ==> now[c].expandMult == was[c].expandMult
    ensures MultsOf(now) == MultsOf(was)
    ensures AllBounded(Lengths(chains), MultsOf(was)) ==>
            AllBounded(Lengths(chains[b := Without(chains[b], k)]), MultsOf(now))
  {
    var chains' := chains[b := Without(chains[b], k)];
    assert MultsOf(now) == MultsOf(was);
    assert Lengths(chains') == Lengths(chains)[b := |chains[b]| - 1];
    if AllBounded(Lengths(chains), MultsOf(was)) {
      forall c | 0 <= c < |chains| ensures Bounded(Lengths(chains')[c], MultsOf(now)[c]) {
        assert Bounded(Lengths(chains)[c], MultsOf(was)[c]);
      }
    }
  }

  lemma AppendMembers(s: seq<Item>, x: Item)
    requires x !in s
    ensures Members(s + [x]) == Members(s) + {x} && x !in Members(s) && (Distinct(s) ==> Distinct(s + [x]))
    ensures Members([]) == {} && Distinct([x])
  {
  }

  lemma LinkedOne(x: Item)
    requires x.next == null && x.prev == null
    ensures Linked([x])
  {
  }

  /** Loads after one more item: bounded unless its chain is full, and then ready to expand. */
  lemma PushedLoad(was: seq<Bucket>, now: seq<Bucket>, chains: seq<seq<Item>>,
      all: set<Item>, b: nat, x: Item, noexpand: bool)
    requires |was| == |now| == |chains| && b < |chains| && Placed(all, chains) && Sum(MultsOf(was)) <= |chains|
    requires forall c :: 0 <= c < |now| ==> now[c].expandMult == was[c].expandMult
    requires now[b].count == |chains[b]| + 1
    requires !noexpand ==> AllBounded(Lengths(chains), MultsOf(was))
    ensures MultsOf(now) == MultsOf(was)
    ensures !noexpand ==> Ideal(|all| + 1, 2 * |chains|) <= THRESHOLD
    ensures !noexpand && now[b].count < (now[b].expandMult + 1) * THRESHOLD ==>
              AllBounded(Lengths(chains[b := [x] + chains[b]]), MultsOf(now))
  {
    var chains' := chains[b := [x] + chains[b]];
    assert MultsOf(now) == MultsOf(was);
    assert Lengths(chains') == Lengths(chains)[b := |chains[b]| + 1];
    if !noexpand {
      LoadFactor(Lengths(chains), MultsOf(was));
      forall c | 0 <= c < |chains| && c != b ensures Bounded(Lengths(chains')[c], MultsOf(now)[c]) {
        assert Bounded(Lengths(chains)[c], MultsOf(was)[c]);
      }
    }
  }
}
