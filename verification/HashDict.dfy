/** The plain map a hash table with unique keys stands for. */
module HashDict {
  import opened Bytes
  import opened HashLoad
  import opened HashItems
  import opened HashTable

  ghost predicate UniqueKeys(s: seq<Item>) {
    forall x, y :: x in s && y in s && x.key == y.key ==> x == y
  }

  /** The map from keys to items. */
  ghost function Dict(s: seq<Item>): (m: map<string, Item>)
    requires UniqueKeys(s)
    ensures forall x :: x in s ==> x.key in m && m[x.key] == x
    ensures forall k :: k in m ==> m[k] in s && m[k].key == k
  {
    map k | k in (set x | x in s :: x.key) :: Entry(s, k)
  }

  ghost function Entry(s: seq<Item>, key: string): (x: Item)
    requires exists x :: x in s && x.key == key
    ensures x in s && x.key == key
  {
    var x :| x in s && x.key == key; x
  }

  lemma DictIs(s: seq<Item>, m: map<string, Item>)
    requires forall x :: x in s ==> x.key in m && m[x.key] == x
    requires forall k :: k in m ==> m[k] in s && m[k].key == k
    ensures UniqueKeys(s) && Dict(s) == m
  {
    hide Dict;
    assert UniqueKeys(s);
    var d := Dict(s);
    assert forall k :: k in d ==> d[k] in s && k in m && m[k] == d[k];
    assert forall k :: k in m ==> m[k] in s && k in d;
  }

  lemma DictAdd(s: seq<Item>, k: nat, x: Item)
    requires k <= |s| && UniqueKeys(s) && x.key !in Dict(s)
    ensures UniqueKeys(With(s, k, x)) && Dict(With(s, k, x)) == Dict(s)[x.key := x]
  {
    hide Dict, UniqueKeys;
    WithHas(s, k, x);
    var t, m := With(s, k, x), Dict(s)[x.key := x];
    forall y | y in t ensures y.key in m && m[y.key] == y {
      assert y in s ==> y.key in Dict(s) && Dict(s)[y.key] == y;
    }
    forall key | key in m ensures m[key] in t && m[key].key == key {
      assert key in Dict(s) ==> Dict(s)[key] in s;
    }
    DictIs(t, m);
  }

  lemma WithHas(s: seq<Item>, k: nat, x: Item)
    requires k <= |s|
    ensures forall y :: y in With(s, k, x) <==> y in s || y == x
  {
    assert s == s[..k] + s[k..];
  }

  lemma DictRemove(s: seq<Item>, k: nat)
    requires k < |s| && Distinct(s) && UniqueKeys(s)
    ensures UniqueKeys(Without(s, k)) && Dict(Without(s, k)) == Dict(s) - {s[k].key}
  {
    hide Distinct, Dict, UniqueKeys;
    WithoutHas(s, k);
    var t, m := Without(s, k), Dict(s) - {s[k].key};
    assert s[k] in s;
    forall y | y in t ensures y.key in m && m[y.key] == y {
      assert y in s && Dict(s)[y.key] == y && Dict(s)[s[k].key] == s[k];
    }
    forall key | key in m ensures m[key] in t && m[key].key == key {
      assert Dict(s)[key] in s && Dict(s)[key].key == key;
    }
    DictIs(t, m);
  }

  lemma WithoutHas(s: seq<Item>, k: nat)
    requires k < |s| && Distinct(s)
    ensures forall y :: y in Without(s, k) <==> y in s && y != s[k]
  {
    hide Without, Distinct;
    DistinctWithout(s, k);
    assert forall y :: y in Without(s, k) <==> y in Members(Without(s, k));
    assert forall y :: y in s <==> y in Members(s);
  }

  lemma DictPermute(s: seq<Item>, t: seq<Item>)
    requires UniqueKeys(s) && Members(t) == Members(s)
    ensures UniqueKeys(t) && Dict(t) == Dict(s)
  {
    assert forall y :: y in t <==> y in Members(t);
    assert forall y :: y in s <==> y in Members(s);
  }

  /** HASH_FIND is lookup in the map, whatever the bucket count. */
  method Lookup(tbl: Table, key: string) returns (x: Item?)
    requires tbl.Valid() && UniqueKeys(tbl.order)
    ensures x == if key in Dict(tbl.order) then Dict(tbl.order)[key] else null
  {
    hide *;
    x := tbl.Find(key);
    FoundIsEntry(tbl.order, key, x);
  }

  lemma FoundIsEntry(s: seq<Item>, key: string, x: Item?)
    requires UniqueKeys(s)
    requires x == null ==> forall y :: y in s ==> y.key != key
    requires x != null ==> x in s && x.key == key
    ensures x == if key in Dict(s) then Dict(s)[key] else null
  {
  }

  /** HASH_REPLACE is map update, also when a table of one item is freed and made anew. */
  method Update(tbl: Table, x: Item) returns (replaced: Item?)
    requires tbl.Valid() && UniqueKeys(tbl.order) && x !in tbl.order && x.hashv == tbl.hash(x.key)
    modifies tbl, tbl.buckets, tbl.order, x
    ensures tbl.Valid() && UniqueKeys(tbl.order)
    ensures Dict(tbl.order) == old(Dict(tbl.order))[x.key := x]
    ensures replaced == if x.key in old(Dict(tbl.order)) then old(Dict(tbl.order))[x.key] else null
  {
    ghost var s := tbl.order;
    assert Distinct(s) by { assert s != [] ==> tbl.Ordered(); }
    hide Table.Valid, Distinct, UniqueKeys, Dict;
    replaced := tbl.Replace(x);
    ReplacedIsUpdated(s, x, replaced, tbl.order);
  }

  lemma ReplacedIsUpdated(s: seq<Item>, x: Item, replaced: Item?, t: seq<Item>)
    requires UniqueKeys(s) && Distinct(s)
    requires replaced == null ==> (forall y :: y in s ==> y.key != x.key) && t == s + [x]
    requires replaced != null ==>
               exists k :: 0 <= k < |s| && s[k] == replaced && replaced.key == x.key && t == Without(s, k) + [x]
    ensures UniqueKeys(t) && Dict(t) == Dict(s)[x.key := x]
    ensures replaced == if x.key in Dict(s) then Dict(s)[x.key] else null
  {
    hide Distinct, Dict, Without, With;
    FoundIsEntry(s, x.key, replaced);
    if replaced != null {
      var k :| 0 <= k < |s| && s[k] == replaced && replaced.key == x.key && t == Without(s, k) + [x];
      DictRemove(s, k);
      DictAdd(Without(s, k), |Without(s, k)|, x);
      WithLast(Without(s, k), x);
    } else {
      DictAdd(s, |s|, x);
      WithLast(s, x);
    }
  }

  /** HASH_DELETE is removal from the map. */
  method Forget(tbl: Table, x: Item)
    requires tbl.Valid() && UniqueKeys(tbl.order) && x in tbl.order
    modifies tbl, tbl.buckets, tbl.order
    ensures tbl.Valid() && UniqueKeys(tbl.order)
    ensures Dict(tbl.order) == old(Dict(tbl.order)) - {x.key}
  {
    ghost var s := tbl.order;
    assert Distinct(s) by { assert tbl.Ordered(); }
    hide Table.Valid, Distinct, UniqueKeys, Dict;
    ghost var k := tbl.Delete(x);
    DictRemove(s, k);
  }

  // ---------------------------------------------------------------- load

  /** In every reachable state with expansion on: the ideal chain length is at most ten, every chain
      at most ten times its multiplier plus one, and there are at most twenty items per bucket. */
  lemma LoadBounds(tbl: Table)
    requires tbl.Valid() && tbl.head != null && !tbl.noexpand
    ensures tbl.ideal <= 10 && tbl.numItems <= 20 * tbl.numBuckets
    ensures forall b :: 0 <= b < tbl.numBuckets ==>
              tbl.buckets[b].count <= (tbl.buckets[b].expandMult + 1) * 10
  {
    var counts, mults := Lengths(tbl.chains), MultsOf(tbl.buckets[..]);
    LoadFactor(counts, mults);
    forall b | 0 <= b < tbl.numBuckets ensures tbl.buckets[b].count <= (tbl.buckets[b].expandMult + 1) * 10 {
      assert BucketHolds(tbl.buckets[b], tbl.chains[b]) && Bounded(counts[b], mults[b]);
    }
  }

  /** The checks of HASH_FSCK that speak of totals: the bucket counts, and the list, add up to
      num_items; every item is in the chain of the bucket its hash selects. */
  lemma Fsck(tbl: Table)
    requires tbl.Valid() && tbl.head != null
    ensures Sum(seq(tbl.numBuckets, b requires 0 <= b < tbl.numBuckets reads tbl, tbl.buckets =>
                      if b < tbl.buckets.Length then tbl.buckets[b].count else 0)) == tbl.numItems == |tbl.order|
    ensures forall x :: x in tbl.order ==> x in tbl.chains[x.hashv % tbl.numBuckets]
  {
    DistinctSize(tbl.order);
    forall b | 0 <= b < tbl.numBuckets ensures tbl.buckets[b].count == |tbl.chains[b]| {
      assert BucketHolds(tbl.buckets[b], tbl.chains[b]);
    }
    assert Lengths(tbl.chains) == seq(tbl.numBuckets, b requires 0 <= b < tbl.numBuckets reads tbl, tbl.buckets =>
                                        if b < tbl.buckets.Length then tbl.buckets[b].count else 0);
    forall x | x in tbl.order ensures x in tbl.chains[x.hashv % tbl.numBuckets] {
      assert x in Members(tbl.order) && x in tbl.chains[Slot(x, |tbl.chains|)];
    }
  }
}
