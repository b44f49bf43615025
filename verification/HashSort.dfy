/** HASH_SRT: the in-place bottom-up mergesort of the application order. */
module HashSort {
  import opened Bytes
  import opened HashItems
  import opened HashTable
  import opened HashDict
  import opened Merging

  /** A list being built: both directions are linked, only the last `next` is still open. */
  ghost predicate Open(out: seq<Item>)
    reads Members(out)`prev, Members(out)`next
  {
    && (forall i :: 0 <= i < |out| ==> out[i].prev == At(out, i - 1))
    && (forall i :: 0 <= i < |out| - 1 ==> out[i].next == out[i + 1])
  }

  /** A list still to be read, up to its end. */
  ghost predicate Forward(t: seq<Item>)
    reads Members(t)`next
  {
    forall i :: 0 <= i < |t| ==> t[i].next == At(t, i + 1)
  }

  /** A run still to be read; where its last item leads does not matter. */
  ghost predicate Run(p: seq<Item>)
    reads Members(p)`next
  {
    forall i :: 0 <= i < |p| - 1 ==> p[i].next == p[i + 1]
  }

  /** Three lists without repeated or shared items. */
  ghost predicate Apart(out: seq<Item>, p: seq<Item>, t: seq<Item>) {
    && Distinct(out) && Distinct(p) && Distinct(t)
    && Members(out) !! Members(p) && Members(out) !! Members(t) && Members(p) !! Members(t)
  }

  lemma HeadMember(s: seq<Item>)
    requires Distinct(s) && s != []
    ensures Members(s) == Members(s[1..]) + {s[0]} && s[0] !in Members(s[1..]) && Distinct(s[1..])
  {
    assert s == [s[0]] + s[1..];
    forall x | x in s[1..] ensures x != s[0] {
      var i :| 0 <= i < |s[1..]| && s[1..][i] == x;
      assert s[i + 1] == x;
    }
  }

  lemma TakeP(out: seq<Item>, p: seq<Item>, t: seq<Item>)
    requires Apart(out, p, t) && p != []
    ensures Apart(out + [p[0]], p[1..], t) && p[0] !in Members(out)
    ensures Members(out + [p[0]]) == Members(out) + {p[0]} && Members(p) == Members(p[1..]) + {p[0]}
  {
    HeadMember(p);
    AppendMembers(out, p[0]);
  }

  lemma TakeT(out: seq<Item>, p: seq<Item>, t: seq<Item>)
    requires Apart(out, p, t) && t != []
    ensures Apart(out + [t[0]], p, t[1..]) && t[0] !in Members(out)
    ensures Members(out + [t[0]]) == Members(out) + {t[0]} && Members(t) == Members(t[1..]) + {t[0]}
  {
    HeadMember(t);
    AppendMembers(out, t[0]);
  }

  /** Links `e` behind the list built so far; the lists still to be read stay as they are. */
  method Emit(e: Item, tail: Item?, ghost out: seq<Item>, ghost p: seq<Item>, ghost t: seq<Item>)
    requires Open(out) && Distinct(out) && e !in Members(out) && tail == At(out, |out| - 1)
    requires Run(p) && Forward(t) && Members(out) !! Members(p) && Members(out) !! Members(t)
    modifies Members(out)`next, e`prev
    ensures Open(out + [e]) && Run(p) && Forward(t)
  {
    if tail != null {
      tail.next := e;
    }
    e.prev := tail;
  }

  lemma ForwardRest(t: seq<Item>)
    requires Forward(t) && t != []
    ensures Forward(t[1..]) && t[0].next == At(t[1..], 0)
  {
    assert forall i :: 0 <= i < |t[1..]| ==> t[1..][i] == t[i + 1];
  }

  lemma RunRest(p: seq<Item>)
    requires Run(p) && p != []
    ensures Run(p[1..]) && (|p| > 1 ==> p[0].next == p[1])
  {
    assert forall i :: 0 <= i < |p[1..]| ==> p[1..][i] == p[i + 1];
  }

  lemma SplitForward(t: seq<Item>, n: nat, out: seq<Item>)
    requires Forward(t) && n <= |t| && Apart(out, [], t)
    ensures Run(t[..n]) && Forward(t[n..]) && Apart(out, t[..n], t[n..])
    ensures Members(t[..n]) + Members(t[n..]) == Members(t)
  {
    var p, q := t[..n], t[n..];
    assert t == p + q;
    forall i | 0 <= i < |p| - 1 ensures p[i].next == p[i + 1] { assert p[i] == t[i]; }
    forall i | 0 <= i < |q| ensures q[i].next == At(q, i + 1) { assert q[i] == t[n + i]; }
    forall x | x in p ensures x !in q {
      var i :| 0 <= i < |p| && p[i] == x;
      assert t[i] == x;
    }
  }

  /** The part of the unread list that belongs to the second run. */
  ghost function Second(t: seq<Item>, qsize: nat): (r: seq<Item>) { t[..Min(qsize, |t|)] }

  /** What the merge loop still has to produce, and what it leaves. */
  ghost predicate Merges(cmp: Compare, out: seq<Item>, p: seq<Item>, t: seq<Item>, qsize: nat,
                         goal: seq<Item>, rest: seq<Item>) {
    out + Merge(cmp, p, Second(t, qsize)) == goal && t[Min(qsize, |t|)..] == rest
  }

  lemma MergesP(cmp: Compare, out: seq<Item>, p: seq<Item>, t: seq<Item>, qsize: nat, goal: seq<Item>, rest: seq<Item>)
    requires Merges(cmp, out, p, t, qsize, goal, rest) && p != []
    requires qsize == 0 || t == [] || cmp(p[0], t[0]) <= 0
    ensures Merges(cmp, out + [p[0]], p[1..], t, qsize, goal, rest)
  {
    var q := Second(t, qsize);
    var left := p[1..];
    if q == [] {
      assert Merge(cmp, left, q) == left && [p[0]] + left == p;
    } else {
      assert q[0] == t[0];
    }
    assert out + [p[0]] + Merge(cmp, left, q) == out + ([p[0]] + Merge(cmp, left, q));
  }

  lemma MergesT(cmp: Compare, out: seq<Item>, p: seq<Item>, t: seq<Item>, qsize: nat, goal: seq<Item>, rest: seq<Item>)
    requires Merges(cmp, out, p, t, qsize, goal, rest) && t != [] && qsize > 0
    requires p == [] || cmp(p[0], t[0]) > 0
    ensures Merges(cmp, out + [t[0]], p, t[1..], qsize - 1, goal, rest)
  {
    var q := Second(t, qsize);
    assert q[0] == t[0] && q[1..] == Second(t[1..], qsize - 1);
    if p == [] {
      assert [q[0]] + q[1..] == q;
    }
    assert out + [t[0]] + Merge(cmp, p, q[1..]) == out + ([t[0]] + Merge(cmp, p, q[1..]));
  }

  /** The merge loop: takes from the first run while its head is not greater, else from the second. */
  method MergeRuns(cmp: Compare, p0: Item?, q0: Item?, psize0: nat, qsize0: nat, list0: Item?, tail0: Item?,
                   ghost out0: seq<Item>, ghost p1: seq<Item>, ghost t0: seq<Item>)
    returns (q: Item?, list: Item?, tail: Item?, ghost out: seq<Item>, ghost t: seq<Item>)
    requires psize0 == |p1| && p0 == At(p1, 0) && q0 == At(t0, 0)
    requires Open(out0) && Run(p1) && Forward(t0) && Apart(out0, p1, t0)
    requires list0 == At(out0, 0) && tail0 == At(out0, |out0| - 1)
    modifies Members(out0)`next, Members(p1)`next, Members(t0)`next, Members(p1)`prev, Members(t0)`prev
    ensures out == out0 + Merge(cmp, p1, Second(t0, qsize0)) && t == t0[Min(qsize0, |t0|)..]
    ensures Open(out) && Forward(t) && Apart(out, [], t) && q == At(t, 0)
    ensures list == At(out, 0) && tail == At(out, |out| - 1)
    ensures Members(out) + Members(t) == Members(out0) + Members(p1) + Members(t0)
  {
    hide Open, Run, Forward, Distinct, Members, Merge, Second, Merges;
    q, list, tail, out, t := q0, list0, tail0, out0, t0;
    var p, psize, qsize := p0, psize0, qsize0;
    ghost var pr := p1;
    ghost var goal, rest := out0 + Merge(cmp, p1, Second(t0, qsize0)), t0[Min(qsize0, |t0|)..];
    MergesStart(cmp, out, pr, t, qsize);
    while psize != 0 || (qsize != 0 && q != null)
      invariant psize == |pr| && (psize > 0 ==> p == At(pr, 0)) && q == At(t, 0)
      invariant Open(out) && Run(pr) && Forward(t) && Apart(out, pr, t)
      invariant list == At(out, 0) && tail == At(out, |out| - 1)
      invariant Members(out) + Members(pr) + Members(t) == Members(out0) + Members(p1) + Members(t0)
      invariant Members(out0) <= Members(out)
      invariant Merges(cmp, out, pr, t, qsize, goal, rest)
      decreases |pr| + |t|
    {
      var e: Item;
      if psize == 0 || !(qsize == 0 || q == null || cmp(p, q) <= 0) {
        e := q;
        q := q.next;
        qsize := qsize - 1;
        ForwardRest(t);
        TakeT(out, pr, t);
        MergesT(cmp, out, pr, t, qsize + 1, goal, rest);
        t := t[1..];
      } else {
        e := p;
        p := p.next;
        psize := psize - 1;
        RunRest(pr);
        TakeP(out, pr, t);
        MergesP(cmp, out, pr, t, qsize, goal, rest);
        pr := pr[1..];
      }
      assert Members(out) !! Members(pr) && Members(out) !! Members(t);
      Emit(e, tail, out, pr, t);
      if tail == null { list := e; }
      tail := e;
      out := out + [e];
    }
    MergesEnd(cmp, out, t, qsize, goal, rest);
  }

  lemma MergesStart(cmp: Compare, out: seq<Item>, p: seq<Item>, t: seq<Item>, qsize: nat)
    ensures Merges(cmp, out, p, t, qsize, out + Merge(cmp, p, Second(t, qsize)), t[Min(qsize, |t|)..])
  {
  }

  lemma MergesEnd(cmp: Compare, out: seq<Item>, t: seq<Item>, qsize: nat, goal: seq<Item>, rest: seq<Item>)
    requires Merges(cmp, out, [], t, qsize, goal, rest) && (qsize == 0 || t == [])
    ensures out == goal && t == rest && Members([]) == {}
  {
    assert Second(t, qsize) == [];
  }

  /** Steps over the first run: at most `insize` items, or to the end of the list. */
  method SkipRun(p: Item, insize: nat, ghost t: seq<Item>, ghost out: seq<Item>) returns (q: Item?, psize: nat)
    requires t != [] && p == t[0] && Forward(t) && insize > 0 && Open(out) && Apart(out, [], t)
    ensures psize == Min(insize, |t|) && q == At(t[psize..], 0) && p == At(t[..psize], 0)
    ensures Open(out) && Run(t[..psize]) && Forward(t[psize..]) && Apart(out, t[..psize], t[psize..])
    ensures Members(t[..psize]) + Members(t[psize..]) == Members(t)
  {
    hide Open, Apart;
    q, psize := p, 0;
    while psize < insize && q != null
      invariant psize <= Min(insize, |t|) && q == At(t, psize)
    {
      psize := psize + 1;
      q := q.next;
    }
    SplitForward(t, psize, out);
  }

  lemma SecondRun(t: seq<Item>, k: nat)
    requires k > 0 && t != []
    ensures var m, e := Min(k, |t|), Min(2 * k, |t|);
            m <= e <= |t| && Second(t[m..], k) == t[m..e] && t[m..][Min(k, |t[m..]|)..] == t[e..]
  {
  }

  lemma PassStep(cmp: Compare, out: seq<Item>, t: seq<Item>, k: nat)
    requires k > 0 && t != []
    ensures var m := Min(k, |t|);
            && m <= |t| && t[m..][Min(k, |t[m..]|)..] == t[Min(2 * k, |t|)..]
            && out + Merge(cmp, t[..m], Second(t[m..], k)) + Pass(cmp, t[Min(2 * k, |t|)..], k) == out + Pass(cmp, t, k)
  {
    hide Merge, Second;
    SecondRun(t, k);
    var m, e := Min(k, |t|), Min(2 * k, |t|);
    var a, b := Merge(cmp, t[..m], t[m..e]), Pass(cmp, t[e..], k);
    assert Pass(cmp, t, k) == a + b;
    assert out + a + b == out + (a + b);
  }

  lemma ApartStart(s: seq<Item>)
    requires Distinct(s)
    ensures Apart([], [], s) && Members([]) == {} && Open([])
  {
  }

  lemma LinkedIsForward(s: seq<Item>)
    requires Linked(s)
    ensures Forward(s)
  {
  }

  /** The merges of one pass, over all runs of the list; the last `next` is left open. */
  method MergeAll(cmp: Compare, first: Item, insize: nat, ghost s: seq<Item>)
    returns (list: Item?, tail: Item?, nmerges: nat, ghost out: seq<Item>)
    requires s != [] && first == s[0] && Forward(s) && Distinct(s) && insize > 0
    modifies Members(s)`next, Members(s)`prev
    ensures out + Pass(cmp, [], insize) == Pass(cmp, s, insize) && Open(out) && Apart(out, [], [])
    ensures Members(out) + Members([]) == Members(s)
    ensures list == At(out, 0) && tail == At(out, |out| - 1)
    ensures nmerges <= 1 <==> |s| <= 2 * insize
  {
    hide Open, Forward, Run, Distinct, Members, Merge, Second, Pass, Linked, Apart;
    var p: Item?;
    p, list, tail, nmerges, out := first, null, null, 0, [];
    ghost var t := s;
    ApartStart(s);
    while p != null
      invariant p == At(t, 0) && Open(out) && Forward(t) && Apart(out, [], t)
      invariant list == At(out, 0) && tail == At(out, |out| - 1)
      invariant Members(out) + Members(t) == Members(s)
      invariant out + Pass(cmp, t, insize) == Pass(cmp, s, insize)
      invariant nmerges == 0 ==> |t| == |s|
      invariant nmerges == 1 ==> |t| == |s| - Min(2 * insize, |s|)
      invariant nmerges > 1 ==> |s| > 2 * insize
      decreases |t|
    {
      nmerges := nmerges + 1;
      var q, psize := SkipRun(p, insize, t, out);
      PassStep(cmp, out, t, insize);
      q, list, tail, out, t := MergeRuns(cmp, p, q, psize, insize, list, tail, out, t[..psize], t[psize..]);
      p := q;
    }
  }

  /** One pass over the list; at most one merge means the list is sorted. */
  method SortPass(cmp: Compare, first: Item, insize: nat, ghost s: seq<Item>)
    returns (list: Item?, tail: Item?, nmerges: nat, ghost out: seq<Item>)
    requires s != [] && first == s[0] && Forward(s) && Distinct(s) && insize > 0
    modifies Members(s)`next, Members(s)`prev
    ensures out == Pass(cmp, s, insize) && Linked(out) && Distinct(out) && Members(out) == Members(s)
    ensures list == At(out, 0) && tail == At(out, |out| - 1)
    ensures nmerges <= 1 <==> |s| <= 2 * insize
  {
    hide Open, Forward, Distinct, Members, Pass, Linked, Apart;
    list, tail, nmerges, out := MergeAll(cmp, first, insize, s);
    PassEnd(cmp, out, insize);
    if tail != null { CloseList(tail, out); }
  }

  lemma PassEnd(cmp: Compare, out: seq<Item>, k: nat)
    requires k > 0
    ensures out + Pass(cmp, [], k) == out && Members([]) == {} && (Apart(out, [], []) ==> Distinct(out))
    ensures out == [] ==> Open(out) && Linked(out)
  {
  }

  method CloseList(tail: Item, ghost out: seq<Item>)
    requires Open(out) && Distinct(out) && out != [] && tail == out[|out| - 1]
    modifies Members(out)`next
    ensures Linked(out)
  {
    tail.next := null;
    forall i | 0 <= i < |out| ensures out[i].prev == At(out, i - 1) && out[i].next == At(out, i + 1) {
      assert out[i] in Members(out);
    }
  }

  lemma PassesStep(cmp: Compare, s: seq<Item>, k: nat)
    requires k > 0
    ensures |Pass(cmp, s, k)| == |s|
    ensures Passes(cmp, s, k) == if |s| <= 2 * k then Pass(cmp, s, k) else Passes(cmp, Pass(cmp, s, k), 2 * k)
  {
    PassSize(cmp, s, k);
  }

  /** Passes with doubling run length, as long as a pass needs more than one merge. */
  method SortList(cmp: Compare, first: Item, ghost s: seq<Item>)
    returns (list: Item?, tail: Item?, ghost out: seq<Item>)
    requires s != [] && first == s[0] && Linked(s) && Distinct(s)
    modifies Members(s)`next, Members(s)`prev
    ensures out == Passes(cmp, s, 1) && out != [] && Linked(out) && Distinct(out) && Members(out) == Members(s)
    ensures list == At(out, 0) && tail == At(out, |out| - 1)
  {
    hide Linked, Distinct, Members, Pass, Passes;
    list, tail, out := first, null, s;
    var insize, looping := 1, true;
    while looping
      invariant out != [] && insize > 0 && list == out[0]
      invariant Linked(out) && Distinct(out) && Members(out) == Members(s)
      invariant if looping then Passes(cmp, out, insize) == Passes(cmp, s, 1)
                else out == Passes(cmp, s, 1) && tail == At(out, |out| - 1)
      decreases looping, |out| - insize
    {
      LinkedIsForward(out);
      PassesStep(cmp, out, insize);
      var nmerges;
      list, tail, nmerges, out := SortPass(cmp, list, insize, out);
      if nmerges <= 1 { looping := false; }
      insize := insize * 2;
    }
  }

  /** HASH_SRT.  The new order is what repeated passes compute: a permutation, and for a total preorder
      sorted with equals in their old order.  Only `prev`, `next`, `head` and `tail` are written, so no
      bucket chain changes, and the map the table stands for is the same. */
  method Sort(tbl: Table, cmp: Compare)
    requires tbl.Valid()
    modifies tbl`head, tbl`tail, tbl`order, tbl.order`prev, tbl.order`next
    ensures tbl.Valid() && tbl.order == Passes(cmp, old(tbl.order), 1)
    ensures multiset(tbl.order) == multiset(old(tbl.order))
    ensures Total(cmp, Members(old(tbl.order))) ==>
              && Sorted(cmp, tbl.order)
              && forall x :: x in old(tbl.order) ==> Equals(cmp, x, tbl.order) == Equals(cmp, x, old(tbl.order))
    ensures old(UniqueKeys(tbl.order)) ==> UniqueKeys(tbl.order) && Dict(tbl.order) == old(Dict(tbl.order))
  {
    hide Table.Valid, Passes, Sorted, Equals, Total, Members, UniqueKeys, Dict;
    ghost var s := tbl.order;
    SortOrder(tbl, cmp);
    PassesPermutes(cmp, s, 1);
    if Total(cmp, Members(s)) { SortIsStable(cmp, s); }
    if UniqueKeys(s) { DictPermute(s, tbl.order); }
  }

  method SortOrder(tbl: Table, cmp: Compare)
    requires tbl.Valid()
    modifies tbl`head, tbl`tail, tbl`order, tbl.order`prev, tbl.order`next
    ensures tbl.Valid() && tbl.order == Passes(cmp, old(tbl.order), 1) && Members(tbl.order) == Members(old(tbl.order))
  {
    hide Linked, Distinct, Passes, Table.Stocked;
    if tbl.head == null {
      PassesEmpty(cmp);
    } else {
      ghost var s := tbl.order;
      var list, tail, out := SortList(cmp, tbl.head, s);
      tbl.tail := tail;
      tbl.head := list;
      tbl.order := out;
      assert tbl.Ordered() && tbl.Stocked(Members(out));
      forall x | x in out ensures x in s { assert x in Members(out); }
    }
  }

  lemma PassesEmpty(cmp: Compare)
    ensures Passes(cmp, [], 1) == []
  {
  }
}
