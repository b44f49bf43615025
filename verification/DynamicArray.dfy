/** The growable array of utarray.h, against sequences. */
module DynamicArray {
  import opened Bytes

  /** Slot counts: none, or eight doubled some number of times. */
  ghost predicate SlotCount(n: nat) { n == 0 || exists k: nat :: n == 8 * Pow2(k) }

  lemma SlotsDouble(n: nat)
    requires SlotCount(n)
    ensures SlotCount(if n == 0 then 8 else 2 * n)
  {
    if n == 0 {
      assert 8 == 8 * Pow2(0);
    } else {
      var k: nat :| n == 8 * Pow2(k);
      assert 2 * n == 8 * Pow2(k + 1);
    }
  }

  /** The contents cut or zero-filled to a length. */
  function Resized<T>(s: seq<T>, n: nat, zero: T): (r: seq<T>)
    ensures |r| == n && forall k :: 0 <= k < n ==> r[k] == if k < |s| then s[k] else zero
  {
    if n <= |s| then s[..n] else s + Repeat(zero, n - |s|)
  }

  /** Elements put in at `j`, behind zeros if that is past the end. */
  function Inserted<T>(s: seq<T>, j: nat, w: seq<T>, zero: T): (r: seq<T>)
    ensures |r| == (if j <= |s| then |s| else j) + |w|
    ensures forall k :: 0 <= k < |w| ==> r[j + k] == w[k]
    ensures forall k :: 0 <= k < j ==> r[k] == if k < |s| then s[k] else zero
    ensures forall k :: j <= k < |s| ==> r[k + |w|] == s[k]
  {
    if j <= |s| then s[..j] + w + s[j..] else Resized(s, j, zero) + w
  }

  class UtArray<T> {
    const zero: T
    var i: nat
    var n: nat
    var d: array<T>
    /** Elements moved by regrowth so far. */
    ghost var copies: nat

    ghost predicate Valid()
      reads this
    {
      i <= n && n == d.Length && SlotCount(n) && (if n == 0 then copies == 0 else copies + 8 <= n)
    }

    ghost function Contents(): (s: seq<T>)
      requires Valid()
      reads this, d
    {
      d[..i]
    }

    /** No more slots than twice the elements, as long as the array only grows by single pushes. */
    ghost predicate Tight()
      reads this
    {
      n <= 8 || n < 2 * i
    }

    constructor (zero: T)
      ensures Valid() && fresh(d) && Contents() == [] && this.zero == zero && copies == 0 && Tight()
    {
      this.zero := zero;
      i, n, copies := 0, 0, 0;
      d := new T[0];
    }

    /** utarray_reserve: doubles until there is room, then moves everything at once. */
    method Reserve(extra: nat)
      requires Valid()
      modifies this`n, this`d, this`copies
      ensures Valid() && i + extra <= n && (d == old(d) || fresh(d))
      ensures Contents() == old(Contents())
      ensures extra == 1 && old(Tight()) ==> n <= 8 || n < 2 * (i + 1)
      ensures i + extra <= old(n) ==> n == old(n) && d == old(d) && copies == old(copies)
      ensures i + extra > old(n) ==> fresh(d) && copies == old(copies) + old(n) && (n == 8 || n / 2 < i + extra)
    {
      if i + extra > n {
        var before := n;
        while i + extra > n
          invariant SlotCount(n) && (n == before || n > before) && (n > before ==> n >= 8 && n >= 2 * before)
          invariant extra == 1 && n > before ==> n == if before == 0 then 8 else 2 * before
          invariant n > before ==> n == 8 || n / 2 < i + extra
          invariant d == old(d) && copies == old(copies) && d.Length == before
          decreases i + extra - n
        {
          SlotsDouble(n);
          n := if n > 0 then 2 * n else 8;
        }
        var bigger := new T[n](_ => zero);
        forall k | 0 <= k < before { bigger[k] := d[k]; }
        copies := copies + before;
        d := bigger;
      }
    }

    method PushBack(x: T)
      requires Valid()
      modifies this, d
      ensures Valid() && (d == old(d) || fresh(d)) && Contents() == old(Contents()) + [x]
      ensures old(Tight()) ==> Tight()
      ensures copies == old(copies) + if old(i) < old(n) then 0 else old(n)
    {
      Reserve(1);
      d[i] := x;
      i := i + 1;
    }

    method Resize(num: nat)
      requires Valid()
      modifies this, d
      ensures Valid() && (d == old(d) || fresh(d))
      ensures Contents() == Resized(old(Contents()), num, zero)
    {
      hide SlotCount;
      ghost var before := Contents();
      if i < num {
        Reserve(num - i);
        forall k | i <= k < num { d[k] := zero; }
        assert d[..i] == before && d[i..num] == Repeat(zero, num - i);
        assert d[..num] == d[..i] + d[i..num];
      } else {
        assert d[..num] == before[..num];
      }
      i := num;
    }

    /** Moves the elements from `j` on up by `gap` slots. */
    method MoveUp(j: nat, gap: nat)
      requires Valid() && j <= i && i + gap <= n
      modifies d
      ensures forall k :: 0 <= k < j ==> d[k] == old(d[k])
      ensures forall k :: j + gap <= k < i + gap ==> d[k] == old(d[k - gap])
    {
      forall k | j <= k < i { d[k + gap] := d[k]; }
    }

    method Place(w: seq<T>, j: nat)
      requires Valid() && j + |w| <= n
      modifies d
      ensures forall k :: 0 <= k < |w| ==> d[j + k] == w[k]
      ensures forall k :: 0 <= k < n && (k < j || j + |w| <= k) ==> d[k] == old(d[k])
    {
      forall k | 0 <= k < |w| { d[j + k] := w[k]; }
    }

    /** With room there, the tail moves up and the new elements go in. */
    method OpenUp(w: seq<T>, j: nat)
      requires Valid() && j <= i && i + |w| <= n
      modifies d
      ensures d[..i + |w|] == old(d[..j]) + w + old(d[j..i])
    {
      hide SlotCount;
      if j < i { MoveUp(j, |w|); }
      Place(w, j);
    }

    method InsertWithin(w: seq<T>, j: nat)
      requires Valid() && j <= i
      modifies this, d
      ensures Valid() && (d == old(d) || fresh(d))
      ensures Contents() == old(Contents()[..j]) + w + old(Contents()[j..])
    {
      hide SlotCount;
      Reserve(|w|);
      assert d[..j] == Contents()[..j] && d[j..i] == Contents()[j..];
      OpenUp(w, j);
      i := i + |w|;
    }

    /** utarray_insert and utarray_inserta: past the end, zeros come first. */
    method InsertAll(w: seq<T>, j: nat)
      requires Valid()
      modifies this, d
      ensures Valid() && (d == old(d) || fresh(d))
      ensures Contents() == Inserted(old(Contents()), j, w, zero)
    {
      hide SlotCount;
      if j > i {
        Resize(j);
        ghost var padded := Contents();
        assert padded[..j] == padded && padded[j..] == [];
        InsertWithin(w, j);
        Unit(padded + w);
      } else {
        InsertWithin(w, j);
      }
    }

    /** utarray_inserta from another array, which keeps its contents. */
    method InsertArray(w: UtArray<T>, j: nat)
      requires Valid() && w.Valid() && w != this && w.d != d
      modifies this, d
      ensures Valid() && (d == old(d) || fresh(d)) && w.Valid() && w.Contents() == old(w.Contents())
      ensures Contents() == if old(w.Contents()) == [] then old(Contents())
              else Inserted(old(Contents()), j, old(w.Contents()), zero)
    {
      if w.i == 0 { return; }
      InsertAll(w.d[..w.i], j);
    }

    /** Moves the elements behind `pos + len` down over the gap. */
    method MoveDown(pos: nat, len: nat)
      requires Valid() && pos + len <= i
      modifies d
      ensures forall k :: 0 <= k < pos ==> d[k] == old(d[k])
      ensures forall k :: pos <= k < i - len ==> d[k] == old(d[k + len])
    {
      forall k | pos <= k < i - len { d[k] := d[k + len]; }
    }

    method Erase(pos: nat, len: nat)
      requires Valid() && pos + len <= i
      modifies this`i, d
      ensures Valid() && Contents() == old(Contents()[..pos] + Contents()[pos + len..])
    {
      hide SlotCount;
      ghost var before := d[..i];
      if i > pos + len { MoveDown(pos, len); }
      i := i - len;
      Erased(before, d[..i], pos, len);
    }
  }

  lemma Erased<T>(before: seq<T>, after: seq<T>, pos: nat, len: nat)
    requires pos + len <= |before| && |after| == |before| - len
    requires forall k :: 0 <= k < pos ==> after[k] == before[k]
    requires forall k :: pos <= k < |after| ==> after[k] == before[k + len]
    ensures after == before[..pos] + before[pos + len..]
  {
  }

  /** A run of pushes from empty: the elements in order, and fewer moves by regrowth than twice
      their number. */
  method PushEach<T>(zero: T, xs: seq<T>) returns (a: UtArray<T>)
    ensures fresh(a) && a.Valid() && a.Contents() == xs
    ensures xs != [] ==> a.copies < 2 * |xs|
  {
    a := new UtArray(zero);
    var k := 0;
    while k < |xs|
      invariant 0 <= k <= |xs| && fresh(a) && fresh(a.d) && a.Valid() && a.Tight() && a.Contents() == xs[..k]
    {
      a.PushBack(xs[k]);
      k := k + 1;
    }
  }
}
