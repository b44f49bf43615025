/** Bucket loads of the hash table: the arithmetic behind adaptive expansion.

    A bucket is seen here only as its item count and its expand_mult.  The facts below bound every
    chain by (expand_mult + 1) * 10 and the whole table by twenty items per bucket, for as long as
    expansion has not been switched off. */
module HashLoad {
  import opened Bytes

  /** HASH_BKT_CAPACITY_THRESH */
  const THRESHOLD := 10

  function Sum(s: seq<nat>): (n: nat) {
    if s == [] then 0 else s[0] + Sum(s[1..])
  }

  lemma {:induction false} SumUpdate(s: seq<nat>, i: nat, v: nat)
    requires i < |s|
    ensures Sum(s[i := v]) == Sum(s) - s[i] + v
  {
    if i > 0 {
      assert s[i := v][1..] == s[1..][i - 1 := v];
      SumUpdate(s[1..], i - 1, v);
    }
  }

  lemma {:induction false} SumOfZeros(n: nat)
    ensures Sum(seq(n, _ => 0)) == 0
  {
    if n > 0 {
      assert seq(n, _ => 0)[1..] == seq(n - 1, _ => 0);
      SumOfZeros(n - 1);
    }
  }

  /** The last count to touch an over-full bucket sets its multiplier. */
  function Mult(count: nat, ideal: nat): (m: nat)
    requires ideal > 0
  {
    if count > ideal then count / ideal else 0
  }

  function Over(count: nat, ideal: nat): (n: nat) { if count > ideal then count - ideal else 0 }

  function Overs(counts: seq<nat>, ideal: nat): (s: seq<nat>) {
    seq(|counts|, i requires 0 <= i < |counts| => Over(counts[i], ideal))
  }

  function Mults(counts: seq<nat>, ideal: nat): (s: seq<nat>)
    requires ideal > 0
  {
    seq(|counts|, i requires 0 <= i < |counts| => Mult(counts[i], ideal))
  }

  /** ceil(n / b), as the code computes it for a power of two `b`. */
  function Ideal(n: nat, b: nat): (r: nat)
    requires b > 0
    ensures n <= r * b
    ensures n > 0 ==> r > 0
    ensures forall k: nat :: n <= k * b ==> r <= k
  {
    var r := n / b + (if n % b != 0 then 1 else 0);
    forall k: nat | n <= k * b ensures r <= k { CeilLeast(n, b, k); }
    assert n == n / b * b + n % b;
    r
  }

  lemma CeilLeast(n: nat, b: nat, k: nat)
    requires b > 0 && n <= k * b
    ensures n / b + (if n % b != 0 then 1 else 0) <= k
  {
    assert n == n / b * b + n % b;
    MulCancel(n / b, k, b);
  }

  /** A chain may be longer than its bound only right after an expansion, and then only as long as
      the ideal, which never exceeds the threshold. */
  predicate Bounded(count: nat, mult: nat) {
    count < (mult + 1) * THRESHOLD || (mult == 0 && count == THRESHOLD)
  }

  predicate AllBounded(counts: seq<nat>, mults: seq<nat>) {
    |counts| == |mults| && forall i :: 0 <= i < |counts| ==> Bounded(counts[i], mults[i])
  }

  lemma MulMono(z: nat, x: nat, y: nat)
    requires x <= y
    ensures z * x <= z * y
  {
    assert z * y == z * x + z * (y - x);
  }

  lemma MultTimes(count: nat, ideal: nat)
    requires ideal > 0
    ensures Mult(count, ideal) * ideal <= count
    ensures count <= ideal || count < (Mult(count, ideal) + 1) * ideal
  {
    assert count == count / ideal * ideal + count % ideal;
    Distribute(count / ideal, 1, ideal);
  }

  lemma Distribute(x: nat, y: nat, z: nat)
    ensures (x + y) * z == x * z + y * z
  {
  }

  lemma {:induction false} SumMults(counts: seq<nat>, ideal: nat)
    requires ideal > 0
    ensures Sum(Mults(counts, ideal)) * ideal <= Sum(counts)
  {
    if counts != [] {
      SumMults(counts[1..], ideal);
      assert Mults(counts, ideal)[1..] == Mults(counts[1..], ideal);
      MultTimes(counts[0], ideal);
      Distribute(Mult(counts[0], ideal), Sum(Mults(counts[1..], ideal)), ideal);
    }
  }

  /** Multipliers set by an expansion into `b` buckets add up to at most `b`. */
  lemma MultsAtMostBuckets(counts: seq<nat>, b: nat)
    requires b > 0 && Sum(counts) > 0
    ensures Sum(Mults(counts, Ideal(Sum(counts), b))) <= b
  {
    var n := Sum(counts);
    var ideal := Ideal(n, b);
    var m := Sum(Mults(counts, ideal));
    SumMults(counts, ideal);
    assert ideal * b == b * ideal;
    MulCancel(m, b, ideal);
  }

  /** Counts are within ten per unit of multiplier, and strictly below wherever a multiplier is not
      zero. */
  lemma {:induction false} SumBounded(counts: seq<nat>, mults: seq<nat>)
    requires AllBounded(counts, mults)
    ensures Sum(counts) <= THRESHOLD * (Sum(mults) + |mults|)
    ensures Sum(mults) > 0 ==> Sum(counts) < THRESHOLD * (Sum(mults) + |mults|)
  {
    if counts != [] {
      assert Bounded(counts[0], mults[0]);
      assert AllBounded(counts[1..], mults[1..]) by {
        forall i | 0 <= i < |counts[1..]| ensures Bounded(counts[1..][i], mults[1..][i]) {
          assert Bounded(counts[i + 1], mults[i + 1]);
        }
      }
      SumBounded(counts[1..], mults[1..]);
    }
  }

  /** Twenty items per bucket at most, and one more item still leaves the next ideal within ten. */
  lemma LoadFactor(counts: seq<nat>, mults: seq<nat>)
    requires AllBounded(counts, mults) && Sum(mults) <= |mults| && |mults| > 0
    ensures Sum(counts) < 2 * THRESHOLD * |mults|
    ensures Ideal(Sum(counts) + 1, 2 * |mults|) <= THRESHOLD
  {
    SumBounded(counts, mults);
    assert Sum(counts) + 1 <= THRESHOLD * (2 * |mults|);
  }

  /** Right after an expansion every chain is within its bound. */
  lemma ExpandedIsBounded(counts: seq<nat>, ideal: nat)
    requires 0 < ideal <= THRESHOLD
    ensures AllBounded(counts, Mults(counts, ideal))
  {
    forall i | 0 <= i < |counts| ensures Bounded(counts[i], Mults(counts, ideal)[i]) {
      var m := Mult(counts[i], ideal);
      MultTimes(counts[i], ideal);
      assert (m + 1) * ideal <= (m + 1) * THRESHOLD by { MulMono(m + 1, ideal, THRESHOLD); }
    }
  }
}
