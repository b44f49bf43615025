/** Bytes, bit-wise exclusive or and network byte order, over unbounded integers.

    Every mask and shift in the C sources acts on unsigned values, so `x & 0x0f` is `x % 16`,
    `x >> 4` is `x / 16`, and a disjunction of disjoint bit fields is a sum. */
module Bytes {

  type byte = b: int | 0 <= b < 256

  const TWO_16 := 0x1_0000
  const TWO_31 := 0x8000_0000
  const TWO_32 := 0x1_0000_0000
  const TWO_63 := 0x8000_0000_0000_0000
  const TWO_64 := 0x1_0000_0000_0000_0000

  datatype Option<+T> = None | Some(value: T)

  /** Exclusive or of the `n` low bits of two numbers. */
  function XorBits(a: nat, b: nat, n: nat): (r: nat)
    decreases n
  {
    if n == 0 then 0 else (a + b) % 2 + 2 * XorBits(a / 2, b / 2, n - 1)
  }

  function Pow2(n: nat): (r: nat)
    ensures r > 0
  {
    if n == 0 then 1 else 2 * Pow2(n - 1)
  }

  lemma {:induction false} XorBitsBelow(a: nat, b: nat, n: nat)
    ensures XorBits(a, b, n) < Pow2(n)
  {
    if n > 0 { XorBitsBelow(a / 2, b / 2, n - 1); }
  }

  lemma {:induction false} XorBitsTwice(a: nat, b: nat, n: nat)
    requires a < Pow2(n)
    ensures XorBits(XorBits(a, b, n), b, n) == a
  {
    if n > 0 {
      var y := XorBits(a / 2, b / 2, n - 1);
      XorBitsTwice(a / 2, b / 2, n - 1);
      ParityStep(a, b, y);
    }
  }

  /** Bit `i` of a number. */
  function Bit(a: nat, i: nat): (b: nat) { if i == 0 then a % 2 else Bit(a / 2, i - 1) }

  /** Each bit of the result is one exactly if those of the operands differ. */
  lemma {:induction false} XorBitwise(a: nat, b: nat, n: nat, i: nat)
    requires i < n
    ensures Bit(XorBits(a, b, n), i) == 1 <==> Bit(a, i) != Bit(b, i)
    decreases n
  {
    var y := XorBits(a / 2, b / 2, n - 1);
    assert XorBits(a, b, n) == (a + b) % 2 + 2 * y;
    hide XorBits;
    SumParity(a, b, y);
    if i > 0 {
      XorBitwise(a / 2, b / 2, n - 1, i - 1);
    }
  }

  lemma SumParity(a: nat, b: nat, y: nat)
    ensures var x := (a + b) % 2 + 2 * y; x / 2 == y && (x % 2 == 1 <==> a % 2 != b % 2)
  {
    var i, j := a / 2, b / 2;
    assert a == 2 * i || a == 2 * i + 1;
    assert b == 2 * j || b == 2 * j + 1;
  }

  lemma XorIsBitwise(a: byte, b: byte, i: nat)
    requires i < 8
    ensures Bit(Xor(a, b), i) == 1 <==> Bit(a, i) != Bit(b, i)
  {
    XorBitwise(a, b, 8, i);
  }

  lemma ParityStep(a: nat, b: nat, y: nat)
    ensures ((a + b) % 2 + 2 * y) / 2 == y
    ensures ((a + b) % 2 + 2 * y + b) % 2 == a % 2
  {
    var i, j := a / 2, b / 2;
    assert a == 2 * i || a == 2 * i + 1;
    assert b == 2 * j || b == 2 * j + 1;
  }

  lemma Pow2Of8()
    ensures Pow2(8) == 256
  {
    assert Pow2(4) == 16;
  }

  /** The C operator `^` on two bytes. */
  function Xor(a: byte, b: byte): (r: byte) {
    XorBitsBelow(a, b, 8);
    Pow2Of8();
    XorBits(a, b, 8)
  }

  /** Masking with the same byte twice gives the byte back. */
  lemma XorTwice(a: byte, b: byte)
    ensures Xor(Xor(a, b), b) == a
  {
    Pow2Of8();
    XorBitsTwice(a, b, 8);
  }

  /** Value of a byte string in network (big-endian) order. */
  function FromBigEndian(s: seq<byte>): (n: nat) {
    if s == [] then 0 else 256 * FromBigEndian(s[..|s| - 1]) + s[|s| - 1]
  }

  /** The `width` low bytes of `n` in network order. */
  function BigEndian(n: nat, width: nat): (s: seq<byte>)
    ensures |s| == width
    decreases width
  {
    if width == 0 then [] else BigEndian(n / 256, width - 1) + [n % 256]
  }

  lemma TwoBytes(x: nat)
    requires x < TWO_16
    ensures BigEndian(x, 2) == [x / 256, x % 256]
  {
    var high := x / 256;
    assert high < 256 && high % 256 == high;
    assert BigEndian(high, 1) == BigEndian(high / 256, 0) + [high % 256];
    assert BigEndian(x, 2) == BigEndian(high, 1) + [x % 256];
  }

  function Pow256(n: nat): (r: nat)
    ensures r > 0
  {
    if n == 0 then 1 else 256 * Pow256(n - 1)
  }

  lemma {:induction false} FromBigEndianBelow(s: seq<byte>)
    ensures FromBigEndian(s) < Pow256(|s|)
  {
    if s != [] { FromBigEndianBelow(s[..|s| - 1]); }
  }

  lemma {:induction false} BigEndianRoundTrip(n: nat, width: nat)
    requires n < Pow256(width)
    ensures FromBigEndian(BigEndian(n, width)) == n
  {
    if width > 0 {
      BigEndianRoundTrip(n / 256, width - 1);
      assert BigEndian(n, width)[..width - 1] == BigEndian(n / 256, width - 1);
    }
  }

  lemma Pow256Values()
    ensures Pow256(1) == 256 && Pow256(2) == TWO_16 && Pow256(4) == TWO_32 && Pow256(8) == TWO_64
  {
    assert Pow256(2) == TWO_16;
    assert Pow256(4) == TWO_32;
    assert Pow256(6) == 0x1_0000_0000_0000;
  }

  lemma MulCancel(x: nat, y: nat, z: nat)
    requires z > 0
    ensures x * z <= y * z ==> x <= y
    ensures x * z < y * z ==> x < y
  {
    if x <= y {
      assert (y - x) * z >= 0;
    } else {
      assert x * z == y * z + (x - y) * z;
    }
  }

  lemma Unit<T>(x: seq<T>)
    ensures x + [] == x && [] + x == x
  {
  }

  lemma Regroup<T>(a: seq<T>, b: seq<T>, c: seq<T>)
    ensures a + b + c == a + (b + c)
  {
  }

  lemma Regroup4<T>(a: seq<T>, b: seq<T>, c: seq<T>, d: seq<T>)
    ensures a + b + c + d == a + (b + (c + d)) == a + (b + c + d) == a + (b + c) + d == a + b + (c + d)
  {
  }

  function Repeat<T>(x: T, n: nat): (s: seq<T>)
    ensures |s| == n && forall i :: 0 <= i < n ==> s[i] == x
  {
    seq(n, _ => x)
  }

  lemma SubSlice<T>(s: seq<T>, p: nat, n: nat, i: nat, j: nat)
    requires p + n <= |s| && i <= j <= n
    ensures s[p..p + n][i..j] == s[p + i..p + j]
  {
    var x, y := s[p..p + n][i..j], s[p + i..p + j];
    forall k | 0 <= k < |x| ensures x[k] == y[k] {
    }
  }

  /** Consecutive parts of a string, found again inside a longer one. */
  lemma Part<T>(s: seq<T>, p: nat, a: seq<T>, b: seq<T>)
    requires p + |a| + |b| <= |s| && s[p..p + |a| + |b|] == a + b
    ensures s[p..p + |a|] == a && s[p + |a|..p + |a| + |b|] == b
  {
    SubSlice(s, p, |a| + |b|, 0, |a|);
    SubSlice(s, p, |a| + |b|, |a|, |a| + |b|);
    assert (a + b)[0..|a|] == a && (a + b)[|a|..|a| + |b|] == b;
  }

  lemma Parts<T>(s: seq<T>, p: nat, a: seq<T>, b: seq<T>, c: seq<T>)
    requires p + |a| + |b| + |c| <= |s| && s[p..p + |a| + |b| + |c|] == a + b + c
    ensures s[p..p + |a|] == a && s[p + |a|..p + |a| + |b|] == b
    ensures s[p + |a| + |b|..p + |a| + |b| + |c|] == c
  {
    var n := |a| + |b| + |c|;
    SubSlice(s, p, n, 0, |a|);
    SubSlice(s, p, n, |a|, |a| + |b|);
    SubSlice(s, p, n, |a| + |b|, n);
    assert (a + b + c)[0..|a|] == a && (a + b + c)[|a|..|a| + |b|] == b && (a + b + c)[|a| + |b|..n] == c;
  }

  ghost predicate Distinct<T>(s: seq<T>) { forall i, j :: 0 <= i < j < |s| ==> s[i] != s[j] }

  /** The list with `x` put in at `k`. */
  function With<T>(s: seq<T>, k: nat, x: T): (r: seq<T>)
    requires k <= |s|
  {
    s[..k] + [x] + s[k..]
  }

  lemma WithAt<T>(s: seq<T>, k: nat, x: T, i: nat)
    requires k <= |s|
    ensures |With(s, k, x)| == |s| + 1
    ensures i <= |s| ==> With(s, k, x)[i] == if i < k then s[i] else if i == k then x else s[i - 1]
  {
  }

  /** Concatenation of a list of byte strings, in order. */
  function Flatten<T>(pieces: seq<seq<T>>): (s: seq<T>) {
    if pieces == [] then [] else pieces[0] + Flatten(pieces[1..])
  }

  lemma {:induction false} FlattenAppend<T>(a: seq<seq<T>>, b: seq<seq<T>>)
    ensures Flatten(a + b) == Flatten(a) + Flatten(b)
  {
    if a == [] {
      assert a + b == b;
    } else {
      assert (a + b)[1..] == a[1..] + b;
      FlattenAppend(a[1..], b);
    }
  }

  lemma FlattenSnoc<T>(a: seq<seq<T>>, x: seq<T>)
    ensures Flatten(a + [x]) == Flatten(a) + x
  {
    FlattenAppend(a, [x]);
    assert Flatten([x]) == x + Flatten<T>([]);
  }
}
