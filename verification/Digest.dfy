/** Streaming digests: SHA-1 (RFC 3174) and MD5 (RFC 1321) as state machines around their block
    transforms, which are parameters here. */
module Digest {
  import opened Bytes

  const BLOCK := 64

  /** The block transform applied to one block after another. */
  ghost function Fold<S>(transform: (S, seq<byte>) -> S, s: S, bytes: seq<byte>): (r: S)
    decreases |bytes|
  {
    if |bytes| < BLOCK then s else Fold(transform, transform(s, bytes[..BLOCK]), bytes[BLOCK..])
  }

  lemma {:induction false} FoldBlock<S>(transform: (S, seq<byte>) -> S, s: S, bytes: seq<byte>, block: seq<byte>)
    requires |bytes| % BLOCK == 0 && |block| == BLOCK
    ensures Fold(transform, s, bytes + block) == transform(Fold(transform, s, bytes), block)
    decreases |bytes|
  {
    var all := bytes + block;
    if |bytes| < BLOCK {
      assert bytes == [];
      assert all[..BLOCK] == block && all[BLOCK..] == [];
    } else {
      assert all[..BLOCK] == bytes[..BLOCK] && all[BLOCK..] == bytes[BLOCK..] + block;
      FoldBlock(transform, transform(s, bytes[..BLOCK]), bytes[BLOCK..], block);
    }
  }

  /** Bytes beyond the last whole block do not matter. */
  lemma {:induction false} FoldRest<S>(transform: (S, seq<byte>) -> S, s: S, bytes: seq<byte>, rest: seq<byte>)
    requires |bytes| % BLOCK == 0 && |rest| < BLOCK
    ensures Fold(transform, s, bytes + rest) == Fold(transform, s, bytes)
    decreases |bytes|
  {
    if |bytes| >= BLOCK {
      var all := bytes + rest;
      assert all[..BLOCK] == bytes[..BLOCK] && all[BLOCK..] == bytes[BLOCK..] + rest;
      FoldRest(transform, transform(s, bytes[..BLOCK]), bytes[BLOCK..], rest);
    } else {
      assert bytes == [];
    }
  }

  /** The bytes of `m` that do not fill a block yet. */
  function Tail(m: seq<byte>): (r: seq<byte>) { m[|m| - |m| % BLOCK..] }

  /** The length in bits, in the 64 bits both standards give it. */
  function BitCount(m: seq<byte>): (n: nat)
    ensures n < TWO_64
  {
    8 * |m| % TWO_64
  }

  function Zeros(n: nat): (r: seq<byte>)
    ensures |r| == n
  {
    Repeat(0, n)
  }

  lemma ZerosAppend(a: nat, b: nat)
    ensures Zeros(a) + Zeros(b) == Zeros(a + b) && Zeros(a) + [0] == Zeros(a + 1)
  {
  }

  /** Padding: one bit, zeros up to eight bytes short of a block, the length. */
  function Padded(m: seq<byte>, length: seq<byte>): (r: seq<byte>) {
    m + [0x80] + Zeros((119 - |m| % BLOCK) % BLOCK) + length
  }

  lemma PadLength(p: nat)
    requires p < BLOCK
    ensures (119 - p) % BLOCK == if p < 56 then 55 - p else 119 - p
  {
  }

  function LittleEndian(n: nat, width: nat): (s: seq<byte>)
    ensures |s| == width
    decreases width
  {
    if width == 0 then [] else [n % 256] + LittleEndian(n / 256, width - 1)
  }

  // ---------------------------------------------------------------- the bit counter

  /** Two 32-bit words holding a count. */
  predicate Counts(low: nat, high: nat, n: nat) { low < TWO_32 && high < TWO_32 && low + TWO_32 * high == n }

  /** `low += len << 3` with carry, `high += len >> 29`. */
  function AddLow(low: nat, len: nat): (r: nat) { (low + 8 * len % TWO_32) % TWO_32 }

  function AddHigh(low: nat, high: nat, len: nat): (r: nat) {
    (high + (if AddLow(low, len) < low then 1 else 0) + len / 0x2000_0000) % TWO_32
  }

  lemma Counting(low: nat, high: nat, m: seq<byte>, data: seq<byte>)
    requires Counts(low, high, BitCount(m)) && |data| < TWO_32
    ensures Counts(AddLow(low, |data|), AddHigh(low, high, |data|), BitCount(m + data))
  {
    CountingArithmetic(low, high, |m|, |data|);
  }

  lemma CountingArithmetic(low: nat, high: nat, n: nat, len: nat)
    requires low < TWO_32 && high < TWO_32 && low + TWO_32 * high == 8 * n % TWO_64 && len < TWO_32
    ensures AddLow(low, len) + TWO_32 * AddHigh(low, high, len) == 8 * (n + len) % TWO_64
  {
    var a, b := 8 * len % TWO_32, len / 0x2000_0000;
    assert 8 * len == a + TWO_32 * b;
    var carry := if low + a >= TWO_32 then 1 else 0;
    assert AddLow(low, len) == low + a - TWO_32 * carry;
    var h := high + carry + b;
    var wrap := if h >= TWO_32 then 1 else 0;
    assert AddHigh(low, high, len) == h - TWO_32 * wrap;
    var q := 8 * n / TWO_64;
    assert 8 * n == TWO_64 * q + low + TWO_32 * high;
    var r := AddLow(low, len) + TWO_32 * AddHigh(low, high, len);
    assert 8 * (n + len) == TWO_64 * (q + wrap) + r;
    assert 0 <= r < TWO_64;
    ModUnique(8 * (n + len), q + wrap, r);
  }

  lemma ModUnique(x: nat, q: nat, r: nat)
    requires x == TWO_64 * q + r && r < TWO_64
    ensures x % TWO_64 == r
  {
  }

  /** The position inside the current block, read off the low word. */
  lemma BlockPosition(low: nat, high: nat, m: seq<byte>)
    requires Counts(low, high, BitCount(m))
    ensures low / 8 % 64 == |m| % BLOCK
  {
    PositionOf(low, high, |m|);
  }

  lemma PositionOf(low: nat, high: nat, n: nat)
    requires Counts(low, high, 8 * n % TWO_64)
    ensures low / 8 % 64 == n % BLOCK
  {
    var q := 8 * n / TWO_64;
    assert 8 * n == TWO_64 * q + low + TWO_32 * high;
    var k := 0x80_0000_0000_0000 * q + 0x80_0000 * high;
    var t := n - 64 * k;
    assert low == 8 * t;
    ModBlock(t, k);
  }

  /** Lengths that agree in 32 bits agree in their position inside a block. */
  lemma SamePosition(a: nat, b: nat)
    requires a % TWO_32 == b % TWO_32
    ensures a % BLOCK == b % BLOCK
  {
    var p, q, r := a / TWO_32, b / TWO_32, a % TWO_32;
    assert a == r + 64 * (0x400_0000 * p) && b == r + 64 * (0x400_0000 * q);
    ModBlock(r, 0x400_0000 * p);
    ModBlock(r, 0x400_0000 * q);
  }

  lemma NarrowedSum(a: nat, b: nat, len: nat)
    requires a % TWO_32 == b % TWO_32
    ensures (a + len % TWO_32) % TWO_32 == (b + len) % TWO_32
  {
    var p, q, k := a / TWO_32, b / TWO_32, len / TWO_32;
    var x := a % TWO_32 + len % TWO_32;
    assert a + len % TWO_32 == x + TWO_32 * p && b + len == x + TWO_32 * (q + k);
    Wrapped(x, p);
    Wrapped(x, q + k);
  }

  lemma {:induction false} Wrapped(x: nat, k: nat)
    ensures (x + TWO_32 * k) % TWO_32 == x % TWO_32
  {
    if k > 0 {
      Wrapped(x, k - 1);
      assert x + TWO_32 * k == x + TWO_32 * (k - 1) + TWO_32;
    }
  }

  lemma ModBlock(t: nat, k: nat)
    ensures (t + 64 * k) % 64 == t % 64
  {
  }

  /** SHA-1 adds the position and the length of a piece in 32 bits: where that wraps, the sum looks
      like one that fits the block, and more than a block would be copied behind the position. */
  lemma WrapLooksShort(j: nat, len: nat)
    requires j < BLOCK && len < TWO_32
    ensures (j + len) % TWO_32 < j + len <==> j + len >= TWO_32
    ensures j + len >= TWO_32 ==> (j + len) % TWO_32 <= 63 && len > BLOCK - j
  {
  }

  /** Below that, no step of the loop over whole blocks wraps. */
  lemma NoStepWraps(n: nat, i: nat, len: nat)
    requires (n + i) % BLOCK == 0 && i <= len && n % BLOCK + len < TWO_32
    ensures i + 63 < TWO_32
  {
    var k := n / BLOCK;
    assert n == n % BLOCK + 64 * k;
    ModBlock(n % BLOCK + i, k);
    var x := n % BLOCK + i;
    assert x % 64 == 0 && x < TWO_32;
    assert x == 64 * (x / 64);
  }
}
