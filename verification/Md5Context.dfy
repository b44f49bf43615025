/** The MD5 context: input always passes through the block buffer, and padding is written into it in
    place. */
module Md5Context {
  import opened Bytes
  import opened Mbuf
  import opened Digest
  import opened DigestContext

  class Md5 {
    const transform: (State4, seq<byte>) -> State4
    const initial: State4
    var state: State4
    var bits0: nat
    var bits1: nat
    const block: array<byte>
    ghost var msg: seq<byte>
    ghost var counted: nat

    /** The bits counted are those of `counted` bytes, which agrees with the message in 32 bits. */
    ghost predicate Valid()
      reads this, block
    {
      && block.Length == BLOCK && Counts(bits0, bits1, 8 * counted % TWO_64)
      && counted % TWO_32 == |msg| % TWO_32
      && state == Fold(transform, initial, msg) && block[..|msg| % BLOCK] == Tail(msg)
    }

    /** cs_md5_init, for a given starting state. */
    constructor (transform: (State4, seq<byte>) -> State4, initial: State4)
      ensures Valid() && msg == [] && counted == 0 && fresh(block)
      ensures this.transform == transform && this.initial == initial
    {
      this.transform, this.initial := transform, initial;
      state, bits0, bits1, msg, counted := initial, 0, 0, [], 0;
      block := new byte[BLOCK](_ => 0);
    }

    /** cs_md5_update, for pieces of any length, which is narrowed to 32 bits for counting. */
    method Update(data: seq<byte>)
      requires Valid()
      modifies this`state, this`bits0, this`bits1, this`msg, this`counted, block
      ensures Valid() && msg == old(msg) + data && counted == old(counted) + |data| % TWO_32
    {
      hide Fold, Counts, AddLow, AddHigh, Tail;
      ghost var m := msg;
      var len := |data| % TWO_32;
      Counted(bits0, bits1, counted, len);
      PositionOf(bits0, bits1, counted);
      SamePosition(counted, |m|);
      NarrowedSum(counted, |m|, |data|);
      var t := bits0;
      bits0, bits1 := AddLow(t, len), AddHigh(t, bits1, len);
      counted := counted + len;
      t := t / 8 % 64;
      var i := 0;
      if t > 0 {
        var room := 64 - t;
        if |data| < room {
          TailShort(m, data);
          FoldShort(transform, initial, m, data);
          ghost var kept := block[..t];
          MemCopy(block, t, data);
          msg := m + data;
          assert block[..t + |data|] == kept + data;
          return;
        }
        MemCopy(block, t, data[..room]);
        assert block[..] == Tail(m) + data[..room];
        FoldFill(transform, initial, m, data[..room]);
        state := transform(state, block[..]);
        i := room;
      } else {
        assert m + data[..0] == m;
      }
      i := RunBlocks(data, i);
      FoldEnd(transform, initial, m, data, i);
      MemCopy(block, 0, data[i..]);
      msg := m + data;
      assert block[..|data| - i] == data[i..];
    }

    /** Whole blocks, each copied into the buffer first. */
    method RunBlocks(data: seq<byte>, start: nat) returns (i: nat)
      requires start <= |data| && |msg + data[..start]| % BLOCK == 0 && block.Length == BLOCK
      requires state == Fold(transform, initial, msg + data[..start])
      modifies this`state, block
      ensures start <= i <= |data| < i + BLOCK && |msg + data[..i]| % BLOCK == 0
      ensures state == Fold(transform, initial, msg + data[..i])
    {
      hide Fold;
      i := start;
      while |data| - i >= 64
        invariant start <= i <= |data| && |msg + data[..i]| % BLOCK == 0
        invariant state == Fold(transform, initial, msg + data[..i])
      {
        FoldNext(transform, initial, msg, data, i);
        MemCopy(block, 0, data[i..i + 64]);
        assert block[..] == data[i..i + 64];
        state := transform(state, block[..]);
        i := i + 64;
      }
    }

    /** cs_md5_final: padding in place, in one block or, when fewer than eight bytes are left, two; the
        state words come out least significant byte first. */
    method Final() returns (digest: seq<byte>)
      requires Valid()
      modifies this`state, block
      ensures var length := LittleEndian(8 * counted % TWO_64, 8);
              IsLittleDigest(digest, Fold(transform, initial, Padded(msg, length)))
    {
      hide Fold, Tail, LittleEndian, Counts, Zeros, Padded, IsLittleDigest, LittleWords;
      PositionOf(bits0, bits1, counted);
      SamePosition(counted, |msg|);
      var count := bits0 / 8 % 64;
      ghost var length := LittleEndian(8 * counted % TWO_64, 8);
      block[count] := 0x80;
      assert block[..count] == Tail(msg);
      var left := 63 - count;
      if left < 8 {
        TwoBlocks(transform, initial, msg, length);
        Zero(count + 1, left);
        assert block[..] == Tail(msg) + [0x80] + Zeros(left);
        state := transform(state, block[..]);
        Zero(0, 56);
        assert block[..56] == Zeros(56);
      } else {
        OneBlock(transform, initial, msg, length);
        Zero(count + 1, left - 8);
        assert block[..56] == Tail(msg) + [0x80] + Zeros(left - 8);
      }
      ghost var front := block[..56];
      CountWordsLittle(bits0, bits1, 8 * counted % TWO_64);
      MemCopy(block, 56, LittleEndian(bits0, 4) + LittleEndian(bits1, 4));
      assert block[..] == front + length;
      state := transform(state, block[..]);
      digest := LittleWords(state);
      WordsAreLittleDigest(state);
    }

    /** memset of `n` bytes to zero. */
    method Zero(at: nat, n: nat)
      requires at + n <= block.Length
      modifies block
      ensures block[..] == old(block[..at]) + Zeros(n) + old(block[at + n..])
    {
      forall i | 0 <= i < n {
        block[at + i] := 0;
      }
    }
  }

  /** The words of a state, least significant byte first. */
  function LittleWords(s: seq<nat>): (r: seq<byte>) {
    if s == [] then [] else LittleEndian(s[0], 4) + LittleWords(s[1..])
  }

  lemma {:induction false} LittleEndianAt(n: nat, width: nat, i: nat)
    requires i < width
    ensures LittleEndian(n, width)[i] == n / Pow256(i) % 256
    decreases width
  {
    if i > 0 {
      LittleEndianAt(n / 256, width - 1, i - 1);
      DivTwice(n, Pow256(i - 1));
    }
  }

  lemma {:induction false} LittleWordsAt(s: seq<nat>, j: nat)
    requires j < 4 * |s|
    ensures |LittleWords(s)| == 4 * |s| && LittleWords(s)[j] == s[j / 4] / Pow256(j % 4) % 256
    decreases s
  {
    hide Pow256, LittleEndian;
    LittleWordsLength(s);
    if j < 4 {
      LittleEndianAt(s[0], 4, j);
    } else {
      LittleWordsAt(s[1..], j - 4);
      FourOn(j - 4);
    }
  }

  lemma {:induction false} LittleWordsLength(s: seq<nat>)
    ensures |LittleWords(s)| == 4 * |s|
  {
    if s != [] { LittleWordsLength(s[1..]); }
  }

  /** Sixteen bytes: the four words of `s`, each least significant byte first. */
  ghost predicate IsLittleDigest(digest: seq<byte>, s: State4) {
    |digest| == 16 && forall j :: 0 <= j < 16 ==> digest[j] == s[j / 4] / Pow256(j % 4) % 256
  }

  lemma WordsAreLittleDigest(s: State4)
    ensures IsLittleDigest(LittleWords(s), s)
  {
    hide LittleWords, Pow256;
    LittleWordsAt(s, 0);
    forall j | 0 <= j < 16 ensures LittleWords(s)[j] == s[j / 4] / Pow256(j % 4) % 256 {
      LittleWordsAt(s, j);
    }
  }

  lemma Counted(low: nat, high: nat, n: nat, len: nat)
    requires Counts(low, high, 8 * n % TWO_64) && len < TWO_32
    ensures Counts(AddLow(low, len), AddHigh(low, high, len), 8 * (n + len) % TWO_64)
  {
    CountingArithmetic(low, high, n, len);
  }

  /** The bytes that are counted: each piece's length in 32 bits. */
  function CountedBytes(pieces: seq<seq<byte>>): (n: nat) {
    if pieces == [] then 0 else CountedBytes(pieces[..|pieces| - 1]) + |pieces[|pieces| - 1]| % TWO_32
  }

  /** What narrowing drops, in units of 2^32 bytes. */
  function Dropped(pieces: seq<seq<byte>>): (k: nat) {
    if pieces == [] then 0 else Dropped(pieces[..|pieces| - 1]) + |pieces[|pieces| - 1]| / TWO_32
  }

  lemma {:induction false} CountedAndDropped(pieces: seq<seq<byte>>)
    ensures |Flatten(pieces)| == CountedBytes(pieces) + TWO_32 * Dropped(pieces)
    ensures Dropped(pieces) == 0 <==> forall p :: p in pieces ==> |p| < TWO_32
  {
    if pieces != [] {
      var most, p := pieces[..|pieces| - 1], pieces[|pieces| - 1];
      CountedAndDropped(most);
      assert pieces == most + [p];
      FlattenSnoc(most, p);
      assert |p| == |p| % TWO_32 + TWO_32 * (|p| / TWO_32);
    }
  }

  /** For every message a machine can address, the length in the padding is the standard's exactly when
      every piece was shorter than 2^32 bytes. */
  lemma StandardLengthExactly(pieces: seq<seq<byte>>)
    requires |Flatten(pieces)| < 0x2000_0000_0000_0000
    ensures 8 * CountedBytes(pieces) % TWO_64 == BitCount(Flatten(pieces))
            <==> forall p :: p in pieces ==> |p| < TWO_32
  {
    CountedAndDropped(pieces);
    var n, k := CountedBytes(pieces), Dropped(pieces);
    ModUnique(8 * n, 0, 8 * n);
    ModUnique(8 * (n + TWO_32 * k), 0, 8 * (n + TWO_32 * k));
  }

  /** Any message, cut into any pieces: the digest is the block transform folded over the message with
      the standard's padding, but for the length in it, which is that of the bytes counted. */
  method Md5Of(transform: (State4, seq<byte>) -> State4, initial: State4, pieces: seq<seq<byte>>)
    returns (digest: seq<byte>)
    ensures var length := LittleEndian(8 * CountedBytes(pieces) % TWO_64, 8);
            IsLittleDigest(digest, Fold(transform, initial, Padded(Flatten(pieces), length)))
  {
    hide Fold, Padded, LittleEndian, LittleWords, IsLittleDigest;
    var ctx := new Md5(transform, initial);
    for i := 0 to |pieces|
      invariant ctx.Valid() && ctx.msg == Flatten(pieces[..i]) && fresh(ctx) && fresh(ctx.block)
      invariant ctx.counted == CountedBytes(pieces[..i])
      invariant ctx.transform == transform && ctx.initial == initial
    {
      FlattenSnoc(pieces[..i], pieces[i]);
      assert pieces[..i + 1] == pieces[..i] + [pieces[i]];
      assert pieces[..i + 1][..i] == pieces[..i];
      ctx.Update(pieces[i]);
    }
    assert pieces[..|pieces|] == pieces;
    digest := ctx.Final();
  }

  /** The padded message ends in one block when the length fits behind the mark. */
  lemma OneBlock<S>(transform: (S, seq<byte>) -> S, initial: S, m: seq<byte>, length: seq<byte>)
    requires |length| == 8 && 63 - |m| % BLOCK >= 8
    ensures Fold(transform, initial, Padded(m, length))
            == transform(Fold(transform, initial, m), Tail(m) + [0x80] + Zeros(63 - |m| % BLOCK - 8) + length)
  {
    hide Fold, Tail, Zeros;
    var n := 63 - |m| % BLOCK - 8;
    PadLength(|m| % BLOCK);
    FoldFill(transform, initial, m, [0x80] + Zeros(n) + length);
    Regroup4(Tail(m), [0x80], Zeros(n), length);
    Regroup4(m, [0x80], Zeros(n), length);
  }

  /** Otherwise it ends in two, the second of zeros and the length. */
  lemma TwoBlocks<S>(transform: (S, seq<byte>) -> S, initial: S, m: seq<byte>, length: seq<byte>)
    requires |length| == 8 && 63 - |m| % BLOCK < 8
    ensures Fold(transform, initial, Padded(m, length))
            == transform(transform(Fold(transform, initial, m), Tail(m) + [0x80] + Zeros(63 - |m| % BLOCK)),
                Zeros(56) + length)
  {
    hide Fold, Tail, Zeros;
    var n := 63 - |m| % BLOCK;
    PadLength(|m| % BLOCK);
    ZerosAppend(n, 56);
    var a := [0x80] + Zeros(n);
    FoldFill(transform, initial, m, a);
    FoldBlock(transform, initial, m + a, Zeros(56) + length);
    Regroup4(Tail(m), [0x80], Zeros(n), []);
    Unit(a);
    Unit(Tail(m) + [0x80] + Zeros(n));
    Regroup5(m, [0x80], Zeros(n), Zeros(56), length);
  }

  lemma Regroup5(m: seq<byte>, mark: seq<byte>, x: seq<byte>, y: seq<byte>, length: seq<byte>)
    ensures m + mark + (x + y) + length == m + (mark + x) + (y + length)
  {
  }

  lemma {:induction false} LittleEndianSplit(low: nat, high: nat, width: nat)
    requires low < Pow256(width)
    ensures LittleEndian(low + Pow256(width) * high, width + 4) == LittleEndian(low, width) + LittleEndian(high, 4)
    decreases width
  {
    hide LittleEndian;
    if width == 0 {
      LittleEndianStep(low, 0);
      assert Pow256(0) * high == high && low == 0;
      Unit(LittleEndian(high, 4));
    } else {
      var n, x := low + Pow256(width) * high, Pow256(width - 1) * high;
      assert Pow256(width) * high == 256 * x;
      DropByte(low, x);
      LittleEndianSplit(low / 256, high, width - 1);
      LittleEndianStep(n, width + 4 - 1);
      LittleEndianStep(low, width - 1);
      var a, b := LittleEndian(low / 256, width - 1), LittleEndian(high, 4);
      assert [n % 256] + (a + b) == [low % 256] + a + b;
    }
  }

  lemma LittleEndianStep(n: nat, width: nat)
    ensures LittleEndian(n, width + 1) == [n % 256] + LittleEndian(n / 256, width) && LittleEndian(n, 0) == []
  {
  }

  lemma CountWordsLittle(low: nat, high: nat, n: nat)
    requires Counts(low, high, n)
    ensures LittleEndian(low, 4) + LittleEndian(high, 4) == LittleEndian(n, 8)
  {
    Pow256Values();
    LittleEndianSplit(low, high, 4);
  }
}
