/** What a digest context has taken in, and the SHA-1 context with its in-place block buffer. */
module DigestContext {
  import opened Bytes
  import opened Mbuf
  import opened Digest

  type State5 = s: seq<nat> | |s| == 5 witness [0, 0, 0, 0, 0]
  type State4 = s: seq<nat> | |s| == 4 witness [0, 0, 0, 0]

  /** A context has taken in the message `m`. */
  ghost predicate Absorbed<S(!new)>(transform: (S, seq<byte>) -> S, initial: S, state: S, buffer: seq<byte>,
                                    low: nat, high: nat, m: seq<byte>) {
    && |buffer| == BLOCK && Counts(low, high, BitCount(m))
    && state == Fold(transform, initial, m) && buffer[..|m| % BLOCK] == Tail(m)
  }

  lemma TailShort(m: seq<byte>, data: seq<byte>)
    requires |m| % BLOCK + |data| < BLOCK
    ensures Tail(m + data) == Tail(m) + data && |m + data| % BLOCK == |m| % BLOCK + |data|
  {
    var k := |m| / BLOCK;
    assert |m| == 64 * k + |m| % BLOCK;
    ModBlock(|m| % BLOCK + |data|, k);
  }

  /** Taking in fewer bytes than the block has room for. */
  lemma FoldShort<S>(transform: (S, seq<byte>) -> S, initial: S, m: seq<byte>, data: seq<byte>)
    requires |m| % BLOCK + |data| < BLOCK
    ensures Fold(transform, initial, m + data) == Fold(transform, initial, m)
  {
    hide Fold, Tail;
    Blocks(m);
    var whole := m[..|m| - |m| % BLOCK];
    assert m + data == whole + (Tail(m) + data);
    FoldRest(transform, initial, whole, Tail(m));
    FoldRest(transform, initial, whole, Tail(m) + data);
  }

  /** Completing a block runs the transform on what was buffered plus the new bytes. */
  lemma FoldFill<S>(transform: (S, seq<byte>) -> S, initial: S, m: seq<byte>, data: seq<byte>)
    requires |m| % BLOCK + |data| == BLOCK
    ensures Fold(transform, initial, m + data) == transform(Fold(transform, initial, m), Tail(m) + data)
    ensures |m + data| % BLOCK == 0
  {
    hide Fold, Tail;
    Blocks(m);
    var whole := m[..|m| - |m| % BLOCK];
    assert m + data == whole + (Tail(m) + data);
    FoldRest(transform, initial, whole, Tail(m));
    FoldBlock(transform, initial, whole, Tail(m) + data);
    ModBlock(BLOCK, |m| / BLOCK);
  }

  lemma Blocks(m: seq<byte>)
    ensures var k := |m| - |m| % BLOCK;
            k == 64 * (|m| / BLOCK) && m == m[..k] + Tail(m) && |m[..k]| % BLOCK == 0 && |Tail(m)| == |m| % BLOCK
  {
  }

  /** Moving whole blocks from the input. */
  lemma FoldNext<S>(transform: (S, seq<byte>) -> S, initial: S, m: seq<byte>, data: seq<byte>, i: nat)
    requires i + BLOCK <= |data| && |m + data[..i]| % BLOCK == 0
    ensures Fold(transform, initial, m + data[..i + BLOCK])
            == transform(Fold(transform, initial, m + data[..i]), data[i..i + BLOCK])
    ensures |m + data[..i + BLOCK]| % BLOCK == 0
  {
    var block := data[i..i + BLOCK];
    assert m + data[..i + BLOCK] == m + data[..i] + block;
    FoldBlock(transform, initial, m + data[..i], block);
    ModBlock(|m + data[..i]|, 1);
  }

  /** The bytes left over stay in the buffer. */
  lemma FoldEnd<S>(transform: (S, seq<byte>) -> S, initial: S, m: seq<byte>, data: seq<byte>, i: nat)
    requires i <= |data| < i + BLOCK && |m + data[..i]| % BLOCK == 0
    ensures Fold(transform, initial, m + data) == Fold(transform, initial, m + data[..i])
    ensures Tail(m + data) == data[i..] && |m + data| % BLOCK == |data| - i
  {
    var whole, rest := m + data[..i], data[i..];
    assert m + data == whole + rest;
    TailShort(whole, rest);
    FoldShort(transform, initial, whole, rest);
    assert Tail(whole) == [];
  }

  class Sha1 {
    const transform: (State5, seq<byte>) -> State5
    const initial: State5
    var state: State5
    var count0: nat
    var count1: nat
    const buffer: array<byte>
    ghost var msg: seq<byte>

    ghost predicate Valid()
      reads this, buffer
    {
      Absorbed(transform, initial, state, buffer[..], count0, count1, msg)
    }

    /** cs_sha1_init, for a given starting state. */
    constructor (transform: (State5, seq<byte>) -> State5, initial: State5)
      ensures Valid() && msg == [] && this.transform == transform && this.initial == initial && fresh(buffer)
    {
      this.transform, this.initial := transform, initial;
      state, count0, count1, msg := initial, 0, 0, [];
      buffer := new byte[BLOCK](_ => 0);
    }

    /** cs_sha1_update.  The bound is where the 32-bit sum of position and length would wrap and bytes
        be written behind the buffer, see `WrapLooksShort`. */
    method Update(data: seq<byte>)
      requires Valid() && |msg| % BLOCK + |data| < TWO_32
      modifies this`state, this`count0, this`count1, this`msg, buffer
      ensures Valid() && msg == old(msg) + data
    {
      hide Fold, Counts, BitCount, AddLow, AddHigh, Tail;
      var len := |data|;
      ghost var m := msg;
      Counting(count0, count1, m, data);
      BlockPosition(count0, count1, m);
      var j := count0;
      count0, count1 := AddLow(j, len), AddHigh(j, count1, len);
      j := j / 8 % 64;
      var i := 0;
      if (j + len) % TWO_32 > 63 {
        i := 64 - j;
        FillBlock(j, data[..i]);
        i := RunBlocks(data, i);
        FoldEnd(transform, initial, m, data, i);
        j := 0;
      } else {
        TailShort(m, data);
        FoldShort(transform, initial, m, data);
      }
      ghost var kept := buffer[..j];
      MemCopy(buffer, j, data[i..]);
      msg := m + data;
      assert buffer[..j + (len - i)] == kept + data[i..];
    }

    /** The first block: the buffered bytes and as many new ones as it takes. */
    method FillBlock(j: nat, piece: seq<byte>)
      requires state == Fold(transform, initial, msg) && buffer.Length == BLOCK
      requires j == |msg| % BLOCK && j + |piece| == BLOCK && buffer[..j] == Tail(msg)
      modifies this`state, buffer
      ensures state == Fold(transform, initial, msg + piece) && |msg + piece| % BLOCK == 0
    {
      hide Fold, Tail;
      MemCopy(buffer, j, piece);
      assert buffer[..] == Tail(msg) + piece;
      FoldFill(transform, initial, msg, piece);
      state := transform(state, buffer[..]);
    }

    /** Whole blocks straight from the input. */
    method RunBlocks(data: seq<byte>, start: nat) returns (i: nat)
      requires start <= |data| && |msg + data[..start]| % BLOCK == 0 && |msg| % BLOCK + |data| < TWO_32
      requires state == Fold(transform, initial, msg + data[..start])
      modifies this`state
      ensures start <= i <= |data| < i + BLOCK && |msg + data[..i]| % BLOCK == 0
      ensures state == Fold(transform, initial, msg + data[..i])
    {
      hide Fold;
      i := start;
      NoStepWraps(|msg|, i, |data|);
      while (i + 63) % TWO_32 < |data|
        invariant i + 63 < TWO_32
        invariant start <= i <= |data| && |msg + data[..i]| % BLOCK == 0
        invariant state == Fold(transform, initial, msg + data[..i])
      {
        FoldNext(transform, initial, msg, data, i);
        state := transform(state, data[i..i + 64]);
        i := i + 64;
        NoStepWraps(|msg|, i, |data|);
      }
    }

    /** cs_sha1_final: the padding goes in through `Update` byte by byte, the digest comes out in
        network order. */
    method Final() returns (digest: seq<byte>)
      requires Valid()
      modifies this`state, this`count0, this`count1, this`msg, buffer
      ensures IsDigest(digest, Fold(transform, initial, Padded(old(msg), BigEndian(BitCount(old(msg)), 8))))
    {
      hide Fold, Tail, Words, BigEndian, BitCount, Absorbed, Zeros, IsDigest;
      ghost var m := msg;
      var finalCount := CountBytes();
      Update([0x80]);
      ghost var zeros := 0;
      PaddingStart(m);
      while count0 / 8 % 64 != 56
        invariant Valid() && 0 <= zeros <= (119 - |m| % BLOCK) % BLOCK
        invariant msg == m + [0x80] + Zeros(zeros)
        decreases (119 - |m| % BLOCK) % BLOCK - zeros
      {
        Position();
        PaddingStep(m, zeros);
        Update([0]);
        ZerosAppend(zeros, 0);
        assert m + [0x80] + Zeros(zeros) + [0] == m + [0x80] + (Zeros(zeros) + [0]);
        zeros := zeros + 1;
      }
      Position();
      PaddingStep(m, zeros);
      Update(finalCount);
      digest := Words(state);
      WordsAreDigest(state);
      FoldOf();
    }

    lemma Position()
      requires Valid()
      ensures count0 / 8 % 64 == |msg| % BLOCK
    {
      BlockPosition(count0, count1, msg);
    }

    lemma FoldOf()
      requires Valid()
      ensures state == Fold(transform, initial, msg)
    {
    }

    /** The eight length bytes, most significant word and byte first. */
    method CountBytes() returns (bytes: seq<byte>)
      requires Valid()
      ensures bytes == BigEndian(BitCount(msg), 8)
    {
      hide Fold, Tail, BitCount, BigEndian;
      bytes := [];
      for i := 0 to 8
        invariant |bytes| == i
        invariant forall k :: 0 <= k < i ==> bytes[k] == (if k >= 4 then count0 else count1) / Pow256(3 - k % 4) % 256
      {
        bytes := bytes + [(if i >= 4 then count0 else count1) / Pow256(3 - i % 4) % 256];
      }
      CountWords(count0, count1, BitCount(msg), bytes);
    }
  }

  /** Any message, cut into any pieces: the digest is the block transform folded over the standard
      padding of the message. */
  method Sha1Of(transform: (State5, seq<byte>) -> State5, initial: State5, pieces: seq<seq<byte>>)
    returns (digest: seq<byte>)
    requires forall i :: 0 <= i < |pieces| ==> |Flatten(pieces[..i])| % BLOCK + |pieces[i]| < TWO_32
    ensures var m := Flatten(pieces);
            IsDigest(digest, Fold(transform, initial, Padded(m, BigEndian(BitCount(m), 8))))
  {
    hide Fold, Padded, BitCount, BigEndian, Words, Absorbed, IsDigest;
    var ctx := new Sha1(transform, initial);
    for i := 0 to |pieces|
      invariant ctx.Valid() && ctx.msg == Flatten(pieces[..i]) && fresh(ctx) && fresh(ctx.buffer)
      invariant ctx.transform == transform && ctx.initial == initial
    {
      FlattenSnoc(pieces[..i], pieces[i]);
      assert pieces[..i + 1] == pieces[..i] + [pieces[i]];
      ctx.Update(pieces[i]);
    }
    assert pieces[..|pieces|] == pieces;
    digest := ctx.Final();
  }

  /** In particular pieces of any length up to 2^32 - 64 are safe. */
  lemma ShortPiecesAreSafe(pieces: seq<seq<byte>>)
    requires forall p :: p in pieces ==> |p| + 63 < TWO_32
    ensures forall i :: 0 <= i < |pieces| ==> |Flatten(pieces[..i])| % BLOCK + |pieces[i]| < TWO_32
  {
    forall i | 0 <= i < |pieces| ensures |Flatten(pieces[..i])| % BLOCK + |pieces[i]| < TWO_32 {
      assert pieces[i] in pieces;
    }
  }

  /** The words of a state in network byte order. */
  function Words(s: seq<nat>): (r: seq<byte>) {
    if s == [] then [] else BigEndian(s[0], 4) + Words(s[1..])
  }

  /** Each byte of each word, most significant first. */
  lemma {:induction false} WordsAt(s: seq<nat>, j: nat)
    requires j < 4 * |s|
    ensures |Words(s)| == 4 * |s| && Words(s)[j] == s[j / 4] / Pow256(3 - j % 4) % 256
    decreases s
  {
    hide Pow256, BigEndian;
    WordsLength(s);
    if j < 4 {
      BigEndianAt(s[0], 4, j);
    } else {
      WordsAt(s[1..], j - 4);
      FourOn(j - 4);
    }
  }

  lemma FourOn(j: nat)
    ensures (j + 4) / 4 == j / 4 + 1 && (j + 4) % 4 == j % 4
  {
  }

  lemma {:induction false} WordsLength(s: seq<nat>)
    ensures |Words(s)| == 4 * |s|
  {
    if s != [] { WordsLength(s[1..]); }
  }

  /** Twenty bytes: the five words of `s`, each most significant byte first. */
  ghost predicate IsDigest(digest: seq<byte>, s: State5) {
    |digest| == 20 && forall j :: 0 <= j < 20 ==> digest[j] == s[j / 4] / Pow256(3 - j % 4) % 256
  }

  lemma WordsAreDigest(s: State5)
    ensures IsDigest(Words(s), s)
  {
    hide Words, Pow256;
    WordsAt(s, 0);
    forall j | 0 <= j < 20 ensures Words(s)[j] == s[j / 4] / Pow256(3 - j % 4) % 256 {
      WordsAt(s, j);
    }
  }

  lemma {:induction false} BigEndianAt(n: nat, width: nat, i: nat)
    requires i < width
    ensures BigEndian(n, width)[i] == n / Pow256(width - 1 - i) % 256
    decreases width
  {
    if i < width - 1 {
      BigEndianAt(n / 256, width - 1, i);
      DivTwice(n, Pow256(width - 2 - i));
    }
  }

  lemma DivTwice(n: nat, p: nat)
    requires p > 0
    ensures n / 256 / p == n / (256 * p)
  {
    var a, b := n / 256, n % 256;
    var q, r := a / p, a % p;
    assert a == q * p + r;
    assert n == 256 * (q * p + r) + b == (256 * p) * q + (256 * r + b) by {
      assert 256 * (q * p) == (256 * p) * q;
    }
    assert 256 * r + b < 256 * p by { assert r + 1 <= p; }
    DivUnique(n, 256 * p, q, 256 * r + b);
  }

  lemma DivUnique(n: nat, d: nat, q: nat, r: nat)
    requires d > 0 && n == d * q + r && r < d
    ensures n / d == q
  {
    var q' := n / d;
    assert n == q' * d + n % d && n == q * d + r;
    MulCancel(q, q' + 1, d);
    MulCancel(q', q + 1, d);
  }

  lemma DropByte(low: nat, x: nat)
    ensures (low + 256 * x) / 256 == low / 256 + x && (low + 256 * x) % 256 == low % 256
  {
  }

  lemma BigEndianStep(n: nat, width: nat)
    ensures BigEndian(n, width + 1) == BigEndian(n / 256, width) + [n % 256] && BigEndian(n, 0) == []
  {
  }

  lemma {:induction false} BigEndianSplit(low: nat, high: nat, width: nat)
    requires low < Pow256(width)
    ensures BigEndian(low + Pow256(width) * high, 4 + width) == BigEndian(high, 4) + BigEndian(low, width)
    decreases width
  {
    hide BigEndian;
    if width == 0 {
      BigEndianStep(low, 0);
      assert Pow256(0) * high == high && low == 0;
      Unit(BigEndian(high, 4));
    } else {
      var n, x := low + Pow256(width) * high, Pow256(width - 1) * high;
      assert Pow256(width) * high == 256 * x;
      DropByte(low, x);
      BigEndianSplit(low / 256, high, width - 1);
      BigEndianStep(n, 4 + width - 1);
      BigEndianStep(low, width - 1);
      var a, b := BigEndian(high, 4), BigEndian(low / 256, width - 1);
      assert a + b + [n % 256] == a + (b + [low % 256]);
    }
  }

  lemma CountWords(low: nat, high: nat, n: nat, bytes: seq<byte>)
    requires Counts(low, high, n) && |bytes| == 8
    requires forall k :: 0 <= k < 8 ==> bytes[k] == (if k >= 4 then low else high) / Pow256(3 - k % 4) % 256
    ensures bytes == BigEndian(n, 8)
  {
    hide BigEndian, Pow256;
    Pow256Values();
    BigEndianSplit(low, high, 4);
    forall k | 0 <= k < 4 ensures bytes[k] == BigEndian(high, 4)[k] && bytes[4 + k] == BigEndian(low, 4)[k] {
      BigEndianAt(high, 4, k);
      BigEndianAt(low, 4, k);
      assert (4 + k) % 4 == k;
    }
    assert bytes == BigEndian(high, 4) + BigEndian(low, 4);
  }

  lemma PaddingStart(m: seq<byte>)
    ensures m + [0x80] == m + [0x80] + Zeros(0)
  {
    assert Zeros(0) == [];
  }

  /** Padding with `zeros` zeros reaches position 56 of a block exactly when it is complete. */
  lemma PaddingStep(m: seq<byte>, zeros: nat)
    requires zeros <= (119 - |m| % BLOCK) % BLOCK
    ensures |m + [0x80] + Zeros(zeros)| % BLOCK == 56 <==> zeros == (119 - |m| % BLOCK) % BLOCK
  {
    var p, k := |m| % BLOCK, |m| / BLOCK;
    assert |m + [0x80] + Zeros(zeros)| == p + 1 + zeros + 64 * k;
    ModBlock(p + 1 + zeros, k);
  }
}
