/** Base64: streaming and one-shot encoders against section 4 of RFC 4648, and the decoder. */
module Base64 {
  import opened Bytes

  const PAD: byte := 61

  // ---------------------------------------------------------------- letters

  /** The letter for six bits. */
  function Code(v: nat): (c: byte)
    requires v < 64
  {
    if v < 26 then v + 65 else if v < 52 then v - 26 + 97 else if v < 62 then v - 52 + 48
        else if v == 62 then 43 else 47
  }

  /** The inverse table: 200 for the padding, 255 for anything else. */
  function FromB64(ch: byte): (v: byte) {
    var c := ch % 128;
    if 65 <= c <= 90 then c - 65
    else if 97 <= c <= 122 then c - 71
    else if 48 <= c <= 57 then c + 4
    else if c == 43 then 62
    else if c == 47 then 63
    else if c == PAD then 200
    else 255
  }

  lemma CodeInverts(v: nat)
    requires v < 64
    ensures FromB64(Code(v)) == v
  {
  }

  /** The table on every byte: six bits for a letter of the alphabet, 200 for `=` alone, with the top bit
      of the byte ignored. */
  lemma TableExactly(ch: byte)
    ensures FromB64(ch) == 200 <==> ch % 128 == 61
    ensures FromB64(ch) < 64 || FromB64(ch) == 200 || FromB64(ch) == 255
    ensures FromB64(ch) < 64 ==> Code(FromB64(ch)) == ch % 128
    ensures FromB64(ch) == 255 ==> forall v :: 0 <= v < 64 ==> Code(v) != ch % 128
  {
  }

  /** The alphabet of section 4 of RFC 4648: A to Z, a to z, 0 to 9, plus and slash. */
  lemma Alphabet()
    ensures Code(0) == 'A' as int && Code(25) == 'Z' as int && Code(26) == 'a' as int && Code(51) == 'z' as int
    ensures Code(52) == '0' as int && Code(61) == '9' as int && Code(62) == '+' as int && Code(63) == '/' as int
    ensures forall v :: 0 <= v < 61 && v != 25 && v != 51 ==> Code(v + 1) == Code(v) + 1
  {
  }

  /** One byte left over ends in two `=`, two bytes in one. */
  lemma {:induction false} PaddedEnd(s: seq<byte>)
    ensures |s| % 3 == 1 ==> Encoded(s)[|Encoded(s)| - 2..] == [61, 61] && Encoded(s)[|Encoded(s)| - 3] != 61
    ensures |s| % 3 == 2 ==> Encoded(s)[|Encoded(s)| - 1] == 61 && Encoded(s)[|Encoded(s)| - 2] != 61
    ensures s != [] && |s| % 3 == 0 ==> Encoded(s)[|Encoded(s)| - 1] != 61
    decreases |s|
  {
    hide Group;
    if |s| > 3 {
      PaddedEnd(s[3..]);
    } else if s != [] {
      GroupEnd(s);
    }
  }

  lemma GroupEnd(s: seq<byte>)
    requires 1 <= |s| <= 3
    ensures Group(s)[1] != 61 && (Group(s)[2] == 61 <==> |s| == 1) && (Group(s)[3] == 61 <==> |s| < 3)
  {
  }

  // ---------------------------------------------------------------- the standard

  /** The letters of one group of one to three bytes, missing ones taken as zero. */
  function Letters(a: byte, b: byte, c: byte, size: nat): (s: seq<byte>)
    requires 1 <= size <= 3
    ensures |s| == size + 1
  {
    [Code(a / 4), Code(a % 4 * 16 + b / 16)]
    + (if size > 1 then [Code(b % 16 * 4 + c / 64)] else [])
    + (if size > 2 then [Code(c % 64)] else [])
  }

  function Padding(size: nat): (s: seq<byte>)
    requires 1 <= size <= 3
  {
    if size == 1 then [PAD, PAD] else if size == 2 then [PAD] else []
  }

  function Group(s: seq<byte>): (r: seq<byte>)
    requires 1 <= |s| <= 3
    ensures |r| == 4
  {
    var b := if |s| > 1 then s[1] else 0;
    var c := if |s| > 2 then s[2] else 0;
    Letters(s[0], b, c, |s|) + Padding(|s|)
  }

  function Encoded(s: seq<byte>): (r: seq<byte>)
    ensures |r| == (|s| + 2) / 3 * 4
  {
    if s == [] then [] else if |s| <= 3 then Group(s) else Group(s[..3]) + Encoded(s[3..])
  }

  /** Whole groups can be encoded apart from what follows. */
  lemma {:induction false} EncodedInParts(done: seq<byte>, rest: seq<byte>)
    requires |done| % 3 == 0
    ensures Encoded(done + rest) == Encoded(done) + Encoded(rest)
    decreases |done|
  {
    if done == [] {
      Unit(rest);
      Unit(Encoded(rest));
    } else if rest == [] {
      Unit(done);
      Unit(Encoded(done));
    } else {
      var s := done + rest;
      assert s[..3] == done[..3] && s[3..] == done[3..] + rest;
      EncodedInParts(done[3..], rest);
      OneGroup(done);
    }
  }

  lemma OneGroup(s: seq<byte>)
    requires |s| >= 3
    ensures Encoded(s) == Group(s[..3]) + Encoded(s[3..])
  {
    if |s| == 3 {
      assert s[..3] == s && s[3..] == [];
      Unit(Group(s));
    }
  }

  // ---------------------------------------------------------------- decoding

  datatype Decoding = Decoding(bytes: seq<byte>, consumed: nat)

  predicate Readable(s: seq<byte>) {
    |s| >= 4 && FromB64(s[0]) != 255 && FromB64(s[1]) != 255 && FromB64(s[2]) != 255 && FromB64(s[3]) != 255
  }

  function First(a: byte, b: byte): (x: byte) { (a * 4 + b / 16) % 256 }

  function Second(b: byte, c: byte): (x: byte) { (b * 16 + c / 4) % 256 }

  function Third(c: byte, d: byte): (x: byte) { (c * 64 + d) % 256 }

  /** The bytes of one quadruple: none if padding comes first, fewer than three if it ends one. */
  function Quad(s: seq<byte>): (r: seq<byte>)
    requires Readable(s)
    ensures |r| <= 3
  {
    var a, b, c, d := FromB64(s[0]), FromB64(s[1]), FromB64(s[2]), FromB64(s[3]);
    if a == 200 || b == 200 then []
    else if c == 200 then [First(a, b)]
    else if d == 200 then [First(a, b), Second(b, c)]
    else [First(a, b), Second(b, c), Third(c, d)]
  }

  /** Quadruples up to the first that is short, has padding or has a foreign letter. */
  function Decoded(s: seq<byte>): (r: Decoding) {
    if !Readable(s) then Decoding([], 0)
    else if |Quad(s)| < 3 then Decoding(Quad(s), 4)
    else Decoding(Quad(s) + Decoded(s[4..]).bytes, 4 + Decoded(s[4..]).consumed)
  }

  lemma FirstByte(a: byte, b: byte)
    ensures var v0, v1 := a / 4, a % 4 * 16 + b / 16; v0 < 64 && v1 < 64 && (v0 * 4 + v1 / 16) % 256 == a
  {
    var h := b / 16;
    assert h < 16 && (a % 4 * 16 + h) / 16 == a % 4;
  }

  lemma SecondByte(a: byte, b: byte, c: byte)
    ensures var v1, v2 := a % 4 * 16 + b / 16, b % 16 * 4 + c / 64; v2 < 64 && (v1 * 16 + v2 / 4) % 256 == b
  {
    var p, h, l, k := a % 4, b / 16, b % 16, c / 64;
    assert k < 4 && (l * 4 + k) / 4 == l;
    assert (p * 16 + h) * 16 + l == p * 256 + b;
  }

  lemma ThirdByte(b: byte, c: byte)
    ensures var v2, v3 := b % 16 * 4 + c / 64, c % 64; v3 < 64 && (v2 * 64 + v3) % 256 == c
  {
    var l, k, w := b % 16, c / 64, c % 64;
    assert (l * 4 + k) * 64 + w == l * 256 + c;
  }

  /** On every input: quadruples of letters and `=` are read up to the first one with a `=`, with a
      foreign letter or cut off. */
  lemma {:induction false} DecodedStops(s: seq<byte>)
    ensures var n := Decoded(s).consumed;
            && n % 4 == 0 && n <= |s|
            && (forall i :: 0 <= i < n ==> FromB64(s[i]) != 255)
            && (forall i :: 0 <= i < n - 4 ==> FromB64(s[i]) < 64)
            && (n + 4 <= |s| && (n == 0 || forall i :: n - 4 <= i < n ==> FromB64(s[i]) < 64) ==>
                  exists i :: n <= i < n + 4 && FromB64(s[i]) == 255)
  {
    hide FromB64, Quad;
    if Readable(s) {
      Sixes(s);
      if |Quad(s)| == 3 {
        DecodedStops(s[4..]);
        var t := s[4..];
        assert forall i :: 4 <= i < |s| ==> s[i] == t[i - 4];
      }
    }
  }

  /** Each quadruple but the last gives three bytes, and the last as many as stand before its first `=`. */
  lemma {:induction false} DecodedSize(s: seq<byte>)
    ensures var n := Decoded(s).consumed;
            && n % 4 == 0 && n <= |s|
            && ((forall i :: 0 <= i < n ==> FromB64(s[i]) < 64) ==> |Decoded(s).bytes| == n / 4 * 3)
            && (n > 0 && FromB64(s[n - 2]) == 200 && FromB64(s[n - 3]) < 64 && FromB64(s[n - 4]) < 64 ==>
                  |Decoded(s).bytes| == n / 4 * 3 - 2)
            && (n > 0 && FromB64(s[n - 1]) == 200 && (forall i :: n - 4 <= i < n - 1 ==> FromB64(s[i]) < 64) ==>
                  |Decoded(s).bytes| == n / 4 * 3 - 1)
            && (n > 0 && (FromB64(s[n - 4]) == 200 || FromB64(s[n - 3]) == 200) ==>
                  |Decoded(s).bytes| == n / 4 * 3 - 3)
  {
    hide FromB64, Quad;
    if Readable(s) {
      Sixes(s);
      if |Quad(s)| == 3 {
        DecodedSize(s[4..]);
        var t := s[4..];
        assert forall i :: 4 <= i < |s| ==> s[i] == t[i - 4];
      }
    }
  }

  lemma Sixes(s: seq<byte>)
    requires Readable(s)
    ensures forall i :: 0 <= i < 4 ==> FromB64(s[i]) < 64 || FromB64(s[i]) == 200
    ensures |Quad(s)| == 3 <==> forall i :: 0 <= i < 4 ==> FromB64(s[i]) < 64
    ensures |Quad(s)| == 0 <==> FromB64(s[0]) == 200 || FromB64(s[1]) == 200
    ensures FromB64(s[0]) < 64 && FromB64(s[1]) < 64 ==> (|Quad(s)| == 1 <==> FromB64(s[2]) == 200)
  {
    hide FromB64;
    TableExactly(s[0]);
    TableExactly(s[1]);
    TableExactly(s[2]);
    TableExactly(s[3]);
  }

  /** The other way round: letters without `=` are what their bytes encode to, the top bit cleared. */
  lemma {:induction false} EncodedAgain(s: seq<byte>)
    requires |s| % 4 == 0 && forall i :: 0 <= i < |s| ==> FromB64(s[i]) < 64
    ensures Decoded(s).consumed == |s| && |Decoded(s).bytes| == |s| / 4 * 3
    ensures Encoded(Decoded(s).bytes) == seq(|s|, i requires 0 <= i < |s| => s[i] % 128)
    decreases |s|
  {
    hide FromB64, Group, Quad;
    if s != [] {
      var q, t := Quad(s), s[4..];
      GroupOfQuad(s);
      EncodedAgain(t);
      var bytes := q + Decoded(t).bytes;
      OneGroup(bytes);
      assert bytes[..3] == q && bytes[3..] == Decoded(t).bytes;
      assert Encoded(bytes) == seq(|s|, i requires 0 <= i < |s| => s[i] % 128);
    }
  }

  lemma GroupOfQuad(s: seq<byte>)
    requires |s| >= 4 && forall i :: 0 <= i < 4 ==> FromB64(s[i]) < 64
    ensures Readable(s) && |Quad(s)| == 3
    ensures Group(Quad(s)) == [s[0] % 128, s[1] % 128, s[2] % 128, s[3] % 128]
  {
    hide FromB64, Code, Group;
    var a, b, c, d := FromB64(s[0]), FromB64(s[1]), FromB64(s[2]), FromB64(s[3]);
    TableExactly(s[0]);
    TableExactly(s[1]);
    TableExactly(s[2]);
    TableExactly(s[3]);
    SixBits(a, b, c, d);
    GroupLetters(Quad(s));
  }

  lemma SixBits(a: byte, b: byte, c: byte, d: byte)
    requires a < 64 && b < 64 && c < 64 && d < 64
    ensures var x, y, z := First(a, b), Second(b, c), Third(c, d);
            x / 4 == a && x % 4 * 16 + y / 16 == b && y % 16 * 4 + z / 64 == c && z % 64 == d
  {
    var i, j, k, l := b / 16, b % 16, c / 4, c % 4;
    assert First(a, b) == a * 4 + i;
    assert Second(b, c) == j * 16 + k by { LowByte(i, j * 16 + k); }
    assert Third(c, d) == l * 64 + d by { LowByte(k, l * 64 + d); }
    hide First, Second, Third;
    Halves(a, i, 4);
    Halves(j, k, 16);
    Halves(l, d, 64);
  }

  lemma LowByte(h: nat, l: nat)
    requires l < 256
    ensures (h * 256 + l) % 256 == l
  {
  }

  lemma Halves(h: nat, l: nat, m: nat)
    requires l < m && (m == 4 || m == 16 || m == 64)
    ensures (h * m + l) / m == h && (h * m + l) % m == l
  {
    if m == 4 {
      assert (h * 4 + l) / 4 == h;
    } else if m == 16 {
      assert (h * 16 + l) / 16 == h;
    } else {
      assert (h * 64 + l) / 64 == h;
    }
  }

  lemma GroupLetters(s: seq<byte>)
    requires 1 <= |s| <= 3
    ensures var a, b, c := s[0], if |s| > 1 then s[1] else 0, if |s| > 2 then s[2] else 0;
            var g := Group(s);
            g[0] == Code(a / 4) && g[1] == Code(a % 4 * 16 + b / 16)
            && g[2] == (if |s| > 1 then Code(b % 16 * 4 + c / 64) else PAD)
            && g[3] == (if |s| > 2 then Code(c % 64) else PAD)
  {
    hide Code;
  }

  lemma QuadOfGroup(s: seq<byte>, rest: seq<byte>)
    requires 1 <= |s| <= 3
    ensures Readable(Group(s) + rest) && Quad(Group(s) + rest) == s
  {
    hide Code, FromB64, Group;
    var a, b, c := s[0], if |s| > 1 then s[1] else 0, if |s| > 2 then s[2] else 0;
    var g := Group(s);
    GroupLetters(s);
    FirstByte(a, b);
    SecondByte(a, b, c);
    ThirdByte(b, c);
    CodeInverts(a / 4);
    CodeInverts(a % 4 * 16 + b / 16);
    CodeInverts(b % 16 * 4 + c / 64);
    CodeInverts(c % 64);
    assert FromB64(PAD) == 200 by { PadInverts(); }
    var x := g + rest;
    assert x[0] == g[0] && x[1] == g[1] && x[2] == g[2] && x[3] == g[3];
  }

  lemma PadInverts()
    ensures FromB64(PAD) == 200
  {
  }

  /** Decoding consumes the whole encoding and gives the bytes back. */
  lemma {:induction false} RoundTrip(s: seq<byte>)
    ensures Decoded(Encoded(s)) == Decoding(s, |Encoded(s)|)
    decreases |s|
  {
    if s != [] {
      var g := if |s| <= 3 then s else s[..3];
      var rest := if |s| <= 3 then [] else s[3..];
      assert s == g + rest;
      RoundTrip(rest);
      QuadOfGroup(g, Encoded(rest));
      if |s| <= 3 { Unit(Group(s)); }
      assert (Group(g) + Encoded(rest))[4..] == Encoded(rest);
    }
  }

  // ---------------------------------------------------------------- streaming

  lemma WholeGroup(done: seq<byte>, group: seq<byte>, a: byte, b: byte, c: byte)
    requires |done| % 3 == 0 && group == [a, b, c]
    ensures Encoded(done + group) == Encoded(done) + Letters(a, b, c, 3)
  {
    EncodedInParts(done, group);
    Unit(Letters(a, b, c, 3));
  }

  /** The last, short group. */
  lemma LastGroup(input: seq<byte>, n: nat, a: byte, b: byte, c: byte)
    requires n < |input| < n + 3 && n % 3 == 0 && a == input[n]
    requires b == (if n + 1 < |input| then input[n + 1] else 0) && c == 0
    ensures Encoded(input) == Encoded(input[..n]) + Letters(a, b, c, |input| - n) + Padding(|input| - n)
  {
    hide Encoded, Letters, Padding;
    var done, waiting, size := input[..n], input[n..], |input| - n;
    assert input == done + waiting;
    EncodedInParts(done, waiting);
    OneShort(waiting, a, b, c);
    Regroup(Encoded(done), Letters(a, b, c, size), Padding(size));
  }

  lemma OneShort(s: seq<byte>, a: byte, b: byte, c: byte)
    requires 1 <= |s| <= 2 && a == s[0] && b == (if |s| > 1 then s[1] else 0) && c == 0
    ensures Encoded(s) == Letters(a, b, c, |s|) + Padding(|s|)
  {
    hide Letters, Padding;
  }

  class Encoder {
    var chunk: array<byte>
    var chunkSize: nat
    var out: seq<byte>
    ghost var input: seq<byte>

    /** Whole groups are out, fewer than three bytes are waiting. */
    ghost predicate Valid()
      reads this, chunk
    {
      chunk.Length == 3 && chunkSize < 3 && chunkSize <= |input|
      && (|input| - chunkSize) % 3 == 0
      && out == Encoded(input[..|input| - chunkSize])
      && chunk[..chunkSize] == input[|input| - chunkSize..]
    }

    constructor ()
      ensures Valid() && input == [] && fresh(chunk)
    {
      chunk := new byte[3](_ => 0);
      chunkSize, out, input := 0, [], [];
    }

    /** The letters for the waiting bytes. */
    method EmitChunk()
      requires chunk.Length == 3 && 1 <= chunkSize <= 3
      modifies this`out
      ensures out == old(out) + Letters(chunk[0], chunk[1], chunk[2], chunkSize)
    {
      var a, b, c := chunk[0], chunk[1], chunk[2];
      ghost var before := out;
      out := out + [Code(a / 4)];
      out := out + [Code(a % 4 * 16 + b / 16)];
      if chunkSize > 1 { out := out + [Code(b % 16 * 4 + c / 64)]; }
      if chunkSize > 2 { out := out + [Code(c % 64)]; }
    }

    /** One byte more. */
    method Put(x: byte)
      requires Valid()
      modifies this, chunk
      ensures Valid() && chunk == old(chunk) && input == old(input) + [x]
    {
      hide Encoded, Letters;
      ghost var n := |input| - chunkSize;
      ghost var done, group := input[..n], input[n..] + [x];
      chunk[chunkSize] := x;
      chunkSize := chunkSize + 1;
      input := input + [x];
      assert input[..n] == done && input[n..] == group && chunk[..chunkSize] == group;
      if chunkSize == 3 {
        EmitChunk();
        WholeGroup(done, group, chunk[0], chunk[1], chunk[2]);
        chunkSize := 0;
        assert input[..|input|] == done + group;
      }
    }

    method Update(str: seq<byte>)
      requires Valid()
      modifies this, chunk
      ensures Valid() && chunk == old(chunk) && input == old(input) + str
    {
      var i := 0;
      while i < |str|
        invariant 0 <= i <= |str| && Valid() && chunk == old(chunk) && input == old(input) + str[..i]
      {
        Put(str[i]);
        i := i + 1;
      }
    }

    /** However the input was cut into updates, the output is the one-shot encoding of all of it. */
    method Finish()
      requires Valid()
      modifies this`out, chunk
      ensures out == Encoded(input)
    {
      hide Encoded, Letters;
      ghost var n := |input| - chunkSize;
      assert chunkSize == 0 ==> input[..n] == input;
      assert forall i :: 0 <= i < chunkSize ==> chunk[i] == chunk[..chunkSize][i] && input[n..][i] == input[n + i];
      if chunkSize > 0 {
        forall i | chunkSize <= i < 3 { chunk[i] := 0; }
        assert chunk[0] == input[n] && (chunkSize == 2 ==> chunk[1] == input[n + 1]) && chunk[2] == 0;
        EmitChunk();
        LastGroup(input, n, chunk[0], chunk[1], chunk[2]);
        ghost var before := out;
        var i := 0;
        while i < 3 - chunkSize
          invariant 0 <= i <= 3 - chunkSize && out == before + Padding(chunkSize)[..i]
        {
          out := out + [PAD];
          i := i + 1;
        }
      }
    }
  }

  // ---------------------------------------------------------------- in one go

  lemma OneByOne(out: seq<byte>, a: byte, b: byte, c: byte)
    ensures var two := out + [Code(a / 4)] + [Code(a % 4 * 16 + b / 16)];
            two == out + Letters(a, b, c, 1)
            && two + [Code(b % 16 * 4 + c / 64)] == out + Letters(a, b, c, 2)
            && two + [Code(b % 16 * 4 + c / 64)] + [Code(c % 64)] == out + Letters(a, b, c, 3)
  {
    hide Code;
  }

  /** One round of the encoding loop. */
  method EncodeGroup(src: seq<byte>, i: nat, out: seq<byte>) returns (dst: seq<byte>, ghost pads: seq<byte>)
    requires i < |src| && i % 3 == 0 && out == Encoded(src[..i])
    ensures |pads| <= 2 && forall k :: 0 <= k < |pads| ==> pads[k] == PAD
    ensures i + 3 <= |src| ==> dst == Encoded(src[..i + 3]) && pads == []
    ensures i + 3 > |src| ==> dst + pads == Encoded(src)
  {
    hide Encoded, Letters, Code;
    var a := src[i];
    var b := if i + 1 >= |src| then 0 else src[i + 1];
    var c := if i + 2 >= |src| then 0 else src[i + 2];
    OneByOne(out, a, b, c);
    dst := out + [Code(a / 4)];
    dst := dst + [Code(a % 4 * 16 + b / 16)];
    if i + 1 < |src| { dst := dst + [Code(b % 16 * 4 + c / 64)]; }
    if i + 2 < |src| { dst := dst + [Code(c % 64)]; }
    pads := [];
    if i + 3 <= |src| {
      assert src[..i + 3] == src[..i] + [a, b, c];
      WholeGroup(src[..i], [a, b, c], a, b, c);
    } else {
      LastGroup(src, i, a, b, c);
      pads := Padding(|src| - i);
    }
  }

  /** cs_base64_encode: all groups, then padding to a multiple of four, then a zero byte. */
  method EncodeAll(src: seq<byte>) returns (dst: seq<byte>)
    ensures dst == Encoded(src) + [0]
  {
    hide Encoded;
    dst := [];
    var i := 0;
    ghost var pads: seq<byte> := [];
    assert src[..0] == [] && |Encoded([])| == 0;
    while i < |src|
      invariant 0 <= i && i % 3 == 0 && |pads| <= 2 && (forall k :: 0 <= k < |pads| ==> pads[k] == PAD)
      invariant i <= |src| ==> dst == Encoded(src[..i]) && pads == []
      invariant i > |src| ==> dst + pads == Encoded(src)
    {
      dst, pads := EncodeGroup(src, i, dst);
      i := i + 3;
    }
    if i <= |src| {
      assert src[..i] == src;
      Unit(dst);
    }
    dst := PadOut(dst, pads, Encoded(src));
    dst := dst + [0];
  }

  /** The padding loop: up to a multiple of four. */
  method PadOut(out: seq<byte>, ghost missing: seq<byte>, ghost whole: seq<byte>) returns (dst: seq<byte>)
    requires |missing| <= 2 && (forall k :: 0 <= k < |missing| ==> missing[k] == PAD)
    requires out + missing == whole && |whole| % 4 == 0
    ensures dst == whole
  {
    dst := out;
    ghost var pads := missing;
    while |dst| % 4 != 0
      invariant |pads| <= 2 && dst + pads == whole && forall k :: 0 <= k < |pads| ==> pads[k] == PAD
      decreases |pads|
    {
      assert pads != [];
      Regroup(dst, [PAD], pads[1..]);
      assert [PAD] + pads[1..] == pads;
      dst, pads := dst + [PAD], pads[1..];
    }
    assert pads == [];
    Unit(dst);
  }

  /** One round of the decoding loop; the loop goes on behind a full group only. */
  method DecodeQuad(s: seq<byte>, out: seq<byte>) returns (dst: seq<byte>, more: bool)
    requires Readable(s)
    ensures dst == out + Quad(s) && (more <==> |Quad(s)| == 3)
  {
    hide FromB64, First, Second, Third;
    var a, b, c, d := FromB64(s[0]), FromB64(s[1]), FromB64(s[2]), FromB64(s[3]);
    dst, more := out, false;
    Unit(out);
    if a == 200 || b == 200 { return; }
    dst := dst + [First(a, b)];
    if c == 200 { return; }
    dst := dst + [Second(b, c)];
    if d == 200 { return; }
    dst := dst + [Third(c, d)];
    more := true;
  }

  /** cs_base64_decode. */
  method Decode(s: seq<byte>) returns (dst: seq<byte>, consumed: nat)
    ensures Decoding(dst, consumed) == Decoded(s)
  {
    hide FromB64, Readable, Quad;
    dst, consumed := [], 0;
    assert s[0..] == s;
    Unit(Decoded(s).bytes);
    while Readable(s[consumed..])
      invariant consumed <= |s|
      invariant Decoded(s) == Decoding(dst + Decoded(s[consumed..]).bytes, consumed + Decoded(s[consumed..]).consumed)
      decreases |s| - consumed
    {
      var rest := s[consumed..];
      AtLeastFour(rest);
      assert rest[4..] == s[consumed + 4..];
      Regroup(dst, Quad(rest), Decoded(rest[4..]).bytes);
      consumed := consumed + 4;
      var more;
      dst, more := DecodeQuad(rest, dst);
      if !more { return; }
    }
    Unit(dst);
  }

  lemma AtLeastFour(s: seq<byte>)
    requires Readable(s)
    ensures |s| >= 4
  {
  }
}
