/** HTTP chunked bodies (section 4.1 of RFC 7230): collapsing chunks in place as they arrive. */
module Chunked {
  import opened Bytes
  import opened Framing

  const CR := 13
  const LF := 10

  // ---------------------------------------------------------------- hexadecimal numbers

  predicate IsHex(b: byte) { 48 <= b <= 57 || 65 <= b <= 70 || 97 <= b <= 102 }

  function HexDigit(b: byte): (d: nat)
    requires IsHex(b)
    ensures d < 16
  {
    if b <= 57 then b - 48 else if b <= 70 then b - 65 + 10 else b - 97 + 10
  }

  /** Value of a string of digits. */
  function HexValue(s: seq<byte>): (n: nat)
    requires forall i :: 0 <= i < |s| ==> IsHex(s[i])
  {
    if s == [] then 0 else 16 * HexValue(s[..|s| - 1]) + HexDigit(s[|s| - 1])
  }

  /** How many digits a string starts with. */
  function HexCount(s: seq<byte>): (n: nat)
    ensures n <= |s| && (forall i :: 0 <= i < n ==> IsHex(s[i])) && (n < |s| ==> !IsHex(s[n]))
  {
    if s == [] || !IsHex(s[0]) then 0 else 1 + HexCount(s[1..])
  }

  lemma {:induction false} HexCountIs(s: seq<byte>, n: nat)
    requires n <= |s| && (forall i :: 0 <= i < n ==> IsHex(s[i])) && (n < |s| ==> !IsHex(s[n]))
    ensures HexCount(s) == n
  {
    if n > 0 { HexCountIs(s[1..], n - 1); }
  }

  /** `%lX` */
  function Hex(n: nat): (r: seq<byte>)
    ensures |r| > 0 && forall i :: 0 <= i < |r| ==> IsHex(r[i])
  {
    var d := n % 16;
    var digit: byte := if d < 10 then 48 + d else 55 + d;
    if n < 16 then [digit] else Hex(n / 16) + [digit]
  }

  lemma {:induction false} HexRoundTrip(n: nat)
    ensures HexValue(Hex(n)) == n
  {
    var h := Hex(n);
    if n >= 16 {
      HexRoundTrip(n / 16);
      assert h[..|h| - 1] == Hex(n / 16);
    } else {
      assert h[..0] == [];
    }
  }

  /** The digits by their letters, small or capital; those written are decimal or capital. */
  lemma HexLetters(d: nat)
    requires d < 16
    ensures var low, high := "0123456789abcdef"[d] as int, "0123456789ABCDEF"[d] as int;
            && 0 <= low < 256 && 0 <= high < 256 && IsHex(low) && IsHex(high)
            && HexDigit(low) == d && HexDigit(high) == d && Hex(d) == [high]
  {
  }

  /** No other bytes are digits. */
  lemma HexOnly(b: byte)
    requires IsHex(b)
    ensures b == "0123456789abcdef"[HexDigit(b)] as int || b == "0123456789ABCDEF"[HexDigit(b)] as int
  {
  }

  /** On the wire: size, line end, data, line end. */
  lemma ChunkInBytes()
    ensures Encode([104, 105]) == [50, 13, 10, 104, 105, 13, 10] && Encode([]) == [48, 13, 10, 13, 10]
  {
    assert Hex(2) == [50] && Hex(0) == [48];
  }

  // ---------------------------------------------------------------- one chunk

  datatype Chunk = Nothing | Chunk(start: nat, len: nat, total: nat)

  /** mg_http_parse_chunk: where the data of a wholly buffered chunk lies, and its size overall. */
  function ParseChunk(s: seq<byte>): (r: Chunk)
    ensures r.Chunk? ==> 0 < r.start <= r.start + r.len < r.total <= |s|
  {
    var i := HexCount(s);
    if i == 0 || i + 2 > |s| || s[i] != CR || s[i + 1] != LF then Nothing
    else
      var n := HexValue(s[..i]) % TWO_64;
      var e := i + 2 + n;
      if e + 2 > |s| || s[e] != CR || s[e + 1] != LF then Nothing else Chunk(i + 2, n, e + 2)
  }

  /** mg_send_http_chunk */
  function Encode(data: seq<byte>): (r: seq<byte>)
    ensures |r| > 0
  {
    Hex(|data|) + [CR, LF] + data + [CR, LF]
  }

  lemma SizeLine(data: seq<byte>, s: seq<byte>)
    requires |data| < TWO_63 && Hex(|data|) + [CR, LF] <= s
    ensures var i := |Hex(|data|)|;
            && HexCount(s) == i && HexValue(s[..i]) % TWO_64 == |data| && i + 2 <= |s| && s[i] == CR && s[i + 1] == LF
  {
    var h := Hex(|data|);
    var line := h + [CR, LF];
    assert s[..|line|] == line;
    assert s[..|h|] == line[..|h|] == h;
    assert forall k :: 0 <= k < |h| ==> s[k] == s[..|h|][k];
    assert s[|h|] == line[|h|] && s[|h| + 1] == line[|h| + 1];
    HexRoundTrip(|data|);
    HexCountIs(s, |h|);
  }

  lemma ParseWhole(data: seq<byte>, tail: seq<byte>)
    requires |data| < TWO_63
    ensures var s := Encode(data) + tail; var c := ParseChunk(s);
            && c == Chunk(|Hex(|data|)| + 2, |data|, |Encode(data)|)
            && s[c.start..c.start + c.len] == data && s[c.total..] == tail
  {
    hide Hex, HexCount, HexValue;
    var s, h := Encode(data) + tail, Hex(|data|);
    assert s == h + [CR, LF] + (data + [CR, LF] + tail);
    SizeLine(data, s);
    var i := |h| + 2;
    assert s[i..i + |data|] == data && s[i + |data|..] == [CR, LF] + tail;
    assert s[i + |data|] == s[i + |data|..][0] && s[i + |data| + 1] == s[i + |data|..][1];
  }

  lemma ParsePart(data: seq<byte>, q: seq<byte>)
    requires |data| < TWO_63 && q <= Encode(data) && |q| < |Encode(data)|
    ensures ParseChunk(q) == Nothing
  {
    hide Hex, HexCount, HexValue;
    var all, h := Encode(data), Hex(|data|);
    assert q == all[..|q|];
    if |q| < |h| + 2 {
      assert forall k :: 0 <= k < |q| && k < |h| ==> q[k] == all[k] == h[k];
      if |q| <= |h| { HexCountIs(q, |q|); } else { assert q[|h|] == all[|h|] == CR; HexCountIs(q, |h|); }
    } else {
      assert all[..|h| + 2] == h + [CR, LF];
      assert q[..|h| + 2] == all[..|h| + 2];
      SizeLine(data, q);
    }
  }

  // ---------------------------------------------------------------- one arrival

  datatype Collapsed = Collapsed(data: seq<byte>, rest: seq<byte>, last: bool)

  /** The loop of mg_handle_chunked: the data of all wholly buffered chunks, up to a zero chunk. */
  function Collapse(s: seq<byte>): (r: Collapsed)
    ensures |r.rest| < |s| ==> |r.data| + |r.rest| < |s|
    ensures |r.rest| >= |s| ==> r == Collapsed([], s, false)
    decreases |s|
  {
    match ParseChunk(s)
    case Nothing => Collapsed([], s, false)
    case Chunk(start, len, total) =>
      if len == 0 then Collapsed([], s[total..], true)
      else
        var r := Collapse(s[total..]);
        Collapsed(s[start..start + len] + r.data, r.rest, r.last)
  }

  /** A body being received: the bytes handed out and deleted by the callback so far, those still in
      the buffer, and whether the zero chunk has come.  After it the message is complete and the
      caller gives this body no further bytes. */
  datatype Body = Body(deleted: seq<byte>, kept: seq<byte>, complete: bool)

  /** One arrival, with the callback's choice of MG_F_DELETE_CHUNK. */
  function Arrive(b: Body, s: seq<byte>, delete: bool): (r: (Body, seq<byte>)) {
    if b.complete then (b, s)
    else
      var c := Collapse(s);
      var kept := b.kept + c.data;
      if |c.rest| < |s| && delete then (Body(b.deleted + kept, [], c.last), c.rest)
      else (Body(b.deleted, kept, c.last), c.rest)
  }

  function Receiving(b: Body, left: seq<byte>, arrivals: seq<seq<byte>>, deletes: seq<bool>): (r: (Body, seq<byte>))
    requires |deletes| == |arrivals|
    decreases arrivals
  {
    if arrivals == [] then (b, left)
    else
      var (b', left') := Arrive(b, left + arrivals[0], deletes[0]);
      Receiving(b', left', arrivals[1..], deletes[1..])
  }

  // ---------------------------------------------------------------- any cut, any deletions

  /** The body as sent so far, wherever its bytes are now. */
  datatype Total = Total(data: seq<byte>, complete: bool)

  function Advance(t: Total, s: seq<byte>): (r: (Total, seq<byte>)) {
    if t.complete then (t, s)
    else
      var c := Collapse(s);
      (Total(t.data + c.data, c.last), c.rest)
  }

  predicate Expected(t: Total, piece: seq<byte>) { !t.complete && |piece| < TWO_63 }

  function Grow(t: Total, piece: seq<byte>): (r: Total) { Total(t.data + piece, piece == []) }

  lemma AdvanceReads()
    ensures Reads(Advance, Encode, Expected, Grow)
  {
    hide Encode, ParseChunk;
    forall t, piece, tail | Expected(t, piece)
      ensures Advance(t, Encode(piece) + tail) == Advance(Grow(t, piece), tail) {
      ParseWhole(piece, tail);
      Unit(t.data);
      if piece != [] {
        var c := Collapse(tail);
        assert t.data + (piece + c.data) == t.data + piece + c.data;
      }
    }
    forall t, piece, q | Expected(t, piece) && q <= Encode(piece) && |q| < |Encode(piece)|
      ensures Advance(t, q) == (t, q) {
      ParsePart(piece, q);
      Unit(t.data);
    }
    forall t: Total ensures Advance(t, []) == (t, []) {
      Unit(t.data);
      NothingInNothing();
    }
  }

  lemma NothingInNothing()
    ensures ParseChunk([]) == Nothing
  {
  }

  /** Deletions move bytes out of the buffer but change nothing else. */
  lemma {:induction false} DeletionsDoNotMatter(b: Body, left: seq<byte>, arrivals: seq<seq<byte>>, deletes: seq<bool>)
    requires |deletes| == |arrivals|
    ensures var (b', left') := Receiving(b, left, arrivals, deletes);
            Receive(Advance, Total(b.deleted + b.kept, b.complete), left, arrivals)
            == (Total(b'.deleted + b'.kept, b'.complete), left')
    decreases arrivals
  {
    hide Collapse;
    if arrivals != [] {
      var s := left + arrivals[0];
      var (b', left') := Arrive(b, s, deletes[0]);
      var c := Collapse(s);
      assert b.deleted + (b.kept + c.data) == b.deleted + b.kept + c.data;
      Unit(b.deleted + (b.kept + c.data));
      DeletionsDoNotMatter(b', left', arrivals[1..], deletes[1..]);
    }
  }

  lemma {:induction false} GrowAll(t: Total, pieces: seq<seq<byte>>)
    requires forall p :: p in pieces ==> p != []
    ensures After(Grow, t, pieces) == if pieces == [] then t else Total(t.data + Flatten(pieces), false)
    decreases pieces
  {
    if pieces != [] {
      assert pieces[0] in pieces && forall p :: p in pieces[1..] ==> p in pieces;
      GrowAll(Grow(t, pieces[0]), pieces[1..]);
      assert t.data + pieces[0] + Flatten(pieces[1..]) == t.data + Flatten(pieces);
      if pieces[1..] == [] { Unit(t.data + pieces[0]); }
    }
  }

  lemma {:induction false} PiecesExpected(t: Total, pieces: seq<seq<byte>>, last: seq<seq<byte>>)
    requires !t.complete && (forall p :: p in pieces ==> p != [] && |p| < TWO_63) && (last == [] || last == [[]])
    ensures Valid(Expected, Grow, t, pieces + last)
    decreases pieces
  {
    var all := pieces + last;
    if pieces != [] {
      assert pieces[0] in pieces && all[1..] == pieces[1..] + last && all[0] == pieces[0];
      PiecesExpected(Grow(t, pieces[0]), pieces[1..], last);
    } else {
      assert all == last;
      assert last != [] ==> last[1..] == [];
    }
  }

  /** Main theorem.  For every list of non-empty pieces closed by a zero chunk, every cut of the bytes
      and every deletion choice, at every moment: the bytes deleted and kept so far are exactly the
      data of the chunks wholly received, and the rest of the bytes is kept unparsed behind it. */
  lemma AnyPrefixCollapses(pieces: seq<seq<byte>>, arrivals: seq<seq<byte>>, deletes: seq<bool>)
    requires forall p :: p in pieces ==> p != [] && |p| < TWO_63
    requires Flatten(arrivals) <= Wire(Encode, pieces + [[]]) && |deletes| == |arrivals|
    ensures var q := Flatten(arrivals);
            var done := (pieces + [[]])[..Whole(Encode, pieces + [[]], |q|)];
            var (b, left) := Receiving(Body([], [], false), [], arrivals, deletes);
            && b.deleted + b.kept == Flatten(done) && Wire(Encode, done) <= q && left == q[|Wire(Encode, done)|..]
            && (b.complete <==> |done| == |pieces| + 1)
  {
    hide Encode, Arrive, Advance, Reads, Valid, Whole, Receive, Receiving, After, Grow, Expected;
    var start := Total([], false);
    var all := pieces + [[]];
    var q := Flatten(arrivals);
    AdvanceReads();
    PiecesExpected(start, pieces, [[]]);
    AnyPrefix(Advance, Encode, Expected, Grow, start, all, arrivals);
    DeletionsDoNotMatter(Body([], [], false), [], arrivals, deletes);
    Unit<byte>([]);
    var k := Whole(Encode, all, |q|);
    WirePrefix(Encode, all, k);
    assert q == Wire(Encode, all)[..|q|];
    AfterSome(pieces, k);
  }

  lemma AfterSome(pieces: seq<seq<byte>>, k: nat)
    requires k <= |pieces| + 1 && forall p :: p in pieces ==> p != []
    ensures After(Grow, Total([], false), (pieces + [[]])[..k])
            == Total(Flatten((pieces + [[]])[..k]), k == |pieces| + 1)
  {
    var done := (pieces + [[]])[..k];
    if k <= |pieces| {
      assert done == pieces[..k] && forall p :: p in pieces[..k] ==> p in pieces;
      GrowAll(Total([], false), done);
      Unit(Flatten(done));
    } else {
      assert done == pieces + [[]];
      FlattenSnoc(pieces, []);
      Unit(Flatten(pieces));
      GrowAll(Total([], false), pieces);
      AfterSnoc(Total([], false), pieces, []);
    }
  }

  lemma {:induction false} AfterSnoc(t: Total, pieces: seq<seq<byte>>, last: seq<byte>)
    ensures After(Grow, t, pieces + [last]) == Grow(After(Grow, t, pieces), last)
    decreases pieces
  {
    var all := pieces + [last];
    if pieces != [] {
      assert all[1..] == pieces[1..] + [last] && all[0] == pieces[0];
      AfterSnoc(Grow(t, pieces[0]), pieces[1..], last);
    } else {
      assert all == [last] && all[1..] == [];
    }
  }
}
