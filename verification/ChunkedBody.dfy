/** The receive buffer of a chunked message, from the end of its headers on: chunks collapsed in
    place.  And the chunk sender. */
module ChunkedBody {
  import opened Bytes
  import opened Mbuf
  import opened Chunked

  lemma HexSnoc(s: seq<byte>, i: nat)
    requires i < |s| && forall k :: 0 <= k <= i ==> IsHex(s[k])
    ensures HexValue(s[..i + 1]) == 16 * HexValue(s[..i]) + HexDigit(s[i])
  {
    assert s[..i + 1][..i] == s[..i];
  }

  lemma WrapStep(x: nat, d: nat)
    ensures (16 * (x % TWO_64) + d) % TWO_64 == (16 * x + d) % TWO_64
  {
    var q, r := x / TWO_64, x % TWO_64;
    assert 16 * x + d == TWO_64 * (16 * q) + (16 * r + d);
    DropMultiples(16 * q, 16 * r + d);
  }

  lemma {:induction false} DropMultiples(k: nat, y: nat)
    ensures (TWO_64 * k + y) % TWO_64 == y % TWO_64
  {
    if k > 0 {
      DropMultiples(k - 1, y);
      var z := TWO_64 * (k - 1) + y;
      assert TWO_64 * k + y == z + TWO_64;
    }
  }

  /** mg_http_parse_chunk, with its loop over the size digits. */
  method ScanChunk(buf: array<byte>, at: nat, end: nat) returns (c: Chunk)
    requires at <= end <= buf.Length
    ensures c == ParseChunk(buf[at..end])
  {
    hide HexCount, HexValue;
    ghost var s := buf[at..end];
    var len := end - at;
    var n, i := 0, 0;
    EmptyHex();
    while i < len && IsHex(buf[at + i])
      invariant 0 <= i <= len && (forall k :: 0 <= k < i ==> IsHex(s[k])) && n == HexValue(s[..i]) % TWO_64
    {
      assert buf[at + i] == s[i];
      HexSnoc(s, i);
      WrapStep(HexValue(s[..i]), HexDigit(s[i]));
      n := (n * 16 + HexDigit(buf[at + i])) % TWO_64;
      i := i + 1;
    }
    HexCountIs(s, i);
    if i == 0 || i + 2 > len || buf[at + i] != CR || buf[at + i + 1] != LF {
      return Nothing;
    }
    var e := i + 2 + n;
    if e + 2 > len || buf[at + e] != CR || buf[at + e + 1] != LF {
      return Nothing;
    }
    return Chunk(i + 2, n, e + 2);
  }

  lemma EmptyHex()
    ensures HexValue([]) == 0
  {
  }

  /** memmove towards the front, byte by byte. */
  method Slide(a: array<byte>, dst: nat, src: nat, n: nat)
    requires dst <= src && src + n <= a.Length
    modifies a
    ensures a[..dst + n] == old(a[..dst]) + old(a[src..src + n])
    ensures forall k :: src + n <= k < a.Length ==> a[k] == old(a[k])
  {
    forall i | dst <= i < dst + n {
      a[i] := a[src + (i - dst)];
    }
  }

  lemma Within(s: seq<byte>, len: nat, i: nat, a: nat, b: nat)
    requires i <= len <= |s| && a <= b <= len - i
    ensures s[..len][i..][a..b] == s[i + a..i + b]
    ensures b == len - i ==> s[..len][i..][a..] == s[i + a..len]
    ensures i == 0 ==> s[..len][a..b] == s[a..b]
  {
    var x, y := s[..len][i..][a..b], s[i + a..i + b];
    forall k | 0 <= k < |x| ensures x[k] == y[k] {
    }
    var z := s[..len][i..];
    assert b == len - i ==> z[a..] == z[a..b];
    assert i == 0 ==> z == s[..len];
  }

  /** The slide seen from the contents of the buffer, which end at `len`. */
  lemma MovedDown(was: seq<byte>, now: seq<byte>, len: nat, at: nat, i: nat, c: Chunk)
    requires c.Chunk? && c.start + c.len <= c.total && at <= i && i + c.total <= len <= |was| == |now|
    requires now[..at + c.len] == was[..at] + was[i + c.start..i + c.start + c.len]
    requires forall k :: i + c.start + c.len <= k < |was| ==> now[k] == was[k]
    ensures now[..len][..at + c.len] == was[..at] + was[..len][i..][c.start..c.start + c.len]
    ensures now[..len][i + c.total..] == was[..len][i..][c.total..]
  {
    Within(now, len, 0, 0, at + c.len);
    Within(was, len, i, c.start, c.start + c.len);
    Within(was, len, i, c.total, len - i);
    Within(now, len, 0, i + c.total, len);
    assert now[i + c.total..len] == was[i + c.total..len];
  }

  class BodyReader {
    const recv: Buffer
    const headerLen: nat
    var bodyLen: nat
    var complete: bool
    /** Size of the whole message, known with the zero chunk. */
    var messageLen: Option<nat>
    ghost var deleted: seq<byte>

    ghost predicate Valid()
      reads this, recv
    {
      recv.Valid() && bodyLen <= recv.len
    }

    ghost function State(): (b: Body)
      requires Valid()
      reads this, recv, recv.buf
    {
      Body(deleted, recv.Contents()[..bodyLen], complete)
    }

    /** The bytes not reassembled yet. */
    ghost function Rest(): (s: seq<byte>)
      requires Valid()
      reads this, recv, recv.buf
    {
      recv.Contents()[bodyLen..]
    }

    constructor (headerLen: nat)
      ensures Valid() && fresh(recv) && fresh(recv.buf) && State() == Body([], [], false) && Rest() == []
      ensures this.headerLen == headerLen && messageLen == None
    {
      this.headerLen := headerLen;
      recv := new Buffer(0);
      bodyLen, complete, deleted, messageLen := 0, false, [], None;
    }

    /** The collapsing loop: moves the data of each whole chunk down behind the body. */
    method CollapseChunks() returns (i: nat, last: bool)
      requires Valid()
      modifies this`bodyLen, recv.buf
      ensures bodyLen <= i <= recv.len && old(bodyLen) <= i && (last ==> bodyLen < i)
      ensures var c := Collapse(old(Rest()));
              && recv.Contents()[..bodyLen] == old(State().kept) + c.data
              && recv.Contents()[i..] == c.rest && last == c.last
    {
      hide ParseChunk, Collapse, Owed;
      ghost var kept, s, rest := State().kept, Rest(), Rest();
      ghost var data: seq<byte> := [];
      i, last := bodyLen, false;
      Unit(kept);
      OwedStart(s);
      while true
        invariant old(bodyLen) <= i <= recv.len && bodyLen <= i && !last
        invariant recv.Contents()[..bodyLen] == kept + data && recv.Contents()[i..] == rest
        invariant Owed(s, data, rest)
        decreases recv.len - i
      {
        assert rest == recv.buf[i..recv.len];
        var c := ScanChunk(recv.buf, i, recv.len);
        OwedStep(s, data, rest, kept);
        if c.Nothing? {
          return;
        }
        MoveDown(i, c, kept + data);
        i := i + c.total;
        data := data + rest[c.start..c.start + c.len];
        rest := rest[c.total..];
        if c.len == 0 {
          last := true;
          return;
        }
      }
    }

    /** One chunk: its data moves down, the bytes behind it stay where they are. */
    method MoveDown(i: nat, c: Chunk, ghost body: seq<byte>)
      requires Valid() && bodyLen <= i && c.Chunk? && c.start + c.len <= c.total && i + c.total <= recv.len
      requires recv.Contents()[..bodyLen] == body
      modifies this`bodyLen, recv.buf
      ensures Valid() && bodyLen == old(bodyLen) + c.len
      ensures recv.Contents()[..bodyLen] == body + old(recv.Contents()[i..])[c.start..c.start + c.len]
      ensures recv.Contents()[i + c.total..] == old(recv.Contents()[i..])[c.total..]
    {
      ghost var was := recv.buf[..];
      assert was[..bodyLen] == recv.Contents()[..bodyLen];
      Slide(recv.buf, bodyLen, i + c.start, c.len);
      MovedDown(was, recv.buf[..], recv.len, bodyLen, i, c);
      bodyLen := bodyLen + c.len;
    }

    /** One arrival; once the message is complete its body takes no more. */
    method Received(data: seq<byte>, delete: bool)
      requires Valid()
      modifies this, recv, recv.buf
      ensures Valid() && (recv.buf == old(recv.buf) || fresh(recv.buf))
      ensures (State(), Rest()) == Arrive(old(State()), old(Rest()) + data, delete)
      ensures messageLen == if complete && !old(complete) then Some(headerLen + recv.len) else old(messageLen)
    {
      hide Collapse;
      ghost var b, s := State(), Rest() + data;
      recv.Append(data);
      assert State() == b && Rest() == s;
      if !complete { HandleChunked(delete); }
    }

    /** mg_handle_chunked, with the callback's choice of MG_F_DELETE_CHUNK. */
    method HandleChunked(delete: bool)
      requires Valid() && !complete
      modifies this, recv, recv.buf
      ensures Valid() && recv.buf == old(recv.buf)
      ensures (State(), Rest()) == Arrive(old(State()), old(Rest()), delete)
      ensures messageLen == if complete then Some(headerLen + recv.len) else old(messageLen)
    {
      hide Collapse;
      ghost var from, c := bodyLen, Collapse(Rest());
      var i, last := CollapseChunks();
      assert bodyLen == from + |c.data| && i == from + old(|Rest()|) - |c.rest|;
      complete := last;
      if i > bodyLen {
        ShiftRest(i);
        assert State().kept == old(State().kept) + c.data && Rest() == c.rest;
        var behind := recv.len - bodyLen;
        if delete { DeleteBody(); }
        if complete { messageLen := Some(bodyLen + behind + headerLen); }
      }
    }

    method DeleteBody()
      requires Valid()
      modifies this`bodyLen, this`deleted, recv`len, recv.buf
      ensures Valid() && recv.buf == old(recv.buf)
      ensures State() == Body(old(deleted) + old(State().kept), [], complete) && Rest() == old(Rest())
    {
      deleted := deleted + recv.Contents()[..bodyLen];
      recv.Cut(0, bodyLen);
      bodyLen := 0;
    }

    /** Moves the unparsed bytes behind the body and clears what they leave behind. */
    method ShiftRest(i: nat)
      requires Valid() && bodyLen <= i <= recv.len
      modifies recv`len, recv.buf
      ensures Valid() && recv.buf == old(recv.buf)
      ensures recv.Contents() == old(recv.Contents()[..bodyLen]) + old(recv.Contents()[i..])
      ensures forall k :: recv.len <= k < old(recv.len) ==> recv.buf[k] == 0
    {
      recv.Cut(bodyLen, i - bodyLen);
      forall k | recv.len <= k < recv.len + (i - bodyLen) {
        recv.buf[k] := 0;
      }
    }
  }

  /** With `data` collapsed from the front of `s`, `rest` still owes the remainder. */
  ghost predicate Owed(s: seq<byte>, data: seq<byte>, rest: seq<byte>) {
    var r := Collapse(rest);
    Collapse(s) == Collapsed(data + r.data, r.rest, r.last)
  }

  lemma OwedStart(s: seq<byte>)
    ensures Owed(s, [], s)
  {
    Unit(Collapse(s).data);
  }

  lemma OwedStep(s: seq<byte>, data: seq<byte>, rest: seq<byte>, kept: seq<byte>)
    requires Owed(s, data, rest)
    ensures var c := ParseChunk(rest);
            && (c.Nothing? ==> Collapse(s) == Collapsed(data, rest, false))
            && (c.Chunk? ==>
                kept + data + rest[c.start..c.start + c.len] == kept + (data + rest[c.start..c.start + c.len]))
            && (c.Chunk? && c.len == 0 ==>
                Collapse(s) == Collapsed(data + rest[c.start..c.start + c.len], rest[c.total..], true))
            && (c.Chunk? && c.len > 0 ==> Owed(s, data + rest[c.start..c.start + c.len], rest[c.total..]))
  {
    hide ParseChunk;
    Unit(data);
    var c := ParseChunk(rest);
    if c.Chunk? {
      var piece := rest[c.start..c.start + c.len];
      var r := Collapse(rest[c.total..]);
      assert data + (piece + r.data) == data + piece + r.data;
      assert kept + data + piece == kept + (data + piece);
    }
  }

  /** mg_send_http_chunk */
  method SendChunk(send: Buffer, data: seq<byte>)
    requires send.Valid()
    modifies send, send.buf
    ensures send.Valid() && send.Contents() == old(send.Contents()) + Encode(data)
  {
    hide Hex;
    ghost var before := send.Contents();
    send.Append(Hex(|data|) + [CR, LF]);
    send.Append(data);
    send.Append([CR, LF]);
    assert send.Contents() == before + (Hex(|data|) + [CR, LF]) + data + [CR, LF];
  }
}
