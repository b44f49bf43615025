/** The connection object: the receive buffer edited in place, and the sender. */
module WebSocketConnection {
  import opened Bytes
  import opened Mbuf
  import opened WebSocket

  /** The mask loop: unmasks `n` bytes at `pos` with the four bytes before them. */
  method Unmask(a: array<byte>, pos: nat, n: nat)
    requires 4 <= pos && pos + n <= a.Length
    modifies a
    ensures forall k :: pos <= k < pos + n ==> a[k] == Xor(old(a[k]), old(a[pos - 4 + (k - pos) % 4]))
    ensures forall k :: 0 <= k < a.Length && !(pos <= k < pos + n) ==> a[k] == old(a[k])
  {
    hide Xor;
    var i := 0;
    while i < n
      invariant 0 <= i <= n
      invariant forall k :: pos <= k < pos + i ==> a[k] == Xor(old(a[k]), old(a[pos - 4 + (k - pos) % 4]))
      invariant forall k :: 0 <= k < a.Length && !(pos <= k < pos + i) ==> a[k] == old(a[k])
    {
      a[pos + i] := Xor(a[pos + i], a[pos - 4 + i % 4]);
      i := i + 1;
    }
  }

  class Connection {
    const recv: Buffer
    const noDefrag: bool
    var reassLen: nat
    var events: seq<Event>
    var replies: seq<Reply>
    var refusals: seq<Refusal>
    var undefined: bool

    ghost predicate Valid()
      reads this, recv
    {
      recv.Valid() && reassLen <= recv.len
    }

    ghost function State(): (r: Receiver)
      requires Valid()
      reads this, recv, recv.buf
    {
      Receiver(noDefrag, recv.Contents()[..reassLen], events, replies, refusals, undefined)
    }

    /** The bytes not processed yet. */
    ghost function Rest(): (s: seq<byte>)
      requires Valid()
      reads this, recv, recv.buf
    {
      recv.Contents()[reassLen..]
    }

    /** The connection, in state `r` with unprocessed bytes `s` before, has gone through `o`. */
    ghost predicate Did(o: Outcome, r: Receiver, s: seq<byte>, ok: bool)
      requires Valid()
      reads this, recv, recv.buf
    {
      match o
      case Wait => !ok && State() == r && Rest() == s
      case Refuse(reason) => !ok && State() == r.(refusals := r.refusals + [reason]) && Rest() == s
      case Undefined => !ok && State() == r.(undefined := true) && Rest() == s
      case Advance(kept, rest, events, replies) =>
        && ok && Rest() == rest
        && State() == r.(kept := kept, events := r.events + events, replies := r.replies + replies)
    }

    constructor (noDefrag: bool)
      ensures Valid() && fresh(recv) && fresh(recv.buf)
      ensures State() == Fresh(noDefrag) && Rest() == []
    {
      this.noDefrag := noDefrag;
      recv := new Buffer(0);
      reassLen, events, replies, refusals, undefined := 0, [], [], [], false;
    }

    /** mg_deliver_websocket_data: returns whether a frame was processed. */
    method DeliverData() returns (ok: bool)
      requires Valid()
      modifies this, recv, recv.buf
      ensures Valid() && recv.buf == old(recv.buf) && (ok ==> recv.len < old(recv.len))
      ensures Did(Deliver(old(State()).kept, old(Rest()), noDefrag), old(State()), old(Rest()), ok)
    {
      hide ParseHeader, FrameLength, Consume, Unmasked, Deliver, IsControl, ToReassemble, Connection.Did;
      var s := recv.buf[..recv.len][reassLen..];
      DeliverSteps(State().kept, s, noDefrag);
      NothingDone();
      if s == [] { return false; }
      var flags := s[0];
      var reass := ToReassemble(flags, noDefrag);
      if reass && IsControl(flags) {
        Close(FragmentedControl);
        return false;
      } else if !reass && !IsControl(flags) && reassLen > 0 {
        Close(NonContinuation);
        return false;
      }
      var h := ParseHeader(s);
      var frameLen := FrameLength(h);
      if frameLen < h.headerLen || frameLen < h.dataLen {
        Close(Overflowed);
        return false;
      }
      ok := frameLen > 0 && frameLen <= |s|;
      if ok {
        ok := TakeFrame(h);
      }
    }

    lemma NothingDone()
      requires Valid()
      ensures Did(Wait, State(), Rest(), false)
    {
    }

    /** mg_ws_close with a reason of the receiver's own. */
    method Close(reason: Refusal)
      requires Valid()
      modifies this`refusals
      ensures Valid() && Did(Refuse(reason), old(State()), old(Rest()), false)
    {
      refusals := refusals + [reason];
    }

    /** The frame at the front has wholly arrived: unmask it in place, then keep or deliver it. */
    method TakeFrame(h: Header) returns (ok: bool)
      requires Valid() && h.maskLen in {0, 4} && h.maskLen + 2 <= h.headerLen
      requires h.headerLen + h.dataLen <= |Rest()|
      modifies this, recv, recv.buf
      ensures Valid() && recv.buf == old(recv.buf) && (ok ==> recv.len < old(recv.len))
      ensures Did(Consume(old(State()).kept, old(Rest())[0], Unmasked(old(Rest()), h),
                          old(Rest())[h.headerLen + h.dataLen..], noDefrag),
                  old(State()), old(Rest()), ok)
    {
      hide Consume, Unmasked;
      var flags := recv.buf[reassLen];
      var bad := HasNoMeaning(h);
      if bad {
        undefined := true;
        return false;
      }
      var pos := reassLen + h.headerLen;
      ghost var data, rest := Unmasked(Rest(), h), Rest()[h.headerLen + h.dataLen..];
      UnmaskFront(h);
      ConsumeFront(flags, pos, h.dataLen, data, rest);
      ok := true;
    }

    /** Keeps a fragment, delivers anything else. */
    method ConsumeFront(flags: byte, pos: nat, n: nat, ghost payload: seq<byte>, ghost rest: seq<byte>)
      requires Valid() && reassLen + 2 <= pos && pos + n <= recv.len && recv.buf[reassLen] == flags
      requires recv.Contents()[pos..pos + n] == payload && recv.Contents()[pos + n..] == rest
      requires !Consume(State().kept, flags, payload, rest, noDefrag).Undefined?
      modifies this, recv, recv.buf
      ensures Valid() && recv.buf == old(recv.buf) && recv.len < old(recv.len)
      ensures Consume(old(State().kept), flags, payload, rest, noDefrag).Advance?
      ensures Did(Consume(old(State().kept), flags, payload, rest, noDefrag), old(State()), [], true)
    {
      if ToReassemble(flags, noDefrag) {
        KeepFragment(flags, pos, n, payload, rest);
      } else {
        DeliverWhole(flags, pos, n, payload, rest);
      }
    }

    /** Whether the frame at the front is one of the two that C gives no meaning to. */
    method HasNoMeaning(h: Header) returns (bad: bool)
      requires Valid() && h.maskLen in {0, 4} && h.maskLen + 2 <= h.headerLen
      requires h.headerLen + h.dataLen <= |Rest()|
      ensures bad <==> Consume(State().kept, Rest()[0], Unmasked(Rest(), h),
              Rest()[h.headerLen + h.dataLen..], noDefrag).Undefined?
    {
      hide Unmasked;
      var s := recv.buf[..recv.len][reassLen..];
      if ToReassemble(s[0], noDefrag) {
        bad := Fin(s[0]) && !IsFirstFragment(s[0]) && reassLen + h.dataLen == 0;
      } else {
        bad := Unended(s[0], Unmasked(s, h));
      }
    }

    method UnmaskFront(h: Header)
      requires Valid() && h.maskLen in {0, 4} && h.maskLen + 2 <= h.headerLen
      requires h.headerLen + h.dataLen <= |Rest()|
      modifies recv.buf
      ensures State() == old(State()) && recv.buf[reassLen] == old(Rest())[0]
      ensures var pos := reassLen + h.headerLen;
              && recv.Contents()[pos..pos + h.dataLen] == Unmasked(old(Rest()), h)
              && recv.Contents()[pos + h.dataLen..] == old(Rest())[h.headerLen + h.dataLen..]
    {
      hide Xor, Unmasked;
      ghost var was := recv.Contents();
      assert was[reassLen..] == Rest() && was[..reassLen] == State().kept;
      if h.maskLen > 0 { Unmask(recv.buf, reassLen + h.headerLen, h.dataLen); }
      UnmaskedInPlace(was, recv.Contents(), reassLen, reassLen + h.headerLen, h);
    }

    /** The other branch: a frame complete in itself; the bytes behind it move down over it. */
    method DeliverWhole(flags: byte, pos: nat, n: nat, ghost payload: seq<byte>, ghost rest: seq<byte>)
      requires Valid() && reassLen + 2 <= pos && pos + n <= recv.len
      requires recv.Contents()[pos..pos + n] == payload && recv.Contents()[pos + n..] == rest
      modifies this, recv, recv.buf
      ensures Valid() && recv.buf == old(recv.buf) && recv.len < old(recv.len)
      ensures Did(Advance(old(State().kept), rest, [MakeEvent(flags, payload)], Answer(flags, payload)),
              old(State()), [], true)
    {
      var data := recv.buf[pos..pos + n];
      assert data == payload;
      replies := replies + Answer(flags, data);
      events := events + [MakeEvent(flags, data)];
      recv.Cut(reassLen, pos + n - reassLen);
    }

    /** The fragment branch: appends the payload to the reassembled bytes and hands the message
        over once it is complete. */
    method KeepFragment(flags: byte, pos: nat, n: nat, ghost payload: seq<byte>, ghost rest: seq<byte>)
      requires Valid() && reassLen + 2 <= pos && pos + n <= recv.len && recv.buf[reassLen] == flags
      requires recv.Contents()[pos..pos + n] == payload && recv.Contents()[pos + n..] == rest
      requires !(Fin(flags) && reassLen + n == 0)
      modifies this, recv, recv.buf
      ensures Valid() && recv.buf == old(recv.buf) && recv.len < old(recv.len)
      ensures Did(Reassemble(old(State().kept), flags, payload, rest), old(State()), [], true)
    {
      MoveFragment(flags, pos, n);
      if Fin(flags) {
        assert recv.Contents()[..reassLen][1..] == recv.Contents()[1..reassLen];
        HandOver();
      }
    }

    /** Moves the payload at `pos`, and everything behind it, down to the reassembled bytes. */
    method MoveFragment(flags: byte, pos: nat, n: nat)
      requires Valid() && reassLen + 2 <= pos && pos + n <= recv.len && recv.buf[reassLen] == flags
      modifies this`reassLen, recv, recv.buf
      ensures Valid() && recv.buf == old(recv.buf) && recv.len < old(recv.len)
      ensures recv.Contents() == (if IsFirstFragment(flags) then old(State().kept) + [flags] else old(State().kept))
                                 + old(recv.Contents()[pos..pos + n]) + old(recv.Contents()[pos + n..])
      ensures reassLen == (if IsFirstFragment(flags) then 1 else old(reassLen)) + n
    {
      ghost var was, kept := recv.Contents(), State().kept;
      assert was[pos..] == was[pos..pos + n] + was[pos + n..];
      var to := reassLen;
      if IsFirstFragment(flags) {
        assert was[..to + 1] == kept + [flags];
        to := to + 1;
        reassLen := 1;
      }
      recv.Cut(to, pos - to);
      reassLen := reassLen + n;
    }

    /** The message is complete: its first byte is the opcode, the rest of it goes to the handler. */
    method HandOver()
      requires Valid() && reassLen > 0
      modifies this, recv, recv.buf
      ensures Valid() && recv.buf == old(recv.buf) && recv.len < old(recv.len) && reassLen == 0
      ensures recv.Contents() == old(Rest())
      ensures events == old(events) + [MakeEvent(WithFin(old(State().kept[0])), old(State().kept[1..]))]
      ensures var e := events[|old(events)|]; var first := old(State().kept[0]);
              && e.data == old(State().kept[1..]) && e.flags >= 128 && e.flags % 128 == first % 128
              && (e.control <==> first / 8 % 2 == 1)
      ensures replies == old(replies) && refusals == old(refusals) && undefined == old(undefined)
    {
      assert recv.buf[1..reassLen] == State().kept[1..];
      events := events + [MakeEvent(WithFin(recv.buf[0]), recv.buf[1..reassLen])];
      var cleanup := reassLen;
      reassLen := 0;
      recv.Remove(cleanup);
    }

    /** One arrival: append, then call delivery until it reports that nothing was done. */
    method Received(data: seq<byte>)
      requires Valid()
      modifies this, recv, recv.buf
      ensures Valid() && (recv.buf == old(recv.buf) || fresh(recv.buf))
      ensures (State(), Rest()) == Drain(old(State()), old(Rest()) + data)
    {
      hide Deliver;
      ghost var r, s := State(), Rest() + data;
      recv.Append(data);
      assert recv.Contents() == r.kept + s;
      assert State() == r && Rest() == s;
      var ok := true;
      while ok
        invariant Valid() && (recv.buf == old(recv.buf) || fresh(recv.buf))
        invariant if ok then Drain(State(), Rest()) == Drain(r, s) else (State(), Rest()) == Drain(r, s)
        decreases ok, recv.len
      {
        ok := DeliverData();
      }
    }
  }

  /** The branches of delivery, one by one. */
  lemma DeliverSteps(kept: seq<byte>, s: seq<byte>, noDefrag: bool)
    ensures s == [] ==> Deliver(kept, s, noDefrag) == Wait
    ensures s != [] && ToReassemble(s[0], noDefrag) && IsControl(s[0]) ==>
              Deliver(kept, s, noDefrag) == Refuse(FragmentedControl)
    ensures s != [] && !ToReassemble(s[0], noDefrag) && !IsControl(s[0]) && kept != [] ==>
              Deliver(kept, s, noDefrag) == Refuse(NonContinuation)
    ensures s != [] && !(ToReassemble(s[0], noDefrag) && IsControl(s[0]))
            && !(!ToReassemble(s[0], noDefrag) && !IsControl(s[0]) && kept != []) ==>
              var h := ParseHeader(s); var n := FrameLength(h);
              && (n < h.headerLen || n < h.dataLen ==> Deliver(kept, s, noDefrag) == Refuse(Overflowed))
              && (n >= h.headerLen && n >= h.dataLen && (n == 0 || n > |s|) ==> Deliver(kept, s, noDefrag) == Wait)
              && (n >= h.headerLen && n >= h.dataLen && 0 < n <= |s| ==>
                    Deliver(kept, s, noDefrag) == Consume(kept, s[0], Unmasked(s, h), s[n..], noDefrag))
  {
    hide Consume, Unmasked, ParseHeader, FrameLength, IsControl, ToReassemble;
  }

  /** Unmasking in place turns the frame at `at` into its header followed by the payload. */
  lemma UnmaskedInPlace(was: seq<byte>, now: seq<byte>, at: nat, pos: nat, h: Header)
    requires pos == at + h.headerLen && pos + h.dataLen <= |was| == |now|
    requires h.maskLen in {0, 4} && h.maskLen + 2 <= h.headerLen
    requires forall k :: 0 <= k < |was| && !(h.maskLen > 0 && pos <= k < pos + h.dataLen) ==> now[k] == was[k]
    requires h.maskLen > 0 ==> forall k :: pos <= k < pos + h.dataLen ==>
             now[k] == Xor(was[k], was[pos - 4 + (k - pos) % 4])
    ensures now[..at] == was[..at] && now[at] == was[at]
    ensures now[pos..pos + h.dataLen] == Unmasked(was[at..], h)
    ensures now[pos + h.dataLen..] == was[at..][h.headerLen + h.dataLen..]
  {
    var s := was[at..];
    var data := s[h.headerLen..h.headerLen + h.dataLen];
    assert data == was[pos..pos + h.dataLen];
    if h.maskLen > 0 {
      var key := s[h.headerLen - h.maskLen..h.headerLen];
      assert key == was[pos - 4..pos];
      forall i | 0 <= i < h.dataLen ensures now[pos..pos + h.dataLen][i] == Masked(data, key)[i] {
        assert now[pos + i] == Xor(was[pos + i], was[pos - 4 + (pos + i - pos) % 4]);
        assert data[i] == was[pos + i] && key[i % 4] == was[pos - 4 + i % 4];
      }
    }
  }

  // ---------------------------------------------------------------- the sender

  const DONT_FIN := 0x100

  /** The frame mg_send_websocket_frame chooses for `op`, a payload and a mask. */
  function SentFrame(op: nat, data: seq<byte>, mask: Option<Key>): (f: Frame) {
    var form := if |data| < 126 then Short else if |data| < 65535 then Medium else Long;
    Frame((if op / DONT_FIN % 2 == 1 then 0 else 128) + op % 16, form, mask, data)
  }

  /** Every payload below 2^63 bytes is sent well formed, hence readable by `AnyCutDelivers`, but for an
      unended close; the length field is the shortest possible except for exactly 65535 bytes, where
      section 5.2 asks for the 16-bit form and the sender takes the 64-bit one. */
  lemma SentFrameIsReadable(op: nat, data: seq<byte>, mask: Option<Key>)
    requires |data| < TWO_63
    ensures var f := SentFrame(op, data, mask); WellFormed(f) <==> !Unended(f.flags, data)
    ensures var f := SentFrame(op, data, mask);
            && f.payload == data && f.mask == mask && f.flags % 16 == op % 16 && f.flags / 16 % 8 == 0
            && (f.flags >= 128 <==> op / 0x100 % 2 == 0)
    ensures (forall form :: LengthFits(form, |data|) ==>
               |LengthField(|data|, SentFrame(op, data, mask).form)| <= |LengthField(|data|, form)|)
            <==> |data| != 65535
  {
    if |data| == 65535 {
      assert LengthFits(Medium, |data|);
      assert |LengthField(|data|, Medium)| < |LengthField(|data|, Long)|;
    }
  }

  /** The mask loop of the sender, from `pos` to the end of the send buffer. */
  method MaskFrame(send: Buffer, pos: nat, key: Key)
    requires send.Valid() && pos <= send.len
    modifies send.buf
    ensures send.Contents() == old(send.Contents()[..pos]) + Masked(old(send.Contents()[pos..]), key)
  {
    hide Xor;
    var a := send.buf;
    var n := send.len - pos;
    var i := 0;
    while i < n
      invariant 0 <= i <= n
      invariant forall k :: pos <= k < pos + i ==> a[k] == Xor(old(a[k]), key[(k - pos) % 4])
      invariant forall k :: 0 <= k < a.Length && !(pos <= k < pos + i) ==> a[k] == old(a[k])
    {
      a[pos + i] := Xor(a[pos + i], key[i % 4]);
      i := i + 1;
    }
    ghost var data := old(send.Contents()[pos..]);
    forall k | 0 <= k < n ensures a[pos + k] == Masked(data, key)[k] {
      assert a[pos + k] == Xor(old(a[pos + k]), key[(pos + k - pos) % 4]);
    }
  }

  /** mg_send_ws_header: appends the header and, on a client connection, the mask. */
  method SendHeader(send: Buffer, op: nat, len: nat, mask: Option<Key>, ghost f: Frame)
    requires send.Valid() && |f.payload| == len && f == SentFrame(op, f.payload, mask)
    modifies send, send.buf
    ensures send.Valid() && (send.buf == old(send.buf) || fresh(send.buf))
    ensures send.Contents() == old(send.Contents()) + Head(f)
  {
    hide LengthField, LengthCode;
    ghost var before := send.Contents();
    var flags: byte := (if op / DONT_FIN % 2 == 1 then 0 else 128) + op % 16;
    var bit := if mask.Some? then 128 else 0;
    var form := if len < 126 then Short else if len < 65535 then Medium else Long;
    var first := [flags, LengthCode(len, form) + bit] + LengthField(len, form);
    send.Append(first);
    if mask.Some? {
      send.Append(mask.value);
      Regroup(before, first, mask.value);
    } else {
      Unit(first);
    }
  }

  /** mg_send_websocket_frame: header and payload appended, then the payload masked in place. */
  method SendFrame(send: Buffer, op: nat, data: seq<byte>, mask: Option<Key>)
    requires send.Valid()
    modifies send, send.buf
    ensures send.Valid() && (send.buf == old(send.buf) || fresh(send.buf))
    ensures send.Contents() == old(send.Contents()) + Encode(SentFrame(op, data, mask))
  {
    ghost var before, f := send.Contents(), SentFrame(op, data, mask);
    SendHeader(send, op, |data|, mask, f);
    var pos := send.len;
    send.Append(data);
    if mask.Some? { MaskFrame(send, pos, mask.value); }
    assert send.Contents() == before + Head(f) + Apply(data, mask);
  }
}
