/** What the meaning of a WebSocket stream is in the terms of section 5 of RFC 6455: messages, whole or
    fragmented, and control frames between their fragments. */
module WebSocketMessages {
  import opened Bytes
  import opened Framing
  import opened WebSocket

  /** Close, ping and pong. */
  predicate ControlOp(flags: byte) { flags % 16 == 8 || flags % 16 == 9 || flags % 16 == 10 }

  function ControlFrames(fs: seq<Frame>): (r: seq<Frame>) {
    if fs == [] then [] else (if ControlOp(fs[0].flags) then [fs[0]] else []) + ControlFrames(fs[1..])
  }

  function DataFrames(fs: seq<Frame>): (r: seq<Frame>) {
    if fs == [] then [] else (if ControlOp(fs[0].flags) then [] else [fs[0]]) + DataFrames(fs[1..])
  }

  function ControlEvents(es: seq<Event>): (r: seq<Event>) {
    if es == [] then [] else (if ControlOp(es[0].flags) then [es[0]] else []) + ControlEvents(es[1..])
  }

  function DataEvents(es: seq<Event>): (r: seq<Event>) {
    if es == [] then [] else (if ControlOp(es[0].flags) then [] else [es[0]]) + DataEvents(es[1..])
  }

  /** The payloads of frames one after another. */
  function Payloads(fs: seq<Frame>): (r: seq<byte>) {
    if fs == [] then [] else fs[0].payload + Payloads(fs[1..])
  }

  /** The data of events one after another. */
  function DataOf(es: seq<Event>): (r: seq<byte>) {
    if es == [] then [] else es[0].data + DataOf(es[1..])
  }

  /** The event of one frame. */
  predicate EventOf(e: Event, f: Frame) {
    e.flags == f.flags && e.data == f.payload && (e.control <==> f.flags / 8 % 2 == 1)
  }

  /** The event of a message in fragments: the first byte of its first frame with FIN set, the payloads
      of all of them. */
  predicate EventOfMessage(e: Event, fs: seq<Frame>) {
    && fs != [] && e.data == Payloads(fs)
    && e.flags >= 128 && e.flags % 128 == fs[0].flags % 128 && (e.control <==> fs[0].flags / 8 % 2 == 1)
  }

  /** How many frames the first message takes: up to and with the first that has FIN set. */
  function MessageLength(fs: seq<Frame>): (n: nat)
    ensures n <= |fs| && (fs != [] ==> n > 0)
    ensures forall i :: 0 <= i < n - 1 ==> fs[i].flags < 128
  {
    if fs == [] then 0 else if fs[0].flags >= 128 then 1 else 1 + MessageLength(fs[1..])
  }

  /** Whether the first message is complete. */
  predicate Complete(fs: seq<Frame>) { fs != [] && fs[MessageLength(fs) - 1].flags >= 128 }

  /** Data frames, event by event: one event for each complete message, in order. */
  predicate EventsOfMessages(es: seq<Event>, fs: seq<Frame>)
    decreases |fs|
  {
    if Complete(fs) then
      var n := MessageLength(fs);
      es != [] && EventOfMessage(es[0], fs[..n]) && EventsOfMessages(es[1..], fs[n..])
    else es == []
  }

  /** The frames of the message that is still open. */
  function OpenFrames(fs: seq<Frame>): (r: seq<Frame>)
    decreases |fs|
  {
    if Complete(fs) then OpenFrames(fs[MessageLength(fs)..]) else fs
  }

  /** The answers owed: a pong to each ping and a close to a close, with the same payload. */
  function Owed(fs: seq<Frame>): (r: seq<Reply>) {
    if fs == [] then []
    else
      (if fs[0].flags % 16 == 9 then [Reply(10, fs[0].payload)]
       else if fs[0].flags % 16 == 8 then [Reply(8, fs[0].payload)]
       else [])
      + Owed(fs[1..])
  }

  /** The tests on the first byte, by its bits. */
  lemma FirstByte(flags: byte)
    ensures Fin(flags) <==> flags >= 128
    ensures IsFragment(flags) <==> flags < 128 || flags % 16 == 0
    ensures IsFirstFragment(flags) <==> flags < 128 && flags % 16 != 0
    ensures IsControl(flags) <==> ControlOp(flags)
  {
  }

  // ---------------------------------------------------------------- frame by frame

  predicate EventsOfFrames(es: seq<Event>, fs: seq<Frame>) {
    |es| == |fs| && forall i :: 0 <= i < |fs| ==> EventOf(es[i], fs[i])
  }

  /** A connection that does not reassemble hands over every frame as it is. */
  lemma {:induction false} FramesAreEvents(fs: seq<Frame>)
    ensures EventsOfFrames(Meaning(true, None, fs).events, fs)
    decreases fs
  {
    if fs != [] {
      FramesAreEvents(fs[1..]);
      var es := Meaning(true, None, fs[1..]).events;
      assert Meaning(true, None, fs).events == [MakeEvent(fs[0].flags, fs[0].payload)] + es;
    }
  }

  lemma {:induction false} AnswersAreOwed(noDefrag: bool, pending: Option<Partial>, fs: seq<Frame>)
    requires ValidStream(noDefrag, pending, fs)
    requires forall f :: f in fs ==> |f.payload| < TWO_32 - 1
    ensures Meaning(noDefrag, pending, fs).replies == Owed(fs)
    decreases fs
  {
    if fs != [] {
      AnswersAreOwed(noDefrag, React(noDefrag, pending, fs[0]).pending, fs[1..]);
    }
  }

  // ---------------------------------------------------------------- control frames

  /** Each control frame is handed over by itself, where it comes. */
  lemma {:induction false} ControlPassesThrough(pending: Option<Partial>, fs: seq<Frame>)
    requires ValidStream(false, pending, fs) && (pending.Some? ==> !ControlOp(pending.value.flags))
    ensures EventsOfFrames(ControlEvents(Meaning(false, pending, fs).events), ControlFrames(fs))
    decreases fs
  {
    hide React, EventOf, ControlOp, ControlEvents, EventsOfFrames;
    if fs == [] {
      NoEvents();
    } else {
      var f, now := fs[0], React(false, pending, fs[0]);
      var later := Meaning(false, now.pending, fs[1..]);
      ControlStep(pending, f);
      ControlPassesThrough(now.pending, fs[1..]);
      EventsStep(now.events, later.events);
      var c, es := ControlFrames(fs[1..]), ControlEvents(later.events);
      if ControlOp(f.flags) {
        OneMoreEvent(now.events[0], es, f, c);
        assert now.events == [now.events[0]];
      } else {
        Unit(c);
        Unit(es);
      }
    }
  }

  lemma NoEvents()
    ensures EventsOfFrames(ControlEvents([]), []) && DataEvents([]) == []
  {
  }

  lemma OneMoreEvent(e: Event, es: seq<Event>, f: Frame, fs: seq<Frame>)
    requires EventOf(e, f) && EventsOfFrames(es, fs)
    ensures EventsOfFrames([e] + es, [f] + fs)
  {
    hide EventOf;
  }

  /** At most one event in front of others. */
  lemma EventsStep(now: seq<Event>, later: seq<Event>)
    requires |now| <= 1
    ensures ControlEvents(now + later)
            == (if now != [] && ControlOp(now[0].flags) then now else []) + ControlEvents(later)
    ensures DataEvents(now + later) == (if now != [] && !ControlOp(now[0].flags) then now else []) + DataEvents(later)
  {
    hide ControlOp;
    if now == [] {
      Unit(later);
      Unit(ControlEvents(later));
      Unit(DataEvents(later));
    } else {
      assert now == [now[0]] && (now + later)[1..] == later;
    }
  }

  /** One frame has at most one event, and a control event exactly if it is a control frame. */
  lemma ControlStep(pending: Option<Partial>, f: Frame)
    requires Allowed(false, pending, f) && (pending.Some? ==> !ControlOp(pending.value.flags))
    ensures var now := React(false, pending, f);
            && |now.events| <= 1 && (now.pending.Some? ==> !ControlOp(now.pending.value.flags))
            && (ControlOp(f.flags) ==>
                  |now.events| == 1 && EventOf(now.events[0], f) && ControlOp(now.events[0].flags)
                  && now.pending == pending)
            && (!ControlOp(f.flags) && now.events != [] ==> !ControlOp(now.events[0].flags))
  {
    FinKeepsOp(if pending.Some? then pending.value.flags else 0);
  }

  lemma FinKeepsOp(flags: byte)
    ensures WithFin(flags) >= 128 && WithFin(flags) % 128 == flags % 128
    ensures WithFin(flags) % 16 == flags % 16 && WithFin(flags) / 8 % 2 == flags / 8 % 2
  {
  }

  // ---------------------------------------------------------------- messages

  /** The open message, kept as first byte and data, is that of these frames. */
  predicate Opened(pending: Option<Partial>, fs: seq<Frame>) {
    && (forall i :: 0 <= i < |fs| ==> fs[i].flags < 128 && !ControlOp(fs[i].flags))
    && (pending.None? <==> fs == [])
    && (pending.Some? ==> pending.value == Partial(fs[0].flags, Payloads(fs)))
  }

  lemma {:induction false} PayloadsJoin(a: seq<Frame>, b: seq<Frame>)
    ensures Payloads(a + b) == Payloads(a) + Payloads(b)
  {
    if a == [] {
      Unit(b);
      Unit(Payloads(b));
    } else {
      assert (a + b)[1..] == a[1..] + b;
      PayloadsJoin(a[1..], b);
      Regroup(a[0].payload, Payloads(a[1..]), Payloads(b));
    }
  }

  lemma PayloadsAppend(a: seq<Frame>, f: Frame)
    ensures Payloads(a + [f]) == Payloads(a) + f.payload
  {
    PayloadsJoin(a, [f]);
    assert [f][1..] == [];
    Unit(f.payload);
  }

  lemma {:induction false} OpenIsIncomplete(fs: seq<Frame>)
    requires forall i :: 0 <= i < |fs| ==> fs[i].flags < 128
    ensures MessageLength(fs) == |fs| && !Complete(fs)
  {
    if fs != [] { OpenIsIncomplete(fs[1..]); }
  }

  lemma {:induction false} FirstMessage(open: seq<Frame>, f: Frame, rest: seq<Frame>)
    requires (forall i :: 0 <= i < |open| ==> open[i].flags < 128) && f.flags >= 128
    ensures var fs := open + [f] + rest;
            && MessageLength(fs) == |open| + 1 && Complete(fs)
            && fs[..|open| + 1] == open + [f] && fs[|open| + 1..] == rest
    decreases open
  {
    var fs := open + [f] + rest;
    if open != [] {
      FirstMessage(open[1..], f, rest);
      assert fs[1..] == open[1..] + [f] + rest;
    }
    assert fs[|open|] == f;
  }

  /** One data frame: it opens, continues or ends a message. */
  lemma DataStep(pending: Option<Partial>, open: seq<Frame>, f: Frame)
    requires Allowed(false, pending, f) && !ControlOp(f.flags) && Opened(pending, open)
    ensures var now := React(false, pending, f);
            && (f.flags < 128 ==> now.events == [] && Opened(now.pending, open + [f]))
            && (f.flags >= 128 ==>
                  && now.pending.None? && |now.events| == 1
                  && EventOfMessage(now.events[0], open + [f]) && !ControlOp(now.events[0].flags))
  {
    PayloadsAppend(open, f);
    FinKeepsOp(if pending.Some? then pending.value.flags else f.flags);
    if pending.None? {
      assert open + [f] == [f];
      Unit(f.payload);
    } else {
      assert (open + [f])[0] == open[0];
    }
  }

  /** The other events are the messages in order, and the frames of the last one are kept while it is open. */
  lemma {:induction false} MessagesAreEvents(pending: Option<Partial>, open: seq<Frame>, fs: seq<Frame>)
    requires ValidStream(false, pending, fs) && Opened(pending, open)
    ensures var e := Meaning(false, pending, fs); var all := open + DataFrames(fs);
            EventsOfMessages(DataEvents(e.events), all) && Opened(e.pending, OpenFrames(all))
    decreases fs
  {
    hide React, EventOfMessage, Payloads, ControlOp, DataEvents, EventsOfMessages, OpenFrames, Opened;
    if fs == [] {
      Unit(open);
      NoEvents();
      NoMessages(pending, open);
    } else {
      var f, more := fs[0], DataFrames(fs[1..]);
      var now := React(false, pending, f);
      var later := Meaning(false, now.pending, fs[1..]);
      var es := DataEvents(later.events);
      if ControlOp(f.flags) {
        OpenIsData(pending, open);
        ControlStep(pending, f);
        EventsStep(now.events, later.events);
        Unit(more);
        Unit(es);
        MessagesAreEvents(pending, open, fs[1..]);
      } else {
        DataStep(pending, open, f);
        EventsStep(now.events, later.events);
        Regroup(open, [f], more);
        if f.flags < 128 {
          Unit(es);
          MessagesAreEvents(now.pending, open + [f], fs[1..]);
        } else {
          NothingOpened();
          MessagesAreEvents(None, [], fs[1..]);
          Unit(more);
          OpenIsData(pending, open);
          MessageStep(pending, open, f, more, now.events[0], es);
          assert now.events == [now.events[0]];
        }
      }
    }
  }

  lemma NoMessages(pending: Option<Partial>, open: seq<Frame>)
    requires Opened(pending, open)
    ensures EventsOfMessages([], open) && OpenFrames(open) == open
  {
    OpenIsIncomplete(open);
  }

  lemma NothingOpened()
    ensures Opened(None, [])
  {
  }

  /** A message that ends, in front of others. */
  lemma MessageStep(pending: Option<Partial>, open: seq<Frame>, f: Frame, more: seq<Frame>, e: Event, es: seq<Event>)
    requires Opened(pending, open) && f.flags >= 128 && EventOfMessage(e, open + [f]) && EventsOfMessages(es, more)
    ensures EventsOfMessages([e] + es, open + [f] + more) && OpenFrames(open + [f] + more) == OpenFrames(more)
  {
    hide EventOfMessage;
    FirstMessage(open, f, more);
    assert ([e] + es)[1..] == es;
  }

  lemma OpenIsData(pending: Option<Partial>, open: seq<Frame>)
    requires Opened(pending, open)
    ensures pending.Some? ==> !ControlOp(pending.value.flags)
  {
  }

  /** The payload bytes of data frames are in the events or in the message that is still open. */
  lemma {:induction false} DataIsKept(es: seq<Event>, fs: seq<Frame>)
    requires EventsOfMessages(es, fs)
    ensures DataOf(es) + Payloads(OpenFrames(fs)) == Payloads(fs)
    decreases |fs|
  {
    hide Payloads, MessageLength, Complete;
    if Complete(fs) {
      var n := MessageLength(fs);
      DataIsKept(es[1..], fs[n..]);
      assert fs == fs[..n] + fs[n..];
      PayloadsJoin(fs[..n], fs[n..]);
      Regroup(es[0].data, DataOf(es[1..]), Payloads(OpenFrames(fs)));
    }
  }

  // ---------------------------------------------------------------- under every cut

  /** For every valid stream and every cut of its bytes, what the handler gets: on a reassembling
      connection the control frames as they are, in order, and one event for each message, with the
      first fragment's opcode and all payloads; otherwise every frame as it is.  What is kept is the
      open message, so that no payload byte is lost, and the answers are those owed. */
  lemma AnyCutMessages(noDefrag: bool, fs: seq<Frame>, arrivals: seq<seq<byte>>)
    requires ValidStream(noDefrag, None, fs)
    requires Flatten(arrivals) == Wire(Encode, fs)
    ensures var (r, left) := Receive(Drain, Fresh(noDefrag), [], arrivals);
            && left == [] && r.refusals == [] && !r.undefined
            && (noDefrag ==> EventsOfFrames(r.events, fs))
            && (!noDefrag ==>
                  && EventsOfFrames(ControlEvents(r.events), ControlFrames(fs))
                  && EventsOfMessages(DataEvents(r.events), DataFrames(fs))
                  && var open := OpenFrames(DataFrames(fs));
                     && r.kept == (if open == [] then [] else [open[0].flags] + Payloads(open))
                     && DataOf(DataEvents(r.events)) + Payloads(open) == Payloads(DataFrames(fs)))
            && ((forall f :: f in fs ==> |f.payload| < TWO_32 - 1) ==> r.replies == Owed(fs))
  {
    hide Drain, Meaning, Encode, EventsOfMessages, OpenFrames;
    AnyCutDelivers(noDefrag, fs, arrivals);
    if noDefrag {
      FramesAreEvents(fs);
    } else {
      ControlPassesThrough(None, fs);
      MessagesAreEvents(None, [], fs);
      Unit(DataFrames(fs));
      DataIsKept(DataEvents(Meaning(false, None, fs).events), DataFrames(fs));
    }
    if forall f :: f in fs ==> |f.payload| < TWO_32 - 1 { AnswersAreOwed(noDefrag, None, fs); }
  }

  // ---------------------------------------------------------------- what is refused

  /** The three refusals, by the bytes at the front of what is unprocessed: a control frame without FIN, a
      whole data frame inside a fragmented message, and a length that leaves 64 bits with its header. */
  lemma Refused(kept: seq<byte>, s: seq<byte>)
    requires s != []
    ensures ControlOp(s[0]) && s[0] < 128 ==> Deliver(kept, s, false) == Refuse(FragmentedControl)
    ensures !ControlOp(s[0]) && s[0] >= 128 && s[0] % 16 != 0 && kept != [] ==>
              Deliver(kept, s, false) == Refuse(NonContinuation)
    ensures |s| >= 14 && s[0] >= 128 && s[0] % 16 != 0 && (ControlOp(s[0]) || kept == []) && s[1] % 128 == 127
            && FromBigEndian(s[2..10]) + (if s[1] >= 128 then 14 else 10) >= TWO_64 ==>
              Deliver(kept, s, false) == Refuse(Overflowed)
  {
    hide FromBigEndian, Consume, Unmasked;
    FirstByte(s[0]);
    if |s| >= 14 {
      FromBigEndianBelow(s[2..10]);
      Pow256Values();
      var h := ParseHeader(s);
      if s[1] % 128 == 127 && h.headerLen + h.dataLen >= TWO_64 { WrappedLength(h.headerLen + h.dataLen); }
    }
  }

  lemma WrappedLength(sum: nat)
    requires TWO_64 <= sum < 2 * TWO_64
    ensures sum % TWO_64 == sum - TWO_64
  {
  }

  /** A close of 2^32 - 1 bytes is answered by what stands before its first zero. */
  lemma OddClose(flags: byte, data: seq<byte>, z: nat)
    requires flags % 16 == 8 && |data| % TWO_32 == TWO_32 - 1 && z < |data| && data[z] == 0 && 0 !in data[..z]
    ensures Answer(flags, data) == [Reply(8, data[..z])]
  {
    UpToZeroIs(data, z);
  }

  lemma {:induction false} UpToZeroIs(data: seq<byte>, z: nat)
    requires z < |data| && data[z] == 0 && 0 !in data[..z]
    ensures UpToZero(data) == data[..z]
    decreases z
  {
    if z > 0 {
      assert data[0] == data[..z][0];
      assert data[1..][..z - 1] == data[..z][1..];
      UpToZeroIs(data[1..], z - 1);
      assert data[..z] == [data[0]] + data[1..][..z - 1];
    }
  }

  /** In bytes: a whole text message "hi", masked with 1 2 3 4 and without a mask. */
  lemma FrameInBytes()
    ensures Encode(Frame(0x81, Short, None, [104, 105])) == [0x81, 2, 104, 105]
    ensures Encode(Frame(0x81, Short, Some([1, 2, 3, 4]), [104, 105])) == [0x81, 130, 1, 2, 3, 4, 105, 107]
  {
    hide XorBits, Masked;
    MaskedInBytes();
  }

  lemma MaskedInBytes()
    ensures Masked([104, 105], [1, 2, 3, 4]) == [105, 107]
  {
    hide XorBits;
    XorStep(104, 1, 8);
    XorStep(105, 2, 8);
    XorStep(52, 1, 7);
    assert Pow2(6) == 64;
    XorZero(52, 7);
    XorZero(26, 6);
  }

  lemma XorStep(a: nat, b: nat, n: nat)
    requires n > 0
    ensures XorBits(a, b, n) == (a + b) % 2 + 2 * XorBits(a / 2, b / 2, n - 1)
  {
  }

  lemma {:induction false} XorZero(a: nat, n: nat)
    requires a < Pow2(n)
    ensures XorBits(a, 0, n) == a
  {
    if n > 0 { XorZero(a / 2, n - 1); }
  }
}
