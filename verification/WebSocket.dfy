/** WebSocket framing (section 5 of RFC 6455) as mongoose receives and sends it.

    The first part is the meaning of a frame sequence, with no buffer in sight.  The second part
    is one delivery step on a receive buffer that starts with the message being reassembled.  The
    theorems say that the second computes the first, whatever the mask, the length form and the
    way the network cuts the byte stream. */
module WebSocket {
  import opened Bytes
  import opened Framing

  const CONTINUE := 0
  const CLOSE := 8
  const PING := 9
  const PONG := 10

  // ---------------------------------------------------------------- the first byte of a frame

  predicate Fin(flags: byte) { flags >= 128 }

  function Op(flags: byte): (r: byte) { flags % 16 }

  predicate IsFragment(flags: byte) { !Fin(flags) || Op(flags) == CONTINUE }

  predicate IsFirstFragment(flags: byte) { !Fin(flags) && Op(flags) != CONTINUE }

  predicate IsControl(flags: byte) { Op(flags) == CLOSE || Op(flags) == PING || Op(flags) == PONG }

  /** `FLAGS_MASK_FIN | flags` */
  function WithFin(flags: byte): (r: byte) { if Fin(flags) then flags else flags + 128 }

  // ---------------------------------------------------------------- the meaning of a stream

  /** What the user handler sees: MG_EV_WEBSOCKET_CONTROL_FRAME when bit 3 of the flags is set,
      MG_EV_WEBSOCKET_FRAME otherwise. */
  datatype Event = Event(control: bool, flags: byte, data: seq<byte>)

  /** One call of mg_send_websocket_frame made by the receiver. */
  datatype Reply = Reply(op: nat, data: seq<byte>)

  datatype LengthForm = Short | Medium | Long

  type Key = k: seq<byte> | |k| == 4 witness [0, 0, 0, 0]

  datatype Frame = Frame(flags: byte, form: LengthForm, mask: Option<Key>, payload: seq<byte>)

  /** The message whose fragments have arrived so far: first byte of its first frame, payload. */
  datatype Partial = Partial(flags: byte, data: seq<byte>)

  datatype Effect = Effect(pending: Option<Partial>, events: seq<Event>, replies: seq<Reply>)

  function MakeEvent(flags: byte, data: seq<byte>): (e: Event) {
    Event(flags / 8 % 2 == 1, flags, data)
  }

  /** Pings are answered by a pong, a close by a close, both with the payload received; only a close
      whose length narrows to -1 in an `int` is taken for a C string, and answered up to its zero. */
  function Answer(flags: byte, data: seq<byte>): (r: seq<Reply>)
    ensures |data| < TWO_32 - 1 ==>
              r == if Op(flags) == PING then [Reply(PONG, data)]
                  else if Op(flags) == CLOSE then [Reply(CLOSE, data)] else []
  {
    if Op(flags) == PING then [Reply(PONG, data)]
    else if Op(flags) == CLOSE then [Reply(CLOSE, if NarrowsToMinusOne(|data|) then UpToZero(data) else data)]
    else []
  }

  predicate NarrowsToMinusOne(len: nat) { len % TWO_32 == TWO_32 - 1 }

  function UpToZero(s: seq<byte>): (r: seq<byte>)
    ensures r <= s && 0 !in r && (|r| < |s| ==> s[|r|] == 0)
  {
    if s == [] || s[0] == 0 then [] else [s[0]] + UpToZero(s[1..])
  }

  /** Such a close with no zero in its payload: the search for one runs on behind it. */
  predicate Unended(flags: byte, data: seq<byte>) {
    Op(flags) == CLOSE && NarrowsToMinusOne(|data|) && 0 !in data
  }

  predicate WellFormed(f: Frame) { LengthFits(f.form, |f.payload|) && !Unended(f.flags, f.payload) }

  predicate LengthFits(form: LengthForm, n: nat) {
    match form
    case Short => n < 126
    case Medium => n < TWO_16
    case Long => n < TWO_63
  }

  /** Section 5.4: control frames are never fragmented and may come at any time; inside a
      fragmented message every other frame is a continuation, outside it none is.  A connection
      that does not reassemble takes every frame for itself. */
  predicate Allowed(noDefrag: bool, pending: Option<Partial>, f: Frame) {
    if noDefrag then pending.None?
    else if IsControl(f.flags) then Fin(f.flags)
    else Op(f.flags) == CONTINUE <==> pending.Some?
  }

  /** The effect of one allowed frame on the reader of the stream. */
  function React(noDefrag: bool, pending: Option<Partial>, f: Frame): (r: Effect) {
    if noDefrag || IsControl(f.flags) || (Fin(f.flags) && pending.None?) then
      Effect(pending, [MakeEvent(f.flags, f.payload)], Answer(f.flags, f.payload))
    else if pending.None? then
      Effect(Some(Partial(f.flags, f.payload)), [], [])
    else
      var whole := Partial(pending.value.flags, pending.value.data + f.payload);
      if Fin(f.flags) then Effect(None, [MakeEvent(WithFin(whole.flags), whole.data)], [])
      else Effect(Some(whole), [], [])
  }

  /** Every frame is well formed and allowed where it comes, and none comes behind a close (section
      5.5.1): once the close is answered the connection goes, and further arrivals may be lost. */
  predicate ValidStream(noDefrag: bool, pending: Option<Partial>, fs: seq<Frame>)
    decreases fs
  {
    fs == [] ||
    (&& WellFormed(fs[0]) && Allowed(noDefrag, pending, fs[0])
     && (Op(fs[0].flags) == CLOSE ==> |fs| == 1)
     && ValidStream(noDefrag, React(noDefrag, pending, fs[0]).pending, fs[1..]))
  }

  /** Everything a reader of the whole stream sees, in order. */
  function Meaning(noDefrag: bool, pending: Option<Partial>, fs: seq<Frame>): (r: Effect)
    decreases fs
  {
    if fs == [] then Effect(pending, [], [])
    else
      var now := React(noDefrag, pending, fs[0]);
      var later := Meaning(noDefrag, now.pending, fs[1..]);
      Effect(later.pending, now.events + later.events, now.replies + later.replies)
  }

  // ---------------------------------------------------------------- bytes on the wire

  function Masked(data: seq<byte>, key: Key): (r: seq<byte>)
    ensures |r| == |data|
  {
    seq(|data|, i requires 0 <= i < |data| => Xor(data[i], key[i % 4]))
  }

  lemma MaskedTwice(data: seq<byte>, key: Key)
    ensures Masked(Masked(data, key), key) == data
  {
    forall i | 0 <= i < |data| ensures Masked(Masked(data, key), key)[i] == data[i] {
      XorTwice(data[i], key[i % 4]);
    }
  }

  function Apply(data: seq<byte>, mask: Option<Key>): (r: seq<byte>)
    ensures |r| == |data|
  {
    if mask.Some? then Masked(data, mask.value) else data
  }

  function LengthField(n: nat, form: LengthForm): (r: seq<byte>) {
    match form
    case Short => []
    case Medium => BigEndian(n, 2)
    case Long => BigEndian(n, 8)
  }

  function LengthCode(n: nat, form: LengthForm): (r: nat)
    ensures r < 128
  {
    match form
    case Short => n % 128
    case Medium => 126
    case Long => 127
  }

  function Head(f: Frame): (r: seq<byte>) {
    [f.flags, LengthCode(|f.payload|, f.form) + (if f.mask.Some? then 128 else 0)]
    + LengthField(|f.payload|, f.form)
    + (if f.mask.Some? then f.mask.value else [])
  }

  function Encode(f: Frame): (r: seq<byte>)
    ensures |r| >= 2
  {
    Head(f) + Apply(f.payload, f.mask)
  }

  // ---------------------------------------------------------------- one delivery step

  datatype Header = Header(headerLen: nat, dataLen: nat, maskLen: nat)

  /** Header of the frame at the start of `s`; all zero lengths while too little has arrived. */
  function ParseHeader(s: seq<byte>): (h: Header)
    ensures h.headerLen == 0 ==> h.dataLen == 0
    ensures h.headerLen > 0 ==> 2 <= h.headerLen - h.maskLen && h.maskLen in {0, 4}
    ensures h.dataLen < TWO_64 && h.headerLen <= 14
  {
    if |s| < 2 then Header(0, 0, 0)
    else
      var len := s[1] % 128;
      var maskLen := if s[1] >= 128 then 4 else 0;
      if len < 126 && |s| >= maskLen then Header(2 + maskLen, len, maskLen)
      else if len == 126 && |s| >= 4 + maskLen then
        FromBigEndianBelow(s[2..4]);
        Pow256Values();
        Header(4 + maskLen, FromBigEndian(s[2..4]), maskLen)
      else if |s| >= 10 + maskLen then
        FromBigEndianBelow(s[2..10]);
        Pow256Values();
        Header(10 + maskLen, FromBigEndian(s[2..10]), maskLen)
      else Header(0, 0, maskLen)
  }

  datatype Refusal = FragmentedControl | NonContinuation | Overflowed

  datatype Outcome =
    | Wait
    | Refuse(reason: Refusal)
    | Undefined
    | Advance(kept: seq<byte>, rest: seq<byte>, events: seq<Event>, replies: seq<Reply>)

  /** One call of mg_deliver_websocket_data, on a buffer of which `kept` is the reassembled part
      (its length is `reass_len`) and `s` the rest.  `Undefined` are the two cases C gives no
      meaning to: a final continuation with nothing assembled, where the size `reass_len - 1` wraps,
      and an unended close. */
  function Deliver(kept: seq<byte>, s: seq<byte>, noDefrag: bool): (r: Outcome)
    ensures r.Advance? ==> |r.kept| + |r.rest| < |kept| + |s|
  {
    if s == [] then Wait
    else if ToReassemble(s[0], noDefrag) && IsControl(s[0]) then Refuse(FragmentedControl)
    else if !ToReassemble(s[0], noDefrag) && !IsControl(s[0]) && kept != [] then Refuse(NonContinuation)
    else
      var h := ParseHeader(s);
      var frameLen := FrameLength(h);
      if frameLen < h.headerLen || frameLen < h.dataLen then Refuse(Overflowed)
      else if frameLen == 0 || frameLen > |s| then Wait
      else Consume(kept, s[0], Unmasked(s, h), s[frameLen..], noDefrag)
  }

  predicate ToReassemble(flags: byte, noDefrag: bool) { IsFragment(flags) && !noDefrag }

  /** `header_len + data_len` in 64-bit arithmetic; the code detects a wrap by comparing. */
  function FrameLength(h: Header): (n: nat)
    ensures h.headerLen + h.dataLen < TWO_64 ==> n == h.headerLen + h.dataLen
    ensures h.dataLen < TWO_64 && h.headerLen <= n && h.dataLen <= n ==> n == h.headerLen + h.dataLen
  {
    var sum := h.headerLen + h.dataLen;
    assert TWO_64 <= sum < 2 * TWO_64 ==> sum % TWO_64 == sum - TWO_64;
    sum % TWO_64
  }

  /** The payload of the frame at the start of `s`, unmasked. */
  function Unmasked(s: seq<byte>, h: Header): (data: seq<byte>)
    requires h.maskLen in {0, 4} && h.maskLen <= h.headerLen && h.headerLen + h.dataLen <= |s|
    ensures |data| == h.dataLen
  {
    Apply(s[h.headerLen..h.headerLen + h.dataLen],
          if h.maskLen > 0 then Some(s[h.headerLen - h.maskLen..h.headerLen]) else None)
  }

  /** What happens to a frame that has wholly arrived; `rest` are the bytes after it. */
  function Consume(kept: seq<byte>, flags: byte, data: seq<byte>, rest: seq<byte>, noDefrag: bool): (r: Outcome)
    ensures r.Advance? ==> |r.kept| + |r.rest| < |kept| + 2 + |data| + |rest|
  {
    if ToReassemble(flags, noDefrag) then Reassemble(kept, flags, data, rest)
    else if Unended(flags, data) then Undefined
    else Advance(kept, rest, [MakeEvent(flags, data)], Answer(flags, data))
  }

  /** The fragment branch.  A first fragment stores its first byte after what is kept and restarts
      the count from that one byte; every fragment then appends its payload. */
  function Reassemble(kept: seq<byte>, flags: byte, data: seq<byte>, rest: seq<byte>): (r: Outcome)
    ensures r.Advance? ==> |r.kept| + |r.rest| < |kept| + 2 + |data| + |rest|
  {
    var buf := (if IsFirstFragment(flags) then kept + [flags] else kept) + data + rest;
    var reassLen := (if IsFirstFragment(flags) then 1 else |kept|) + |data|;
    if !Fin(flags) then Advance(buf[..reassLen], buf[reassLen..], [], [])
    else if reassLen == 0 then Undefined
    else Advance([], buf[reassLen..], [MakeEvent(WithFin(buf[0]), buf[1..reassLen])], [])
  }

  // ---------------------------------------------------------------- the receiver

  datatype Receiver = Receiver(noDefrag: bool, kept: seq<byte>, events: seq<Event>, replies: seq<Reply>,
                               refusals: seq<Refusal>, undefined: bool)

  function Fresh(noDefrag: bool): (r: Receiver) { Receiver(noDefrag, [], [], [], [], false) }

  /** The loop of mg_ws_handler: deliver until a call reports that nothing was done. */
  function Drain(r: Receiver, s: seq<byte>): (r': (Receiver, seq<byte>))
    decreases |r.kept| + |s|
  {
    match Deliver(r.kept, s, r.noDefrag)
    case Wait => (r, s)
    case Refuse(reason) => (r.(refusals := r.refusals + [reason]), s)
    case Undefined => (r.(undefined := true), s)
    case Advance(kept, rest, events, replies) =>
      Drain(r.(kept := kept, events := r.events + events, replies := r.replies + replies), rest)
  }

  // ---------------------------------------------------------------- one frame

  /** How a partial message lies at the start of the receive buffer. */
  function Stored(pending: Option<Partial>): (r: seq<byte>) {
    match pending
    case None => []
    case Some(p) => [p.flags] + p.data
  }

  function Pending(kept: seq<byte>): (r: Option<Partial>)
    ensures Stored(r) == kept
  {
    if kept == [] then None else Some(Partial(kept[0], kept[1..]))
  }

  lemma PendingStored(pending: Option<Partial>)
    ensures Pending(Stored(pending)) == pending
  {
  }

  lemma HeadLayout(f: Frame)
    ensures var w := |LengthField(|f.payload|, f.form)|; var m := if f.mask.Some? then 4 else 0;
            && |Head(f)| == 2 + w + m && |Head(f)| <= 14
            && Head(f)[0] == f.flags
            && Head(f)[1] == LengthCode(|f.payload|, f.form) + (if f.mask.Some? then 128 else 0)
            && Head(f)[2..2 + w] == LengthField(|f.payload|, f.form)
            && (f.mask.Some? ==> Head(f)[2 + w..] == f.mask.value)
  {
  }

  /** As soon as its header is complete, a frame of any length form announces exactly its size. */
  lemma HeaderOfFrame(f: Frame, s: seq<byte>)
    requires WellFormed(f) && Head(f) <= s
    ensures ParseHeader(s) == Header(|Head(f)|, |f.payload|, if f.mask.Some? then 4 else 0)
  {
    hide Head, BigEndian, FromBigEndian;
    HeadLayout(f);
    Pow256Values();
    var n := |f.payload|;
    assert s[1] == Head(f)[1];
    match f.form {
      case Short =>
      case Medium =>
        assert s[2..4] == Head(f)[2..4];
        BigEndianRoundTrip(n, 2);
      case Long =>
        assert s[2..10] == Head(f)[2..10];
        BigEndianRoundTrip(n, 8);
    }
  }

  /** Until then the header either is unknown or announces more than has arrived. */
  lemma HeaderOfPrefix(f: Frame, q: seq<byte>)
    requires WellFormed(f) && q <= Encode(f) && |q| < |Head(f)|
    ensures var h := ParseHeader(q); h.headerLen == h.dataLen == 0 || |q| < h.headerLen
  {
    hide Head, BigEndian, FromBigEndian;
    HeadLayout(f);
    if |q| >= 2 {
      assert q[1] == Encode(f)[1] == Head(f)[1];
    }
  }

  lemma FramePieces(f: Frame, tail: seq<byte>)
    requires WellFormed(f)
    ensures var s := Encode(f) + tail; var n := |Encode(f)|; var h := ParseHeader(s);
            && h == Header(|Head(f)|, |f.payload|, if f.mask.Some? then 4 else 0)
            && s[0] == f.flags && FrameLength(h) == n
            && Unmasked(s, h) == f.payload && s[n..] == tail
  {
    hide Head, ParseHeader, BigEndian, FromBigEndian, Masked;
    HeadLayout(f);
    var s := Encode(f) + tail;
    HeaderOfFrame(f, s);
    var n := |Head(f)|;
    assert s[n..n + |f.payload|] == Apply(f.payload, f.mask);
    if f.mask.Some? {
      assert s[n - 4..n] == Head(f)[n - 4..] == f.mask.value;
      MaskedTwice(f.payload, f.mask.value);
    }
  }

  lemma ConsumeFrame(noDefrag: bool, pending: Option<Partial>, f: Frame, tail: seq<byte>)
    requires Allowed(noDefrag, pending, f) && !Unended(f.flags, f.payload)
    ensures var e := React(noDefrag, pending, f);
            Consume(Stored(pending), f.flags, f.payload, tail, noDefrag)
            == Advance(Stored(e.pending), tail, e.events, e.replies)
  {
    var e := React(noDefrag, pending, f);
    var kept := Stored(pending);
    if ToReassemble(f.flags, noDefrag) {
      if pending.None? {
        var moved := kept + [f.flags] + f.payload;
        assert moved == Stored(e.pending);
        assert (moved + tail)[..|moved|] == moved && (moved + tail)[|moved|..] == tail;
      } else {
        var moved := kept + f.payload;
        var whole := pending.value.data + f.payload;
        assert moved == [pending.value.flags] + whole;
        assert (moved + tail)[..|moved|] == moved && (moved + tail)[|moved|..] == tail;
        assert (moved + tail)[1..|moved|] == whole;
      }
    }
  }

  /** A whole frame at the head of the unprocessed bytes has exactly its stated effect and leaves
      the bytes after it alone. */
  lemma DeliverFrame(noDefrag: bool, pending: Option<Partial>, f: Frame, tail: seq<byte>)
    requires WellFormed(f) && Allowed(noDefrag, pending, f)
    ensures var e := React(noDefrag, pending, f);
            Deliver(Stored(pending), Encode(f) + tail, noDefrag)
            == Advance(Stored(e.pending), tail, e.events, e.replies)
  {
    FramePieces(f, tail);
    ConsumeFrame(noDefrag, pending, f, tail);
  }

  /** A frame that has not wholly arrived changes nothing. */
  lemma DeliverWaits(noDefrag: bool, pending: Option<Partial>, f: Frame, q: seq<byte>)
    requires WellFormed(f) && Allowed(noDefrag, pending, f)
    requires q <= Encode(f) && |q| < |Encode(f)|
    ensures Deliver(Stored(pending), q, noDefrag) == Wait
  {
    HeadLayout(f);
    if |q| > 0 { assert q[0] == Encode(f)[0] == f.flags; }
    if |q| < |Head(f)| {
      HeaderOfPrefix(f, q);
    } else {
      assert Head(f) == Encode(f)[..|Head(f)|] == q[..|Head(f)|];
      HeaderOfFrame(f, q);
    }
  }

  // ---------------------------------------------------------------- whole streams, any cut

  predicate Accepts(r: Receiver, f: Frame) {
    WellFormed(f) && Allowed(r.noDefrag, Pending(r.kept), f)
  }

  function Absorb(r: Receiver, f: Frame): (r': Receiver) {
    var e := React(r.noDefrag, Pending(r.kept), f);
    r.(kept := Stored(e.pending), events := r.events + e.events, replies := r.replies + e.replies)
  }

  lemma DrainReads()
    ensures Reads(Drain, Encode, Accepts, Absorb)
  {
    forall r, f, tail | Accepts(r, f) ensures Drain(r, Encode(f) + tail) == Drain(Absorb(r, f), tail) {
      DeliverFrame(r.noDefrag, Pending(r.kept), f, tail);
    }
    forall r, f, q | Accepts(r, f) && q <= Encode(f) && |q| < |Encode(f)| ensures Drain(r, q) == (r, q) {
      DeliverWaits(r.noDefrag, Pending(r.kept), f, q);
    }
  }

  lemma {:induction false} StreamIsValid(r: Receiver, fs: seq<Frame>)
    requires ValidStream(r.noDefrag, Pending(r.kept), fs)
    ensures Valid(Accepts, Absorb, r, fs)
    decreases fs
  {
    if fs != [] {
      PendingStored(React(r.noDefrag, Pending(r.kept), fs[0]).pending);
      StreamIsValid(Absorb(r, fs[0]), fs[1..]);
    }
  }

  lemma {:induction false} AfterIsMeaning(r: Receiver, fs: seq<Frame>)
    ensures var e := Meaning(r.noDefrag, Pending(r.kept), fs);
            After(Absorb, r, fs)
            == r.(kept := Stored(e.pending), events := r.events + e.events, replies := r.replies + e.replies)
    decreases fs
  {
    hide React;
    var e := Meaning(r.noDefrag, Pending(r.kept), fs);
    if fs == [] {
      assert r.events + e.events == r.events && r.replies + e.replies == r.replies;
    } else {
      var now := React(r.noDefrag, Pending(r.kept), fs[0]);
      var r' := Absorb(r, fs[0]);
      PendingStored(now.pending);
      AfterIsMeaning(r', fs[1..]);
      var later := Meaning(r.noDefrag, now.pending, fs[1..]);
      assert r'.events + later.events == r.events + e.events;
      assert r'.replies + later.replies == r.replies + e.replies;
    }
  }

  /** Main theorem.  For every valid stream of frames and every cut of its bytes into arrivals,
      the handler is called with exactly the messages and control frames of the stream in order,
      each payload unmasked once, pings and closes are answered once each (see `Answer`), nothing is
      refused, and the buffer holds just the message still open. */
  lemma AnyCutDelivers(noDefrag: bool, fs: seq<Frame>, arrivals: seq<seq<byte>>)
    requires ValidStream(noDefrag, None, fs)
    requires Flatten(arrivals) == Wire(Encode, fs)
    ensures var e := Meaning(noDefrag, None, fs);
            Receive(Drain, Fresh(noDefrag), [], arrivals)
            == (Receiver(noDefrag, Stored(e.pending), e.events, e.replies, [], false), [])
  {
    DrainReads();
    StreamIsValid(Fresh(noDefrag), fs);
    AnyCut(Drain, Encode, Accepts, Absorb, Fresh(noDefrag), fs, arrivals);
    AfterIsMeaning(Fresh(noDefrag), fs);
    var e := Meaning(noDefrag, None, fs);
    assert [] + e.events == e.events && [] + e.replies == e.replies;
  }

  /** The same at every moment: a prefix of the stream has delivered the frames it contains, and
      the bytes of the next one wait behind the open message. */
  lemma AnyPrefixDelivers(noDefrag: bool, fs: seq<Frame>, arrivals: seq<seq<byte>>)
    requires ValidStream(noDefrag, None, fs)
    requires Flatten(arrivals) <= Wire(Encode, fs)
    ensures var q := Flatten(arrivals); var done := fs[..Whole(Encode, fs, |q|)];
            var e := Meaning(noDefrag, None, done);
            && Wire(Encode, done) <= q
            && Receive(Drain, Fresh(noDefrag), [], arrivals)
               == (Receiver(noDefrag, Stored(e.pending), e.events, e.replies, [], false), q[|Wire(Encode, done)|..])
  {
    DrainReads();
    StreamIsValid(Fresh(noDefrag), fs);
    AnyPrefix(Drain, Encode, Accepts, Absorb, Fresh(noDefrag), fs, arrivals);
    var q := Flatten(arrivals);
    var done := fs[..Whole(Encode, fs, |q|)];
    AfterIsMeaning(Fresh(noDefrag), done);
    var e := Meaning(noDefrag, None, done);
    assert [] + e.events == e.events && [] + e.replies == e.replies;
    WirePrefix(Encode, fs, |done|);
    assert q == Wire(Encode, fs)[..|q|];
  }
}
