/** MQTT framing: parse_mqtt with the receive loop of mqtt_handler, and mg_mqtt_publish. */
module Mqtt {
  import opened Bytes
  import opened Framing

  const CONNECT := 1
  const CONNACK := 2
  const PUBLISH := 3
  const PUBACK := 4
  const PUBREC := 5
  const PUBREL := 6
  const PUBCOMP := 7
  const SUBSCRIBE := 8
  const SUBACK := 9

  const HAS_WILL := 0x04
  const HAS_PASSWORD := 0x40
  const HAS_USER_NAME := 0x80

  // ---------------------------------------------------------------- remaining length

  /** Section 2.2.3: seven bits per byte, least significant first, top bit set on all but the last. */
  function VarLen(n: nat): (r: seq<byte>)
    ensures |r| >= 1
  {
    if n < 128 then [n] else [n % 128 + 128] + VarLen(n / 128)
  }

  datatype Scan = TooLong | Scanned(value: nat, pos: nat, more: bool)

  /** The length bytes from `p` on, of which `n` came before; `more` when the bytes run out first. */
  function ScanFrom(s: seq<byte>, p: nat, n: nat): (r: Scan)
    requires p <= |s|
    ensures r.Scanned? ==> p <= r.pos <= |s|
    decreases |s| - p
  {
    if p == |s| then Scanned(0, p, n > 0)
    else if s[p] < 128 then Scanned(s[p], p + 1, false)
    else if n + 1 > 4 then TooLong
    else
      match ScanFrom(s, p + 1, n + 1)
      case TooLong => TooLong
      case Scanned(v, pos, more) => Scanned(s[p] % 128 + 128 * v, pos, more)
  }

  lemma {:induction false} ScanVarLen(pre: seq<byte>, n: nat, tail: seq<byte>, k: nat)
    requires k + |VarLen(n)| <= 5
    ensures ScanFrom(pre + VarLen(n) + tail, |pre|, k) == Scanned(n, |pre| + |VarLen(n)|, false)
    decreases n
  {
    var s := pre + VarLen(n) + tail;
    if n >= 128 {
      var b := n % 128 + 128;
      ScanVarLen(pre + [b], n / 128, tail, k + 1);
      assert pre + [b] + VarLen(n / 128) + tail == s;
      assert s[|pre|] == b && b % 128 + 128 * (n / 128) == n;
    } else {
      assert s[|pre|] == n;
    }
  }

  /** While length bytes are missing the scan knows it. */
  lemma {:induction false} ScanPrefix(pre: seq<byte>, n: nat, q: seq<byte>, k: nat)
    requires q < VarLen(n) && k + |VarLen(n)| <= 5 && (q == [] ==> k > 0)
    ensures var r := ScanFrom(pre + q, |pre|, k); r.Scanned? && r.more
    decreases n
  {
    if q != [] {
      assert q[0] == VarLen(n)[0];
      assert n >= 128;
      ScanPrefix(pre + [q[0]], n / 128, q[1..], k + 1);
      assert pre + [q[0]] + q[1..] == pre + q;
    }
  }

  /** One to four bytes below 2^28, a fifth from there on. */
  lemma VarLenSize(n: nat)
    ensures |VarLen(n)| <= 4 <==> n < 0x1000_0000
    ensures n < TWO_31 ==> |VarLen(n)| <= 5
  {
    var a := n / 128;
    var b := a / 128;
    var c := b / 128;
    assert n < 128 ==> |VarLen(n)| == 1;
    assert n >= 128 ==> |VarLen(n)| == 1 + |VarLen(a)|;
    assert a >= 128 ==> |VarLen(a)| == 1 + |VarLen(b)|;
    assert b >= 128 ==> |VarLen(b)| == 1 + |VarLen(c)|;
    assert c >= 128 ==> |VarLen(c)| == 1 + |VarLen(c / 128)|;
    assert n < TWO_31 ==> c / 128 < 128;
  }

  // ---------------------------------------------------------------- parse_mqtt

  /** The message record.  The handler clears it once per arrival, not once per message. */
  datatype Message = Message(cmd: nat, qos: nat, messageId: nat, topic: seq<byte>, payload: seq<byte>,
                             connackCode: nat, version: nat, flags: nat, keepAlive: nat,
                             strings: seq<seq<byte>>)

  const CLEARED := Message(0, 0, 0, [], [], 0, 0, 0, 0, [])

  datatype Outcome = Incomplete | Malformed | OutOfBounds | Parsed(len: nat, mm: Message)

  function Qos(flags: nat): (r: nat) { flags % 8 / 2 }

  /** getu16, where both bytes exist. */
  function U16(s: seq<byte>, p: nat): (r: nat)
    requires p + 2 <= |s|
  {
    s[p] as nat * 256 + s[p + 1] as nat
  }

  function Parse(s: seq<byte>, mm: Message): (r: Outcome)
    ensures r.Parsed? ==> 2 <= r.len <= |s|
  {
    if |s| < 2 then Incomplete
    else
      match ScanFrom(s, 1, 0)
      case TooLong => Malformed
      case Scanned(len, p, more) =>
        if more || len > |s| - p then Incomplete
        else
          var cmd := s[0] / 16;
          ParseBody(s, p, p + len, mm.(cmd := cmd, qos := Qos(s[0])))
  }

  /** The body between `p` and `end`.  A length read that would leave the receive buffer is
      `OutOfBounds`: C reads whatever lies behind. */
  function ParseBody(s: seq<byte>, p: nat, end: nat, mm: Message): (r: Outcome)
    requires p <= end <= |s|
    ensures r.Parsed? ==> r.len == end
  {
    if mm.cmd == CONNECT then ParseConnect(s, p, end, mm)
    else if mm.cmd == CONNACK then
      if end - p < 2 then Malformed else Parsed(end, mm.(connackCode := s[p + 1]))
    else if mm.cmd in {PUBACK, PUBREC, PUBREL, PUBCOMP, SUBACK} then
      if p + 2 > |s| then OutOfBounds else Parsed(end, mm.(messageId := U16(s, p)))
    else if mm.cmd == PUBLISH then
      if p + 2 > |s| then OutOfBounds
      else
        var q := p + 2 + U16(s, p);
        if q > end then Malformed
        else
          var mm' := mm.(topic := s[p + 2..q]);
          if mm.qos > 0 then
            if end - q < 2 then Malformed
            else Parsed(end, mm'.(messageId := U16(s, q), payload := s[q + 2..end]))
          else Parsed(end, mm'.(payload := s[q..end]))
    else if mm.cmd == SUBSCRIBE then
      if end - p < 2 then Malformed
      else Parsed(end, mm.(messageId := U16(s, p), payload := s[p + 2..end]))
    else Parsed(end, mm)
  }

  /** CONNECT: protocol name, version, flags and timer, then the strings the flags announce. */
  function ParseConnect(s: seq<byte>, p: nat, end: nat, mm: Message): (r: Outcome)
    requires p <= end <= |s|
    ensures r.Parsed? ==> r.len == end
  {
    if p + 2 > |s| then OutOfBounds
    else
      var q := p + 2 + U16(s, p);
      if q > end - 4 then Malformed
      else
        var flags := s[q + 1];
        var mm' := mm.(version := s[q], flags := flags, keepAlive := U16(s, q + 2), strings := [s[p + 2..q]]);
        var will := if flags / HAS_WILL % 2 == 1 then 2 else 0;
        var user := if flags / HAS_USER_NAME % 2 == 1 then 1 else 0;
        var pass := if flags / HAS_PASSWORD % 2 == 1 then 1 else 0;
        ParseStrings(s, q + 4, end, 1 + will + user + pass, mm')
  }

  function ParseStrings(s: seq<byte>, p: nat, end: nat, n: nat, mm: Message): (r: Outcome)
    requires end <= |s|
    ensures r.Parsed? ==> r.len == end
    decreases n
  {
    if n == 0 then (if p != end then Malformed else Parsed(end, mm))
    else if p >= end then Malformed
    else if p + 2 > |s| then OutOfBounds
    else
      var q := p + 2 + U16(s, p);
      if q > end then Malformed
      else ParseStrings(s, q, end, n - 1, mm.(strings := mm.strings + [s[p + 2..q]]))
  }

  // ---------------------------------------------------------------- the receive loop

  /** Connection state: the messages handed to the user handler, and whether it is being closed. */
  datatype Receiver = Receiver(events: seq<Message>, closing: bool)

  /** The MG_EV_RECV loop, from a given message record. */
  function Drain(r: Receiver, s: seq<byte>, mm: Message, limit: nat): (r': (Receiver, seq<byte>))
    decreases |s|
  {
    match Parse(s, mm)
    case Incomplete => (r.(closing := r.closing || (limit > 0 && |s| >= limit)), s)
    case Malformed => (r.(closing := true), s)
    case OutOfBounds => (r.(closing := true), s)
    case Parsed(len, mm') => Drain(r.(events := r.events + [mm']), s[len..], mm', limit)
  }

  /** One arrival on a connection with the given buffer limit, zero for none.  A connection that is being
      closed drops it. */
  function Arrive(limit: nat, r: Receiver, left: seq<byte>, data: seq<byte>): (r': (Receiver, seq<byte>)) {
    if r.closing then (r, left) else Drain(r, left + data, CLEARED, limit)
  }

  /** The arrivals, one after another. */
  function Take(limit: nat, r: Receiver, left: seq<byte>, arrivals: seq<seq<byte>>): (r': (Receiver, seq<byte>))
    decreases arrivals
  {
    if arrivals == [] then (r, left)
    else
      var (r', left') := Arrive(limit, r, left, arrivals[0]);
      Take(limit, r', left', arrivals[1..])
  }

  /** A list of arrivals that brings exactly these messages. */
  predicate Brings(arrivals: seq<seq<byte>>, ps: seq<Publication>) { Flatten(arrivals) == Wire(Encode, ps) }

  /** A new connection after a list of arrivals. */
  function Run(limit: nat, arrivals: seq<seq<byte>>): (r: (Receiver, seq<byte>)) {
    Take(limit, Receiver([], false), [], arrivals)
  }

  // ---------------------------------------------------------------- publications

  datatype Publication = Publication(topic: seq<byte>, id: nat, flags: byte, payload: seq<byte>)

  /** `cmd << 4 | flags` with cmd = PUBLISH, for any byte of flags. */
  function PublishHeader(flags: byte): (r: byte) { (flags / 64 * 4 + 3) * 16 + flags % 16 }

  function Body(p: Publication): (r: seq<byte>) {
    BigEndian(|p.topic|, 2) + p.topic + (if Qos(p.flags) > 0 then BigEndian(p.id, 2) else []) + p.payload
  }

  function Encode(p: Publication): (r: seq<byte>) {
    [PublishHeader(p.flags)] + VarLen(|Body(p)|) + Body(p)
  }

  /** Within the limits of the fields, and of the `int` in which the parser returns a length.  The
      standard's own limit, a remaining length below 2^28, is inside them. */
  predicate Sendable(p: Publication) {
    |p.topic| < TWO_16 && p.id < TWO_16 && p.flags < 64 && |Encode(p)| < TWO_31
  }

  /** What parsing a publication does to the message record: the id field is written only when the
      quality of service is above zero. */
  function Deliver(mm: Message, p: Publication): (r: Message) {
    var m := mm.(cmd := PUBLISH, qos := Qos(p.flags), topic := p.topic, payload := p.payload);
    if Qos(p.flags) > 0 then m.(messageId := p.id) else m
  }

  /** The flags keep the command exactly when they stay below 64. */
  lemma PublishSurvives(flags: byte)
    ensures PublishHeader(flags) / 16 == PUBLISH <==> flags < 64
    ensures PublishHeader(flags) % 16 == flags % 16 && Qos(PublishHeader(flags)) == Qos(flags)
  {
    var high, low := flags / 64, flags % 16;
    NibblesOf(4 * high + 3, low);
    NibblesOf(flags / 16, low);
    assert flags == 16 * (flags / 16) + low;
  }

  lemma NibblesOf(a: nat, b: nat)
    requires b < 16
    ensures (16 * a + b) / 16 == a && (16 * a + b) % 8 == b % 8
  {
    var l, k := b / 8, b % 8;
    Over16(a, b);
    Over8(2 * a + l, k);
    assert 16 * a + b == 8 * (2 * a + l) + k;
  }

  lemma Over16(a: nat, b: nat)
    requires b < 16
    ensures (16 * a + b) / 16 == a
  {
  }

  lemma Over8(a: nat, b: nat)
    requires b < 8
    ensures (8 * a + b) % 8 == b
  {
  }

  lemma BodyLayout(p: Publication)
    requires |p.topic| < TWO_16 && p.id < TWO_16
    ensures var b := Body(p); var q := 2 + |p.topic|;
            && q <= |b| && U16(b, 0) == |p.topic| && b[2..q] == p.topic
            && (Qos(p.flags) > 0 ==> q + 2 <= |b| && U16(b, q) == p.id && b[q + 2..] == p.payload)
            && (Qos(p.flags) == 0 ==> b[q..] == p.payload)
  {
    TwoBytes(|p.topic|);
    TwoBytes(p.id);
  }

  lemma ParsePublishBody(s: seq<byte>, at: nat, p: Publication, mm: Message)
    requires |p.topic| < TWO_16 && p.id < TWO_16
    requires at + |Body(p)| <= |s| && s[at..at + |Body(p)|] == Body(p)
    requires mm.cmd == PUBLISH && mm.qos == Qos(p.flags)
    ensures ParseBody(s, at, at + |Body(p)|, mm) == Parsed(at + |Body(p)|, Deliver(mm, p))
  {
    hide Body, BigEndian;
    BodyLayout(p);
    var b, end := Body(p), at + |Body(p)|;
    assert forall i :: 0 <= i < |b| ==> s[at + i] == b[i] by {
      assert forall i :: 0 <= i < |b| ==> s[at..end][i] == s[at + i];
    }
    var q := 2 + |p.topic|;
    assert U16(s, at) == U16(b, 0) && s[at + 2..at + q] == b[2..q];
    if Qos(p.flags) > 0 {
      assert U16(s, at + q) == U16(b, q) && s[at + q + 2..end] == b[q + 2..];
    } else {
      assert s[at + q..end] == b[q..];
    }
  }

  /** A whole publication at the front is parsed back, whatever follows it. */
  lemma ParsePublication(p: Publication, tail: seq<byte>, mm: Message)
    requires Sendable(p)
    ensures Parse(Encode(p) + tail, mm) == Parsed(|Encode(p)|, Deliver(mm, p))
  {
    hide Body, ParseBody;
    var s, b := Encode(p) + tail, Body(p);
    var h := [PublishHeader(p.flags)];
    PublishSurvives(p.flags);
    VarLenSize(|b|);
    assert s == h + VarLen(|b|) + (b + tail);
    ScanVarLen(h, |b|, b + tail, 0);
    var at := 1 + |VarLen(|b|)|;
    assert s[at..at + |b|] == b;
    ParsePublishBody(s, at, p, mm.(cmd := PUBLISH, qos := Qos(p.flags)));
  }

  /** A publication that has not wholly arrived is left alone. */
  lemma ParseIncomplete(p: Publication, q: seq<byte>, mm: Message)
    requires Sendable(p) && q <= Encode(p) && |q| < |Encode(p)|
    ensures Parse(q, mm) == Incomplete
  {
    hide Body;
    if |q| >= 2 {
      var b := Body(p);
      var v := VarLen(|b|);
      VarLenSize(|b|);
      var all := Encode(p);
      assert q == all[..|q|] && all[0] == q[0];
      var h := [q[0]];
      if |q| < 1 + |v| {
        assert q[1..] == v[..|q| - 1];
        ScanPrefix(h, |b|, q[1..], 0);
        assert h + q[1..] == q;
      } else {
        assert all[1..1 + |v|] == v;
        assert q == h + v + q[1 + |v|..];
        ScanVarLen(h, |b|, q[1 + |v|..], 0);
      }
    }
  }

  // ---------------------------------------------------------------- any cut

  /** What a message says: the fields its own command defines, and an id only where one was sent. */
  datatype View =
    | Publish(qos: nat, topic: seq<byte>, maybeId: Option<nat>, payload: seq<byte>)
    | Subscribe(id: nat, payload: seq<byte>)
    | Ack(cmd: nat, id: nat)
    | Connack(code: nat)
    | Connect(version: nat, flags: nat, keepAlive: nat, strings: seq<seq<byte>>)
    | Bare(cmd: nat)

  function ViewOf(mm: Message): (v: View) {
    if mm.cmd == CONNECT then Connect(mm.version, mm.flags, mm.keepAlive, mm.strings)
    else if mm.cmd == CONNACK then Connack(mm.connackCode)
    else if mm.cmd in {PUBACK, PUBREC, PUBREL, PUBCOMP, SUBACK} then Ack(mm.cmd, mm.messageId)
    else if mm.cmd == PUBLISH then
      Publish(mm.qos, mm.topic, if mm.qos > 0 then Some(mm.messageId) else None, mm.payload)
    else if mm.cmd == SUBSCRIBE then Subscribe(mm.messageId, mm.payload)
    else Bare(mm.cmd)
  }

  ghost predicate Alike(a: Outcome, b: Outcome) {
    match (a, b)
    case (Parsed(n, x), Parsed(m, y)) => n == m && ViewOf(x) == ViewOf(y)
    case _ => a == b
  }

  lemma {:induction false} ParseStringsAlike(s: seq<byte>, p: nat, end: nat, n: nat, x: Message, y: Message)
    requires end <= |s| && x.cmd == y.cmd == CONNECT && ViewOf(x) == ViewOf(y)
    ensures Alike(ParseStrings(s, p, end, n, x), ParseStrings(s, p, end, n, y))
    decreases n
  {
    if n > 0 && p < end && p + 2 <= |s| {
      var q := p + 2 + U16(s, p);
      if q <= end {
        var piece := [s[p + 2..q]];
        ParseStringsAlike(s, q, end, n - 1, x.(strings := x.strings + piece), y.(strings := y.strings + piece));
      }
    }
  }

  /** For every byte string: what a message says does not depend on the record it is parsed into. */
  lemma ParseAlike(s: seq<byte>, x: Message, y: Message)
    ensures Alike(Parse(s, x), Parse(s, y))
  {
    hide ParseBody, Qos, ScanFrom;
    if |s| >= 2 {
      match ScanFrom(s, 1, 0)
      case TooLong =>
      case Scanned(len, p, more) =>
        if !more && len <= |s| - p {
          var cmd := s[0] / 16;
          ParseBodyAlike(s, p, p + len, x.(cmd := cmd, qos := Qos(s[0])), y.(cmd := cmd, qos := Qos(s[0])));
        }
    }
  }

  lemma ParseBodyAlike(s: seq<byte>, p: nat, end: nat, x: Message, y: Message)
    requires p <= end <= |s| && x.cmd == y.cmd && x.qos == y.qos
    ensures Alike(ParseBody(s, p, end, x), ParseBody(s, p, end, y))
  {
    hide ParseStrings;
    if x.cmd == CONNECT && p + 2 <= |s| {
      var q := p + 2 + U16(s, p);
      if q <= end - 4 {
        var flags := s[q + 1];
        var will := if flags / HAS_WILL % 2 == 1 then 2 else 0;
        var user := if flags / HAS_USER_NAME % 2 == 1 then 1 else 0;
        var pass := if flags / HAS_PASSWORD % 2 == 1 then 1 else 0;
        var x' := x.(version := s[q], flags := flags, keepAlive := U16(s, q + 2), strings := [s[p + 2..q]]);
        var y' := y.(version := s[q], flags := flags, keepAlive := U16(s, q + 2), strings := [s[p + 2..q]]);
        ParseStringsAlike(s, q + 4, end, 1 + will + user + pass, x', y');
      }
    }
  }

  function Views(events: seq<Message>): (r: seq<View>) {
    seq(|events|, i requires 0 <= i < |events| => ViewOf(events[i]))
  }

  /** The log as its reader may rely on it, and whether the connection is being closed. */
  datatype Log = Log(views: seq<View>, closing: bool)

  /** The effect of one arrival on that log. */
  function Extended(limit: nat, log: Log, s: seq<byte>): (r: (Log, seq<byte>)) {
    var (r, left) := Drain(Receiver([], log.closing), s, CLEARED, limit);
    (Log(log.views + Views(r.events), r.closing), left)
  }

  function Extend(limit: nat): (loop: Loop<Log>) { (log, s) => Extended(limit, log, s) }

  lemma {:induction false} DrainAppends(r: Receiver, s: seq<byte>, mm: Message, limit: nat)
    ensures var (a, left) := Drain(r, s, mm, limit); var (b, left') := Drain(r.(events := []), s, mm, limit);
            left == left' && a.closing == b.closing && a.events == r.events + b.events
    decreases |s|
  {
    match Parse(s, mm)
    case Parsed(len, mm') =>
      DrainAppends(r.(events := r.events + [mm']), s[len..], mm', limit);
      DrainAppends(r.(events := [mm']), s[len..], mm', limit);
      assert [] + [mm'] == [mm'];
    case _ =>
  }

  lemma {:induction false} DrainAlike(a: Receiver, b: Receiver, s: seq<byte>, x: Message, y: Message, limit: nat)
    requires Views(a.events) == Views(b.events) && a.closing == b.closing
    ensures var (a', left) := Drain(a, s, x, limit); var (b', left') := Drain(b, s, y, limit);
            left == left' && a'.closing == b'.closing && Views(a'.events) == Views(b'.events)
    decreases |s|
  {
    ParseAlike(s, x, y);
    match (Parse(s, x), Parse(s, y))
    case (Parsed(n, x'), Parsed(_, y')) =>
      assert Views(a.events + [x']) == Views(a.events) + [ViewOf(x')];
      assert Views(b.events + [y']) == Views(b.events) + [ViewOf(y')];
      DrainAlike(a.(events := a.events + [x']), b.(events := b.events + [y']), s[n..], x', y', limit);
    case _ =>
  }

  /** What a publication says on the wire. */
  function Says(p: Publication): (v: View) {
    Publish(Qos(p.flags), p.topic, if Qos(p.flags) > 0 then Some(p.id) else None, p.payload)
  }

  /** The message fits under the buffer limit. */
  predicate Roomy(limit: nat, p: Publication) { limit == 0 || |Encode(p)| <= limit }

  function Accepts(limit: nat): (ok: (Log, Publication) -> bool) { (log, p) => Sendable(p) && Roomy(limit, p) }

  function Note(log: Log, p: Publication): (r: Log) { log.(views := log.views + [Says(p)]) }

  lemma ExtendReads(limit: nat)
    ensures Reads(Extend(limit), Encode, Accepts(limit), Note)
  {
    hide Parse, Encode, Sendable;
    var loop, ok := Extend(limit), Accepts(limit);
    forall log, p, tail | ok(log, p) ensures loop(log, Encode(p) + tail) == loop(Note(log, p), tail) {
      ExtendPublication(limit, log, p, tail);
    }
    forall log, p, q | ok(log, p) && q <= Encode(p) && |q| < |Encode(p)| ensures loop(log, q) == (log, q) {
      ParseIncomplete(p, q, CLEARED);
      assert log.views + Views([]) == log.views;
    }
    forall log: Log ensures loop(log, []) == (log, []) {
      EmptyIncomplete(CLEARED);
      assert log.views + Views([]) == log.views;
    }
    forall log, p | ok(log, p) ensures |Encode(p)| > 0 { EncodeNonEmpty(p); }
  }

  lemma EmptyIncomplete(mm: Message)
    ensures Parse([], mm) == Incomplete
  {
  }

  lemma EncodeNonEmpty(p: Publication)
    ensures |Encode(p)| > 0
  {
  }

  lemma ExtendPublication(limit: nat, log: Log, p: Publication, tail: seq<byte>)
    requires Sendable(p)
    ensures Extended(limit, log, Encode(p) + tail) == Extended(limit, Note(log, p), tail)
  {
    hide Parse, Encode, Sendable;
    var mm := Deliver(CLEARED, p);
    ParsePublication(p, tail, CLEARED);
    assert (Encode(p) + tail)[|Encode(p)|..] == tail;
    var empty := Receiver([], log.closing);
    assert [] + [mm] == [mm];
    DrainAppends(empty.(events := [mm]), tail, mm, limit);
    DrainAlike(empty, empty, tail, mm, CLEARED, limit);
    var (r, _) := Drain(empty, tail, mm, limit);
    assert Views([mm] + r.events) == [Says(p)] + Views(r.events);
    Regroup(log.views, [Says(p)], Views(r.events));
  }

  /** The handler's loop alone, which does not ask whether the connection is being closed. */
  function Loops(limit: nat): (loop: Loop<Receiver>) { (r, s) => Drain(r, s, CLEARED, limit) }

  /** The log that `Extend` keeps is the log of the handler itself. */
  lemma {:induction false} LogOfRun(limit: nat, r: Receiver, left: seq<byte>, arrivals: seq<seq<byte>>)
    ensures var (r', left') := Receive(Loops(limit), r, left, arrivals);
            Receive(Extend(limit), Log(Views(r.events), r.closing), left, arrivals)
            == (Log(Views(r'.events), r'.closing), left')
    decreases arrivals
  {
    hide Drain;
    if arrivals != [] {
      var s := left + arrivals[0];
      var (a, l) := Loops(limit)(r, s);
      DrainAppends(r, s, CLEARED, limit);
      var (b, _) := Loops(limit)(r.(events := []), s);
      assert Views(r.events + b.events) == Views(r.events) + Views(b.events);
      LogOfRun(limit, a, l, arrivals[1..]);
    }
  }

  function AllSay(ps: seq<Publication>): (r: seq<View>) {
    seq(|ps|, i requires 0 <= i < |ps| => Says(ps[i]))
  }

  lemma {:induction false} NoteAll(log: Log, ps: seq<Publication>)
    ensures After(Note, log, ps) == log.(views := log.views + AllSay(ps))
    decreases ps
  {
    if ps == [] {
      assert log.views + AllSay(ps) == log.views;
    } else {
      NoteAll(Note(log, ps[0]), ps[1..]);
      assert AllSay(ps) == [Says(ps[0])] + AllSay(ps[1..]);
      assert log.views + [Says(ps[0])] + AllSay(ps[1..]) == log.views + AllSay(ps);
    }
  }

  lemma {:induction false} AllAccepted(limit: nat, log: Log, ps: seq<Publication>)
    requires forall p :: p in ps ==> Sendable(p) && Roomy(limit, p)
    ensures Valid(Accepts(limit), Note, log, ps)
    decreases ps
  {
    if ps != [] { AllAccepted(limit, Note(log, ps[0]), ps[1..]); }
  }

  lemma {:induction false} DrainStaysClosing(r: Receiver, s: seq<byte>, mm: Message, limit: nat)
    ensures r.closing ==> Drain(r, s, mm, limit).0.closing
    decreases |s|
  {
    match Parse(s, mm)
    case Parsed(len, mm') => DrainStaysClosing(r.(events := r.events + [mm']), s[len..], mm', limit);
    case _ =>
  }

  /** As long as the loop does not close the connection, no arrival is dropped. */
  lemma {:induction false} OpenRun(limit: nat, r: Receiver, left: seq<byte>, arrivals: seq<seq<byte>>)
    ensures r.closing ==> Receive(Loops(limit), r, left, arrivals).0.closing
    ensures var looped := Receive(Loops(limit), r, left, arrivals);
            !looped.0.closing ==> Take(limit, r, left, arrivals) == looped
    decreases arrivals
  {
    hide Drain;
    if arrivals != [] {
      var s := left + arrivals[0];
      DrainStaysClosing(r, s, CLEARED, limit);
      OpenRun(limit, Loops(limit)(r, s).0, Loops(limit)(r, s).1, arrivals[1..]);
    }
  }

  /** Main theorem.  Every list of publications that each fit under the buffer limit, however its bytes
      are cut into arrivals, reaches the handler as exactly those messages in order: topic, quality of
      service, payload, and the id wherever one was sent.  Nothing is left in the buffer and the
      connection stays open. */
  lemma AnyCutPublishes(ps: seq<Publication>, arrivals: seq<seq<byte>>, limit: nat)
    requires forall p :: p in ps ==> Sendable(p) && Roomy(limit, p)
    requires Brings(arrivals, ps)
    ensures var (r, left) := Run(limit, arrivals); Views(r.events) == AllSay(ps) && !r.closing && left == []
  {
    hide Sendable, Roomy, Encode, Loops, Extend;
    var log, r := Log([], false), Receiver([], false);
    ExtendReads(limit);
    AllAccepted(limit, log, ps);
    AnyCut(Extend(limit), Encode, Accepts(limit), Note, log, ps, arrivals);
    NoteAll(log, ps);
    LogOfRun(limit, r, [], arrivals);
    OpenRun(limit, r, [], arrivals);
    assert Views([]) == [] && log.views + AllSay(ps) == AllSay(ps);
  }

  /** The limit is exact: every cut reaches the handler whole if and only if every message fits. */
  lemma PublishesExactly(ps: seq<Publication>, limit: nat)
    requires forall p :: p in ps ==> Sendable(p)
    ensures (forall arrivals :: Brings(arrivals, ps) ==>
               Views(Run(limit, arrivals).0.events) == AllSay(ps) && Run(limit, arrivals).1 == [])
            <==> forall p :: p in ps ==> Roomy(limit, p)
  {
    hide Run, Sendable, Roomy, Brings, AllButOne;
    if forall p :: p in ps ==> Roomy(limit, p) {
      forall arrivals | Brings(arrivals, ps)
        ensures Views(Run(limit, arrivals).0.events) == AllSay(ps) && Run(limit, arrivals).1 == []
      {
        AnyCutPublishes(ps, arrivals, limit);
      }
    } else {
      var k :| 0 <= k < |ps| && !Roomy(limit, ps[k]);
      ShortOfOne(ps, k, limit);
      assert |Views(Run(limit, AllButOne(ps, k)).0.events)| == k && |AllSay(ps)| == |ps|;
    }
  }

  /** One message at the front of what the loop works on. */
  lemma DrainOne(r: Receiver, p: Publication, tail: seq<byte>, mm: Message, limit: nat)
    requires Sendable(p)
    ensures Drain(r, Encode(p) + tail, mm, limit)
            == Drain(r.(events := r.events + [Deliver(mm, p)]), tail, Deliver(mm, p), limit)
  {
    hide Sendable, Encode, Deliver;
    ParsePublication(p, tail, mm);
    assert (Encode(p) + tail)[|Encode(p)|..] == tail;
  }

  /** The records handed over when all messages come in one arrival. */
  function Delivered(mm: Message, ps: seq<Publication>): (r: seq<Message>)
    ensures |r| == |ps|
    decreases ps
  {
    if ps == [] then [] else [Deliver(mm, ps[0])] + Delivered(Deliver(mm, ps[0]), ps[1..])
  }

  function LastOf(mm: Message, ps: seq<Publication>): (r: Message)
    decreases ps
  {
    if ps == [] then mm else LastOf(Deliver(mm, ps[0]), ps[1..])
  }

  lemma {:induction false} DrainAll(r: Receiver, ps: seq<Publication>, tail: seq<byte>, mm: Message, limit: nat)
    requires forall p :: p in ps ==> Sendable(p)
    ensures Drain(r, Wire(Encode, ps) + tail, mm, limit)
            == Drain(r.(events := r.events + Delivered(mm, ps)), tail, LastOf(mm, ps), limit)
    decreases ps
  {
    hide Drain, Sendable, Encode, Deliver;
    if ps == [] {
      Unit(tail);
      Unit(r.events);
    } else {
      var p, m := ps[0], Deliver(mm, ps[0]);
      Regroup(Encode(p), Wire(Encode, ps[1..]), tail);
      DrainOne(r, p, Wire(Encode, ps[1..]) + tail, mm, limit);
      DrainAll(r.(events := r.events + [m]), ps[1..], tail, m, limit);
      Regroup(r.events, [m], Delivered(m, ps[1..]));
    }
  }

  lemma DrainNothing(r: Receiver, mm: Message, limit: nat)
    ensures Drain(r, [], mm, limit) == (r, [])
  {
    EmptyIncomplete(mm);
  }

  lemma TakeFirst(limit: nat, r: Receiver, left: seq<byte>, x: seq<byte>, more: seq<seq<byte>>)
    requires !r.closing
    ensures var (r', left') := Drain(r, left + x, CLEARED, limit);
            Take(limit, r, left, [x] + more) == Take(limit, r', left', more)
  {
    assert ([x] + more)[1..] == more;
  }

  lemma {:induction false} ClosingDrops(limit: nat, r: Receiver, left: seq<byte>, arrivals: seq<seq<byte>>)
    requires r.closing
    ensures Take(limit, r, left, arrivals) == (r, left)
    decreases arrivals
  {
    if arrivals != [] { ClosingDrops(limit, r, left, arrivals[1..]); }
  }

  /** The connection stays open under every cut if and only if every message fits. */
  lemma StaysOpenExactly(ps: seq<Publication>, limit: nat)
    requires forall p :: p in ps ==> Sendable(p)
    ensures (forall arrivals :: Brings(arrivals, ps) ==> !Run(limit, arrivals).0.closing)
            <==> forall p :: p in ps ==> Roomy(limit, p)
  {
    hide Run, Sendable, Roomy;
    if forall p :: p in ps ==> Roomy(limit, p) {
      forall arrivals | Brings(arrivals, ps) ensures !Run(limit, arrivals).0.closing {
        AnyCutPublishes(ps, arrivals, limit);
      }
    } else {
      var k :| 0 <= k < |ps| && !Roomy(limit, ps[k]);
      ShortOfOne(ps, k, limit);
    }
  }

  /** Everything up to the last byte of message `k`, then the rest. */
  function AllButOne(ps: seq<Publication>, k: nat): (arrivals: seq<seq<byte>>)
    requires k < |ps|
  {
    var first := Wire(Encode, ps[..k]) + AllButLast(Encode(ps[k]));
    WireSplit(ps, k);
    [first] + [Wire(Encode, ps)[|first|..]]
  }

  function AllButLast(s: seq<byte>): (r: seq<byte>)
    ensures |r| <= |s|
  {
    if s == [] then [] else s[..|s| - 1]
  }

  lemma AllButOneBrings(ps: seq<Publication>, k: nat)
    requires k < |ps|
    ensures Brings(AllButOne(ps, k), ps)
  {
    hide Encode;
    var first, all := Wire(Encode, ps[..k]) + AllButLast(Encode(ps[k])), Wire(Encode, ps);
    WireSplit(ps, k);
    assert first <= Wire(Encode, ps[..k]) + Encode(ps[k]) <= all;
    FlattenSnoc([first], all[|first|..]);
    FlattenSnoc([], first);
    Unit(first);
    assert [] + [first] == [first];
  }

  /** A message longer than the limit that arrives up to its last byte closes the connection: the
      messages before it are delivered, it stays in the buffer, and the rest is dropped. */
  lemma ShortOfOne(ps: seq<Publication>, k: nat, limit: nat)
    requires (forall p :: p in ps ==> Sendable(p)) && k < |ps| && !Roomy(limit, ps[k])
    ensures Brings(AllButOne(ps, k), ps)
    ensures Run(limit, AllButOne(ps, k))
            == (Receiver(Delivered(CLEARED, ps[..k]), true), AllButLast(Encode(ps[k])))
  {
    hide Drain, Sendable, Encode, Roomy, Brings, Flatten;
    AllButOneBrings(ps, k);
    WireSplit(ps, k);
    var most := AllButLast(Encode(ps[k]));
    var first := Wire(Encode, ps[..k]) + most;
    var rest := Wire(Encode, ps)[|first|..];
    var r := Receiver([], false);
    var r' := r.(events := Delivered(CLEARED, ps[..k]));
    Unit(r'.events);
    Unit(first);
    DrainAll(r, ps[..k], most, CLEARED, limit);
    ClosedAtLimit(r', ps[k], LastOf(CLEARED, ps[..k]), limit);
    TakeFirst(limit, r, [], first, [rest]);
    ClosingDrops(limit, r'.(closing := true), most, [rest]);
  }

  lemma ClosedAtLimit(r: Receiver, p: Publication, mm: Message, limit: nat)
    requires Sendable(p) && !Roomy(limit, p)
    ensures var q := AllButLast(Encode(p)); Drain(r, q, mm, limit) == (r.(closing := true), q)
  {
    hide Encode, Sendable;
    ParseIncomplete(p, AllButLast(Encode(p)), mm);
  }

  lemma {:induction false} WireSplit(ps: seq<Publication>, k: nat)
    requires k < |ps|
    ensures Wire(Encode, ps[..k]) + Encode(ps[k]) <= Wire(Encode, ps)
    decreases k
  {
    hide Encode;
    if k > 0 {
      WireSplit(ps[1..], k - 1);
      assert ps[..k][1..] == ps[1..][..k - 1];
      Regroup(Encode(ps[0]), Wire(Encode, ps[1..][..k - 1]), Encode(ps[k]));
    }
  }

  // ---------------------------------------------------------------- the id field at QoS 0

  /** Without an id on the wire the handler sees whatever id the record still holds. */
  lemma StaleId(p: Publication, tail: seq<byte>, mm: Message)
    requires Sendable(p)
    ensures var r := Parse(Encode(p) + tail, mm);
            r.Parsed? && r.mm.messageId == if Qos(p.flags) > 0 then p.id else mm.messageId
  {
    ParsePublication(p, tail, mm);
  }

  /** The id of the last publication before `j` that sent one, or zero. */
  function CarriedId(ps: seq<Publication>, j: nat): (id: nat)
    requires j <= |ps|
  {
    CarriedFrom(0, ps, j)
  }

  function CarriedFrom(id: nat, ps: seq<Publication>, j: nat): (r: nat)
    requires j <= |ps|
  {
    if j == 0 then id else if Qos(ps[j - 1].flags) > 0 then ps[j - 1].id else CarriedFrom(id, ps, j - 1)
  }

  /** The fields that a PUBLISH leaves as they are. */
  function Residue(m: Message): (r: Message) { m.(cmd := 0, qos := 0, messageId := 0, topic := [], payload := []) }

  /** What a PUBLISH record shares with the record it was parsed into. */
  predicate Follows(prev: Message, m: Message) {
    m.cmd == PUBLISH ==> Residue(m) == Residue(prev) && (m.qos == 0 ==> m.messageId == prev.messageId)
  }

  lemma ParseFollows(s: seq<byte>, mm: Message)
    ensures Parse(s, mm).Parsed? ==> Follows(mm, Parse(s, mm).mm)
  {
    hide ScanFrom, ParseBody, Qos;
    if |s| >= 2 {
      match ScanFrom(s, 1, 0)
      case TooLong =>
      case Scanned(len, p, more) =>
        if !more && len <= |s| - p { BodyFollows(s, p, p + len, mm.(cmd := s[0] / 16, qos := Qos(s[0]))); }
    }
  }

  lemma BodyFollows(s: seq<byte>, p: nat, end: nat, mm: Message)
    requires p <= end <= |s|
    ensures ParseBody(s, p, end, mm).Parsed? ==> Follows(mm, ParseBody(s, p, end, mm).mm)
  {
    hide U16, ParseConnect;
    ConnectKeepsCommand(s, p, end, mm);
  }

  lemma ConnectKeepsCommand(s: seq<byte>, p: nat, end: nat, mm: Message)
    requires p <= end <= |s|
    ensures var r := ParseConnect(s, p, end, mm); r.Parsed? ==> r.mm.cmd == mm.cmd
  {
    hide ParseStrings;
    if p + 2 <= |s| {
      var q := p + 2 + U16(s, p);
      if q <= end - 4 {
        var flags := s[q + 1];
        var will := if flags / HAS_WILL % 2 == 1 then 2 else 0;
        var user := if flags / HAS_USER_NAME % 2 == 1 then 1 else 0;
        var pass := if flags / HAS_PASSWORD % 2 == 1 then 1 else 0;
        var m := mm.(version := s[q], flags := flags, keepAlive := U16(s, q + 2), strings := [s[p + 2..q]]);
        StringsKeepCommand(s, q + 4, end, 1 + will + user + pass, m);
      }
    }
  }

  lemma {:induction false} StringsKeepCommand(s: seq<byte>, p: nat, end: nat, n: nat, mm: Message)
    requires end <= |s|
    ensures var r := ParseStrings(s, p, end, n, mm); r.Parsed? ==> r.mm.cmd == mm.cmd
    decreases n
  {
    if n > 0 && p < end && p + 2 <= |s| {
      var q := p + 2 + U16(s, p);
      if q <= end { StringsKeepCommand(s, q, end, n - 1, mm.(strings := mm.strings + [s[p + 2..q]])); }
    }
  }

  /** Each record in a log was parsed into a cleared one or into the one before it. */
  predicate Chained(events: seq<Message>) {
    forall j :: 0 <= j < |events| ==> Link(events, j)
  }

  predicate Link(events: seq<Message>, j: nat)
    requires j < |events|
  {
    Follows(CLEARED, events[j]) || (j > 0 && Follows(events[j - 1], events[j]))
  }

  lemma {:induction false} DrainChains(r: Receiver, s: seq<byte>, mm: Message, limit: nat)
    requires Chained(r.events) && (mm == CLEARED || (r.events != [] && mm == r.events[|r.events| - 1]))
    ensures Chained(Drain(r, s, mm, limit).0.events)
    decreases |s|
  {
    hide Parse, Follows;
    ParseFollows(s, mm);
    match Parse(s, mm)
    case Parsed(len, mm') =>
      var events := r.events + [mm'];
      forall j | 0 <= j < |events| ensures Link(events, j) {
        assert j < |r.events| ==> Link(r.events, j);
      }
      DrainChains(r.(events := events), s[len..], mm', limit);
    case _ =>
  }

  lemma {:induction false} RunChains(limit: nat, r: Receiver, left: seq<byte>, arrivals: seq<seq<byte>>)
    requires Chained(r.events)
    ensures Chained(Take(limit, r, left, arrivals).0.events)
    decreases arrivals
  {
    hide Drain, Chained;
    if arrivals != [] {
      DrainChains(r, left + arrivals[0], CLEARED, limit);
      var (r', left') := Arrive(limit, r, left, arrivals[0]);
      RunChains(limit, r', left', arrivals[1..]);
    }
  }

  /** The record of a publication with a given id field. */
  function Record(p: Publication, id: nat): (m: Message) {
    Message(3, Qos(p.flags), id, p.topic, p.payload, 0, 0, 0, 0, [])
  }

  /** Whatever the cut, every record is that of its publication, with the id that was sent or, where
      none was, with zero or the id carried over from the last publication that sent one. */
  lemma {:induction false} RawRecord(ps: seq<Publication>, events: seq<Message>, j: nat)
    requires Views(events) == AllSay(ps) && Chained(events) && j < |ps|
    ensures |events| == |ps|
    ensures var id := events[j].messageId;
            && events[j] == Record(ps[j], id)
            && (Qos(ps[j].flags) > 0 ==> id == ps[j].id)
            && (Qos(ps[j].flags) == 0 ==> id == 0 || id == CarriedId(ps, j))
  {
    assert |Views(events)| == |AllSay(ps)|;
    assert Views(events)[j] == ViewOf(events[j]) && AllSay(ps)[j] == Says(ps[j]);
    assert events[j].cmd == PUBLISH && Link(events, j);
    if Follows(CLEARED, events[j]) {
      assert events[j] == Record(ps[j], events[j].messageId);
    } else {
      assert j > 0 && Follows(events[j - 1], events[j]);
      RawRecord(ps, events, j - 1);
      assert Residue(events[j]) == Residue(Record(ps[j - 1], events[j - 1].messageId)) == CLEARED;
      assert events[j] == Record(ps[j], events[j].messageId);
    }
  }

  /** Where nothing but zero is carried over, the records do not depend on the cut. */
  lemma SameRecords(ps: seq<Publication>, a: seq<Message>, b: seq<Message>)
    requires Views(a) == AllSay(ps) == Views(b) && Chained(a) && Chained(b)
    requires forall j :: 0 <= j < |ps| && Qos(ps[j].flags) == 0 ==> CarriedId(ps, j) == 0
    ensures a == b
  {
    hide Chained, CarriedId, Record, Qos;
    assert |Views(a)| == |AllSay(ps)| == |Views(b)|;
    forall j | 0 <= j < |ps| ensures a[j] == b[j] {
      RawRecord(ps, a, j);
      RawRecord(ps, b, j);
    }
  }

  // one arrival against one for each message

  lemma {:induction false} CarriedShift(id: nat, ps: seq<Publication>, j: nat)
    requires 0 < j <= |ps|
    ensures CarriedFrom(id, ps, j)
            == CarriedFrom(if Qos(ps[0].flags) > 0 then ps[0].id else id, ps[1..], j - 1)
    decreases j
  {
    if j > 1 { CarriedShift(id, ps, j - 1); }
  }

  lemma {:induction false} DeliveredId(mm: Message, ps: seq<Publication>, j: nat)
    requires j < |ps|
    ensures Delivered(mm, ps)[j].messageId
            == if Qos(ps[j].flags) > 0 then ps[j].id else CarriedFrom(mm.messageId, ps, j)
    decreases ps
  {
    if j > 0 {
      CarriedShift(mm.messageId, ps, j);
      DeliveredId(Deliver(mm, ps[0]), ps[1..], j - 1);
    }
  }

  function EachAlone(ps: seq<Publication>): (arrivals: seq<seq<byte>>)
    decreases ps
  {
    if ps == [] then [] else [Encode(ps[0])] + EachAlone(ps[1..])
  }

  lemma {:induction false} EachAloneBrings(ps: seq<Publication>)
    ensures Brings(EachAlone(ps), ps)
    decreases ps
  {
    hide Encode;
    if ps != [] {
      EachAloneBrings(ps[1..]);
      assert EachAlone(ps)[1..] == EachAlone(ps[1..]);
    }
  }

  lemma AllAtOnceBrings(ps: seq<Publication>)
    ensures Brings([Wire(Encode, ps)], ps)
  {
    hide Encode;
    FlattenSnoc([], Wire(Encode, ps));
    Unit(Wire(Encode, ps));
    assert [] + [Wire(Encode, ps)] == [Wire(Encode, ps)];
  }

  function Alone(ps: seq<Publication>): (r: seq<Message>) {
    seq(|ps|, i requires 0 <= i < |ps| => Deliver(CLEARED, ps[i]))
  }

  lemma AllAtOnce(ps: seq<Publication>, limit: nat)
    requires forall p :: p in ps ==> Sendable(p)
    ensures Run(limit, [Wire(Encode, ps)]).0.events == Delivered(CLEARED, ps)
  {
    hide Drain, Sendable, Encode, Deliver;
    var r, w := Receiver([], false), Wire(Encode, ps);
    Unit(w);
    assert [w] + [] == [w];
    TakeFirst(limit, r, [], w, []);
    DrainAll(r, ps, [], CLEARED, limit);
    Unit(Delivered(CLEARED, ps));
    DrainNothing(r.(events := Delivered(CLEARED, ps)), LastOf(CLEARED, ps), limit);
  }

  lemma {:induction false} OneByOne(r: Receiver, ps: seq<Publication>, limit: nat)
    requires (forall p :: p in ps ==> Sendable(p)) && !r.closing
    ensures Take(limit, r, [], EachAlone(ps)) == (r.(events := r.events + Alone(ps)), [])
    decreases ps
  {
    hide Drain, Sendable, Encode, Deliver;
    if ps == [] {
      assert r.events + Alone(ps) == r.events;
    } else {
      var p := ps[0];
      var r' := r.(events := r.events + [Deliver(CLEARED, p)]);
      Unit(Encode(p));
      DrainOne(r, p, [], CLEARED, limit);
      DrainNothing(r', Deliver(CLEARED, p), limit);
      TakeFirst(limit, r, [], Encode(p), EachAlone(ps[1..]));
      OneByOne(r', ps[1..], limit);
      assert Alone(ps) == [Deliver(CLEARED, p)] + Alone(ps[1..]);
      Regroup(r.events, [Deliver(CLEARED, p)], Alone(ps[1..]));
    }
  }

  lemma EachAloneRun(ps: seq<Publication>, limit: nat)
    requires forall p :: p in ps ==> Sendable(p)
    ensures Run(limit, EachAlone(ps)).0.events == Alone(ps)
  {
    OneByOne(Receiver([], false), ps, limit);
    Unit(Alone(ps));
  }

  /** Exactly when the records the handler sees do not depend on the cut: every message fits under the
      limit, and every publication that sends no id has no non-zero id carried over to it. */
  lemma RawIdsExactly(ps: seq<Publication>, limit: nat)
    requires forall p :: p in ps ==> Sendable(p)
    ensures (forall x, y :: Brings(x, ps) && Brings(y, ps) ==> Run(limit, x).0.events == Run(limit, y).0.events)
            <==> (forall p :: p in ps ==> Roomy(limit, p))
                 && forall j :: 0 <= j < |ps| && Qos(ps[j].flags) == 0 ==> CarriedId(ps, j) == 0
  {
    hide Run, Sendable, Roomy, Brings, Encode, CarriedId, Qos, Chained, Views, AllSay, AllButOne;
    AllAtOnceBrings(ps);
    AllAtOnce(ps, limit);
    if k :| 0 <= k < |ps| && !Roomy(limit, ps[k]) {
      ShortOfOne(ps, k, limit);
      assert |Run(limit, AllButOne(ps, k)).0.events| == k && |Run(limit, [Wire(Encode, ps)]).0.events| == |ps|;
    } else if j :| 0 <= j < |ps| && Qos(ps[j].flags) == 0 && CarriedId(ps, j) != 0 {
      EachAloneBrings(ps);
      EachAloneRun(ps, limit);
      TwoIds(ps, j);
    } else {
      forall x, y | Brings(x, ps) && Brings(y, ps) ensures Run(limit, x).0.events == Run(limit, y).0.events {
        CutRecords(ps, x, limit);
        CutRecords(ps, y, limit);
        SameRecords(ps, Run(limit, x).0.events, Run(limit, y).0.events);
      }
    }
  }

  lemma CutRecords(ps: seq<Publication>, x: seq<seq<byte>>, limit: nat)
    requires (forall p :: p in ps ==> Sendable(p) && Roomy(limit, p)) && Brings(x, ps)
    ensures Views(Run(limit, x).0.events) == AllSay(ps) && Chained(Run(limit, x).0.events)
  {
    hide Sendable, Roomy, Arrive;
    AnyCutPublishes(ps, x, limit);
    RunChains(limit, Receiver([], false), [], x);
  }

  lemma {:induction false} TwoIds(ps: seq<Publication>, j: nat)
    requires j < |ps| && Qos(ps[j].flags) == 0
    ensures Delivered(CLEARED, ps)[j].messageId == CarriedId(ps, j) && Alone(ps)[j].messageId == 0
  {
    DeliveredId(CLEARED, ps, j);
  }

  /** Two messages, the first with id 7 and the second without one: together the second shows id 7,
      in an arrival of its own it shows 0. */
  lemma RawIdWitness(limit: nat)
    ensures var a, b := Publication([], 7, 2, []), Publication([], 0, 0, []);
            && Brings([Wire(Encode, [a, b])], [a, b]) && Brings([Encode(a), Encode(b)], [a, b])
            && Run(limit, [Wire(Encode, [a, b])]).0.events == [Record(a, 7), Record(b, 7)]
            && Run(limit, [Encode(a), Encode(b)]).0.events == [Record(a, 7), Record(b, 0)]
  {
    var a, b := Publication([], 7, 2, []), Publication([], 0, 0, []);
    var ps := [a, b];
    SmallSendable(a);
    SmallSendable(b);
    hide Run, Sendable, Brings, Encode;
    AllAtOnceBrings(ps);
    EachAloneBrings(ps);
    AllAtOnce(ps, limit);
    EachAloneRun(ps, limit);
    assert ps[1..] == [b] && [b][1..] == [];
    assert EachAlone([b]) == [Encode(b)] + EachAlone([b][1..]);
    assert EachAlone(ps) == [Encode(a), Encode(b)];
    var first := Deliver(CLEARED, a);
    assert first == Record(a, 7) && Deliver(first, b) == Record(b, 7) && Deliver(CLEARED, b) == Record(b, 0);
    assert Delivered(first, [b]) == [Deliver(first, b)] + Delivered(Deliver(first, b), [b][1..]);
    assert Delivered(CLEARED, ps) == [Record(a, 7), Record(b, 7)];
    assert Alone(ps) == [Record(a, 7), Record(b, 0)];
  }

  lemma SmallSendable(p: Publication)
    requires p.topic == [] && p.payload == [] && p.id < TWO_16 && p.flags < 64
    ensures Sendable(p)
  {
  }
}
