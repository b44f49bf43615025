/** The MQTT connection object: the receive loop over its buffer, and the publisher. */
module MqttConnection {
  import opened Bytes
  import opened Mbuf
  import opened Mqtt

  function Pow128(n: nat): (r: nat) { if n == 0 then 1 else 128 * Pow128(n - 1) }

  /** `value` read so far with weight 1, the rest of the scan with weight `weight`. */
  ghost function Weighted(value: nat, weight: nat, rest: Scan): (r: Scan) {
    match rest
    case TooLong => TooLong
    case Scanned(v, pos, more) => Scanned(value + weight * v, pos, more)
  }

  lemma WeightedStep(value: nat, weight: nat, low: nat, v: nat)
    ensures value + weight * (low + 128 * v) == value + low * weight + (128 * weight) * v
  {
    assert weight * (low + 128 * v) == weight * low + weight * (128 * v);
    assert weight * (128 * v) == (128 * weight) * v;
  }

  lemma ScanStep(s: seq<byte>, p: nat, n: nat, value: nat, weight: nat)
    requires p < |s|
    ensures Weighted(value, weight, ScanFrom(s, p, n))
            == if s[p] < 128 then Scanned(value + s[p] % 128 * weight, p + 1, false)
               else if n + 1 > 4 then TooLong
               else Weighted(value + s[p] % 128 * weight, 128 * weight, ScanFrom(s, p + 1, n + 1))
  {
    if s[p] >= 128 && n + 1 <= 4 {
      match ScanFrom(s, p + 1, n + 1)
      case TooLong =>
      case Scanned(v, _, _) => WeightedStep(value, weight, s[p] % 128, v);
    }
  }

  lemma ScanEnds(s: seq<byte>, n: nat, value: nat, weight: nat)
    ensures Weighted(value, weight, ScanFrom(s, |s|, n)) == Scanned(value, |s|, n > 0)
    ensures |s| > 1 ==> Weighted(0, 1, ScanFrom(s, 1, 0)) == ScanFrom(s, 1, 0)
  {
  }

  /** The length loop of parse_mqtt. */
  method ScanLength(io: Buffer) returns (r: Scan)
    requires io.Valid() && io.len >= 2
    ensures r == ScanFrom(io.Contents(), 1, 0)
  {
    hide ScanFrom, Weighted;
    ghost var s := io.Contents();
    var p: nat, len: nat, lenLen: nat := 1, 0, 0;
    ScanEnds(s, 0, 0, 1);
    while p < io.len
      invariant 1 <= p <= io.len && lenLen == p - 1 <= 4
      invariant ScanFrom(s, 1, 0) == Weighted(len, Pow128(lenLen), ScanFrom(s, p, lenLen))
    {
      var lc := io.buf[p];
      assert lc == s[p];
      ScanStep(s, p, lenLen, len, Pow128(lenLen));
      p := p + 1;
      len := len + lc % 128 * Pow128(lenLen);
      lenLen := lenLen + 1;
      if lc < 128 {
        return Scanned(len, p, false);
      }
      if lenLen > 4 {
        return TooLong;
      }
    }
    ScanEnds(s, lenLen, len, Pow128(lenLen));
    return Scanned(len, p, true);
  }

  class Connection {
    const recv: Buffer
    const limit: nat
    var events: seq<Message>
    var closing: bool

    ghost predicate Valid()
      reads this, recv
    {
      recv.Valid()
    }

    ghost function State(): (r: Receiver)
      reads this
    {
      Receiver(events, closing)
    }

    constructor (limit: nat)
      ensures Valid() && fresh(recv) && fresh(recv.buf)
      ensures State() == Receiver([], false) && recv.Contents() == [] && this.limit == limit
    {
      this.limit := limit;
      recv := new Buffer(0);
      events, closing := [], false;
    }

    /** parse_mqtt on the receive buffer. */
    method ParseMessage(mm: Message) returns (r: Outcome)
      requires Valid()
      ensures r == Parse(recv.Contents(), mm)
    {
      hide ScanFrom, ParseBody;
      if recv.len < 2 { return Incomplete; }
      var scan := ScanLength(recv);
      if scan.TooLong? { return Malformed; }
      if scan.more || scan.value > recv.len - scan.pos { return Incomplete; }
      var header := recv.buf[0];
      r := ParseBody(recv.buf[..recv.len], scan.pos, scan.pos + scan.value,
                     mm.(cmd := header / 16, qos := Qos(header)));
    }

    /** One arrival: nothing on a connection that is being closed; otherwise append, clear the message
        record, then parse and hand over until stuck. */
    method Received(data: seq<byte>)
      requires Valid()
      modifies this, recv, recv.buf
      ensures Valid() && (recv.buf == old(recv.buf) || fresh(recv.buf))
      ensures (State(), recv.Contents()) == Arrive(limit, old(State()), old(recv.Contents()), data)
    {
      hide Parse;
      if closing { return; }
      ghost var r, s := State(), recv.Contents() + data;
      recv.Append(data);
      var mm := CLEARED;
      while true
        invariant Valid() && (recv.buf == old(recv.buf) || fresh(recv.buf))
        invariant Drain(State(), recv.Contents(), mm, limit) == Drain(r, s, CLEARED, limit)
        decreases recv.len
      {
        var outcome := ParseMessage(mm);
        match outcome {
          case Malformed => closing := true; return;
          case OutOfBounds => closing := true; return;
          case Incomplete =>
            if limit > 0 && recv.len >= limit { closing := true; }
            return;
          case Parsed(len, mm') =>
            mm := mm';
            events := events + [mm];
            recv.Remove(len);
        }
      }
    }
  }

  // ---------------------------------------------------------------- the publisher

  /** mg_mqtt_prepend_header: inserts the fixed header before the last `len` bytes. */
  method PrependHeader(send: Buffer, flags: byte, len: nat)
    requires send.Valid() && len <= send.len
    modifies send, send.buf
    ensures send.Valid() && (send.buf == old(send.buf) || fresh(send.buf))
    ensures var off := old(send.len) - len;
            send.Contents() == old(send.Contents()[..off]) + ([PublishHeader(flags)] + VarLen(len))
                + old(send.Contents()[off..])
  {
    var off := send.len - len;
    var vlen: seq<byte> := [];
    var n, more := len, true;
    while more
      invariant if more then vlen + VarLen(n) == VarLen(len) else vlen == VarLen(len)
      decreases more, n
    {
      var digit := n % 128;
      var rest := n / 128;
      more := rest > 0;
      assert VarLen(n) == if more then [digit + 128] + VarLen(rest) else [digit];
      vlen := vlen + [if more then digit + 128 else digit];
      n := rest;
    }
    send.Insert(off, [PublishHeader(flags)] + vlen);
  }

  method AppendBody(send: Buffer, p: Publication)
    requires send.Valid()
    modifies send, send.buf
    ensures send.Valid() && (send.buf == old(send.buf) || fresh(send.buf))
    ensures send.Contents() == old(send.Contents()) + Body(p)
  {
    hide BigEndian;
    ghost var before := send.Contents();
    send.Append(BigEndian(|p.topic|, 2));
    send.Append(p.topic);
    if Qos(p.flags) > 0 {
      send.Append(BigEndian(p.id, 2));
    }
    send.Append(p.payload);
    assert send.Contents() == before + Body(p);
  }

  /** mg_mqtt_publish: topic, id and payload appended, then the header put in front of them. */
  method SendPublication(send: Buffer, p: Publication)
    requires send.Valid()
    modifies send, send.buf
    ensures send.Valid() && (send.buf == old(send.buf) || fresh(send.buf))
    ensures send.Contents() == old(send.Contents()) + Encode(p)
  {
    hide VarLen, Body;
    ghost var before := send.Contents();
    var oldLen := send.len;
    AppendBody(send, p);
    PrependHeader(send, p.flags, send.len - oldLen);
    assert (before + Body(p))[..oldLen] == before && (before + Body(p))[oldLen..] == Body(p);
    assert before + ([PublishHeader(p.flags)] + VarLen(|Body(p)|)) + Body(p) == before + Encode(p);
  }
}
