/** What the other MQTT messages parse to (sections 3.1 to 3.9 of MQTT 3.1.1). */
module MqttCommands {
  import opened Bytes
  import opened Mqtt

  /** A message on the wire: first byte, remaining length, body. */
  function Framed(first: byte, body: seq<byte>): (r: seq<byte>) { [first] + VarLen(|body|) + body }

  /** Where the body lies, and what the parser knows when it gets there. */
  lemma ParseFramed(first: byte, body: seq<byte>, tail: seq<byte>, mm: Message)
    requires |body| < TWO_31
    ensures var s := Framed(first, body) + tail; var at := 1 + |VarLen(|body|)|; var end := at + |body|;
            && at >= 2 && end <= |s| && s[at..end] == body
            && Parse(s, mm) == ParseBody(s, at, end, mm.(cmd := first / 16, qos := first % 8 / 2))
  {
    hide ParseBody;
    var s, at := Framed(first, body) + tail, 1 + |VarLen(|body|)|;
    VarLenSize(|body|);
    assert s == [first] + VarLen(|body|) + (body + tail);
    ScanVarLen([first], |body|, body + tail, 0);
    assert s[at..at + |body|] == body;
  }

  /** CONNACK: the return code is the second byte of the body. */
  lemma ParseConnack(low: byte, body: seq<byte>, tail: seq<byte>, mm: Message)
    requires low < 16 && |body| < TWO_31
    ensures var r := Parse(Framed(0x20 + low, body) + tail, mm);
            if |body| < 2 then r == Malformed
            else r.Parsed? && r.len == |Framed(0x20 + low, body)| && r.mm.cmd == 2 && r.mm.connackCode == body[1]
  {
    hide Parse, VarLen, Framed;
    NibblesOf(2, low);
    FramedLength(0x20 + low, body);
    ParseFramed(0x20 + low, body, tail, mm);
    var s, at := Framed(0x20 + low, body) + tail, 1 + |VarLen(|body|)|;
    assert |body| >= 2 ==> s[at + 1] == s[at..at + |body|][1];
  }

  /** PUBACK, PUBREC, PUBREL, PUBCOMP and SUBACK: the first two bytes are the id. */
  lemma ParseAck(cmd: nat, low: byte, body: seq<byte>, tail: seq<byte>, mm: Message)
    requires low < 16 && cmd in {4, 5, 6, 7, 9} && 2 <= |body| < TWO_31
    ensures var r := Parse(Framed(16 * cmd + low, body) + tail, mm);
            && r.Parsed? && r.len == |Framed(16 * cmd + low, body)|
            && r.mm.cmd == cmd && r.mm.messageId == body[0] as nat * 256 + body[1] as nat
  {
    hide Parse, VarLen, Framed;
    var first: byte := 16 * cmd + low;
    NibblesOf(cmd, low);
    FramedLength(first, body);
    ParseFramed(first, body, tail, mm);
    var s, at := Framed(first, body) + tail, 1 + |VarLen(|body|)|;
    assert s[at] == s[at..at + |body|][0] && s[at + 1] == s[at..at + |body|][1];
  }

  /** Their body is not measured: where it is shorter, the id is taken from what follows it, and from
      behind the buffer if nothing does. */
  lemma ParseShortAck(cmd: nat, low: byte, body: seq<byte>, tail: seq<byte>, mm: Message)
    requires low < 16 && cmd in {4, 5, 6, 7, 9} && |body| < 2
    ensures var r := Parse(Framed(16 * cmd + low, body) + tail, mm); var t := body + tail;
            if |t| < 2 then r == OutOfBounds
            else r.Parsed? && r.len == |Framed(16 * cmd + low, body)|
                 && r.mm.messageId == t[0] as nat * 256 + t[1] as nat
  {
    hide Parse, VarLen, Framed;
    var first: byte := 16 * cmd + low;
    NibblesOf(cmd, low);
    FramedLength(first, body);
    ParseFramed(first, body, tail, mm);
    var s, at := Framed(first, body) + tail, 1 + |VarLen(|body|)|;
    FramedTail(first, body, tail);
    assert |body + tail| >= 2 ==> s[at] == s[at..][0] && s[at + 1] == s[at..][1];
  }

  lemma FramedTail(first: byte, body: seq<byte>, tail: seq<byte>)
    ensures (Framed(first, body) + tail)[1 + |VarLen(|body|)|..] == body + tail
  {
  }

  /** PUBLISH: a topic longer than the message, or no room for an id that QoS asks for, is an error. */
  lemma ParseBadPublish(low: byte, body: seq<byte>, tail: seq<byte>, mm: Message)
    requires low < 16 && 2 <= |body| < TWO_31
    ensures var n := 2 + body[0] as nat * 256 + body[1] as nat;
            n > |body| || (low % 8 / 2 > 0 && n + 2 > |body|)
            <==> Parse(Framed(0x30 + low, body) + tail, mm) == Malformed
  {
    hide Parse, VarLen, Framed;
    NibblesOf(3, low);
    FramedLength(0x30 + low, body);
    ParseFramed(0x30 + low, body, tail, mm);
    var s, at := Framed(0x30 + low, body) + tail, 1 + |VarLen(|body|)|;
    assert s[at] == s[at..at + |body|][0] && s[at + 1] == s[at..at + |body|][1];
  }

  /** Length bytes that go on beyond the fifth are an error. */
  lemma ParseEndlessLength(s: seq<byte>, mm: Message)
    requires |s| >= 6 && forall i :: 1 <= i <= 5 ==> s[i] >= 128
    ensures Parse(s, mm) == Malformed
  {
    assert ScanFrom(s, 5, 4) == TooLong;
    assert ScanFrom(s, 4, 3) == TooLong;
    assert ScanFrom(s, 3, 2) == TooLong;
    assert ScanFrom(s, 2, 1) == TooLong;
    assert ScanFrom(s, 1, 0) == TooLong;
  }

  /** SUBSCRIBE: the id, and the topic expressions as payload. */
  lemma ParseSubscribe(low: byte, body: seq<byte>, tail: seq<byte>, mm: Message)
    requires low < 16 && |body| < TWO_31
    ensures var r := Parse(Framed(0x80 + low, body) + tail, mm);
            if |body| < 2 then r == Malformed
            else && r.Parsed? && r.len == |Framed(0x80 + low, body)| && r.mm.cmd == 8
                 && r.mm.messageId == body[0] as nat * 256 + body[1] as nat && r.mm.payload == body[2..]
  {
    hide Parse, VarLen, Framed;
    NibblesOf(8, low);
    FramedLength(0x80 + low, body);
    ParseFramed(0x80 + low, body, tail, mm);
    var s, at := Framed(0x80 + low, body) + tail, 1 + |VarLen(|body|)|;
    if |body| >= 2 {
      assert s[at] == s[at..at + |body|][0] && s[at + 1] == s[at..at + |body|][1];
      assert s[at + 2..at + |body|] == s[at..at + |body|][2..];
    }
  }

  /** The rest carries nothing the parser looks at. */
  lemma ParseBare(cmd: nat, low: byte, body: seq<byte>, tail: seq<byte>, mm: Message)
    requires low < 16 && cmd in {0, 10, 11, 12, 13, 14, 15} && |body| < TWO_31
    ensures Parse(Framed(16 * cmd + low, body) + tail, mm)
            == Parsed(|Framed(16 * cmd + low, body)|, mm.(cmd := cmd, qos := low % 8 / 2))
  {
    hide Parse, VarLen, Framed;
    NibblesOf(cmd, low);
    ParseFramed(16 * cmd + low, body, tail, mm);
    FramedLength(16 * cmd + low, body);
  }

  lemma FramedLength(first: byte, body: seq<byte>)
    ensures |Framed(first, body)| == 1 + |VarLen(|body|)| + |body|
  {
  }

  // ---------------------------------------------------------------- CONNECT

  /** Strings with their lengths in front. */
  function Strings(strs: seq<seq<byte>>): (r: seq<byte>) {
    if strs == [] then [] else BigEndian(|strs[0]|, 2) + strs[0] + Strings(strs[1..])
  }

  /** How many strings follow the protocol name for given flags: the client id, two for a will (bit 2),
      one for a user name (bit 7), one for a password (bit 6). */
  function Expected(flags: byte): (n: nat) {
    1 + (if flags / 4 % 2 == 1 then 2 else 0) + (if flags / 128 == 1 then 1 else 0)
      + (if flags / 64 % 2 == 1 then 1 else 0)
  }

  lemma {:induction false} StringAt(s: seq<byte>, p: nat, len: seq<byte>, str: seq<byte>, more: seq<byte>)
    requires |str| < TWO_16 && len == BigEndian(|str|, 2) && p + |len| + |str| + |more| <= |s|
    requires s[p..p + |len| + |str| + |more|] == len + str + more
    ensures U16(s, p) == |str| && s[p + 2..p + 2 + |str|] == str
    ensures s[p + 2 + |str|..p + 2 + |str| + |more|] == more
  {
    hide BigEndian, U16;
    Parts(s, p, len, str, more);
    LengthAt(s, p, |str|);
  }

  lemma LengthAt(s: seq<byte>, p: nat, n: nat)
    requires n < TWO_16 && p + 2 <= |s| && s[p..p + 2] == BigEndian(n, 2)
    ensures U16(s, p) == n
  {
    hide BigEndian;
    TwoBytes(n);
    assert s[p] == s[p..p + 2][0] && s[p + 1] == s[p..p + 2][1];
  }

  lemma {:induction false} ParseStringsOf(s: seq<byte>, p: nat, end: nat, strs: seq<seq<byte>>, mm: Message)
    requires (forall x :: x in strs ==> |x| < TWO_16) && p <= end <= |s| && s[p..end] == Strings(strs)
    ensures ParseStrings(s, p, end, |strs|, mm) == Parsed(end, mm.(strings := mm.strings + strs))
    decreases strs
  {
    hide U16, BigEndian;
    if strs == [] {
      Unit(mm.strings);
    } else {
      var q := p + 2 + |strs[0]|;
      StringAt(s, p, BigEndian(|strs[0]|, 2), strs[0], Strings(strs[1..]));
      ParseStringsOf(s, q, end, strs[1..], mm.(strings := mm.strings + [strs[0]]));
      Regroup(mm.strings, [strs[0]], strs[1..]);
      assert [strs[0]] + strs[1..] == strs;
    }
  }

  /** With more or fewer strings than asked for the parser finds the message malformed. */
  lemma {:induction false} WrongStringCount(s: seq<byte>, p: nat, end: nat, strs: seq<seq<byte>>, n: nat, mm: Message)
    requires (forall x :: x in strs ==> |x| < TWO_16) && p <= end <= |s| && s[p..end] == Strings(strs) && n != |strs|
    ensures ParseStrings(s, p, end, n, mm) == Malformed
    decreases strs
  {
    hide U16, BigEndian;
    if strs != [] && n > 0 {
      var q := p + 2 + |strs[0]|;
      StringAt(s, p, BigEndian(|strs[0]|, 2), strs[0], Strings(strs[1..]));
      WrongStringCount(s, q, end, strs[1..], n - 1, mm.(strings := mm.strings + [strs[0]]));
    }
  }

  function ConnectBody(protocol: seq<byte>, version: byte, flags: byte, keepAlive: nat, strs: seq<seq<byte>>)
    : (r: seq<byte>)
  {
    BigEndian(|protocol|, 2) + protocol + ([version, flags] + BigEndian(keepAlive, 2) + Strings(strs))
  }

  /** CONNECT: protocol name, version, flags, keep alive, and exactly as many strings as the flags announce. */
  lemma ParseConnectMessage(low: byte, protocol: seq<byte>, version: byte, flags: byte, keepAlive: nat,
                            strs: seq<seq<byte>>, tail: seq<byte>, mm: Message)
    requires low < 16 && |protocol| < TWO_16 && keepAlive < TWO_16 && (forall x :: x in strs ==> |x| < TWO_16)
    requires |ConnectBody(protocol, version, flags, keepAlive, strs)| < TWO_31
    ensures var body := ConnectBody(protocol, version, flags, keepAlive, strs);
            Parse(Framed(0x10 + low, body) + tail, mm)
            == if |strs| != Expected(flags) then Malformed
               else Parsed(|Framed(0x10 + low, body)|,
                           mm.(cmd := 1, qos := low % 8 / 2, version := version, flags := flags,
                               keepAlive := keepAlive, strings := [protocol] + strs))
  {
    hide Parse, ParseBody, VarLen, Framed, ConnectBody, Expected;
    var body := ConnectBody(protocol, version, flags, keepAlive, strs);
    NibblesOf(1, low);
    FramedLength(0x10 + low, body);
    ParseFramed(0x10 + low, body, tail, mm);
    ParseConnectBody(Framed(0x10 + low, body) + tail, 1 + |VarLen(|body|)|, protocol, version, flags, keepAlive, strs,
                     mm.(cmd := 1, qos := low % 8 / 2));
  }

  lemma ParseConnectBody(s: seq<byte>, at: nat, protocol: seq<byte>, version: byte, flags: byte, keepAlive: nat,
                         strs: seq<seq<byte>>, mm: Message)
    requires |protocol| < TWO_16 && keepAlive < TWO_16 && (forall x :: x in strs ==> |x| < TWO_16)
    requires mm.cmd == 1
    requires var body := ConnectBody(protocol, version, flags, keepAlive, strs);
             at + |body| <= |s| && s[at..at + |body|] == body
    ensures var body := ConnectBody(protocol, version, flags, keepAlive, strs);
            ParseBody(s, at, at + |body|, mm)
            == if |strs| != Expected(flags) then Malformed
               else Parsed(at + |body|,
                           mm.(version := version, flags := flags, keepAlive := keepAlive,
                               strings := [protocol] + strs))
  {
    hide BigEndian, ParseStrings, Strings, U16;
    var body := ConnectBody(protocol, version, flags, keepAlive, strs);
    var fixed := [version, flags] + BigEndian(keepAlive, 2);
    var q, end := at + 2 + |protocol|, at + |body|;
    StringAt(s, at, BigEndian(|protocol|, 2), protocol, fixed + Strings(strs));
    Part(s, q, fixed, Strings(strs));
    Part(s, q, [version, flags], BigEndian(keepAlive, 2));
    LengthAt(s, q + 2, keepAlive);
    assert s[q] == s[q..q + 2][0] && s[q + 1] == s[q..q + 2][1];
    var m := mm.(version := version, flags := flags, keepAlive := keepAlive, strings := [protocol]);
    if |strs| == Expected(flags) {
      ParseStringsOf(s, q + 4, end, strs, m);
    } else {
      WrongStringCount(s, q + 4, end, strs, Expected(flags), m);
    }
  }
}
