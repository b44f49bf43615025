/** CoAP messages (section 3 of RFC 7252): composing, parsing, and options kept in number order. */
module Coap {
  import opened Bytes

  datatype COption = COption(number: nat, value: seq<byte>)

  datatype Message = Message(msgType: nat, codeClass: nat, codeDetail: nat, msgId: nat, token: seq<byte>,
                             options: seq<COption>, payload: seq<byte>)

  // ---------------------------------------------------------------- the option list

  predicate Ascending(s: seq<COption>) { forall i, j :: 0 <= i < j < |s| ==> s[i].number <= s[j].number }

  /** Where mg_coap_add_option puts a new option: before the first with a greater number. */
  function Place(s: seq<COption>, number: nat): (k: nat)
    ensures k <= |s|
    ensures forall i :: 0 <= i < k ==> s[i].number <= number
    ensures k < |s| ==> s[k].number > number
  {
    if s == [] || s[0].number > number then 0 else 1 + Place(s[1..], number)
  }

  function Insert(s: seq<COption>, o: COption): (r: seq<COption>) {
    var k := Place(s, o.number);
    s[..k] + [o] + s[k..]
  }

  function InsertAll(s: seq<COption>, added: seq<COption>): (r: seq<COption>)
    decreases added
  {
    if added == [] then s else InsertAll(Insert(s, added[0]), added[1..])
  }

  /** The options with one number, in their order. */
  function Numbered(s: seq<COption>, number: nat): (r: seq<COption>) {
    if s == [] then [] else (if s[0].number == number then [s[0]] else []) + Numbered(s[1..], number)
  }

  lemma {:induction false} NumberedAppend(a: seq<COption>, b: seq<COption>, number: nat)
    ensures Numbered(a + b, number) == Numbered(a, number) + Numbered(b, number)
    decreases a
  {
    if a == [] {
      assert a + b == b;
    } else {
      var first := if a[0].number == number then [a[0]] else [];
      assert (a + b)[1..] == a[1..] + b && (a + b)[0] == a[0];
      NumberedAppend(a[1..], b, number);
      var x, y := Numbered(a[1..], number), Numbered(b, number);
      assert first + (x + y) == first + x + y;
    }
  }

  lemma {:induction false} NumberedNone(s: seq<COption>, number: nat)
    requires forall i :: 0 <= i < |s| ==> s[i].number != number
    ensures Numbered(s, number) == []
  {
    if s != [] { NumberedNone(s[1..], number); }
  }

  lemma InsertAscends(s: seq<COption>, o: COption)
    requires Ascending(s)
    ensures Ascending(Insert(s, o))
    ensures forall i :: Place(s, o.number) <= i < |s| ==> s[i].number > o.number
  {
    hide Place, Insert;
    var k, r := Place(s, o.number), Insert(s, o);
    assert forall i :: k <= i < |s| ==> s[i].number > o.number;
    forall i, j | 0 <= i < j < |r| ensures r[i].number <= r[j].number {
      InsertedAt(s, o, i);
      InsertedAt(s, o, j);
    }
  }

  lemma InsertedAt(s: seq<COption>, o: COption, i: nat)
    requires i < |Insert(s, o)|
    ensures var k, r := Place(s, o.number), Insert(s, o);
            |r| == |s| + 1 && r[i] == if i < k then s[i] else if i == k then o else s[i - 1]
  {
    hide Place;
  }

  lemma InsertPermutes(s: seq<COption>, o: COption)
    ensures multiset(Insert(s, o)) == multiset(s) + multiset{o}
  {
    assert s == s[..Place(s, o.number)] + s[Place(s, o.number)..];
  }

  lemma InsertIsStable(s: seq<COption>, o: COption, n: nat)
    requires Ascending(s)
    ensures Numbered(Insert(s, o), n) == Numbered(s, n) + Numbered([o], n)
  {
    hide Ascending, Place, Numbered;
    var k := Place(s, o.number);
    var a, b := s[..k], s[k..];
    InsertAscends(s, o);
    assert s == a + b;
    NumberedAppend(a, b, n);
    NumberedAppend(a + [o], b, n);
    NumberedAppend(a, [o], n);
    if n == o.number { NumberedNone(b, n); } else { NumberedNone([o], n); }
    Unit(Numbered(a, n));
    Unit(Numbered(a, n) + Numbered([o], n));
    Unit(Numbered(s, n));
  }

  /** Options added in any order end up stably sorted by number, none lost and none invented. */
  lemma {:induction false} AddedAreSorted(s: seq<COption>, added: seq<COption>, n: nat)
    requires Ascending(s)
    ensures var r := InsertAll(s, added);
            && Ascending(r) && multiset(r) == multiset(s) + multiset(added)
            && Numbered(r, n) == Numbered(s, n) + Numbered(added, n)
    decreases added
  {
    hide Ascending, Insert, Numbered;
    if added == [] {
      NumberedNone([], n);
      Unit(Numbered(s, n));
    } else {
      var o, rest := added[0], added[1..];
      InsertAscends(s, o);
      InsertPermutes(s, o);
      InsertIsStable(s, o, n);
      AddedAreSorted(Insert(s, o), rest, n);
      assert added == [o] + rest;
      NumberedAppend([o], rest, n);
      assert Numbered(s, n) + Numbered([o], n) + Numbered(rest, n)
             == Numbered(s, n) + (Numbered([o], n) + Numbered(rest, n));
    }
  }

  lemma {:induction false} PlaceLast(s: seq<COption>, number: nat)
    requires forall i :: 0 <= i < |s| ==> s[i].number <= number
    ensures Place(s, number) == |s|
  {
    if s != [] { PlaceLast(s[1..], number); }
  }

  // ---------------------------------------------------------------- composing

  const MAX_EXTENDED := 0xFFFF + 269

  /** coap_split_opt and coap_add_opt_info: the nibble and the bytes that extend it. */
  function Nibble(v: nat): (r: nat)
    ensures r <= 14
  {
    if v < 13 then v else if v <= 0xFF + 13 then 13 else if v <= MAX_EXTENDED then 14 else 0
  }

  function Extension(v: nat): (r: seq<byte>) {
    if v < 13 then []
    else if v <= 0xFF + 13 then [v - 13]
    else if v <= MAX_EXTENDED then BigEndian(v - 269, 2)
    else []
  }

  /** `number - prev` on unsigned 32-bit numbers. */
  function Delta(prev: nat, number: nat): (r: nat) {
    if prev <= number then number - prev else (number - prev) % TWO_32
  }

  function EncodeOption(prev: nat, o: COption): (r: seq<byte>) {
    [Nibble(Delta(prev, o.number)) * 16 + Nibble(|o.value|)]
    + Extension(Delta(prev, o.number)) + Extension(|o.value|) + o.value
  }

  function EncodeOptions(prev: nat, s: seq<COption>): (r: seq<byte>)
    decreases s
  {
    if s == [] then [] else EncodeOption(prev, s[0]) + EncodeOptions(s[0].number, s[1..])
  }

  function Preamble(m: Message): (r: seq<byte>)
    requires m.msgType <= 3 && |m.token| <= 8 && m.codeClass <= 7 && m.codeDetail <= 31
  {
    [64 + 16 * m.msgType + |m.token|, 32 * m.codeClass + m.codeDetail] + BigEndian(m.msgId, 2)
  }

  function Trailer(payload: seq<byte>): (r: seq<byte>) { if payload == [] then [] else [255] + payload }

  datatype Field = MsgType | CodeClass | CodeDetail | MsgId | Token | Options | Payload

  /** What coap_calculate_packet_size objects to, in the order of its tests. */
  function Objection(m: Message): (r: Option<Field>) {
    if m.msgType > 3 then Some(MsgType)
    else if |m.token| > 8 then Some(Token)
    else if m.codeClass > 7 then Some(CodeClass)
    else if m.codeDetail > 31 then Some(CodeDetail)
    else if !OptionsFit(0, m.options) then Some(Options)
    else None
  }

  /** Its loop over the options: in order, deltas and lengths within what two bytes can extend. */
  predicate OptionsFit(prev: nat, s: seq<COption>)
    decreases s
  {
    s == [] ||
    (&& (|s| > 1 ==> s[0].number <= s[1].number)
     && |s[0].value| <= MAX_EXTENDED && Delta(prev, s[0].number) <= MAX_EXTENDED
     && OptionsFit(s[0].number, s[1..]))
  }

  lemma {:induction false} FitAscends(prev: nat, s: seq<COption>)
    requires OptionsFit(prev, s)
    ensures Ascending(s)
    decreases s
  {
    if s != [] {
      FitAscends(s[0].number, s[1..]);
      forall i, j | 0 <= i < j < |s| ensures s[i].number <= s[j].number {
        assert s[j] == s[1..][j - 1];
        if i > 0 { assert s[i] == s[1..][i - 1]; } else { assert s[1] == s[1..][0]; }
      }
    }
  }

  function ExtensionSize(v: nat): (n: nat) {
    if 13 <= v <= 0xFF + 13 then 1 else if 0xFF + 13 < v <= MAX_EXTENDED then 2 else 0
  }

  function OptionsSize(prev: nat, s: seq<COption>): (n: nat)
    decreases s
  {
    if s == [] then 0
    else 1 + ExtensionSize(Delta(prev, s[0].number)) + ExtensionSize(|s[0].value|) + |s[0].value|
         + OptionsSize(s[0].number, s[1..])
  }

  /** The size coap_calculate_packet_size announces. */
  function PacketSize(m: Message): (n: nat)
    requires Objection(m).None?
  {
    4 + |m.token| + (if m.payload == [] then 0 else |m.payload| + 1) + OptionsSize(0, m.options)
  }

  function Encode(m: Message): (r: seq<byte>)
    requires Objection(m).None?
  {
    Preamble(m) + m.token + EncodeOptions(0, m.options) + Trailer(m.payload)
  }

  lemma {:induction false} OptionsSizeIsExact(prev: nat, s: seq<COption>)
    ensures |EncodeOptions(prev, s)| == OptionsSize(prev, s)
    decreases s
  {
    if s != [] { OptionsSizeIsExact(s[0].number, s[1..]); }
  }

  /** The size announced beforehand is the number of bytes written. */
  lemma SizeIsExact(m: Message)
    requires Objection(m).None?
    ensures |Encode(m)| == PacketSize(m)
  {
    OptionsSizeIsExact(0, m.options);
  }

  // ---------------------------------------------------------------- parsing

  datatype Trouble = NoTrouble | FormatError | Ignore | NotEnoughData

  datatype Parsed = Parsed(trouble: Trouble, fields: set<Field>, msg: Message)

  const BLANK := Message(0, 0, 0, 0, [], [], [])

  datatype Extended = Short | Extended(value: nat, next: nat)

  /** coap_get_ext_opt, storing into a uint16_t. */
  function GetExtended(s: seq<byte>, p: nat, nibble: nat): (r: Extended)
    requires p <= |s| && nibble < 15
    ensures r.Extended? ==> p <= r.next <= |s| && r.value < TWO_16
  {
    if nibble == 13 then (if p < |s| then Extended(s[p] as nat + 13, p + 1) else Short)
    else if nibble == 14 then
      (if p + 1 < |s| then Extended((s[p] as nat * 256 + s[p + 1] as nat + 269) % TWO_16, p + 2) else Short)
    else Extended(nibble, p)
  }

  datatype OptionsOutcome = Failed(trouble: Trouble) | Done(options: seq<COption>, next: nat)

  datatype Step = Stop | Broken(trouble: Trouble) | Take(number: nat, start: nat, len: nat)

  /** One turn of the option loop: it ends at the payload marker or the end of the packet. */
  function NextOption(s: seq<byte>, p: nat, prev: nat): (r: Step)
    requires p <= |s|
    ensures r.Take? ==> p < r.start <= r.start + r.len <= |s| && r.number < TWO_16 && r.len < TWO_16
    ensures r.Stop? <==> p == |s| || s[p] == 255
    ensures r.Broken? ==> r.trouble != NoTrouble
  {
    if p == |s| || s[p] == 255 then Stop
    else if s[p] / 16 == 15 || s[p] % 16 == 15 then Broken(FormatError)
    else
      match GetExtended(s, p + 1, s[p] / 16)
      case Short => Broken(NotEnoughData)
      case Extended(delta, q) =>
        match GetExtended(s, q, s[p] % 16)
        case Short => Broken(NotEnoughData)
        case Extended(len, v) =>
          if v + len > |s| then Broken(NotEnoughData) else Take((delta + prev) % TWO_16, v, len)
  }

  /** The option loop of coap_get_options. */
  function ParseOptions(s: seq<byte>, p: nat, prev: nat, acc: seq<COption>): (r: OptionsOutcome)
    requires p <= |s|
    ensures r.Done? ==> p <= r.next <= |s|
    decreases |s| - p
  {
    match NextOption(s, p, prev)
    case Stop => Done(acc, p)
    case Broken(t) => Failed(t)
    case Take(number, v, len) =>
      ParseOptions(s, v + len, number, Insert(acc, COption(number, s[v..v + len])))
  }

  function Parse(s: seq<byte>): (r: Parsed) {
    if |s| < 4 then Parsed(NotEnoughData, {}, BLANK)
    else if s[0] / 64 != 1 then Parsed(Ignore, {}, BLANK)
    else
      var tkl := s[0] % 16;
      var m := BLANK.(msgType := s[0] / 16 % 4);
      if tkl > 8 then Parsed(FormatError, {MsgType}, m)
      else
        var m := m.(codeClass := s[1] / 32, codeDetail := s[1] % 32, msgId := s[2] as nat * 256 + s[3] as nat);
        ParseToken(s, tkl, m, {MsgType, CodeClass, CodeDetail, MsgId})
  }

  /** coap_get_token, then options and payload. */
  function ParseToken(s: seq<byte>, tkl: nat, m: Message, known: set<Field>): (r: Parsed)
    requires |s| >= 4
  {
    if 4 + tkl > |s| then Parsed(NotEnoughData, known, m)
    else ParseRest(s, 4 + tkl, m.(token := s[4..4 + tkl]), if tkl > 0 then known + {Token} else known)
  }

  function ParseRest(s: seq<byte>, p: nat, m: Message, known: set<Field>): (r: Parsed)
    requires p <= |s|
  {
    if p == |s| then Parsed(NoTrouble, known, m)
    else
      match ParseOptions(s, p, 0, [])
      case Failed(t) => Parsed(t, known, m)
      case Done(options, e) =>
        var m, known := m.(options := options), known + {Options};
        if e == |s| || e + 1 == |s| then Parsed(NoTrouble, known, m)
        else Parsed(NoTrouble, known + {Payload}, m.(payload := s[e + 1..]))
  }

  // ---------------------------------------------------------------- round trip

  /** Extended values up to 65535 survive the trip; above, parsing keeps only sixteen bits. */
  lemma ExtendedRoundTrip(s: seq<byte>, p: nat, v: nat)
    requires v <= MAX_EXTENDED && p + |Extension(v)| <= |s| && s[p..p + |Extension(v)|] == Extension(v)
    ensures GetExtended(s, p, Nibble(v)) == Extended(v % TWO_16, p + |Extension(v)|)
  {
    var e := Extension(v);
    var t := s[p..p + |e|];
    assert |e| > 0 ==> s[p] == t[0] == e[0];
    assert |e| > 1 ==> s[p + 1] == t[1] == e[1];
    if v > 0xFF + 13 {
      var x := v - 269;
      assert BigEndian(x / 256, 1) == [x / 256 % 256];
      assert e == [x / 256, x % 256];
    }
  }

  predicate Small(s: seq<COption>) { forall i :: 0 <= i < |s| ==> s[i].number < TWO_16 && |s[i].value| < TWO_16 }

  lemma OptionParts(s: seq<byte>, p: nat, a: seq<byte>, b: seq<byte>, c: seq<byte>, d: seq<byte>)
    requires p + |a| + |b| + |c| + |d| <= |s| && s[p..p + |a| + |b| + |c| + |d|] == a + b + c + d
    ensures var i, j, k := p + |a|, p + |a| + |b|, p + |a| + |b| + |c|;
            && s[p..i] == a && s[i..j] == b && s[j..k] == c && s[k..k + |d|] == d
  {
    Part(s, p, a + b + c, d);
    Part(s, p, a + b, c);
    Part(s, p, a, b);
  }

  /** One option of at most 65535 bytes and number at most 65535 is read back and appended. */
  lemma ParseOneOption(s: seq<byte>, p: nat, prev: nat, o: COption, acc: seq<COption>)
    requires prev <= o.number < TWO_16 && |o.value| < TWO_16
    requires p + |EncodeOption(prev, o)| <= |s| && s[p..p + |EncodeOption(prev, o)|] == EncodeOption(prev, o)
    requires forall i :: 0 <= i < |acc| ==> acc[i].number <= prev
    ensures ParseOptions(s, p, prev, acc) == ParseOptions(s, p + |EncodeOption(prev, o)|, o.number, acc + [o])
  {
    hide Extension, Nibble, GetExtended, Insert, ParseOptions;
    var delta, len := o.number - prev, |o.value|;
    var first: byte := Nibble(delta) * 16 + Nibble(len);
    var d, l := Extension(delta), Extension(len);
    OptionParts(s, p, [first], d, l, o.value);
    assert s[p] == s[p..p + 1][0] == first;
    FirstByte(Nibble(delta), Nibble(len));
    ExtendedRoundTrip(s, p + 1, delta);
    ExtendedRoundTrip(s, p + 1 + |d|, len);
    AppendOption(acc, o, prev);
    ParseStep(s, p, prev, acc, delta, p + 1 + |d|, len, p + 1 + |d| + |l|);
  }

  lemma ParseStep(s: seq<byte>, p: nat, prev: nat, acc: seq<COption>, delta: nat, q: nat, len: nat, v: nat)
    requires p < |s| && s[p] != 255 && s[p] / 16 != 15 && s[p] % 16 != 15 && v + len <= |s|
    requires p < q <= |s| && q <= v && GetExtended(s, p + 1, s[p] / 16) == Extended(delta, q)
    requires GetExtended(s, q, s[p] % 16) == Extended(len, v)
    ensures NextOption(s, p, prev) == Take((delta + prev) % TWO_16, v, len)
    ensures var number := (delta + prev) % TWO_16;
            ParseOptions(s, p, prev, acc)
                == ParseOptions(s, v + len, number, Insert(acc, COption(number, s[v..v + len])))
  {
    hide GetExtended, Insert;
  }

  lemma FirstByte(d: nat, l: nat)
    requires d < 15 && l < 15
    ensures (d * 16 + l) / 16 == d && (d * 16 + l) % 16 == l && d * 16 + l < 255
  {
  }

  lemma AppendOption(acc: seq<COption>, o: COption, prev: nat)
    requires prev <= o.number && forall i :: 0 <= i < |acc| ==> acc[i].number <= prev
    ensures Insert(acc, o) == acc + [o]
    ensures forall i :: 0 <= i < |acc + [o]| ==> (acc + [o])[i].number <= o.number
  {
    hide Place;
    PlaceLast(acc, o.number);
  }

  lemma {:induction false} ParseAllOptions(s: seq<byte>, p: nat, prev: nat, opts: seq<COption>, acc: seq<COption>)
    requires Ascending(opts) && Small(opts) && (opts != [] ==> prev <= opts[0].number)
    requires forall i :: 0 <= i < |acc| ==> acc[i].number <= prev
    requires p + |EncodeOptions(prev, opts)| <= |s|
    requires s[p..p + |EncodeOptions(prev, opts)|] == EncodeOptions(prev, opts)
    requires var e := p + |EncodeOptions(prev, opts)|; e == |s| || s[e] == 255
    ensures ParseOptions(s, p, prev, acc) == Done(acc + opts, p + |EncodeOptions(prev, opts)|)
    decreases opts
  {
    hide EncodeOption, EncodeOptions, ParseOptions, Ascending, Small;
    if opts == [] {
      ParseNoOptions(s, p, prev, acc);
      Unit(acc);
    } else {
      var o, rest := opts[0], opts[1..];
      var e, r := EncodeOption(prev, o), EncodeOptions(o.number, rest);
      FirstOption(prev, opts);
      Part(s, p, e, r);
      ParseOneOption(s, p, prev, o, acc);
      AppendOption(acc, o, prev);
      ParseAllOptions(s, p + |e|, o.number, rest, acc + [o]);
      assert acc + [o] + rest == acc + opts;
    }
  }

  lemma ParseNoOptions(s: seq<byte>, p: nat, prev: nat, acc: seq<COption>)
    requires p <= |s|
    ensures EncodeOptions(prev, []) == []
    ensures p == |s| || s[p] == 255 ==> ParseOptions(s, p, prev, acc) == Done(acc, p)
  {
  }

  lemma FirstOption(prev: nat, opts: seq<COption>)
    requires Ascending(opts) && Small(opts) && opts != []
    ensures EncodeOptions(prev, opts) == EncodeOption(prev, opts[0]) + EncodeOptions(opts[0].number, opts[1..])
    ensures Ascending(opts[1..]) && Small(opts[1..]) && opts[0].number < TWO_16 && |opts[0].value| < TWO_16
    ensures |opts| > 1 ==> opts[0].number <= opts[1].number
  {
    var rest := opts[1..];
    assert forall i :: 0 <= i < |rest| ==> rest[i] == opts[i + 1];
  }

  function FieldsOf(m: Message): (r: set<Field>) {
    {MsgType, CodeClass, CodeDetail, MsgId}
    + (if m.token != [] then {Token} else {})
    + (if m.options != [] || m.payload != [] then {Options} else {})
    + (if m.payload != [] then {Payload} else {})
  }

  lemma PreambleRead(s: seq<byte>, m: Message)
    requires m.msgType <= 3 && |m.token| <= 8 && m.codeClass <= 7 && m.codeDetail <= 31 && m.msgId < TWO_16
    requires |s| >= 4 && s[..4] == Preamble(m)
    ensures s[0] / 64 == 1 && s[0] % 16 == |m.token| && s[0] / 16 % 4 == m.msgType
    ensures s[1] / 32 == m.codeClass && s[1] % 32 == m.codeDetail && s[2] as nat * 256 + s[3] as nat == m.msgId
  {
    var x := m.msgId;
    TwoBytes(x);
    var h := Preamble(m);
    assert s[..4][0] == h[0] && s[..4][1] == h[1] && s[..4][2] == h[2] && s[..4][3] == h[3];
  }

  lemma TrailerRead(s: seq<byte>, q: nat, payload: seq<byte>)
    requires q + |Trailer(payload)| == |s| && s[q..q + |Trailer(payload)|] == Trailer(payload)
    ensures payload == [] ==> q == |s|
    ensures payload != [] ==> q + 1 < |s| && s[q] == 255 && s[q + 1..] == payload
  {
    if payload != [] {
      var t := [255] + payload;
      assert s[q..] == s[q..q + |t|] == t;
      assert s[q] == s[q..][0] && s[q + 1..] == s[q..][1..];
      assert t[0] == 255 && t[1..] == payload;
    }
  }

  /** Options and payload are read back from where the token ends. */
  lemma ParseRestOfEncode(s: seq<byte>, p: nat, opts: seq<COption>, payload: seq<byte>, m: Message, known: set<Field>)
    requires Ascending(opts) && Small(opts) && m.options == [] && m.payload == []
    requires p <= |s| && s[p..] == EncodeOptions(0, opts) + Trailer(payload)
    ensures ParseRest(s, p, m, known)
            == Parsed(NoTrouble,
                      known + (if opts != [] || payload != [] then {Options} else {})
                          + (if payload != [] then {Payload} else {}),
                      m.(options := opts, payload := payload))
  {
    hide ParseOptions, Ascending, Small, EncodeOptions, Trailer;
    var e, tr := EncodeOptions(0, opts), Trailer(payload);
    EmptyOptions(opts);
    assert s[p..p + |e| + |tr|] == s[p..] == e + tr;
    Part(s, p, e, tr);
    TrailerRead(s, p + |e|, payload);
    if p < |s| {
      ParseAllOptions(s, p, 0, opts, []);
      Unit(opts);
    }
  }

  /** Round trip: parsing what compose writes gives the message back, with exactly the flags of the
      fields it has. */
  lemma ParseOfEncode(m: Message)
    requires Objection(m).None? && m.msgId < TWO_16 && Small(m.options)
    ensures Parse(Encode(m)) == Parsed(NoTrouble, FieldsOf(m), m)
  {
    hide ParseRest, OptionsFit, EncodeOptions, Trailer, Small, Ascending, BigEndian;
    var s := Encode(m);
    OptionsAscend(m);
    var h, rest := Preamble(m), EncodeOptions(0, m.options) + Trailer(m.payload);
    var p := 4 + |m.token|;
    assert s == h + m.token + rest && |h| == 4;
    assert s[..4] == h && s[4..p] == m.token && s[p..] == rest;
    PreambleRead(s, m);
    var base := {MsgType, CodeClass, CodeDetail, MsgId};
    var known := if m.token != [] then base + {Token} else base;
    assert base + {} == base;
    ParseRestOfEncode(s, p, m.options, m.payload, m.(options := [], payload := []), known);
  }

  lemma {:induction false} SmallFits(prev: nat, s: seq<COption>)
    requires Ascending(s) && Small(s) && (s != [] ==> prev <= s[0].number)
    ensures OptionsFit(prev, s)
    decreases s
  {
    if s != [] {
      FirstOption(prev, s);
      SmallFits(s[0].number, s[1..]);
    }
  }

  /** Options added one by one in any order, then composed, then parsed: the same message, options
      stably sorted by number. */
  lemma AnyOrderRoundTrip(m: Message, added: seq<COption>)
    requires m.msgType <= 3 && m.codeClass <= 7 && m.codeDetail <= 31 && m.msgId < TWO_16 && |m.token| <= 8
    requires m.options == InsertAll([], added) && Small(added)
    ensures Objection(m).None? && Parse(Encode(m)) == Parsed(NoTrouble, FieldsOf(m), m)
    ensures Ascending(m.options) && multiset(m.options) == multiset(added)
    ensures forall n :: Numbered(m.options, n) == Numbered(added, n)
  {
    hide Parse, Encode, InsertAll, OptionsFit;
    forall n ensures Numbered(m.options, n) == Numbered(added, n) {
      AddedAreSorted([], added, n);
      Unit(Numbered(added, n));
    }
    AddedAreSorted([], added, 0);
    assert multiset(m.options) == multiset(added);
    assert Small(m.options) by {
      forall i | 0 <= i < |m.options| ensures m.options[i].number < TWO_16 && |m.options[i].value| < TWO_16 {
        assert m.options[i] in multiset(m.options);
        assert m.options[i] in added;
      }
    }
    SmallFits(0, m.options);
    ParseOfEncode(m);
  }

  lemma OptionsAscend(m: Message)
    requires Objection(m).None?
    ensures Ascending(m.options)
  {
    FitAscends(0, m.options);
  }

  lemma EmptyOptions(s: seq<COption>)
    ensures EncodeOptions(0, s) == [] <==> s == []
  {
  }

  lemma InsertSmall(acc: seq<COption>, o: COption)
    requires Small(acc) && o.number < TWO_16 && |o.value| < TWO_16
    ensures Small(Insert(acc, o))
  {
    hide Place;
  }

  lemma {:induction false} ParsedAreSmall(s: seq<byte>, p: nat, prev: nat, acc: seq<COption>)
    requires p <= |s| && Small(acc)
    ensures var r := ParseOptions(s, p, prev, acc); r.Done? ==> Small(r.options)
    decreases |s| - p
  {
    hide NextOption, Insert, Small;
    match NextOption(s, p, prev)
    case Take(number, v, len) =>
      var o := COption(number, s[v..v + len]);
      InsertSmall(acc, o);
      ParsedAreSmall(s, v + len, number, Insert(acc, o));
    case _ =>
  }

  lemma EmptyIsSmall()
    ensures Small([])
  {
  }

  /** Compose accepts option number steps and lengths up to 65804, but the round trip holds exactly
      when every number and every length is at most 65535. */
  lemma RoundTripExactly(m: Message)
    requires Objection(m).None? && m.msgId < TWO_16
    ensures Parse(Encode(m)).msg == m <==> Small(m.options)
  {
    if Small(m.options) {
      ParseOfEncode(m);
    } else {
      var s := Encode(m);
      hide Encode, ParseOptions, Small;
      EmptyIsSmall();
      if |s| >= 4 && 4 + s[0] % 16 <= |s| {
        ParsedAreSmall(s, 4 + s[0] % 16, 0, []);
      }
    }
  }

  /** And the accepted range does go further: one option of 65536 bytes. */
  lemma OversizeAccepted(value: seq<byte>)
    requires |value| == TWO_16
    ensures var m := Message(0, 0, 1, 7, [], [COption(11, value)], []);
            Objection(m).None? && Parse(Encode(m)).msg != m
  {
    var m := Message(0, 0, 1, 7, [], [COption(11, value)], []);
    assert OptionsFit(0, m.options) by {
      assert m.options[1..] == [];
    }
    assert !Small(m.options) by { assert m.options[0] == COption(11, value); }
    hide Encode, Parse, Small;
    RoundTripExactly(m);
  }

  // ---------------------------------------------------------------- what is refused

  /** The header: too short, another version, a token length above eight, a token cut off; and the fields
      that are filled by then. */
  lemma HeaderTrouble(s: seq<byte>)
    ensures |s| < 4 ==> Parse(s) == Parsed(NotEnoughData, {}, Message(0, 0, 0, 0, [], [], []))
    ensures |s| >= 4 && s[0] / 64 != 1 ==> Parse(s) == Parsed(Ignore, {}, Message(0, 0, 0, 0, [], [], []))
    ensures |s| >= 4 && s[0] / 64 == 1 && s[0] % 16 > 8 ==>
              Parse(s) == Parsed(FormatError, {MsgType}, Message(s[0] / 16 % 4, 0, 0, 0, [], [], []))
    ensures |s| >= 4 && s[0] / 64 == 1 && s[0] % 16 <= 8 && |s| < 4 + s[0] % 16 ==>
              Parse(s) == Parsed(NotEnoughData, {MsgType, CodeClass, CodeDetail, MsgId},
                                 Message(s[0] / 16 % 4, s[1] / 32, s[1] % 32,
                                         s[2] as nat * 256 + s[3] as nat, [], [], []))
  {
    hide ParseRest;
  }

  /** Whatever the options come to, the header is read as far as it goes, and the fields say what was. */
  lemma HeaderRead(s: seq<byte>)
    requires |s| >= 4 && s[0] / 64 == 1 && s[0] % 16 <= 8 && |s| >= 4 + s[0] % 16
    ensures var n := 4 + s[0] % 16; var m := Parse(s).msg; var o := ParseOptions(s, n, 0, []);
            && m.msgType == s[0] / 16 % 4 && m.codeClass == s[1] / 32 && m.codeDetail == s[1] % 32
            && m.msgId == s[2] as nat * 256 + s[3] as nat && m.token == s[4..n]
            && Parse(s).trouble == (if n < |s| && o.Failed? then o.trouble else NoTrouble)
            && (n == |s| || o.Failed? ==> m.options == [] && m.payload == [])
            && (n < |s| && o.Done? ==>
                  m.options == o.options && m.payload == if o.next == |s| then [] else s[o.next + 1..])
            && Parse(s).fields == {MsgType, CodeClass, CodeDetail, MsgId} + (if n > 4 then {Token} else {})
                                  + (if n < |s| && o.Done? then {Options} else {})
                                  + (if m.payload != [] then {Payload} else {})
  {
    hide ParseOptions;
  }

  /** Behind any options that are all right, a reserved nibble is a format error. */
  lemma ReservedNibble(opts: seq<COption>, bad: byte, tail: seq<byte>)
    requires Ascending(opts) && Small(opts) && bad != 255 && (bad / 16 == 15 || bad % 16 == 15)
    ensures ParseOptions(EncodeOptions(0, opts) + [bad] + tail, 0, 0, []) == Failed(FormatError)
  {
    hide EncodeOptions, Ascending, Small;
    var e := EncodeOptions(0, opts);
    var s := e + [bad] + tail;
    assert s[0..0 + |e|] == e && s[|e|] == bad;
    ParseSome(s, 0, 0, opts, []);
  }

  /** And an option cut off anywhere is not enough data. */
  lemma OptionCutOff(opts: seq<COption>, o: COption, q: seq<byte>)
    requires Ascending(opts + [o]) && Small(opts + [o])
    requires var e := EncodeOption(LastNumber(0, opts), o); q < e && q != []
    ensures ParseOptions(EncodeOptions(0, opts) + q, 0, 0, []) == Failed(NotEnoughData)
  {
    hide EncodeOptions, EncodeOption, Ascending, Small, ParseOptions;
    var e := EncodeOptions(0, opts);
    var s := e + q;
    BeforeLast(opts, o);
    assert s[0..0 + |e|] == e && s[|e|..] == q;
    ParseSome(s, 0, 0, opts, []);
    CutOption(s, |e|, LastNumber(0, opts), o, [] + opts);
  }

  /** The number the next option's step counts from. */
  function LastNumber(prev: nat, opts: seq<COption>): (n: nat) { if opts == [] then prev else opts[|opts| - 1].number }

  lemma BeforeLast(opts: seq<COption>, o: COption)
    requires Ascending(opts + [o]) && Small(opts + [o])
    ensures Ascending(opts) && Small(opts) && LastNumber(0, opts) <= o.number < TWO_16 && |o.value| < TWO_16
  {
    var all := opts + [o];
    assert all[|opts|] == o && forall i :: 0 <= i < |opts| ==> all[i] == opts[i];
  }

  /** Options at the front are taken one by one, whatever stands behind them. */
  lemma {:induction false} ParseSome(s: seq<byte>, p: nat, prev: nat, opts: seq<COption>, acc: seq<COption>)
    requires Ascending(opts) && Small(opts) && (opts != [] ==> prev <= opts[0].number)
    requires forall i :: 0 <= i < |acc| ==> acc[i].number <= prev
    requires p + |EncodeOptions(prev, opts)| <= |s|
    requires s[p..p + |EncodeOptions(prev, opts)|] == EncodeOptions(prev, opts)
    ensures ParseOptions(s, p, prev, acc)
            == ParseOptions(s, p + |EncodeOptions(prev, opts)|, LastNumber(prev, opts), acc + opts)
    decreases opts
  {
    hide EncodeOption, EncodeOptions, ParseOptions, Ascending, Small;
    if opts == [] {
      ParseNoOptions(s, p, prev, acc);
      Unit(acc);
    } else {
      var o, rest := opts[0], opts[1..];
      var e, r := EncodeOption(prev, o), EncodeOptions(o.number, rest);
      FirstOption(prev, opts);
      Part(s, p, e, r);
      ParseOneOption(s, p, prev, o, acc);
      AppendOption(acc, o, prev);
      ParseSome(s, p + |e|, o.number, rest, acc + [o]);
      assert acc + [o] + rest == acc + opts;
    }
  }

  lemma ExtendedShort(s: seq<byte>, p: nat, v: nat)
    requires v <= MAX_EXTENDED && p <= |s| < p + |Extension(v)|
    ensures GetExtended(s, p, Nibble(v)) == Short
  {
  }

  lemma NextCut(s: seq<byte>, p: nat, prev: nat, acc: seq<COption>)
    requires p < |s| && s[p] != 255 && s[p] / 16 != 15 && s[p] % 16 != 15
    requires var x := GetExtended(s, p + 1, s[p] / 16);
             x.Short? || var y := GetExtended(s, x.next, s[p] % 16); y.Short? || y.next + y.value > |s|
    ensures ParseOptions(s, p, prev, acc) == Failed(NotEnoughData)
  {
    hide GetExtended, Insert;
  }

  lemma CutOption(s: seq<byte>, p: nat, prev: nat, o: COption, acc: seq<COption>)
    requires prev <= o.number < TWO_16 && |o.value| < TWO_16
    requires p < |s| && s[p..] < EncodeOption(prev, o)
    ensures ParseOptions(s, p, prev, acc) == Failed(NotEnoughData)
  {
    hide Insert, ParseOptions, GetExtended, Extension, Nibble;
    var delta, len := o.number - prev, |o.value|;
    var d, l := Extension(delta), Extension(len);
    var first: byte := Nibble(delta) * 16 + Nibble(len);
    var e, q := EncodeOption(prev, o), s[p..];
    FirstByte(Nibble(delta), Nibble(len));
    assert e == [first] + d + l + o.value && e[0] == first;
    assert q[0] == e[0] && s[p] == first;
    CutParts(s, p, [first], d, l, o.value);
    if |q| < 1 + |d| {
      ExtendedShort(s, p + 1, delta);
    } else {
      ExtendedRoundTrip(s, p + 1, delta);
      if |q| < 1 + |d| + |l| {
        ExtendedShort(s, p + 1 + |d|, len);
      } else {
        ExtendedRoundTrip(s, p + 1 + |d|, len);
      }
    }
    NextCut(s, p, prev, acc);
  }

  /** The parts of an option that a prefix of it still has whole. */
  lemma CutParts(s: seq<byte>, p: nat, a: seq<byte>, b: seq<byte>, c: seq<byte>, d: seq<byte>)
    requires p <= |s| && s[p..] <= a + b + c + d
    ensures var i, j, k := p + |a|, p + |a| + |b|, p + |a| + |b| + |c|;
            (|s| >= j ==> s[i..j] == b) && (|s| >= k ==> s[j..k] == c)
  {
    var e, q := a + b + c + d, s[p..];
    assert q == e[..|q|];
    assert e[|a|..|a| + |b|] == b && e[|a| + |b|..|a| + |b| + |c|] == c;
    if |s| >= p + |a| + |b| {
      assert s[p + |a|..p + |a| + |b|] == q[|a|..|a| + |b|] == e[|a|..|a| + |b|];
    }
    if |s| >= p + |a| + |b| + |c| {
      var i, j := |a| + |b|, |a| + |b| + |c|;
      assert s[p + i..p + j] == q[i..j] == e[i..j];
    }
  }

  /** In bytes: a confirmable GET with id 0x1234, token 7, option 11 "ab" and payload "x". */
  lemma MessageInBytes()
    ensures var m := Message(0, 0, 1, 0x1234, [7], [COption(11, [97, 98])], [120]);
            Objection(m).None? && Encode(m) == [0x41, 1, 0x12, 0x34, 7, 0xB2, 97, 98, 255, 120]
  {
    var o := COption(11, [97, 98]);
    TwoBytes(0x1234);
    assert [o][1..] == [] && EncodeOptions(11, []) == [];
    assert EncodeOptions(0, [o]) == EncodeOption(0, o) + EncodeOptions(11, [o][1..]);
    assert EncodeOption(0, o) == [0xB2] + [] + [] + [97, 98];
  }
}
