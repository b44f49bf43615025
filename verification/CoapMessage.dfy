/** The CoAP message as a data structure: its linked option list, and the in-place composer and
    parser. */
module CoapMessage {
  import opened Bytes
  import opened Mbuf
  import opened Coap

  class OptionNode {
    const number: nat
    const value: seq<byte>
    var next: OptionNode?

    constructor (number: nat, value: seq<byte>)
      ensures this.number == number && this.value == value && next == null
    {
      this.number, this.value := number, value;
      next := null;
    }
  }

  function At(s: seq<OptionNode>, i: int): (x: OptionNode?) { if 0 <= i < |s| then s[i] else null }

  ghost predicate Linked(s: seq<OptionNode>)
    reads s`next
  {
    forall i :: 0 <= i < |s| ==> s[i].next == At(s, i + 1)
  }

  ghost function Values(s: seq<OptionNode>): (r: seq<COption>) {
    seq(|s|, i requires 0 <= i < |s| => COption(s[i].number, s[i].value))
  }

  lemma {:induction false} PlaceIs(s: seq<COption>, number: nat, k: nat)
    requires k <= |s| && (forall i :: 0 <= i < k ==> s[i].number <= number) && (k < |s| ==> s[k].number > number)
    ensures Place(s, number) == k
  {
    if k > 0 { PlaceIs(s[1..], number, k - 1); }
  }

  lemma WithIsInsert(s: seq<OptionNode>, k: nat, x: OptionNode)
    requires k <= |s| && x !in s && Distinct(s) && Ascending(Values(s))
    requires (forall i :: 0 <= i < k ==> s[i].number <= x.number) && (k < |s| ==> s[k].number > x.number)
    ensures Values(With(s, k, x)) == Insert(Values(s), COption(x.number, x.value))
    ensures Ascending(Values(With(s, k, x))) && Distinct(With(s, k, x))
  {
    hide Ascending, Place;
    var v, t := Values(s), With(s, k, x);
    PlaceIs(v, x.number, k);
    InsertAscends(v, COption(x.number, x.value));
    assert Values(t) == v[..k] + [COption(x.number, x.value)] + v[k..];
    forall i, j | 0 <= i < j < |t| ensures t[i] != t[j] {
      assert t[i] == if i < k then s[i] else if i == k then x else s[i - 1];
      assert t[j] == if j < k then s[j] else if j == k then x else s[j - 1];
    }
  }

  /** The option list of a message, with its tail pointer. */
  class OptionList {
    var head: OptionNode?
    var tail: OptionNode?
    ghost var nodes: seq<OptionNode>

    ghost function Repr(): (r: set<OptionNode>)
      reads this
    {
      set x | x in nodes
    }

    ghost predicate Valid()
      reads this, Repr()
    {
      && head == At(nodes, 0) && tail == At(nodes, |nodes| - 1)
      && Linked(nodes) && Distinct(nodes) && Ascending(Values(nodes))
    }

    constructor ()
      ensures Valid() && nodes == [] && Repr() == {}
    {
      head, tail, nodes := null, null, [];
    }

    /** mg_coap_add_option: behind the tail when the number allows it, otherwise before the first
        option with a greater number. */
    method Add(number: nat, value: seq<byte>)
      requires Valid()
      modifies this, Repr()
      ensures Valid() && Values(nodes) == Insert(old(Values(nodes)), COption(number, value))
      ensures fresh(Repr() - old(Repr()))
    {
      hide Ascending, Insert, Values, Linked, Distinct, With;
      var x := new OptionNode(number, value);
      ghost var s, k := nodes, |nodes|;
      if head == null {
        LinkIn(s, 0, x, null, null);
        head, tail := x, x;
      } else if tail.number <= number {
        TailIsGreatest(s);
        LinkIn(s, |s|, x, tail, null);
        tail := x;
      } else {
        k := InsertMiddle(x);
      }
      WithIsInsert(s, k, x);
      WithEnds(s, k, x);
      nodes := With(s, k, x);
    }

    method InsertMiddle(x: OptionNode) returns (ghost k: nat)
      requires Valid() && nodes != [] && x !in nodes && nodes[|nodes| - 1].number > x.number
      modifies this`head, Repr()`next, x`next
      ensures k < |nodes| && (forall i :: 0 <= i < k ==> nodes[i].number <= x.number) && nodes[k].number > x.number
      ensures Linked(With(nodes, k, x)) && head == if k == 0 then x else old(head)
    {
      hide Ascending;
      var current, prev: OptionNode? := head, null;
      k := 0;
      while current != null && current.number <= x.number
        invariant k <= |nodes| && current == At(nodes, k) && prev == At(nodes, k - 1)
        invariant forall i :: 0 <= i < k ==> nodes[i].number <= x.number
        decreases |nodes| - k
      {
        prev := current;
        current := current.next;
        k := k + 1;
      }
      LinkIn(nodes, k, x, prev, current);
      if prev == null { head := x; }
    }
  }

  lemma WithEnds(s: seq<OptionNode>, k: nat, x: OptionNode)
    requires k <= |s|
    ensures var t := With(s, k, x);
            && At(t, 0) == (if k == 0 then x else At(s, 0))
            && At(t, |t| - 1) == (if k == |s| then x else At(s, |s| - 1))
            && forall y :: y in t ==> y in s || y == x
  {
  }

  lemma TailIsGreatest(s: seq<OptionNode>)
    requires Ascending(Values(s)) && s != []
    ensures forall i :: 0 <= i < |s| ==> s[i].number <= s[|s| - 1].number
  {
    var v := Values(s);
    forall i | 0 <= i < |s| ensures s[i].number <= s[|s| - 1].number {
      assert v[i].number <= v[|s| - 1].number;
    }
  }

  method LinkIn(ghost s: seq<OptionNode>, ghost k: nat, x: OptionNode, prev: OptionNode?, current: OptionNode?)
    requires Linked(s) && Distinct(s) && x !in s && k <= |s| && current == At(s, k) && prev == At(s, k - 1)
    modifies (set y | y in s)`next, x`next
    ensures Linked(With(s, k, x))
  {
    if prev != null { prev.next := x; }
    x.next := current;
    ghost var t := With(s, k, x);
    forall i | 0 <= i < |t| ensures t[i].next == At(t, i + 1) {
      if i < k { assert t[i] == s[i]; } else if i > k { assert t[i] == s[i - 1]; }
    }
  }

  // ---------------------------------------------------------------- composing in place

  /** The message with the options of a list. */
  ghost function Full(m: Message, list: OptionList): (r: Message)
    reads list
  {
    m.(options := Values(list.nodes))
  }

  lemma ValuesFrom(s: seq<OptionNode>, i: nat)
    requires i < |s|
    ensures Values(s[i..]) == [COption(s[i].number, s[i].value)] + Values(s[i + 1..])
    ensures Values(s[i..])[1..] == Values(s[i + 1..])
    ensures i + 1 < |s| ==> Values(s[i + 1..])[0].number == s[i + 1].number
  {
  }

  lemma SizeStep(prev: nat, s: seq<OptionNode>, i: nat)
    requires i < |s|
    ensures var o := COption(s[i].number, s[i].value); var rest := Values(s[i + 1..]);
            && OptionsSize(prev, Values(s[i..])) == 1 + ExtensionSize(Delta(prev, o.number)) + ExtensionSize(|o.value|)
                                                   + |o.value| + OptionsSize(o.number, rest)
            && (OptionsFit(prev, Values(s[i..])) <==>
                  && (i + 1 < |s| ==> s[i].number <= s[i + 1].number)
                  && |o.value| <= MAX_EXTENDED && Delta(prev, o.number) <= MAX_EXTENDED && OptionsFit(o.number, rest))
            && EncodeOptions(prev, Values(s[i..])) == EncodeOption(prev, o) + EncodeOptions(o.number, rest)
  {
    ValuesFrom(s, i);
  }

  lemma NoValues(s: seq<OptionNode>, prev: nat)
    ensures Values(s[|s|..]) == [] && OptionsFit(prev, [])
    ensures OptionsSize(prev, []) == 0 && EncodeOptions(prev, []) == []
  {
  }

  /** coap_calculate_packet_size */
  method CalculateSize(m: Message, list: OptionList) returns (objection: Option<Field>, len: nat)
    requires list.Valid()
    ensures objection == Objection(Full(m, list))
    ensures objection.None? ==> len == PacketSize(Full(m, list))
  {
    hide Values, OptionsSize, OptionsFit, EncodeOptions, ExtensionSize, Delta, Ascending;
    len := 4;
    if m.msgType > 3 { return Some(MsgType), len; }
    if |m.token| > 8 { return Some(Token), len; }
    if m.codeClass > 7 { return Some(CodeClass), len; }
    if m.codeDetail > 31 { return Some(CodeDetail), len; }
    len := len + |m.token|;
    if m.payload != [] { len := len + |m.payload| + 1; }
    ghost var base, s, i := len, list.nodes, 0;
    assert s[0..] == s;
    var opt, prev := list.head, 0;
    while opt != null
      invariant 0 <= i <= |s| && opt == At(s, i)
      invariant OptionsFit(0, Values(s)) <==> OptionsFit(prev, Values(s[i..]))
      invariant base + OptionsSize(0, Values(s)) == len + OptionsSize(prev, Values(s[i..]))
      decreases |s| - i
    {
      SizeStep(prev, s, i);
      len := len + 1 + ExtensionSize(Delta(prev, opt.number)) + ExtensionSize(|opt.value|);
      if (opt.next != null && opt.number > opt.next.number) || |opt.value| > MAX_EXTENDED
         || Delta(prev, opt.number) > MAX_EXTENDED {
        return Some(Options), len;
      }
      len := len + |opt.value|;
      prev := opt.number;
      opt := opt.next;
      i := i + 1;
    }
    NoValues(s, prev);
    return None, len;
  }

  /** Writes `data` at `ptr`, inside the reserved part of the buffer, and steps over it. */
  method Put(io: Buffer, ptr: nat, data: seq<byte>, ghost done: seq<byte>) returns (ptr': nat)
    requires io.Valid() && ptr + |data| <= io.len && io.Contents()[..ptr] == done
    modifies io.buf
    ensures ptr' == ptr + |data| && io.Contents()[..ptr'] == done + data
  {
    MemCopy(io.buf, ptr, data);
    ptr' := ptr + |data|;
    assert io.buf[..ptr] == done && io.buf[ptr..ptr'] == data;
    assert io.Contents()[..ptr'] == io.buf[..ptr] + io.buf[ptr..ptr'];
  }

  /** mg_coap_compose: reserves exactly the announced size behind what the buffer holds, then fills
      it from front to back. */
  method Compose(m: Message, list: OptionList, io: Buffer) returns (objection: Option<Field>)
    requires list.Valid() && io.Valid()
    modifies io, io.buf
    ensures io.Valid() && objection == Objection(Full(m, list))
    ensures io.Contents() == if objection.Some? then old(io.Contents()) else old(io.Contents()) + Encode(Full(m, list))
  {
    hide Objection, PacketSize, Values, Ascending, Linked, Distinct;
    var size;
    objection, size := CalculateSize(m, list);
    if objection.Some? { return; }
    ghost var before, full := io.Contents(), Full(m, list);
    var ptr := io.len;
    io.Append(seq(size, _ => 0));
    assert io.Contents()[..ptr] == before;
    SizeIsExact(full);
    Fill(m, list, io, ptr, before);
    assert io.Contents()[..io.len] == io.Contents();
  }

  method Fill(m: Message, list: OptionList, io: Buffer, start: nat, ghost before: seq<byte>)
    requires list.Valid() && io.Valid() && Objection(Full(m, list)).None?
    requires io.len == start + |Encode(Full(m, list))| && io.Contents()[..start] == before
    modifies io.buf
    ensures io.Contents()[..io.len] == before + Encode(Full(m, list))
  {
    hide Objection, Values, Ascending, Linked, Distinct, EncodeOptions, BigEndian;
    ghost var full := Full(m, list);
    LimitsHold(full);
    ghost var opts := EncodeOptions(0, full.options);
    var head := [64 + 16 * m.msgType + |m.token|, 32 * m.codeClass + m.codeDetail] + BigEndian(m.msgId, 2);
    Pieces(before, head, m.token, opts, m.payload);
    assert |Encode(full)| == |head| + |m.token| + |opts| + |Trailer(m.payload)|;
    var ptr := Put(io, start, head, before);
    ptr := Put(io, ptr, m.token, before + head);
    ptr := PutOptions(list, io, ptr, before + head + m.token);
    if m.payload != [] {
      ptr := Put(io, ptr, [255], before + head + m.token + opts);
      ptr := Put(io, ptr, m.payload, before + head + m.token + opts + [255]);
    }
  }

  lemma Pieces(before: seq<byte>, head: seq<byte>, token: seq<byte>, opts: seq<byte>, payload: seq<byte>)
    ensures var all := before + (head + token + opts + Trailer(payload));
            if payload == [] then all == before + head + token + opts
            else all == before + head + token + opts + [255] + payload
  {
    var x := head + token + opts;
    if payload == [] {
      Unit(x);
    } else {
      assert x + ([255] + payload) == x + [255] + payload;
    }
  }

  lemma LimitsHold(m: Message)
    requires Objection(m).None?
    ensures m.msgType <= 3 && |m.token| <= 8 && m.codeClass <= 7 && m.codeDetail <= 31
  {
  }

  /** The option loop of mg_coap_compose. */
  method PutOptions(list: OptionList, io: Buffer, start: nat, ghost before: seq<byte>) returns (ptr: nat)
    requires list.Valid() && io.Valid() && start <= io.len && io.Contents()[..start] == before
    requires start + |EncodeOptions(0, Values(list.nodes))| <= io.len
    modifies io.buf
    ensures ptr == start + |EncodeOptions(0, Values(list.nodes))|
    ensures io.Contents()[..ptr] == before + EncodeOptions(0, Values(list.nodes))
  {
    hide Values, OptionsSize, OptionsFit, EncodeOptions, Ascending, Extension, Nibble, Delta;
    ghost var s, i := list.nodes, 0;
    ghost var goal, done := before + EncodeOptions(0, Values(s)), before;
    assert s[0..] == s;
    var opt, prev := list.head, 0;
    ptr := start;
    while opt != null
      invariant 0 <= i <= |s| && opt == At(s, i) && ptr <= io.len
      invariant io.Contents()[..ptr] == done && |done| == ptr
      invariant done + EncodeOptions(prev, Values(s[i..])) == goal
      decreases |s| - i
    {
      SizeStep(prev, s, i);
      ghost var o, rest := COption(opt.number, opt.value), EncodeOptions(opt.number, Values(s[i + 1..]));
      assert done + (EncodeOption(prev, o) + rest) == done + EncodeOption(prev, o) + rest;
      var delta := Delta(prev, opt.number);
      var bytes := [Nibble(delta) * 16 + Nibble(|opt.value|)] + Extension(delta) + Extension(|opt.value|) + opt.value;
      ptr := Put(io, ptr, bytes, done);
      done := done + EncodeOption(prev, o);
      prev := opt.number;
      opt := opt.next;
      i := i + 1;
    }
    NoValues(s, prev);
    Unit(done);
  }

  // ---------------------------------------------------------------- parsing

  /** coap_get_options, filling a list through `Add`; on trouble the list is given up. */
  method GetOptions(io: Buffer, start: nat) returns (list: OptionList, trouble: Trouble, next: nat)
    requires io.Valid() && start <= io.len
    ensures fresh(list) && list.Valid() && start <= next <= io.len
    ensures match ParseOptions(io.Contents(), start, 0, [])
            case Failed(t) => trouble == t && list.nodes == []
            case Done(options, e) => trouble == NoTrouble && next == e && Values(list.nodes) == options
  {
    hide Ascending, Insert, NextOption, Linked, Distinct, Values, At;
    ghost var s := io.Contents();
    list := new OptionList();
    NoValues([], 0);
    var p: nat, prev: nat := start, 0;
    while true
      invariant start <= p <= io.len && list.Valid() && fresh(list) && fresh(list.Repr())
      invariant ParseOptions(s, start, 0, []) == ParseOptions(s, p, prev, Values(list.nodes))
      decreases io.len - p
    {
      var step := NextOption(io.buf[..io.len], p, prev);
      assert step == NextOption(s, p, prev);
      match step {
        case Stop =>
          return list, NoTrouble, p;
        case Broken(t) =>
          list := new OptionList();
          return list, t, start;
        case Take(number, v, len) =>
          var value := io.buf[..io.len][v..v + len];
          assert value == s[v..v + len];
          list.Add(number, value);
          prev, p := number, v + len;
      }
    }
  }
}
