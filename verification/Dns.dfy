/** Domain names on the wire: writing a dotted name as length-prefixed labels, and reading a possibly
    compressed one back (sections 3.1 and 4.1.4 of RFC 1035). */
module Dns {
  import opened Bytes
  import opened Mbuf

  const DOT: byte := 46
  const HOPS := 15

  // ---------------------------------------------------------------- names in packets

  /** The labels at `pos`, each followed by a dot, through at most `hops` compression pointers; none
      if the packet breaks off, a pointer leads outside or a length is not one the standard allows. */
  function Text(pkt: seq<byte>, pos: nat, hops: nat): (t: Option<seq<byte>>)
    decreases hops, |pkt| - pos
  {
    if pos >= |pkt| then None
    else if pkt[pos] == 0 then Some([])
    else if pos + 1 >= |pkt| then None
    else if pkt[pos] >= 192 then
      var off := Pointer(pkt, pos);
      if off >= |pkt| || hops == 0 then None else Text(pkt, off, hops - 1)
    else if pkt[pos] > 63 || pos + 1 + pkt[pos] >= |pkt| then None
    else
      var next := pos + 1 + pkt[pos];
      match Text(pkt, next, hops)
      case None => None
      case Some(t) => Some(pkt[pos + 1..next] + ([DOT] + t))
  }

  /** A pointer is the low fourteen bits of two bytes. */
  function Pointer(pkt: seq<byte>, pos: nat): (off: nat)
    requires pos + 1 < |pkt| && pkt[pos] >= 192
  {
    var high: int := pkt[pos];
    (high - 192) * 256 + pkt[pos + 1]
  }

  function WithoutLast(t: seq<byte>): (name: seq<byte>) { if t == [] then [] else t[..|t| - 1] }

  /** Two bytes from C0 00 to FF FF stand for what is at the position in their low fourteen bits. */
  lemma PointerDenotes(pkt: seq<byte>, pos: nat, high: byte, low: byte, hops: nat)
    requires high < 64 && pos + 1 < |pkt| && pkt[pos] == 192 + high && pkt[pos + 1] == low
    ensures 256 * high + low < |pkt| ==> Text(pkt, pos, hops + 1) == Text(pkt, 256 * high + low, hops)
    ensures 256 * high + low >= |pkt| ==> Text(pkt, pos, hops + 1) == None
    ensures Text(pkt, pos, 0) == None
  {
  }

  /** In bytes: `www.a` by itself, and `a` reached through a pointer. */
  lemma NameInBytes()
    ensures Text([3, 119, 119, 119, 1, 97, 0], 0, 0) == Some([119, 119, 119, 46, 97, 46])
    ensures Text([1, 97, 0, 0xC0, 0], 3, 1) == Some([97, 46])
  {
    var p := [3, 119, 119, 119, 1, 97, 0];
    assert Text(p, 6, 0) == Some([]);
    assert p[5..6] == [97] && Text(p, 4, 0) == Some([97] + ([DOT] + []));
    assert p[1..4] == [119, 119, 119] && [119, 119, 119] + ([DOT] + [97, 46]) == [119, 119, 119, 46, 97, 46];
    assert [97] + ([DOT] + []) == [97, 46];
    assert Text(p, 0, 0) == Some(p[1..4] + ([DOT] + Text(p, 4, 0).value));
    var q := [1, 97, 0, 0xC0, 0];
    assert Text(q, 2, 0) == Some([]);
    assert q[1..2] == [97] && Text(q, 0, 0) == Some([97] + ([DOT] + []));
    assert q[3] == 0xC0 && q[4] == 0 && Pointer(q, 3) == 0;
    assert Text(q, 3, 1) == Text(q, 0, 0);
  }

  // ---------------------------------------------------------------- writing

  function LabelEnd(name: seq<byte>): (e: nat)
    ensures e <= |name| && DOT !in name[..e] && (e < |name| ==> name[e] == DOT)
  {
    if name == [] || name[0] == DOT then 0
    else
      var e := LabelEnd(name[1..]) + 1;
      assert name[..e] == [name[0]] + name[1..][..e - 1];
      e
  }

  /** Every label fits the encoder's limit. */
  predicate Fits(name: seq<byte>)
    decreases |name|
  {
    LabelEnd(name) <= 127 && (LabelEnd(name) < |name| ==> Fits(name[LabelEnd(name) + 1..]))
  }

  /** The labels with their lengths in front, up to the first that does not fit. */
  function Labels(name: seq<byte>): (s: seq<byte>)
    decreases |name|, 1
  {
    var e := LabelEnd(name);
    if e > 127 then []
    else [e] + name[..e] + MoreLabels(name, e)
  }

  /** The labels behind the first, which ends at `e`. */
  function MoreLabels(name: seq<byte>, e: nat): (s: seq<byte>)
    requires e <= |name|
    decreases |name|, 0
  {
    if e < |name| then Labels(name[e + 1..]) else []
  }

  /** Every label has 1 to 63 bytes. */
  predicate Proper(name: seq<byte>)
    decreases |name|
  {
    1 <= LabelEnd(name) <= 63 && (LabelEnd(name) < |name| ==> Proper(name[LabelEnd(name) + 1..]))
  }

  // ---------------------------------------------------------------- round trip

  lemma {:induction false} ProperFits(name: seq<byte>)
    requires Proper(name)
    ensures Fits(name)
    decreases |name|
  {
    var e := LabelEnd(name);
    if e < |name| { ProperFits(name[e + 1..]); }
  }

  lemma ThreeParts<T>(pkt: seq<T>, pos: nat, x: T, y: seq<T>, z: seq<T>)
    requires pos + 1 + |y| + |z| <= |pkt| && pkt[pos..pos + 1 + |y| + |z|] == [x] + y + z
    ensures pkt[pos] == x && pkt[pos + 1..pos + 1 + |y|] == y && pkt[pos + 1 + |y|..pos + 1 + |y| + |z|] == z
  {
    Part(pkt, pos, [x] + y, z);
    Part(pkt, pos, [x], y);
    assert pkt[pos..pos + 1][0] == pkt[pos];
  }

  /** The encoded name stands at `pos` and a zero byte behind it. */
  ghost predicate StandsAt(pkt: seq<byte>, pos: nat, labels: seq<byte>) {
    pos + |labels| < |pkt| && pkt[pos..pos + |labels|] == labels && pkt[pos + |labels|] == 0
  }

  lemma LabelAt(pkt: seq<byte>, pos: nat, name: seq<byte>)
    requires Fits(name) && StandsAt(pkt, pos, Labels(name))
    ensures var e := LabelEnd(name);
            pos + 1 + e < |pkt| && pkt[pos] == e && pkt[pos + 1..pos + 1 + e] == name[..e]
            && StandsAt(pkt, pos + 1 + e, MoreLabels(name, e))
  {
    hide LabelEnd, MoreLabels;
    var e := LabelEnd(name);
    ThreeParts(pkt, pos, e, name[..e], MoreLabels(name, e));
  }

  lemma TextLabel(pkt: seq<byte>, pos: nat, hops: nat)
    requires pos + 1 < |pkt| && 1 <= pkt[pos] <= 63 && pos + 1 + pkt[pos] < |pkt|
    ensures var next := pos + 1 + pkt[pos];
            (Text(pkt, next, hops).None? ==> Text(pkt, pos, hops).None?)
            && (Text(pkt, next, hops).Some? ==>
                  Text(pkt, pos, hops) == Some(pkt[pos + 1..next] + ([DOT] + Text(pkt, next, hops).value)))
  {
  }

  lemma TextOdd(pkt: seq<byte>, pos: nat, hops: nat)
    requires pos < |pkt| && (pkt[pos] == 0 || 63 < pkt[pos] < 192)
    ensures Text(pkt, pos, hops) == if pkt[pos] == 0 then Some([]) else None
  {
  }

  /** Wherever an encoded name stands in a packet, its text is the name with a dot behind it exactly
      when every label has 1 to 63 bytes; otherwise there is none or it stops at an empty label. */
  lemma {:induction false} TextOfName(pkt: seq<byte>, pos: nat, name: seq<byte>, hops: nat)
    requires Fits(name) && StandsAt(pkt, pos, Labels(name))
    ensures Text(pkt, pos, hops) == Some(name + [DOT]) <==> Proper(name)
    ensures !Proper(name) && Text(pkt, pos, hops).Some? ==> |Text(pkt, pos, hops).value| <= |name|
    decreases |name|
  {
    hide Text, LabelEnd, Labels, StandsAt, Fits, Proper;
    var e := LabelEnd(name);
    NameStep(name);
    LabelAt(pkt, pos, name);
    var next := pos + 1 + e;
    if 1 <= e <= 63 {
      TextLabel(pkt, pos, hops);
      if e < |name| {
        var rest := name[e + 1..];
        TextOfName(pkt, next, rest, hops);
        LabelBefore(name, e, Text(pkt, next, hops));
      } else {
        LastLabel(pkt, next, hops);
        Unit([DOT]);
        assert name[..e] == name;
      }
    } else {
      TextOdd(pkt, pos, hops);
    }
  }

  lemma NameStep(name: seq<byte>)
    ensures var e := LabelEnd(name);
            && (Fits(name) ==> e <= 127 && (e < |name| ==> Fits(name[e + 1..])))
            && (Proper(name) <==> 1 <= e <= 63 && (e < |name| ==> Proper(name[e + 1..])))
  {
  }

  lemma LastLabel(pkt: seq<byte>, pos: nat, hops: nat)
    requires StandsAt(pkt, pos, [])
    ensures Text(pkt, pos, hops) == Some([])
  {
  }

  lemma LabelBefore(name: seq<byte>, e: nat, t: Option<seq<byte>>)
    requires e < |name| && name[e] == DOT
    ensures t.Some? && name[..e] + ([DOT] + t.value) == name + [DOT] <==> t == Some(name[e + 1..] + [DOT])
  {
    AtDot(name, e);
    if t.Some? { Peel(name[..e], t.value, name[e + 1..]); }
  }

  lemma AtDot(name: seq<byte>, e: nat)
    requires e < |name| && name[e] == DOT
    ensures name == name[..e] + ([DOT] + name[e + 1..])
  {
  }

  lemma Peel(l: seq<byte>, t: seq<byte>, rest: seq<byte>)
    ensures l + ([DOT] + t) == l + ([DOT] + rest) + [DOT] <==> t == rest + [DOT]
  {
    var x, y := l + ([DOT] + t), l + ([DOT] + rest) + [DOT];
    assert x[|l| + 1..] == t && y[|l| + 1..] == rest + [DOT];
    if t == rest + [DOT] {
      assert x == y;
    }
  }

  /** mg_dns_encode_name: appends the labels and a closing zero; a label of more than 127 bytes ends
      it with what was already written left in place. */
  method EncodeName(io: Buffer, name: seq<byte>) returns (r: int)
    requires io.Valid() && 0 !in name
    modifies io, io.buf
    ensures io.Valid()
    ensures Fits(name) ==> io.Contents() == old(io.Contents()) + Labels(name) + [0] && r == |Labels(name)| + 1
    ensures !Fits(name) ==> io.Contents() == old(io.Contents()) + Labels(name) && r == -1
  {
    hide LabelEnd, Labels, MoreLabels, Fits;
    var pos := io.len;
    var p := 0;
    ghost var done: seq<byte> := [];
    assert name[p..] == name && done + Labels(name) == Labels(name);
    while true
      invariant p <= |name| && io.Valid() && (io.buf == old(io.buf) || fresh(io.buf))
      invariant io.Contents() == old(io.Contents()) + done && done + Labels(name[p..]) == Labels(name)
      invariant Fits(name) <==> Fits(name[p..])
      decreases |name| - p
    {
      var rest := name[p..];
      var e := LabelEnd(rest);
      LabelsStep(rest);
      if e > 127 {
        Unit(done);
        return -1;
      }
      io.Append([e]);
      io.Append(rest[..e]);
      LabelWritten(old(io.Contents()), done, rest, e, Labels(name));
      done := done + ([e] + rest[..e]);
      p := p + e;
      if p == |name| {
        Unit(done);
        break;
      }
      assert rest[e + 1..] == name[p + 1..];
      p := p + 1;
    }
    io.Append([0]);
    r := io.len - pos;
  }

  lemma LabelWritten(before: seq<byte>, done: seq<byte>, rest: seq<byte>, e: byte, whole: seq<byte>)
    requires e == LabelEnd(rest) <= 127 && done + Labels(rest) == whole
    ensures before + done + [e] + rest[..e] == before + (done + ([e] + rest[..e]))
    ensures done + ([e] + rest[..e]) + MoreLabels(rest, e) == whole
  {
    hide LabelEnd, Labels, MoreLabels, Fits;
    LabelsStep(rest);
    Regroup4(before, done, [e], rest[..e]);
    Regroup4([], done, [e] + rest[..e], MoreLabels(rest, e));
  }

  lemma LabelsStep(name: seq<byte>)
    ensures var e := LabelEnd(name);
            (e > 127 ==> Labels(name) == [] && !Fits(name))
            && (e <= 127 ==> Labels(name) == [e] + name[..e] + MoreLabels(name, e))
            && (e <= 127 && e < |name| ==>
                MoreLabels(name, e) == Labels(name[e + 1..]) && (Fits(name) <==> Fits(name[e + 1..])))
            && (e <= 127 && e == |name| ==> MoreLabels(name, e) == [] && Fits(name))
  {
  }

  // ---------------------------------------------------------------- reading in place

  /** `rest` is still to come behind what has been written of the whole text. */
  predicate Follows(whole: Option<seq<byte>>, written: seq<byte>, rest: Option<seq<byte>>) {
    if rest.None? then whole.None? else whole == Some(written + rest.value)
  }

  lemma TextBroken(pkt: seq<byte>, pos: nat, hops: nat)
    requires pos < |pkt| && pkt[pos] != 0
    requires pos + 1 == |pkt| || (pkt[pos] >= 192 && (Pointer(pkt, pos) >= |pkt| || hops == 0))
    ensures Text(pkt, pos, hops).None?
  {
  }

  lemma TextPointer(pkt: seq<byte>, pos: nat, hops: nat)
    requires pos + 1 < |pkt| && pkt[pos] >= 192 && Pointer(pkt, pos) < |pkt| && hops > 0
    ensures Text(pkt, pos, hops) == Text(pkt, Pointer(pkt, pos), hops - 1)
  {
  }

  method CopyTo(dst: array<byte>, d: nat, s: seq<byte>)
    requires d + |s| <= dst.Length
    modifies dst
    ensures dst[..d + |s|] == old(dst[..d]) + s
    ensures forall k :: d + |s| <= k < dst.Length ==> dst[k] == old(dst[k])
  {
    forall i | 0 <= i < |s| { dst[d + i] := s[i]; }
  }

  /** As much of the name as `room` allows. */
  predicate Delivered(text: Option<seq<byte>>, out: seq<byte>, room: nat) {
    match text
    case Some(t) =>
      var name := WithoutLast(t);
      out == if |name| < room then name else name[..room]
    case None => out == [] || |out| == room
  }

  lemma NothingDelivered(whole: Option<seq<byte>>, written: seq<byte>, room: nat)
    requires Follows(whole, written, None)
    ensures Delivered(whole, [], room) && whole.None?
  {
  }

  lemma AllDelivered(whole: Option<seq<byte>>, written: seq<byte>, room: nat)
    requires Follows(whole, written, Some([])) && |written| <= room
    ensures Delivered(whole, WithoutLast(written), room) && whole == Some(written)
  {
    Unit(written);
  }

  lemma StartDelivery(whole: Option<seq<byte>>)
    ensures Follows(whole, [], whole)
  {
    if whole.Some? { Unit(whole.value); }
  }

  /** mg_dns_uncompress_name: as much of the name as there is room for. Where the packet holds no
      name the result is empty, unless the room ran out before that was noticed.  A zero ends a name
      that is shorter than the room. */
  method UncompressName(pkt: seq<byte>, pos: nat, dst: array<byte>, dstLen: nat) returns (r: nat)
    requires dstLen <= dst.Length
    modifies dst
    ensures r <= dstLen && forall k :: dstLen <= k < dst.Length ==> dst[k] == old(dst[k])
    ensures Delivered(Text(pkt, pos, 15), dst[..r], dstLen)
    ensures r < dstLen && Text(pkt, pos, 15).Some? && Text(pkt, pos, 15) != Some([]) ==> dst[r] == 0
  {
    hide Text, Pointer, Follows, Delivered;
    ghost var whole := Text(pkt, pos, HOPS);
    StartDelivery(whole);
    if pos >= |pkt| {
      TextOutside(pkt, pos);
      NothingDelivered(whole, [], dstLen);
      return 0;
    }
    var data: nat, hops: nat, d: nat := pos, 0, 0;
    while pkt[data] != 0
      invariant data < |pkt| && hops <= HOPS && d <= dstLen
      invariant forall k :: dstLen <= k < dst.Length ==> dst[k] == old(dst[k])
      invariant Follows(whole, dst[..d], Text(pkt, data, HOPS - hops))
      decreases HOPS - hops, |pkt| - data
    {
      var n := pkt[data];
      ghost var written := dst[..d];
      if data + 1 >= |pkt| {
        TextBroken(pkt, data, HOPS - hops);
        NothingDelivered(whole, written, dstLen);
        return 0;
      }
      if n >= 192 {
        var off := Pointer(pkt, data);
        if off >= |pkt| || hops == HOPS {
          TextBroken(pkt, data, HOPS - hops);
          NothingDelivered(whole, written, dstLen);
          return 0;
        }
        TextPointer(pkt, data, HOPS - hops);
        hops := hops + 1;
        data := off;
        continue;
      }
      var chunk := if n > dstLen - d then dstLen - d else n;
      if n > 63 || data + 1 + chunk >= |pkt| {
        TextRefused(pkt, data, HOPS - hops);
        NothingDelivered(whole, written, dstLen);
        return 0;
      }
      CopyTo(dst, d, pkt[data + 1..data + 1 + chunk]);
      if d + chunk == dstLen {
        Truncated(pkt, data, HOPS - hops, whole, written, chunk);
        return dstLen;
      }
      Written(pkt, data, HOPS - hops, whole, written);
      data := data + 1 + n;
      d := d + n;
      dst[d] := DOT;
      d := d + 1;
      assert dst[..d] == dst[..d - 1] + [DOT];
    }
    TextOdd(pkt, data, HOPS - hops);
    ghost var text := dst[..d];
    AllDelivered(whole, text, dstLen);
    if d > 0 {
      d := d - 1;
      dst[d] := 0;
    }
    assert dst[..d] == WithoutLast(text);
    r := d;
  }

  lemma TextRefused(pkt: seq<byte>, pos: nat, hops: nat)
    requires pos < |pkt| && 0 < pkt[pos] < 192 && (pkt[pos] > 63 || pos + 1 + pkt[pos] >= |pkt|)
    ensures Text(pkt, pos, hops).None?
  {
  }

  lemma TextOutside(pkt: seq<byte>, pos: nat)
    requires pos >= |pkt|
    ensures Text(pkt, pos, HOPS) == None
  {
  }

  lemma Written(pkt: seq<byte>, pos: nat, hops: nat, whole: Option<seq<byte>>, written: seq<byte>)
    requires pos + 1 < |pkt| && 1 <= pkt[pos] <= 63 && pos + 1 + pkt[pos] < |pkt|
    requires Follows(whole, written, Text(pkt, pos, hops))
    ensures var next := pos + 1 + pkt[pos];
            Follows(whole, written + pkt[pos + 1..next] + [DOT], Text(pkt, next, hops))
  {
    hide Text;
    TextLabel(pkt, pos, hops);
    var next := pos + 1 + pkt[pos];
    if Text(pkt, next, hops).Some? {
      Regroup4(written, pkt[pos + 1..next], [DOT], Text(pkt, next, hops).value);
    }
  }

  /** Room ran out inside a label, or exactly at its end. */
  lemma Truncated(pkt: seq<byte>, pos: nat, hops: nat, whole: Option<seq<byte>>, written: seq<byte>, n: nat)
    requires pos + 1 + n < |pkt| && n <= pkt[pos] <= 63 && pkt[pos] > 0 && Follows(whole, written, Text(pkt, pos, hops))
    ensures Delivered(whole, written + pkt[pos + 1..pos + 1 + n], |written| + n)
  {
    if whole.Some? {
      var text := Text(pkt, pos, hops).value;
      var next := pos + 1 + pkt[pos];
      assert Text(pkt, next, hops).Some?;
      assert |text| > |pkt[pos + 1..next]| && text[..n] == pkt[pos + 1..pos + 1 + n];
      assert whole.value == written + text;
    }
  }

  /** What the reader delivers of a proper name: all of it, or as much as there is room for. */
  lemma EncodedIsDelivered(pkt: seq<byte>, pos: nat, name: seq<byte>, out: seq<byte>, room: nat)
    requires Proper(name) && StandsAt(pkt, pos, Labels(name))
    requires Delivered(Text(pkt, pos, HOPS), out, room)
    ensures out == if |name| < room then name else name[..room]
  {
    hide Text, StandsAt, Labels;
    ProperFits(name);
    TextOfName(pkt, pos, name, HOPS);
    assert (name + [DOT])[..|name|] == name;
  }

  /** With room to spare, what the reader delivers of an encoded name is that name exactly when the
      name is empty or every label has 1 to 63 bytes. */
  lemma RoundTripExactly(pkt: seq<byte>, pos: nat, name: seq<byte>, out: seq<byte>, room: nat)
    requires Fits(name) && StandsAt(pkt, pos, Labels(name)) && room > |name|
    requires Delivered(Text(pkt, pos, HOPS), out, room)
    ensures out == name <==> name == [] || Proper(name)
  {
    hide Text, StandsAt, Labels;
    TextOfName(pkt, pos, name, HOPS);
    if Proper(name) {
      EncodedIsDelivered(pkt, pos, name, out, room);
    } else if name == [] {
      NoLabels(pkt, pos);
    }
  }

  /** A label and then a pointer: the label, a dot, and the name that stands where the pointer leads. */
  lemma CompressedName(pkt: seq<byte>, pos: nat, part: seq<byte>, high: byte, low: byte, name: seq<byte>, hops: nat)
    requires 1 <= |part| <= 63 && high < 64 && pos + |part| + 2 < |pkt|
    requires pkt[pos] == |part| && pkt[pos + 1..pos + 1 + |part|] == part
    requires pkt[pos + 1 + |part|] == 192 + high && pkt[pos + 2 + |part|] == low
    requires Proper(name) && StandsAt(pkt, 256 * high + low, Labels(name))
    ensures Text(pkt, pos, hops + 1) == Some(part + ([DOT] + (name + [DOT])))
  {
    hide Text, Labels;
    TextLabel(pkt, pos, hops + 1);
    PointerDenotes(pkt, pos + 1 + |part|, high, low, hops);
    ProperFits(name);
    TextOfName(pkt, 256 * high + low, name, hops);
  }

  lemma NoLabels(pkt: seq<byte>, pos: nat)
    requires StandsAt(pkt, pos, Labels([]))
    ensures Text(pkt, pos, HOPS) == Some([])
  {
    LabelAt(pkt, pos, []);
  }
}
