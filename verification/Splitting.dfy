/** Splitting a string at a separator and joining the pieces again. */
module Splitting {
  import opened Bytes

  predicate OccursAt(s: string, sep: string, i: int) { 0 <= i && i + |sep| <= |s| && s[i..i + |sep|] == sep }

  /** The first place where `sep` occurs, as strstr finds it. */
  function Find(s: string, sep: string): (r: Option<nat>)
    ensures r.Some? ==> OccursAt(s, sep, r.value) && forall i :: OccursAt(s, sep, i) ==> r.value <= i
    ensures r.None? ==> forall i :: !OccursAt(s, sep, i)
  {
    FindFrom(s, sep, 0)
  }

  function FindFrom(s: string, sep: string, from: nat): (r: Option<nat>)
    ensures r.Some? ==> OccursAt(s, sep, r.value) && from <= r.value
    ensures r.Some? ==> forall i :: from <= i && OccursAt(s, sep, i) ==> r.value <= i
    ensures r.None? ==> forall i :: from <= i ==> !OccursAt(s, sep, i)
    decreases |s| - from
  {
    if from > |s| then None
    else if OccursAt(s, sep, from) then Some(from)
    else FindFrom(s, sep, from + 1)
  }

  /** Cuts at each separator from the left; an empty last piece is dropped. */
  function Pieces(s: string, sep: string): (ps: seq<string>)
    requires sep != ""
    decreases |s|
  {
    match Find(s, sep)
    case None => if s == "" then [] else [s]
    case Some(i) => [s[..i]] + Pieces(s[i + |sep|..], sep)
  }

  /** What stands behind the last cut. */
  function Remainder(s: string, sep: string): (r: string)
    requires sep != ""
    decreases |s|
  {
    match Find(s, sep) case None => s case Some(i) => Remainder(s[i + |sep|..], sep)
  }

  function Joined(ps: seq<string>, sep: string): (s: string)
    requires ps != []
  {
    if |ps| == 1 then ps[0] else ps[0] + sep + Joined(ps[1..], sep)
  }

  // ---------------------------------------------------------------- what splitting gives

  /** The pieces of a split: each but the last runs up to the first separator, the last has none. */
  ghost predicate Cut(ps: seq<string>, sep: string) {
    forall i :: 0 <= i < |ps| ==> Find(ps[i], sep) == None
                                  && (i < |ps| - 1 ==> Find(ps[i] + sep, sep) == Some(|ps[i]|))
  }

  lemma FirstIs(s: string, sep: string, i: nat)
    requires OccursAt(s, sep, i) && forall j :: 0 <= j < i ==> !OccursAt(s, sep, j)
    ensures Find(s, sep) == Some(i)
  {
  }

  /** A piece runs up to the first separator whatever stands behind it. */
  lemma FirstCut(p: string, sep: string, rest: string)
    requires sep != ""
    ensures Find(p + sep + rest, sep) == Some(|p|) <==> Find(p + sep, sep) == Some(|p|)
  {
    var s, t := p + sep + rest, p + sep;
    Same(p, sep, rest, |p|);
    assert OccursAt(t, sep, |p|) by { assert t[|p|..] == sep; }
    forall j | 0 <= j < |p| ensures OccursAt(s, sep, j) <==> OccursAt(t, sep, j) {
      Same(p, sep, rest, j);
    }
    if forall j :: 0 <= j < |p| ==> !OccursAt(t, sep, j) {
      FirstIs(s, sep, |p|);
      FirstIs(t, sep, |p|);
    }
  }

  lemma Same(p: string, sep: string, rest: string, j: nat)
    requires j <= |p|
    ensures OccursAt(p + sep + rest, sep, j) <==> OccursAt(p + sep, sep, j)
  {
    assert (p + sep + rest)[j..j + |sep|] == (p + sep)[j..j + |sep|];
  }

  lemma NoneBefore(s: string, sep: string, i: nat)
    requires sep != "" && Find(s, sep) == Some(i)
    ensures s == s[..i] + sep + s[i + |sep|..]
    ensures Find(s[..i], sep) == None && Find(s[..i] + sep, sep) == Some(i)
  {
    var p, rest := s[..i], s[i + |sep|..];
    assert s == p + sep + rest;
    FirstCut(p, sep, rest);
    forall j ensures !OccursAt(p, sep, j) {
      if OccursAt(p, sep, j) {
        assert s[j..j + |sep|] == p[j..j + |sep|];
        assert OccursAt(s, sep, j);
      }
    }
  }

  /** No piece holds the separator, and each was cut at the first one there was. */
  lemma {:induction false} PiecesAreCut(s: string, sep: string)
    requires sep != ""
    ensures Cut(Pieces(s, sep), sep)
    decreases |s|
  {
    hide Find;
    if Find(s, sep).Some? {
      var i := Find(s, sep).value;
      NoneBefore(s, sep, i);
      PiecesAreCut(s[i + |sep|..], sep);
    }
  }

  /** Joining gives the string back, or the string without one final separator, when nothing stands
      behind the last cut. */
  lemma {:induction false} JoinedAgain(s: string, sep: string)
    requires sep != "" && s != ""
    ensures var ps := Pieces(s, sep);
            ps != [] && s == Joined(ps, sep) + if Remainder(s, sep) == "" then sep else ""
    decreases |s|
  {
    hide Find;
    if Find(s, sep).Some? {
      var i := Find(s, sep).value;
      var p, rest := s[..i], s[i + |sep|..];
      NoneBefore(s, sep, i);
      if rest == "" {
        NothingLeft(sep);
        Unit([p]);
        Unit(p + sep);
      } else {
        JoinedAgain(rest, sep);
        var ps := Pieces(rest, sep);
        assert ([p] + ps)[1..] == ps;
        Regroup(p + sep, Joined(ps, sep), if Remainder(rest, sep) == "" then sep else "");
      }
    } else {
      Unit(s);
    }
  }

  lemma NothingLeft(sep: string)
    requires sep != ""
    ensures Pieces("", sep) == [] && Remainder("", sep) == ""
  {
  }

  /** The other way round: a list of pieces, each cut at its first separator and the last not
      empty, comes back from splitting what it joins to. */
  lemma {:induction false} SplitAgain(ps: seq<string>, sep: string)
    requires sep != "" && ps != [] && Cut(ps, sep) && ps[|ps| - 1] != ""
    ensures Pieces(Joined(ps, sep), sep) == ps
    decreases |ps|
  {
    hide Find;
    if |ps| > 1 {
      var p, rest := ps[0], Joined(ps[1..], sep);
      SplitAgain(ps[1..], sep);
      FirstCut(p, sep, rest);
      var s := p + sep + rest;
      assert s[..|p|] == p && s[|p| + |sep|..] == rest;
      assert ps == [p] + ps[1..];
    }
  }

  // ---------------------------------------------------------------- the two functions

  /** What split_str returns: null for the empty string, the string alone if it is no longer than
      the separator, and the pieces otherwise. */
  function Split(s: string, sep: string): (r: Option<seq<string>>)
    requires sep != ""
  {
    if s == "" then None else if |s| <= |sep| then Some([s]) else Some(Pieces(s, sep))
  }

  /** No piece of a split holds the separator, unless the string was the separator itself. */
  lemma NoSeparatorExactly(s: string, sep: string)
    requires sep != "" && s != ""
    ensures (forall p <- Split(s, sep).value :: Find(p, sep) == None) <==> s != sep
  {
    hide Find;
    if |s| <= |sep| {
      ShortFind(s, sep);
      assert [s][0] == s;
    } else {
      PiecesAreCut(s, sep);
    }
  }

  lemma ShortFind(s: string, sep: string)
    requires sep != "" && |s| <= |sep|
    ensures Find(s, sep) == None <==> s != sep
  {
    assert s[0..|s|] == s;
    if s == sep {
      assert OccursAt(s, sep, 0);
    } else {
      forall i ensures !OccursAt(s, sep, i) {
        assert OccursAt(s, sep, i) ==> i == 0 && |s| == |sep|;
      }
    }
  }

  // ---------------------------------------------------------------- in a buffer

  const NUL: char := 0 as char

  /** The string that starts at `p` in a buffer and ends before the next zero. */
  function CString(b: seq<char>, p: nat): (s: string)
    decreases |b| - p
  {
    if p >= |b| || b[p] == NUL then "" else [b[p]] + CString(b, p + 1)
  }

  lemma {:induction false} CStringIs(b: seq<char>, p: nat, e: nat)
    requires p <= e < |b| && b[e] == NUL && forall k :: p <= k < e ==> b[k] != NUL
    ensures CString(b, p) == b[p..e]
    decreases e - p
  {
    if p < e {
      CStringIs(b, p + 1, e);
      assert b[p..e] == [b[p]] + b[p + 1..e];
    }
  }

  /** tail_substr: ends the string at `p` where the separator starts, and gives the place behind it. */
  method TailSubstr(buf: array<char>, p: nat, sep: string) returns (tail: Option<nat>)
    requires p <= buf.Length
    requires forall i: nat :: OccursAt(CString(buf[..], p), sep, i) ==> p + i + |sep| < buf.Length
    modifies buf
    ensures var at := Find(old(CString(buf[..], p)), sep);
            if at.None? then tail == None && buf[..] == old(buf[..])
            else tail == Some(p + at.value + |sep|) && buf[..] == old(buf[..])[p + at.value := NUL]
  {
    var at := Find(CString(buf[..], p), sep);
    if at.None? { return None; }
    buf[p + at.value] := NUL;
    tail := Some(p + at.value + |sep|);
  }

  function Reversed(ps: seq<string>): (r: seq<string>) {
    if ps == [] then [] else Reversed(ps[1..]) + [ps[0]]
  }

  /** A buffer holding the rest of `s` from `p` on, with the closing zero. */
  ghost predicate HoldsRest(b: seq<char>, s: string, p: nat) {
    p <= |s| < |b| && b[|s|] == NUL && b[p..|s|] == s[p..]
  }

  lemma RestIs(b: seq<char>, s: string, p: nat)
    requires HoldsRest(b, s, p) && NUL !in s
    ensures CString(b, p) == s[p..]
  {
    forall k | p <= k < |s| ensures b[k] != NUL {
      assert b[p..|s|][k - p] == s[p..][k - p] == s[k];
    }
    CStringIs(b, p, |s|);
  }

  /** After a cut: the piece in front of it, and the rest behind it as before. */
  lemma AfterCut(b: seq<char>, s: string, p: nat, i: nat, n: nat)
    requires HoldsRest(b, s, p) && NUL !in s && 0 < n && p + i + n <= |s|
    ensures var b' := b[p + i := NUL]; CString(b', p) == s[p..][..i] && HoldsRest(b', s, p + i + n)
  {
    var b' := b[p + i := NUL];
    forall k | p <= k < |s| ensures b[k] == s[k] && s[k] != NUL {
      assert b[p..|s|][k - p] == s[p..][k - p] == s[k];
    }
    CStringIs(b', p, p + i);
  }

  /** split_str: cuts the buffer in place from the left, collects the pieces in reverse. */
  method SplitStr(s: string, sep: string) returns (r: Option<seq<string>>)
    requires sep != "" && (0 as char) !in s && (0 as char) !in sep
    ensures r == Split(s, sep)
  {
    hide Find, CString, HoldsRest;
    if |s| == 0 { return None; }
    if |s| <= |sep| { return Some([s]); }
    var buf := new char[|s| + |sep| + 1](_ => NUL);
    forall i | 0 <= i < |s| { buf[i] := s[i]; }
    Filled(buf[..], s);
    var p: nat, pieces: seq<string> := 0, [];
    assert s[0..] == s;
    Unit(Pieces(s, sep));
    while true
      invariant p <= |s| && buf.Length == |s| + |sep| + 1 && HoldsRest(buf[..], s, p)
      invariant Reversed(pieces) + Pieces(s[p..], sep) == Pieces(s, sep)
      decreases |s| - p
    {
      ghost var before := buf[..];
      RestIs(before, s, p);
      var tail := TailSubstr(buf, p, sep);
      if tail.None? { break; }
      ghost var i := Find(s[p..], sep).value;
      AfterCut(before, s, p, i, |sep|);
      var piece := CString(buf[..], p);
      Regroup(Reversed(pieces), [piece], Pieces(s[p..][i + |sep|..], sep));
      assert s[p..][i + |sep|..] == s[tail.value..];
      Prepended(piece, pieces);
      pieces := [piece] + pieces;
      p := tail.value;
    }
    RestIs(buf[..], s, p);
    var last := CString(buf[..], p);
    if |last| > 0 {
      Prepended(last, pieces);
      pieces := [last] + pieces;
    } else {
      Unit(Reversed(pieces));
    }
    r := Some(Reversed(pieces));
  }

  lemma Prepended(x: string, ps: seq<string>)
    ensures Reversed([x] + ps) == Reversed(ps) + [x]
  {
    assert ([x] + ps)[1..] == ps;
  }

  lemma Filled(b: seq<char>, s: string)
    requires |s| < |b| && b[|s|] == NUL && forall i :: 0 <= i < |s| ==> b[i] == s[i]
    ensures HoldsRest(b, s, 0)
  {
    assert b[0..|s|] == s[0..];
  }

  /** safe_strcat: a missing string leaves the other as it is. */
  function SafeStrcat(a: Option<string>, b: Option<string>): (r: Option<string>) {
    if a.None? then b else if b.None? then a else Some(a.value + b.value)
  }

  /** join_str: nothing for no pieces, otherwise the pieces with the separator between them. */
  method JoinStr(ps: seq<string>, sep: string) returns (r: Option<string>)
    ensures r == if ps == [] then None else Some(Joined(ps, sep))
  {
    r := None;
    var i := 0;
    while i < |ps|
      invariant 0 <= i <= |ps|
      invariant i == 0 ==> r == None
      invariant i > 0 ==> r.Some? && Joined(ps, sep) == r.value + Behind(ps[i..], sep)
    {
      JoinedBehind(ps, sep, i);
      if r.Some? {
        Regroup(r.value, sep + ps[i], Behind(ps[i + 1..], sep));
        Regroup(r.value, sep, ps[i]);
        r := SafeStrcat(r, Some(sep));
      }
      r := SafeStrcat(r, Some(ps[i]));
      i := i + 1;
    }
    if ps != [] {
      assert ps[i..] == [];
      Unit(r.value);
    }
  }

  /** The pieces with the separator in front of each. */
  function Behind(ps: seq<string>, sep: string): (s: string) {
    if ps == [] then "" else sep + ps[0] + Behind(ps[1..], sep)
  }

  lemma JoinedBehind(ps: seq<string>, sep: string, i: nat)
    requires i < |ps|
    ensures Behind(ps[i..], sep) == sep + ps[i] + Behind(ps[i + 1..], sep)
    ensures Joined(ps, sep) == ps[0] + Behind(ps[1..], sep)
  {
    assert ps[i..][1..] == ps[i + 1..];
    FirstThenBehind(ps, sep);
  }

  lemma {:induction false} FirstThenBehind(ps: seq<string>, sep: string)
    requires ps != []
    ensures Joined(ps, sep) == ps[0] + Behind(ps[1..], sep)
  {
    if |ps| == 1 {
      Unit(ps[0]);
    } else {
      FirstThenBehind(ps[1..], sep);
      var x, y, z := ps[0], ps[1], Behind(ps[2..], sep);
      assert ps[1..][1..] == ps[2..];
      assert x + sep + (y + z) == x + (sep + y + z);
    }
  }
}
