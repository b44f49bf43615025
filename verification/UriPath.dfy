/** Normalising URI paths: mg_normalize_uri_path against remove_dot_segments of section 5.2.4 of
    RFC 3986. */
module UriPath {
  import opened Bytes

  const SLASH: byte := 47
  const DOT: byte := 46

  predicate IsDot(c: seq<byte>) { c == [DOT] }

  predicate IsDotDot(c: seq<byte>) { c == [DOT, DOT] }

  /** Where the segment at `i` ends: the next slash or the end of the string. */
  function SegmentEnd(s: seq<byte>, i: nat): (e: nat)
    requires i <= |s|
    ensures i <= e <= |s| && (forall k :: i <= k < e ==> s[k] != SLASH) && (e < |s| ==> s[e] == SLASH)
    decreases |s| - i
  {
    if i == |s| || s[i] == SLASH then i else SegmentEnd(s, i + 1)
  }

  lemma SegmentEndIs(s: seq<byte>, i: nat, e: nat)
    requires i <= e <= |s| && (forall k :: i <= k < e ==> s[k] != SLASH) && (e < |s| ==> s[e] == SLASH)
    ensures SegmentEnd(s, i) == e
    decreases e - i
  {
    if i < e { SegmentEndIs(s, i + 1, e); }
  }

  // ---------------------------------------------------------------- the code's walk

  predicate AtSlash(p: seq<byte>) { p == [] || p[|p| - 1] == SLASH }

  /** Drops the last bytes up to and not including a slash. */
  function ToSlash(out: seq<byte>): (r: seq<byte>)
    ensures |r| <= |out| && r == out[..|r|] && (r != [] ==> r[|r| - 1] == SLASH)
    ensures forall k :: |r| <= k < |out| ==> out[k] != SLASH
  {
    if out == [] || out[|out| - 1] == SLASH then out else ToSlash(out[..|out| - 1])
  }

  /** Backtracking to the previous slash. */
  function Back(out: seq<byte>): (r: seq<byte>)
    ensures |r| <= |out| && r == out[..|r|] && AtSlash(r)
    ensures out != [] && out[0] == SLASH ==> r != [] && r[0] == SLASH
  {
    ToSlash(if |out| > 1 && out[|out| - 1] == SLASH then out[..|out| - 1] else out)
  }

  /** The main loop: `s` is what is left to read, `out` what has been written. */
  function Walk(out: seq<byte>, s: seq<byte>): (r: seq<byte>)
    decreases |s|
  {
    if s == [] then out
    else
      var e := SegmentEnd(s, 0);
      var next := if e < |s| then e + 1 else e;
      if IsDot(s[..e]) then Walk(out, s[next..])
      else if IsDotDot(s[..e]) then Walk(Back(out), s[next..])
      else Walk(out + s[..next], s[next..])
  }

  // ---------------------------------------------------------------- the standard's algorithm

  predicate Starts(s: seq<byte>, p: seq<byte>) { p <= s }

  /** Removes the last segment and its preceding slash, if any. */
  function RemoveLast(out: seq<byte>): (r: seq<byte>) {
    if out == [] then [] else if out[|out| - 1] == SLASH then out[..|out| - 1] else RemoveLast(out[..|out| - 1])
  }

  /** Steps 2A to 2E of section 5.2.4, from a given output buffer. */
  function RemoveDotSegments(input: seq<byte>, out: seq<byte>): (r: seq<byte>)
    decreases |input|
  {
    if input == [] then out
    else if Starts(input, [DOT, DOT, SLASH]) then RemoveDotSegments(input[3..], out)
    else if Starts(input, [DOT, SLASH]) then RemoveDotSegments(input[2..], out)
    else if Starts(input, [SLASH, DOT, SLASH]) then RemoveDotSegments(input[2..], out)
    else if input == [SLASH, DOT] then RemoveDotSegments([SLASH], out)
    else if Starts(input, [SLASH, DOT, DOT, SLASH]) then RemoveDotSegments(input[3..], RemoveLast(out))
    else if input == [SLASH, DOT, DOT] then RemoveDotSegments([SLASH], RemoveLast(out))
    else if IsDot(input) || IsDotDot(input) then out
    else
      var e := SegmentEnd(input, if input[0] == SLASH then 1 else 0);
      RemoveDotSegments(input[e..], out + input[..e])
  }

  // ---------------------------------------------------------------- they agree

  lemma {:induction false} ToSlashRemoves(x: seq<byte>)
    requires x != [] && x[0] == SLASH
    ensures ToSlash(x) == RemoveLast(x) + [SLASH]
  {
    var n := |x| - 1;
    if x[n] == SLASH {
      assert x == x[..n] + [SLASH];
    } else {
      ToSlashRemoves(x[..n]);
    }
  }

  lemma {:induction false} RemoveLastStarts(x: seq<byte>)
    requires x != [] && x[0] == SLASH
    ensures RemoveLast(x) == [] || RemoveLast(x)[0] == SLASH
  {
    var n := |x| - 1;
    if n > 0 && x[n] != SLASH { RemoveLastStarts(x[..n]); }
  }

  lemma BackRemoves(x: seq<byte>)
    requires x == [] || x[0] == SLASH
    ensures Back(x + [SLASH]) == RemoveLast(x) + [SLASH]
  {
    var out := x + [SLASH];
    if x == [] {
      assert out == [SLASH] && RemoveLast(x) + [SLASH] == [SLASH];
    } else {
      assert out[..|out| - 1] == x;
      ToSlashRemoves(x);
    }
  }

  lemma DotStep(rest: seq<byte>, x: seq<byte>)
    requires rest != [] ==> rest[0] == SLASH
    ensures RemoveDotSegments([SLASH, DOT] + rest, x) == RemoveDotSegments(if rest == [] then [SLASH] else rest, x)
  {
    var input := [SLASH, DOT] + rest;
    assert |input| == 2 + |rest| && input[0] == SLASH && input[1] == DOT;
    NoRelative(input);
    if rest == [] {
      assert !Starts(input, [SLASH, DOT, SLASH]);
      assert input == [SLASH, DOT];
    } else {
      assert input[2] == SLASH;
      assert Starts(input, [SLASH, DOT, SLASH]) && input[2..] == rest;
    }
  }

  lemma DotDotStep(rest: seq<byte>, x: seq<byte>)
    requires rest != [] ==> rest[0] == SLASH
    ensures RemoveDotSegments([SLASH, DOT, DOT] + rest, x)
            == RemoveDotSegments(if rest == [] then [SLASH] else rest, RemoveLast(x))
  {
    var input := [SLASH, DOT, DOT] + rest;
    assert |input| == 3 + |rest| && input[0] == SLASH && input[1] == DOT && input[2] == DOT;
    assert !Starts(input, [SLASH, DOT, SLASH]);
    NoRelative(input);
    if rest == [] {
      assert input == [SLASH, DOT, DOT];
      assert !Starts(input, [SLASH, DOT, DOT, SLASH]);
    } else {
      assert input[3] == SLASH;
      assert Starts(input, [SLASH, DOT, DOT, SLASH]) && input[3..] == rest;
    }
  }

  predicate Plain(c: seq<byte>) { SLASH !in c && !IsDot(c) && !IsDotDot(c) }

  /** No other rule than the copying one applies to an ordinary segment. */
  lemma PlainAlone(c: seq<byte>, rest: seq<byte>)
    requires Plain(c) && (rest != [] ==> rest[0] == SLASH)
    ensures var input := [SLASH] + c + rest;
            !Starts(input, [SLASH, DOT, SLASH]) && input != [SLASH, DOT]
            && !Starts(input, [SLASH, DOT, DOT, SLASH]) && input != [SLASH, DOT, DOT]
  {
    var input := [SLASH] + c + rest;
    assert forall k :: 0 <= k < |c| ==> input[k + 1] == c[k];
    assert rest != [] ==> input[|c| + 1] == SLASH;
    if |c| == 1 {
      assert input[1] == c[0] && c == [c[0]];
    } else if |c| == 2 {
      assert input[1] == c[0] && input[2] == c[1] && c == [c[0], c[1]];
    } else if |c| > 2 {
      assert input[1] == c[0] && input[2] == c[1] && input[3] == c[2];
    }
  }

  lemma PlainStep(c: seq<byte>, rest: seq<byte>, x: seq<byte>)
    requires Plain(c) && (rest != [] ==> rest[0] == SLASH)
    ensures RemoveDotSegments([SLASH] + c + rest, x) == RemoveDotSegments(rest, x + ([SLASH] + c))
  {
    hide Starts, IsDot, IsDotDot, Plain, RemoveLast;
    var input, e := [SLASH] + c + rest, |c| + 1;
    PlainAlone(c, rest);
    NoRelative(input);
    SlashedEnd(c, rest);
    assert input[e..] == rest && input[..e] == [SLASH] + c;
  }

  lemma NoRelative(input: seq<byte>)
    requires input != [] && input[0] == SLASH
    ensures !Starts(input, [DOT, DOT, SLASH]) && !Starts(input, [DOT, SLASH]) && !IsDot(input) && !IsDotDot(input)
  {
  }

  lemma SlashedEnd(c: seq<byte>, rest: seq<byte>)
    requires Plain(c) && (rest != [] ==> rest[0] == SLASH)
    ensures SegmentEnd([SLASH] + c + rest, 1) == |c| + 1
  {
    var input, e := [SLASH] + c + rest, |c| + 1;
    assert forall k :: 1 <= k < e ==> input[k] == c[k - 1] && input[k] in c;
    SegmentEndIs(input, 1, e);
  }

  lemma JustSlash(x: seq<byte>)
    ensures RemoveDotSegments([SLASH], x) == x + [SLASH]
  {
    var input := [SLASH];
    assert SegmentEnd(input, 1) == 1 && input[1..] == [] && input[..1] == input;
  }

  /** The standard on a whole segment, with the slash before it still in the input. */
  lemma SegmentStep(x: seq<byte>, c: seq<byte>, rest: seq<byte>)
    requires SLASH !in c && (rest != [] ==> rest[0] == SLASH)
    ensures RemoveDotSegments([SLASH] + c + rest, x)
            == if IsDot(c) then RemoveDotSegments(if rest == [] then [SLASH] else rest, x)
               else if IsDotDot(c) then RemoveDotSegments(if rest == [] then [SLASH] else rest, RemoveLast(x))
               else RemoveDotSegments(rest, x + ([SLASH] + c))
  {
    hide RemoveDotSegments, RemoveLast;
    if IsDot(c) {
      DotStep(rest, x);
      assert [SLASH] + c == [SLASH, DOT];
    } else if IsDotDot(c) {
      DotDotStep(rest, x);
      assert [SLASH] + c == [SLASH, DOT, DOT];
    } else {
      PlainStep(c, rest, x);
    }
  }

  /** The walk, standing behind a slash it has written, does what the standard does from before it. */
  lemma {:induction false} WalkIsStandard(x: seq<byte>, s: seq<byte>)
    requires x == [] || x[0] == SLASH
    ensures Walk(x + [SLASH], s) == RemoveDotSegments([SLASH] + s, x)
    decreases |s|
  {
    hide RemoveDotSegments, Back, RemoveLast, IsDot, IsDotDot;
    if s == [] {
      JustSlash(x);
      Unit([SLASH]);
    } else {
      var e := SegmentEnd(s, 0);
      var c := s[..e];
      if e == |s| {
        assert c == s;
        WalkLast(x, s);
      } else {
        var rest := s[e + 1..];
        SegmentStep(x, c, [SLASH] + rest);
        assert [SLASH] + s == [SLASH] + c + ([SLASH] + rest);
        BackRemoves(x);
        KeepsSlash(x);
        WalkIsStandard(x, rest);
        WalkIsStandard(RemoveLast(x), rest);
        WalkIsStandard(x + ([SLASH] + c), rest);
        Written(x, s, e);
      }
    }
  }

  lemma Written(x: seq<byte>, s: seq<byte>, e: nat)
    requires e < |s| && s[e] == SLASH
    ensures x + [SLASH] + s[..e + 1] == x + ([SLASH] + s[..e]) + [SLASH]
  {
  }

  lemma WalkLast(x: seq<byte>, c: seq<byte>)
    requires x == [] || x[0] == SLASH
    requires c != [] && SLASH !in c
    ensures Walk(x + [SLASH], c) == RemoveDotSegments([SLASH] + c, x)
  {
    hide RemoveDotSegments, Back, RemoveLast, IsDot, IsDotDot;
    SegmentEndIs(c, 0, |c|);
    assert c[..|c|] == c && c[|c|..] == [];
    SegmentStep(x, c, []);
    Unit([SLASH] + c);
    BackRemoves(x);
    JustSlash(x);
    JustSlash(RemoveLast(x));
    StandardEnd(x + ([SLASH] + c));
    assert x + [SLASH] + c == x + ([SLASH] + c);
  }

  lemma StandardEnd(x: seq<byte>)
    ensures RemoveDotSegments([], x) == x
  {
  }

  lemma KeepsSlash(x: seq<byte>)
    requires x == [] || x[0] == SLASH
    ensures RemoveLast(x) == [] || RemoveLast(x)[0] == SLASH
  {
    if x != [] { RemoveLastStarts(x); }
  }

  /** Every path that starts with a slash is normalised exactly as the standard says. */
  lemma NormalIsStandard(path: seq<byte>)
    requires path != [] && path[0] == SLASH
    ensures Walk([], path) == RemoveDotSegments(path, [])
  {
    var s := path[1..];
    assert path == [SLASH] + s;
    SegmentEndIs(path, 0, 0);
    assert path[..1] == [SLASH];
    Unit([SLASH]);
    WalkIsStandard([], s);
  }

  /** In characters: the slash and the dot. */
  lemma PathInBytes()
    ensures RemoveDotSegments([47, 97, 47, 46, 46, 47, 98], []) == [47, 98]
  {
    var input := [47, 97, 47, 46, 46, 47, 98];
    var rest := [47, 46, 46, 47, 98];
    assert Plain([97]) && input == [SLASH] + [97] + rest;
    PlainStep([97], rest, []);
    assert [] + ([SLASH] + [97]) == [47, 97];
    assert rest == [SLASH, DOT, DOT] + [47, 98];
    DotDotStep([47, 98], [47, 97]);
    assert [47, 97][..1] == [47] && [47][..0] == [];
    assert RemoveLast([47]) == [] && RemoveLast([47, 97]) == [];
    assert Plain([98]) && [47, 98] == [SLASH] + [98] + [];
    PlainStep([98], [], []);
    assert [] + ([SLASH] + [98]) == [47, 98];
    StandardEnd([47, 98]);
  }

  // ---------------------------------------------------------------- what the result looks like

  /** Positions `i` to `j` hold a whole segment: bounded by slashes or the ends, no slash inside. */
  predicate Segment(p: seq<byte>, i: int, j: int) {
    0 <= i <= j <= |p| && (i == 0 || p[i - 1] == SLASH) && (j == |p| || p[j] == SLASH)
    && forall k :: i <= k < j ==> p[k] != SLASH
  }

  /** No "." and no ".." segment anywhere. */
  ghost predicate Clean(p: seq<byte>) {
    forall i, j :: Segment(p, i, j) ==> !IsDot(p[i..j]) && !IsDotDot(p[i..j])
  }

  /** A segment stays one when the string around it is cut or extended beyond its ends. */
  lemma SameSegment(q: seq<byte>, p: seq<byte>, off: int, i: int, j: int)
    requires Segment(q, i, j) && 0 <= off + i && off + j <= |p|
    requires forall k :: i <= k < j ==> p[off + k] == q[k]
    requires off + i == 0 || p[off + i - 1] == SLASH
    requires off + j == |p| || p[off + j] == SLASH
    ensures Segment(p, off + i, off + j) && p[off + i..off + j] == q[i..j]
  {
    forall k | off + i <= k < off + j ensures p[k] != SLASH {
      assert p[off + (k - off)] == q[k - off];
    }
  }

  lemma CleanPrefix(p: seq<byte>, n: nat)
    requires Clean(p) && n <= |p| && AtSlash(p[..n])
    ensures Clean(p[..n])
  {
    var q := p[..n];
    forall i, j | Segment(q, i, j) ensures !IsDot(q[i..j]) && !IsDotDot(q[i..j]) {
      if i < j {
        assert q[n - 1] == SLASH && j < n;
        SameSegment(q, p, 0, i, j);
      }
    }
  }

  lemma CleanAppend(p: seq<byte>, s: seq<byte>, e: nat)
    requires Clean(p) && AtSlash(p)
    requires e <= |s| && Plain(s[..e]) && (e < |s| ==> e + 1 == |s| && s[e] == SLASH)
    ensures Clean(p + s)
  {
    var q := p + s;
    forall i, j | Segment(q, i, j) ensures !IsDot(q[i..j]) && !IsDotDot(q[i..j]) {
      if i < j {
        if i < |p| {
          assert q[|p| - 1] == SLASH && j < |p|;
          SameSegment(q, p, 0, i, j);
        } else {
          LastSegment(p, s, e, i, j);
        }
      }
    }
  }

  lemma LastSegment(p: seq<byte>, s: seq<byte>, e: nat, i: int, j: int)
    requires e <= |s| && SLASH !in s[..e] && (e < |s| ==> e + 1 == |s| && s[e] == SLASH)
    requires |p| <= i < j && Segment(p + s, i, j)
    ensures (p + s)[i..j] == s[..e]
  {
    var q := p + s;
    assert forall k :: |p| <= k < |p| + e ==> q[k] == s[..e][k - |p|];
    assert e < |s| ==> q[|p| + e] == SLASH;
    assert q[j - 1] != SLASH;
    assert j == |p| + e;
    assert i == |p|;
  }

  lemma CleanRest(s: seq<byte>, n: nat)
    requires Clean(s) && 0 < n <= |s| && s[n - 1] == SLASH
    ensures Clean(s[n..])
  {
    var q := s[n..];
    forall i, j | Segment(q, i, j) ensures !IsDot(q[i..j]) && !IsDotDot(q[i..j]) {
      SameSegment(q, s, n, i, j);
    }
  }

  /** Whatever is read, the walk leaves no dot segment behind and keeps the leading slash. */
  lemma {:induction false} WalkIsClean(out: seq<byte>, s: seq<byte>)
    requires Clean(out) && AtSlash(out)
    ensures Clean(Walk(out, s))
    ensures out != [] && out[0] == SLASH ==> Walk(out, s) != [] && Walk(out, s)[0] == SLASH
    ensures |Walk(out, s)| <= |out| + |s|
    decreases |s|
  {
    hide Clean, ToSlash;
    if s != [] {
      var e := SegmentEnd(s, 0);
      var next := if e < |s| then e + 1 else e;
      if IsDot(s[..e]) {
        WalkIsClean(out, s[next..]);
      } else if IsDotDot(s[..e]) {
        CleanPrefix(out, |Back(out)|);
        WalkIsClean(Back(out), s[next..]);
      } else {
        assert s[..next][..e] == s[..e];
        CleanAppend(out, s[..next], e);
        if e < |s| {
          WalkIsClean(out + s[..next], s[next..]);
        }
      }
    }
  }

  /** A path without dot segments passes through unchanged. */
  lemma {:induction false} CleanIsKept(out: seq<byte>, s: seq<byte>)
    requires Clean(s)
    ensures Walk(out, s) == out + s
    decreases |s|
  {
    if s != [] {
      var e := SegmentEnd(s, 0);
      var next := if e < |s| then e + 1 else e;
      assert Segment(s, 0, e) && s[0..e] == s[..e];
      if e < |s| {
        CleanRest(s, next);
      } else {
        assert s[next..] == [];
      }
      CleanIsKept(out + s[..next], s[next..]);
      assert out + s[..next] + s[next..] == out + s;
    }
  }

  /** The normal form has a leading slash, no dot segment, is no longer than the path, and
      normalising it again changes nothing. */
  lemma NormalForm(path: seq<byte>)
    requires path != [] && path[0] == SLASH
    ensures var r := Walk([], path);
            r != [] && r[0] == SLASH && |r| <= |path| && Clean(r) && Walk([], r) == r
  {
    var s := path[1..];
    SegmentEndIs(path, 0, 0);
    assert path[..1] == [SLASH];
    Unit([SLASH]);
    assert Walk([], path) == Walk([SLASH], s);
    WalkIsClean([SLASH], s);
    var r := Walk([], path);
    CleanIsKept([], r);
    Unit(r);
  }

  // ---------------------------------------------------------------- in place

  /** The scan for the end of one component; the next one starts behind the separator. */
  method ParseComponent(src: array<byte>, p: nat, end: nat) returns (e: nat, next: nat)
    requires p <= end <= src.Length
    ensures p <= e <= end && e == p + SegmentEnd(src[p..end], 0)
    ensures next == if e < end then e + 1 else e
  {
    e := p;
    while e < end && src[e] != SLASH
      invariant p <= e <= end
      invariant forall k :: p <= k < e ==> src[k] != SLASH
    {
      e := e + 1;
    }
    SegmentEndIs(src[p..end], 0, e - p);
    next := if e < end then e + 1 else e;
  }

  /** memmove between two buffers that may be the same. */
  method MoveBytes(dst: array<byte>, d: nat, src: array<byte>, s: nat, n: nat)
    requires d + n <= dst.Length && s + n <= src.Length
    modifies dst
    ensures dst[..d + n] == old(dst[..d]) + old(src[s..s + n])
    ensures forall k :: d + n <= k < dst.Length ==> dst[k] == old(dst[k])
  {
    forall i | 0 <= i < n { dst[d + i] := src[s + i]; }
  }

  /** The two backtracking loops. */
  method Backtrack(dst: array<byte>, d: nat) returns (r: nat)
    requires d <= dst.Length
    ensures r <= d && dst[..r] == Back(dst[..d])
  {
    r := d;
    if r > 1 && dst[r - 1] == SLASH {
      assert dst[..d][..d - 1] == dst[..d - 1];
      r := r - 1;
    }
    assert Back(dst[..d]) == ToSlash(dst[..r]);
    while r > 0 && dst[r - 1] != SLASH
      invariant r <= d && ToSlash(dst[..r]) == Back(dst[..d])
    {
      assert dst[..r][..r - 1] == dst[..r - 1];
      r := r - 1;
    }
  }

  lemma WalkAt(out: seq<byte>, path: seq<byte>, s: nat, e: nat, next: nat)
    requires s < |path| && e == s + SegmentEnd(path[s..], 0) && next == if e < |path| then e + 1 else e
    ensures s <= e <= next <= |path|
    ensures Walk(out, path[s..])
            == if IsDot(path[s..e]) then Walk(out, path[next..])
               else if IsDotDot(path[s..e]) then Walk(Back(out), path[next..])
               else Walk(out + path[s..next], path[next..])
  {
    var rest := path[s..];
    assert rest[..e - s] == path[s..e] && rest[..next - s] == path[s..next] && rest[next - s..] == path[next..];
  }

  /** Normalises `n` bytes of `src` into `dst`, which may be `src` itself: nothing is overwritten
      before it has been read. */
  method Normalize(src: array<byte>, n: nat, dst: array<byte>) returns (ok: bool, len: nat)
    requires n <= src.Length && n <= dst.Length
    modifies dst
    ensures ok <==> n > 0 && old(src[0]) == SLASH
    ensures !ok ==> len == 0 && dst[..] == old(dst[..])
    ensures ok ==> 1 <= len <= n && dst[..len] == RemoveDotSegments(old(src[..n]), [])
    ensures forall k :: n <= k < dst.Length ==> dst[k] == old(dst[k])
  {
    hide Walk, Back, RemoveDotSegments, SegmentEnd;
    if n == 0 || src[0] != SLASH { return false, 0; }
    ghost var path := src[..n];
    assert path[0..] == path;
    var s: nat, d: nat := 0, 0;
    while s < n
      invariant d <= s <= n
      invariant src[s..n] == path[s..]
      invariant Walk(dst[..d], path[s..]) == Walk([], path)
      invariant forall k :: n <= k < dst.Length ==> dst[k] == old(dst[k])
    {
      var e, next := ParseComponent(src, s, n);
      WalkAt(dst[..d], path, s, e, next);
      d := CopyComponent(src, s, e, next, dst, d, path);
      s := next;
    }
    ghost var written := dst[..d];
    if d == 0 {
      dst[0] := SLASH;
      d := 1;
    }
    assert path[n..] == [] && Walk(written, []) == written by { WalkEnd(written); }
    NormalForm(path);
    NormalIsStandard(path);
    ok, len := true, d;
  }

  lemma WalkEnd(out: seq<byte>)
    ensures Walk(out, []) == out
  {
  }

  lemma SameSlices(src: seq<byte>, path: seq<byte>, s: nat, e: nat, next: nat)
    requires s <= e <= next <= |path| <= |src| && src[s..|path|] == path[s..]
    ensures path[s..e] == src[s..e] && path[s..next] == src[s..next] && path[next..] == src[next..|path|]
  {
    var n := |path|;
    forall k | s <= k < n ensures path[k] == src[k] {
      assert path[k] == path[s..][k - s] && src[k] == src[s..n][k - s];
    }
  }

  /** What happens to one component: skipped, backtracked over, or copied down. */
  method CopyComponent(src: array<byte>, s: nat, e: nat, next: nat, dst: array<byte>, d: nat, ghost path: seq<byte>)
    returns (r: nat)
    requires d <= s <= e <= next <= |path| <= src.Length && |path| <= dst.Length
    requires src[s..|path|] == path[s..]
    modifies dst
    ensures r <= next && src[next..|path|] == path[next..]
    ensures forall k :: |path| <= k < dst.Length ==> dst[k] == old(dst[k])
    ensures dst[..r] == if IsDot(path[s..e]) then old(dst[..d])
                        else if IsDotDot(path[s..e]) then Back(old(dst[..d]))
                        else old(dst[..d]) + path[s..next]
  {
    hide Back;
    r := d;
    SameSlices(src[..], path, s, e, next);
    if e == s + 1 && src[s] == DOT {
      assert src[s..e] == [DOT];
    } else if e == s + 2 && src[s] == DOT && src[s + 1] == DOT {
      assert src[s..e] == [DOT, DOT];
      r := Backtrack(dst, d);
    } else {
      MoveBytes(dst, d, src, s, next - s);
      r := d + (next - s);
    }
  }
}
