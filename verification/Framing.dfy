/** Frames arriving in arbitrary pieces.

    A receiver keeps a state and the bytes it could not use yet; each arrival appends to those
    bytes and then runs the protocol's own loop over them.  `Reads` is what a protocol has to show
    about its loop for single frames; the theorems lift it to every stream and every cut. */
module Framing {
  import opened Bytes

  /** A protocol's loop over the unprocessed bytes: state and bytes before to state and bytes left. */
  type Loop<!S> = (S, seq<byte>) -> (S, seq<byte>)

  /** What a protocol shows: the loop takes a whole frame at the front exactly by its effect, it
      touches nothing while the frame at the front is incomplete, and no frame is empty. */
  ghost predicate Reads<S(!new), F(!new)>(loop: Loop<S>, enc: F -> seq<byte>, ok: (S, F) -> bool, react: (S, F) -> S) {
    && (forall s, f, tail :: ok(s, f) ==> loop(s, enc(f) + tail) == loop(react(s, f), tail))
    && (forall s, f, q :: ok(s, f) && q <= enc(f) && |q| < |enc(f)| ==> loop(s, q) == (s, q))
    && (forall s, f {:trigger ok(s, f)} :: ok(s, f) ==> |enc(f)| > 0)
    && (forall s :: loop(s, []) == (s, []))
  }

  /** Every frame is acceptable in the state its predecessors leave. */
  ghost predicate Valid<S, F>(ok: (S, F) -> bool, react: (S, F) -> S, s: S, fs: seq<F>)
    decreases fs
  {
    fs == [] || (ok(s, fs[0]) && Valid(ok, react, react(s, fs[0]), fs[1..]))
  }

  function Wire<F>(enc: F -> seq<byte>, fs: seq<F>): (r: seq<byte>)
    decreases fs
  {
    if fs == [] then [] else enc(fs[0]) + Wire(enc, fs[1..])
  }

  /** The effects of all frames, one after another. */
  function After<S, F>(react: (S, F) -> S, s: S, fs: seq<F>): (r: S)
    decreases fs
  {
    if fs == [] then s else After(react, react(s, fs[0]), fs[1..])
  }

  /** The arrivals, one after another. */
  function Receive<S>(loop: Loop<S>, s: S, left: seq<byte>, arrivals: seq<seq<byte>>): (r: (S, seq<byte>))
    decreases arrivals
  {
    if arrivals == [] then (s, left)
    else
      var (s', left') := loop(s, left + arrivals[0]);
      Receive(loop, s', left', arrivals[1..])
  }

  /** How many frames lie wholly inside the first `n` bytes of the stream. */
  function Whole<F>(enc: F -> seq<byte>, fs: seq<F>, n: nat): (k: nat)
    ensures k <= |fs|
    decreases fs
  {
    if fs == [] || n < |enc(fs[0])| then 0 else 1 + Whole(enc, fs[1..], n - |enc(fs[0])|)
  }

  /** Where a reader stands after the bytes `q` of the stream: the frames wholly inside `q` have
      had their effect, the bytes after them wait. */
  function Settled<S, F>(enc: F -> seq<byte>, react: (S, F) -> S, s: S, fs: seq<F>, q: seq<byte>): (r: (S, seq<byte>))
    decreases fs
  {
    if fs == [] || |q| < |enc(fs[0])| then (s, q)
    else Settled(enc, react, react(s, fs[0]), fs[1..], q[|enc(fs[0])|..])
  }

  lemma PrefixSplit<F>(enc: F -> seq<byte>, fs: seq<F>, q: seq<byte>)
    requires fs != [] && q <= Wire(enc, fs)
    ensures |q| < |enc(fs[0])| ==> q <= enc(fs[0])
    ensures |q| >= |enc(fs[0])| ==>
              q == enc(fs[0]) + q[|enc(fs[0])|..] && q[|enc(fs[0])|..] <= Wire(enc, fs[1..])
  {
    var n := |enc(fs[0])|;
    var all := Wire(enc, fs);
    assert all[..n] == enc(fs[0]) && all[n..] == Wire(enc, fs[1..]);
    assert q == all[..|q|];
    if |q| >= n {
      assert q[..n] == all[..n];
      assert q[n..] == all[n..][..|q| - n];
    }
  }

  /** One run of the loop over any prefix of the stream settles it. */
  lemma {:induction false} LoopSettles<S(!new), F(!new)>(
      loop: Loop<S>, enc: F -> seq<byte>, ok: (S, F) -> bool, react: (S, F) -> S, s: S, fs: seq<F>, q: seq<byte>)
    requires Reads(loop, enc, ok, react) && Valid(ok, react, s, fs) && q <= Wire(enc, fs)
    ensures loop(s, q) == Settled(enc, react, s, fs, q)
    decreases fs
  {
    if fs == [] {
      assert q == [];
    } else {
      PrefixSplit(enc, fs, q);
      if |q| >= |enc(fs[0])| {
        var rest := q[|enc(fs[0])|..];
        assert loop(s, enc(fs[0]) + rest) == loop(react(s, fs[0]), rest);
        LoopSettles(loop, enc, ok, react, react(s, fs[0]), fs[1..], rest);
      }
    }
  }

  /** Running the loop where a reader stands, on the bytes left and more, is running it on all. */
  lemma {:induction false} SettledResumes<S(!new), F(!new)>(
      loop: Loop<S>, enc: F -> seq<byte>, ok: (S, F) -> bool, react: (S, F) -> S, s: S, fs: seq<F>,
      q: seq<byte>, more: seq<byte>)
    requires Reads(loop, enc, ok, react) && Valid(ok, react, s, fs) && q + more <= Wire(enc, fs)
    ensures var (s', left) := Settled(enc, react, s, fs, q);
            loop(s', left + more) == Settled(enc, react, s, fs, q + more)
    decreases fs
  {
    if fs == [] || |q| < |enc(fs[0])| {
      LoopSettles(loop, enc, ok, react, s, fs, q + more);
    } else {
      var n := |enc(fs[0])|;
      PrefixSplit(enc, fs, q + more);
      assert (q + more)[n..] == q[n..] + more;
      SettledResumes(loop, enc, ok, react, react(s, fs[0]), fs[1..], q[n..], more);
    }
  }

  lemma {:induction false} ReceiveSettles<S(!new), F(!new)>(
      loop: Loop<S>, enc: F -> seq<byte>, ok: (S, F) -> bool, react: (S, F) -> S, s: S, fs: seq<F>,
      q: seq<byte>, arrivals: seq<seq<byte>>)
    requires Reads(loop, enc, ok, react) && Valid(ok, react, s, fs) && q + Flatten(arrivals) <= Wire(enc, fs)
    ensures var (s', left) := Settled(enc, react, s, fs, q);
            Receive(loop, s', left, arrivals) == Settled(enc, react, s, fs, q + Flatten(arrivals))
    decreases arrivals
  {
    if arrivals == [] {
      assert q + Flatten(arrivals) == q;
    } else {
      var a := arrivals[0];
      assert q + Flatten(arrivals) == q + a + Flatten(arrivals[1..]);
      assert q + a <= q + Flatten(arrivals);
      SettledResumes(loop, enc, ok, react, s, fs, q, a);
      ReceiveSettles(loop, enc, ok, react, s, fs, q + a, arrivals[1..]);
    }
  }

  lemma {:induction false} SettledIs<S, F>(enc: F -> seq<byte>, react: (S, F) -> S, s: S, fs: seq<F>, q: seq<byte>)
    requires q <= Wire(enc, fs)
    ensures var k := Whole(enc, fs, |q|);
            && |Wire(enc, fs[..k])| <= |q|
            && Settled(enc, react, s, fs, q) == (After(react, s, fs[..k]), q[|Wire(enc, fs[..k])|..])
    decreases fs
  {
    if fs != [] && |q| >= |enc(fs[0])| {
      var n := |enc(fs[0])|;
      var k := Whole(enc, fs, |q|);
      PrefixSplit(enc, fs, q);
      SettledIs(enc, react, react(s, fs[0]), fs[1..], q[n..]);
      assert fs[..k][1..] == fs[1..][..k - 1] && fs[..k][0] == fs[0];
      assert q[n..][|Wire(enc, fs[1..][..k - 1])|..] == q[|Wire(enc, fs[..k])|..];
    }
  }

  lemma {:induction false} WholeOfAll<F>(enc: F -> seq<byte>, fs: seq<F>)
    ensures Whole(enc, fs, |Wire(enc, fs)|) == |fs|
    decreases fs
  {
    if fs != [] { WholeOfAll(enc, fs[1..]); }
  }

  lemma {:induction false} WirePrefix<F>(enc: F -> seq<byte>, fs: seq<F>, k: nat)
    requires k <= |fs|
    ensures Wire(enc, fs[..k]) <= Wire(enc, fs)
    decreases fs
  {
    if k > 0 {
      WirePrefix(enc, fs[1..], k - 1);
      assert fs[..k][1..] == fs[1..][..k - 1];
    }
  }

  /** At every moment of every run: after any arrivals that make up a prefix of a valid stream, the
      frames wholly received have had their effect, once each and in order, and exactly the bytes
      after them are kept. */
  lemma AnyPrefix<S(!new), F(!new)>(
      loop: Loop<S>, enc: F -> seq<byte>, ok: (S, F) -> bool, react: (S, F) -> S, s: S, fs: seq<F>,
      arrivals: seq<seq<byte>>)
    requires Reads(loop, enc, ok, react) && Valid(ok, react, s, fs) && Flatten(arrivals) <= Wire(enc, fs)
    ensures var q := Flatten(arrivals);
            var k := Whole(enc, fs, |q|);
            && |Wire(enc, fs[..k])| <= |q|
            && Receive(loop, s, [], arrivals) == (After(react, s, fs[..k]), q[|Wire(enc, fs[..k])|..])
  {
    var q := Flatten(arrivals);
    assert [] + q == q;
    assert fs != [] ==> ok(s, fs[0]);
    ReceiveSettles(loop, enc, ok, react, s, fs, [], arrivals);
    SettledIs(enc, react, s, fs, q);
  }

  /** In particular the cut does not matter once the whole stream is there. */
  lemma AnyCut<S(!new), F(!new)>(
      loop: Loop<S>, enc: F -> seq<byte>, ok: (S, F) -> bool, react: (S, F) -> S, s: S, fs: seq<F>,
      arrivals: seq<seq<byte>>)
    requires Reads(loop, enc, ok, react) && Valid(ok, react, s, fs) && Flatten(arrivals) == Wire(enc, fs)
    ensures Receive(loop, s, [], arrivals) == (After(react, s, fs), [])
  {
    AnyPrefix(loop, enc, ok, react, s, fs, arrivals);
    WholeOfAll(enc, fs);
    assert fs[..|fs|] == fs;
    assert Flatten(arrivals)[|Flatten(arrivals)|..] == [];
  }
}
