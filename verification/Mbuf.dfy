/** The growable byte buffer of mongoose: `len` bytes in use at the front of an array. */
module Mbuf {
  import opened Bytes

  /** memmove inside one array: all bytes are read before any is written. */
  method MemMove(a: array<byte>, dst: nat, src: nat, n: nat)
    requires dst + n <= a.Length && src + n <= a.Length
    modifies a
    ensures a[..] == old(a[..dst] + a[src..src + n] + a[dst + n..])
  {
    forall i | 0 <= i < n {
      a[dst + i] := a[src + i];
    }
  }

  /** memcpy of given bytes into an array. */
  method MemCopy(a: array<byte>, dst: nat, data: seq<byte>)
    requires dst + |data| <= a.Length
    modifies a
    ensures a[..] == old(a[..dst]) + data + old(a[dst + |data|..])
  {
    forall i | 0 <= i < |data| {
      a[dst + i] := data[i];
    }
  }

  class Buffer {
    var buf: array<byte>
    var len: nat

    ghost predicate Valid()
      reads this
    {
      len <= buf.Length
    }

    ghost function Contents(): (s: seq<byte>)
      requires Valid()
      reads this, buf
    {
      buf[..len]
    }

    constructor (size: nat)
      ensures Valid() && fresh(buf) && Contents() == []
    {
      buf := new byte[size](_ => 0);
      len := 0;
    }

    /** Makes room for `n` more bytes, growing by half again when they do not fit. */
    method Reserve(n: nat)
      requires Valid()
      modifies this
      ensures Valid() && len == old(len) && len + n <= buf.Length && (buf == old(buf) || fresh(buf))
      ensures Contents() == old(Contents())
      ensures buf.Length == if len + n > old(buf.Length) then (len + n) * 3 / 2 else old(buf.Length)
    {
      if len + n > buf.Length {
        var bigger := new byte[(len + n) * 3 / 2](_ => 0);
        forall i | 0 <= i < len {
          bigger[i] := buf[i];
        }
        buf := bigger;
      }
    }

    /** mbuf_insert: reserves, then shifts the bytes from `off` on and copies the new ones in. */
    method Insert(off: nat, data: seq<byte>)
      requires Valid() && off <= len
      modifies this, buf
      ensures Valid() && (buf == old(buf) || fresh(buf))
      ensures Contents() == old(Contents()[..off]) + data + old(Contents()[off..])
      ensures buf.Length == if len > old(buf.Length) then len * 3 / 2 else old(buf.Length)
    {
      ghost var before := Contents();
      Reserve(|data|);
      MemMove(buf, off + |data|, off, len - off);
      ghost var shifted := buf[..];
      assert shifted[..off] == before[..off];
      assert shifted[off + |data|..len + |data|] == before[off..];
      MemCopy(buf, off, data);
      len := len + |data|;
      assert Contents() == shifted[..off] + data + shifted[off + |data|..len];
    }

    method Append(data: seq<byte>)
      requires Valid()
      modifies this, buf
      ensures Valid() && (buf == old(buf) || fresh(buf))
      ensures Contents() == old(Contents()) + data
    {
      Insert(len, data);
    }

    /** mbuf_remove: drops the first `n` bytes, or does nothing if there are fewer. */
    method Remove(n: nat)
      requires Valid()
      modifies this, buf
      ensures Valid() && buf == old(buf)
      ensures Contents() == if n <= old(len) then old(Contents()[n..]) else old(Contents())
    {
      if 0 < n <= len {
        Cut(0, n);
      }
    }

    /** Drops the `n` bytes at `pos` by moving the bytes behind them down. */
    method Cut(pos: nat, n: nat)
      requires Valid() && pos + n <= len
      modifies this`len, buf
      ensures Valid() && buf == old(buf)
      ensures Contents() == old(Contents()[..pos] + Contents()[pos + n..])
    {
      MemMove(buf, pos, pos + n, len - pos - n);
      len := len - n;
    }
  }
}
