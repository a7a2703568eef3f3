/** The raw connection under every transport, and io.ReadFull over it. */
module Conn {
  import opened Bytes

  /** One end of a net.Conn. `incoming` is what the peer will still deliver before the stream
      ends; `outgoing` is what this end has put on the wire. A write may fail after any part of
      its bytes, and from then on nothing more reaches the wire. */
  class RawConn {
    var incoming: seq<byte>
    var outgoing: seq<byte>
    var broken: bool

    constructor (incoming: seq<byte>)
      ensures this.incoming == incoming && outgoing == [] && !broken
    {
      this.incoming, outgoing, broken := incoming, [], false;
    }

    /** Fills any non-empty part of buf[from..] with the next bytes of the stream. */
    method Read(buf: array<byte>, from: nat) returns (n: nat, eof: bool)
      requires from <= buf.Length
      modifies this`incoming, buf
      ensures n <= buf.Length - from && n <= |old(incoming)|
      ensures incoming == old(incoming)[n..]
      ensures buf[..] == old(buf[..from]) + old(incoming)[..n] + old(buf[..])[from + n..]
      ensures eof <==> from < buf.Length && old(incoming) == []
      ensures from < buf.Length && !eof ==> n > 0
    {
      n, eof := 0, false;
      if from == buf.Length {
        return;
      }
      if incoming == [] {
        eof := true;
        return;
      }
      var k: nat :| 1 <= k <= buf.Length - from && k <= |incoming|;
      n := k;
      CopyInto(buf, from, incoming[..n]);
      incoming := incoming[n..];
    }

    /** Puts all of data on the wire, or fails with only a part of it there. */
    method Write(data: seq<byte>) returns (ok: bool)
      modifies this`outgoing, this`broken
      ensures old(broken) ==> !ok
      ensures broken == !ok
      ensures ok ==> outgoing == old(outgoing) + data
      ensures !ok ==> old(outgoing) <= outgoing <= old(outgoing) + data
      ensures old(broken) ==> outgoing == old(outgoing)
    {
      if broken {
        return false;
      }
      if * {
        var k: nat :| k <= |data|;
        outgoing, broken := outgoing + data[..k], true;
        return false;
      }
      outgoing := outgoing + data;
      ok := true;
    }
  }

  /** Go's copy(dst[from:], src) when src fits. */
  method CopyInto(dst: array<byte>, from: nat, src: seq<byte>)
    requires from + |src| <= dst.Length
    modifies dst
    ensures dst[..] == old(dst[..from]) + src + old(dst[..])[from + |src|..]
  {
    for i := 0 to |src|
      invariant forall k :: 0 <= k < i ==> dst[from + k] == src[k]
      invariant forall k :: 0 <= k < from || from + i <= k < dst.Length ==> dst[k] == old(dst[k])
    {
      dst[from + i] := src[i];
    }
  }

  /** A buffer, blank at first, now starts with the first n bytes of a stream of which the
      rest is left. */
  predicate Copied(stream: seq<byte>, n: nat, blank: seq<byte>, now: seq<byte>, left: seq<byte>) {
    n <= |stream| && n <= |blank| && now == stream[..n] + blank[n..] && left == stream[n..]
  }

  lemma CopiedMore(stream: seq<byte>, n: nat, blank: seq<byte>, now: seq<byte>, left: seq<byte>, k: nat)
    requires Copied(stream, n, blank, now, left) && k <= |left| && n + k <= |blank|
    ensures Copied(stream, n + k, blank, now[..n] + left[..k] + now[n + k..], left[k..])
  {
    assert stream[..n] + left[..k] == stream[..n + k];
  }

  /** A read that gives `data` and leaves `behind` of what was left. */
  lemma CopiedChunk(stream: seq<byte>, n: nat, blank: seq<byte>, now: seq<byte>, left: seq<byte>,
                    data: seq<byte>, behind: seq<byte>)
    requires Copied(stream, n, blank, now, left) && data + behind == left && n + |data| <= |blank|
    ensures Copied(stream, n + |data|, blank, now[..n] + data + now[n + |data|..], behind)
    ensures left == [] ==> n == |stream|
  {
    CopiedMore(stream, n, blank, now, left, |data|);
    assert left[..|data|] == data && left[|data|..] == behind;
  }

  /** One pass of io.ReadFull's loop, which has copied n bytes of s already. */
  method ReadMore(raw: RawConn, buf: array<byte>, n: nat, ghost s: seq<byte>, ghost blank: seq<byte>)
    returns (k: nat, eof: bool)
    requires n < buf.Length && Copied(s, n, blank, buf[..], raw.incoming)
    modifies raw`incoming, buf
    ensures Copied(s, n + k, blank, buf[..], raw.incoming)
    ensures k <= buf.Length - n
    ensures if eof then k == 0 && n == |s| else k > 0
  {
    ghost var before, left := buf[..], raw.incoming;
    k, eof := raw.Read(buf, n);
    CopiedMore(s, n, blank, before, left, k);
  }

  /** io.ReadFull: repeats Read until buf is full or the stream ends, whatever the chunks. */
  method ReadFull(raw: RawConn, buf: array<byte>) returns (n: nat, ok: bool)
    modifies raw`incoming, buf
    ensures n == Min(buf.Length, |old(raw.incoming)|)
    ensures ok <==> n == buf.Length
    ensures raw.incoming == old(raw.incoming)[n..]
    ensures buf[..] == old(raw.incoming)[..n] + old(buf[..])[n..]
  {
    n := 0;
    ghost var s, blank := raw.incoming, buf[..];
    while n < buf.Length
      invariant n <= buf.Length && Copied(s, n, blank, buf[..], raw.incoming)
    {
      var k, eof := ReadMore(raw, buf, n, s, blank);
      if eof {
        return n, false;
      }
      n := n + k;
    }
    ok := true;
  }
}
