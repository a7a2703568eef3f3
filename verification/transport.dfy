/** The connection an application holds after the transport upgrade, whichever it is. */
module Transports {
  import opened Bytes
  import Conn
  import Frames
  import FrameReader
  import opened WebSocket
  import opened Noise

  /** Go's net.Conn interface value: one of the three implementations. */
  datatype Transport = Plain(raw: Conn.RawConn) | Framed(ws: WSConn) | Ciphered(nc: NoiseConn) {
    function Raw(): Conn.RawConn {
      match this
      case Plain(raw) => raw
      case Framed(ws) => ws.raw
      case Ciphered(nc) => nc.raw
    }

    function Repr(): set<object> {
      if Framed? then {Raw(), ws} else {Raw()}
    }

    predicate Valid()
      reads Repr()
    {
      Framed? ==> ws.Valid()
    }

    /** What reading from this connection can still give. */
    function View(): Source
      requires Valid()
      reads Repr()
    {
      match this
      case Plain(raw) => Stream(raw.incoming)
      case Framed(ws) => Stream(ws.State().Stream())
      case Ciphered(nc) => NoiseFrames(nc.raw.incoming, nc.decKey)
    }

    function Channel(): Channel {
      match this
      case Plain(_) => PlainChannel
      case Framed(ws) => FramedChannel(ws.isClient)
      case Ciphered(nc) => CipheredChannel(nc.encKey)
    }
  }

  /** A source of bytes: a plain stream, which the WebSocket connection refines, or noise
      frames, where a read that asks for less than a frame loses the difference. */
  datatype Source = Stream(bytes: seq<byte>) | NoiseFrames(incoming: seq<byte>, key: Noise.Key)

  /** How a Write shows on the wire. */
  datatype Channel = PlainChannel | FramedChannel(isClient: bool) | CipheredChannel(key: Noise.Key)

  /** chunk is a possible wire form of Write(b). */
  ghost predicate IsEmission(ch: Channel, b: seq<byte>, chunk: seq<byte>) {
    match ch
    case PlainChannel => chunk == b
    case FramedChannel(isClient) =>
      exists f: Frames.Frame :: IsBinaryFrame(f, isClient, b) && chunk == Frames.Encode(f)
    case CipheredChannel(key) => chunk == Noise.Encode(key, b)
  }

  predicate IsBinaryFrame(f: Frames.Frame, isClient: bool, b: seq<byte>) {
    f.first == Frames.Final(Frames.BINARY) && f.key.Some? == isClient && f.payload == b
  }

  /** What the peer of a channel can read when the given bytes arrive. */
  function Arriving(ch: Channel, wire: seq<byte>): Source {
    match ch
    case PlainChannel => Stream(wire)
    case FramedChannel(_) => Stream(Frames.Decoded(wire))
    case CipheredChannel(key) => NoiseFrames(wire, key)
  }

  // ----- io.ReadFull ----------------------------------------------------------------------

  datatype FullRead = FullRead(data: seq<byte>, ok: bool, after: Source)

  /** io.ReadFull with a buffer of n bytes. */
  function Full(src: Source, n: nat): (r: FullRead)
    ensures r.ok <==> |r.data| == n
    ensures |r.data| <= n
    decreases if src.NoiseFrames? then |src.incoming| else 0
  {
    match src
    case Stream(s) =>
      if n <= |s| then FullRead(s[..n], true, Stream(s[n..])) else FullRead(s, false, Stream([]))
    case NoiseFrames(s, key) =>
      if n == 0 then
        FullRead([], true, src)
      else
        match Noise.Parse(s, key)
        case Truncated => FullRead([], false, NoiseFrames([], key))
        case Frame(payload, rest) =>
          var k := Min(n, |payload|);
          var r := Full(NoiseFrames(rest, key), n - k);
          r.(data := payload[..k] + r.data)
  }

  /** A reader that has not met the end of its frames is on the way to the same remainder; one that
      has is left with it and an empty buffer. */
  predicate EndsAsPromised(ws: WSConn, ok: bool, before: seq<byte>)
    reads ws, ws.raw
  {
    && ws.Valid()
    && if ok then Frames.Remainder(ws.raw.incoming) == Frames.Remainder(before)
       else ws.State() == FrameReader.Reader(Frames.Remainder(before), [])
  }

  method ReadFull(t: Transport, buf: array<byte>) returns (n: nat, ok: bool)
    requires t.Valid() && buf !in t.Repr()
    modifies t.Repr(), buf
    ensures t.Valid()
    ensures var r := Full(old(t.View()), buf.Length);
      && ok == r.ok && n == |r.data|
      && buf[..] == r.data + old(buf[..])[n..]
      && (ok || !t.Framed? ==> t.View() == r.after)
    ensures t.Framed? ==> EndsAsPromised(t.ws, ok, old(t.Raw().incoming))
  {
    match t
    case Plain(raw) =>
      n, ok := Conn.ReadFull(raw, buf);
    case Framed(ws) =>
      n, ok := ReadFullFramed(ws, buf);
    case Ciphered(nc) =>
      n, ok := ReadFullNoise(nc, buf);
  }

  /** What one Read of a WebSocket connection with room does to a buffer that holds n bytes of
      the stream s already. */
  lemma ReadCopies(s: seq<byte>, n: nat, blank: seq<byte>, now: seq<byte>, had: FrameReader.Reader, room: nat)
    requires room > 0 && Conn.Copied(s, n, blank, now, had.Stream()) && n + room <= |blank|
    ensures var step := FrameReader.Read(had, room);
      var k := |step.data|;
      && k <= room
      && (step.error.Some? ==>
            k == 0 && n == |s| && step.after == FrameReader.Reader(Frames.Remainder(had.incoming), []))
      && (step.error.None? ==>
            && Conn.Copied(s, n + k, blank, now[..n] + step.data + now[n + k..], step.after.Stream())
            && step.after.Measure() < had.Measure()
            && Frames.Remainder(step.after.incoming) == Frames.Remainder(had.incoming))
  {
    hide Frames.Decoded, Frames.Remainder, FrameReader.Read, Conn.Copied;
    FrameReader.ReadConserves(had, room);
    FrameReader.ReadRemainder(had, room);
    var step, left := FrameReader.Read(had, room), had.Stream();
    if step.error.None? {
      FrameReader.ReadProgress(had, room);
      Conn.CopiedChunk(s, n, blank, now, left, step.data, step.after.Stream());
    } else {
      Conn.CopiedChunk(s, n, blank, now, left, [], []);
    }
  }

  /** Read on a WebSocket connection, seen as a byte stream: it gives some next bytes, makes
      progress when there is room, and fails only at the end of the stream. */
  method ReadStream(ws: WSConn, buf: array<byte>, from: nat, ghost s: seq<byte>, ghost blank: seq<byte>)
    returns (k: nat, failed: bool)
    requires ws.Valid() && from < buf.Length == |blank|
    requires Conn.Copied(s, from, blank, buf[..], ws.State().Stream())
    modifies ws`readBuf, ws`readPos, ws.raw, buf
    ensures ws.Valid() && k <= buf.Length - from
    ensures failed ==> k == 0 && from == |s| && buf[..] == old(buf[..])
    ensures !failed ==> Conn.Copied(s, from + k, blank, buf[..], ws.State().Stream())
    ensures !failed ==> ws.State().Measure() < old(ws.State().Measure())
    ensures EndsAsPromised(ws, !failed, old(ws.raw.incoming))
  {
    hide Frames.Decoded, Frames.Remainder, Conn.Copied, FrameReader.Read;
    ReadCopies(s, from, blank, buf[..], ws.State(), buf.Length - from);
    var n, error, _ := ws.Read(buf, from);
    k, failed := n, error.Some?;
  }

  method ReadFullFramed(ws: WSConn, buf: array<byte>) returns (n: nat, ok: bool)
    requires ws.Valid()
    modifies ws`readBuf, ws`readPos, ws.raw, buf
    ensures ws.Valid()
    ensures var s := old(ws.State().Stream());
      && n == Min(buf.Length, |s|) && (ok <==> n == buf.Length)
      && buf[..] == s[..n] + old(buf[..])[n..]
      && (ok ==> ws.State().Stream() == s[n..])
    ensures EndsAsPromised(ws, ok, old(ws.raw.incoming))
  {
    hide Frames.Decoded, Frames.Remainder;
    n := 0;
    ghost var s, blank := ws.State().Stream(), buf[..];
    while n < buf.Length
      invariant ws.Valid() && n <= buf.Length
      invariant Conn.Copied(s, n, blank, buf[..], ws.State().Stream())
      invariant Frames.Remainder(ws.raw.incoming) == Frames.Remainder(old(ws.raw.incoming))
      decreases ws.State().Measure()
    {
      var k, failed := ReadStream(ws, buf, n, s, blank);
      if failed {
        return n, false;
      }
      n := n + k;
    }
    ok := true;
  }

  /** One frame's contribution to a full read of noise frames. */
  lemma NoiseStep(got: seq<byte>, s: seq<byte>, key: Noise.Key, room: nat)
    requires room > 0 && Noise.Parse(s, key).Frame?
    ensures var p := Noise.Parse(s, key);
      var k := Min(room, |p.payload|);
      var r, rest := Full(NoiseFrames(s, key), room), Full(NoiseFrames(p.rest, key), room - k);
      Extends(r, got, rest, got + p.payload[..k])
  {}

  /** Two partial reads that complete to the same full read. */
  predicate Extends(a: FullRead, gotA: seq<byte>, b: FullRead, gotB: seq<byte>) {
    a.ok == b.ok && a.after == b.after && gotA + a.data == gotB + b.data
  }

  lemma FillMore(got: seq<byte>, more: seq<byte>, blank: seq<byte>, filled: seq<byte>)
    requires |got| + |more| <= |blank| && filled == got + blank[|got|..]
    ensures filled[..|got|] + more + filled[|got| + |more|..] == (got + more) + blank[|got + more|..]
  {}

  /** A full read that gives `all` has got `got` so far, into a buffer blank at first. */
  predicate GotSoFar(all: FullRead, src: Source, got: seq<byte>, blank: seq<byte>, now: seq<byte>) {
    && |got| <= |blank| && now == got + blank[|got|..]
    && Extends(all, [], Full(src, |blank| - |got|), got)
  }

  /** A full read that fails has used up its source. */
  lemma {:induction false} FailureUsesUp(s: seq<byte>, key: Noise.Key, n: nat)
    requires !Full(NoiseFrames(s, key), n).ok
    ensures Full(NoiseFrames(s, key), n).after == NoiseFrames([], key)
    decreases |s|
  {
    hide Noise.Parse;
    var p := Noise.Parse(s, key);
    if p.Frame? {
      FailureUsesUp(p.rest, key, n - Min(n, |p.payload|));
    }
  }

  lemma GotAll(all: FullRead, src: Source, got: seq<byte>, blank: seq<byte>, now: seq<byte>)
    requires GotSoFar(all, src, got, blank, now) && |got| == |blank|
    ensures all == FullRead(got, true, src)
  {
    assert got + [] == got;
  }

  /** Read on a noise connection as one step of a full read. */
  method ReadNoise(nc: NoiseConn, buf: array<byte>, from: nat,
                   ghost all: FullRead, ghost got: seq<byte>, ghost blank: seq<byte>)
    returns (k: nat, ok: bool, ghost more: seq<byte>)
    requires from == |got| < buf.Length == |blank|
    requires GotSoFar(all, NoiseFrames(nc.raw.incoming, nc.decKey), got, blank, buf[..])
    modifies nc.raw`incoming, buf
    ensures k == |more| <= buf.Length - from
    ensures ok ==> |nc.raw.incoming| < |old(nc.raw.incoming)|
    ensures ok ==> GotSoFar(all, NoiseFrames(nc.raw.incoming, nc.decKey), got + more, blank, buf[..])
    ensures !ok ==> all.data == got && !all.ok && buf[..] == got + blank[from..] && nc.raw.incoming == []
  {
    hide Noise.Parse;
    ghost var s, before := nc.raw.incoming, buf[..];
    k, ok := nc.Read(buf, from);
    more := [];
    if ok {
      NoiseStep(got, s, nc.decKey, buf.Length - from);
      more := Noise.Parse(s, nc.decKey).payload[..k];
    } else {
      assert Full(NoiseFrames(s, nc.decKey), buf.Length - from).data == [] && got + [] == got;
    }
    FillMore(got, more, blank, before);
  }

  method ReadFullNoise(nc: NoiseConn, buf: array<byte>) returns (n: nat, ok: bool)
    modifies nc.raw`incoming, buf
    ensures var r := Full(NoiseFrames(old(nc.raw.incoming), nc.decKey), buf.Length);
      && ok == r.ok && n == |r.data|
      && buf[..] == r.data + old(buf[..])[n..]
      && NoiseFrames(nc.raw.incoming, nc.decKey) == r.after
  {
    hide Full, Noise.Parse, Extends;
    n := 0;
    ghost var blank := buf[..];
    ghost var all := Full(NoiseFrames(nc.raw.incoming, nc.decKey), buf.Length);
    ghost var got: seq<byte> := [];
    NothingYet(all, blank);
    if !all.ok {
      FailureUsesUp(nc.raw.incoming, nc.decKey, buf.Length);
    }
    while n < buf.Length
      invariant n == |got| <= buf.Length
      invariant GotSoFar(all, NoiseFrames(nc.raw.incoming, nc.decKey), got, blank, buf[..])
      decreases |nc.raw.incoming|
    {
      var k, okRead, more := ReadNoise(nc, buf, n, all, got, blank);
      if !okRead {
        return n, false;
      }
      got := got + more;
      n := n + k;
    }
    GotAll(all, NoiseFrames(nc.raw.incoming, nc.decKey), got, blank, buf[..]);
    ok := true;
  }

  lemma NothingYet(all: FullRead, blank: seq<byte>)
    ensures Extends(all, [], all, []) && [] + blank[0..] == blank
  {}
}
