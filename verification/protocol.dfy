/** The control protocol: one message is magic, version, length and payload. */
module Protocol {
  import opened Bytes
  import Frames
  import FrameReader
  import Noise
  import Conn
  import WebSocket
  import opened Transports

  const VERSION: byte := 1
  const MAX_FRAME_SIZE: nat := 16 * 1024 * 1024

  /** "RHPR" */
  const MAGIC: seq<byte> := [0x52, 0x48, 0x50, 0x52]

  function Header(length: nat): (h: seq<byte>)
    ensures |h| == 9
  {
    MAGIC + [VERSION] + Be(length, 4)
  }

  datatype MessageError = ShortHeader | BadMagic | BadVersion | TooLong | ShortPayload

  datatype MessageRead = MessageRead(result: Result<seq<byte>, MessageError>, after: Source)

  /** ReadMessage up to the JSON text it goes on to decode. */
  function Message(src: Source): MessageRead {
    var h := Full(src, 9);
    if !h.ok then MessageRead(Err(ShortHeader), h.after)
    else if h.data[..4] != MAGIC then MessageRead(Err(BadMagic), h.after)
    else if h.data[4] != VERSION then MessageRead(Err(BadVersion), h.after)
    else
      var length := FromBe(h.data[5..]);
      if length > MAX_FRAME_SIZE then MessageRead(Err(TooLong), h.after)
      else
        var p := Full(h.after, length);
        MessageRead(if p.ok then Ok(p.data) else Err(ShortPayload), p.after)
  }

  /** A WebSocket connection reported the end of its frames before the message was complete; what
      follows the frame that ended them is then still there. */
  predicate RanDry(t: Transport, result: Result<seq<byte>, MessageError>) {
    t.Framed? && (result == Err(ShortHeader) || result == Err(ShortPayload))
  }

  /** Message with the magic compared byte by byte. */
  lemma MessageSteps(src: Source)
    ensures var h := Full(src, 9);
      Message(src) ==
        if !h.ok then MessageRead(Err(ShortHeader), h.after)
        else if h.data[0] != MAGIC[0] || h.data[1] != MAGIC[1] || h.data[2] != MAGIC[2] || h.data[3] != MAGIC[3] then
          MessageRead(Err(BadMagic), h.after)
        else if h.data[4] != VERSION then MessageRead(Err(BadVersion), h.after)
        else if FromBe(h.data[5..]) > MAX_FRAME_SIZE then MessageRead(Err(TooLong), h.after)
        else
          var p := Full(h.after, FromBe(h.data[5..]));
          MessageRead(if p.ok then Ok(p.data) else Err(ShortPayload), p.after)
  {
    hide Full, FromBe;
    var h := Full(src, 9);
    if h.ok {
      assert h.data[..4] == MAGIC <==> forall i :: 0 <= i < 4 ==> h.data[..4][i] == MAGIC[i];
    }
  }

  method ReadMessage(t: Transport) returns (result: Result<seq<byte>, MessageError>)
    requires t.Valid()
    modifies t.Repr()
    ensures t.Valid()
    ensures result == Message(old(t.View())).result
    ensures !RanDry(t, result) ==> t.View() == Message(old(t.View())).after
    ensures RanDry(t, result) ==> t.ws.State() == FrameReader.Reader(Frames.Remainder(old(t.Raw().incoming)), [])
  {
    hide Full, Message, Frames.Remainder;
    ghost var h := Full(t.View(), 9);
    MessageSteps(t.View());
    var header := new byte[9](_ => 0);
    var _, okHeader := ReadFull(t, header);
    if !okHeader {
      return Err(ShortHeader);
    }
    assert header[..] == h.data;
    if header[0] != MAGIC[0] || header[1] != MAGIC[1] || header[2] != MAGIC[2] || header[3] != MAGIC[3] {
      return Err(BadMagic);
    }
    if header[4] != VERSION {
      return Err(BadVersion);
    }
    var length := FromBe(header[5..]);
    assert header[5..] == h.data[5..];
    if length > MAX_FRAME_SIZE {
      return Err(TooLong);
    }
    var payload := new byte[length](_ => 0);
    var _, okPayload := ReadFull(t, payload);
    if !okPayload {
      return Err(ShortPayload);
    }
    assert payload[..] == Full(h.after, length).data;
    result := Ok(payload[..]);
  }

  /** What one message looked like on the wire: its two writes. */
  datatype Sent = Sent(header: seq<byte>, body: seq<byte>) {
    function Wire(): seq<byte> {
      header + body
    }
  }

  /** The chunks are wire forms of the two writes of WriteMessage for the payload. */
  ghost predicate IsSent(ch: Channel, payload: seq<byte>, m: Sent) {
    IsEmission(ch, Header(|payload|), m.header) && IsEmission(ch, payload, m.body)
  }

  datatype WriteOutcome = Written | Refused | Failed

  method Write(t: Transport, b: seq<byte>) returns (ok: bool, ghost chunk: seq<byte>)
    requires t.Valid()
    modifies t.Raw()`outgoing, t.Raw()`broken
    ensures IsEmission(t.Channel(), b, chunk)
    ensures ok ==> t.Raw().outgoing == old(t.Raw().outgoing) + chunk
    ensures old(t.Raw().outgoing) <= t.Raw().outgoing <= old(t.Raw().outgoing) + chunk
    ensures ok == !t.Raw().broken && (old(t.Raw().broken) ==> !ok)
  {
    hide Frames.Encode, Noise.Encode;
    match t
    case Plain(raw) =>
      chunk := b;
      ok := raw.Write(b);
    case Framed(ws) =>
      ghost var f;
      ok, f := ws.Write(b);
      WebSocket.WireOne(f);
      chunk := Frames.Encode(f);
    case Ciphered(nc) =>
      chunk := Noise.Encode(nc.encKey, b);
      ok := nc.Write(b);
  }

  /** Some wire form of a write; it stands for the second write when the first one failed. */
  ghost function AnyEmission(ch: Channel, b: seq<byte>): (chunk: seq<byte>)
    ensures IsEmission(ch, b, chunk)
  {
    match ch
    case PlainChannel => b
    case FramedChannel(isClient) =>
      var f := Frames.Frame(Frames.Final(Frames.BINARY), if isClient then Some([0, 0, 0, 0]) else None, b);
      assert IsBinaryFrame(f, isClient, b);
      Frames.Encode(f)
    case CipheredChannel(key) => Noise.Encode(key, b)
  }

  /** The nine header bytes, filled in field by field. */
  method BuildHeader(length: nat) returns (h: seq<byte>)
    ensures h == Header(length)
  {
    var header := new byte[9](_ => 0);
    Conn.CopyInto(header, 0, MAGIC);
    header[4] := VERSION;
    Conn.CopyInto(header, 5, Be(length, 4));
    h := header[..];
  }

  method WriteMessage(t: Transport, payload: seq<byte>) returns (r: WriteOutcome, ghost m: Sent)
    requires t.Valid()
    modifies t.Raw()`outgoing, t.Raw()`broken
    ensures r.Refused? <==> |payload| > 0x100_0000
    ensures r.Refused? ==> t.Raw().outgoing == old(t.Raw().outgoing)
    ensures !r.Refused? ==> IsSent(t.Channel(), payload, m)
    ensures r.Written? ==> t.Raw().outgoing == old(t.Raw().outgoing) + m.Wire()
    ensures r.Failed? ==> old(t.Raw().outgoing) <= t.Raw().outgoing <= old(t.Raw().outgoing) + m.Wire()
  {
    hide IsEmission, Header;
    m := Sent([], []);
    if |payload| > MAX_FRAME_SIZE {
      return Refused, m;
    }
    var header := BuildHeader(|payload|);
    ghost var start := t.Raw().outgoing;
    var okHeader, h := Write(t, header);
    if !okHeader {
      m := Sent(h, AnyEmission(t.Channel(), payload));
      assert start + m.Wire() == (start + h) + m.body;
      return Failed, m;
    }
    var okBody, b := Write(t, payload);
    m := Sent(h, b);
    assert start + m.Wire() == (start + h) + b;
    r := if okBody then Written else Failed;
  }

  // ----- the round trip -------------------------------------------------------------------

  /** The largest message a transport carries: writes of a noise connection keep 16 bits of
      their length, the others are bounded by WriteMessage alone. */
  function Limit(ch: Channel): nat {
    if ch.CipheredChannel? then 65535 else MAX_FRAME_SIZE
  }

  lemma HeaderFields(length: nat)
    requires length <= MAX_FRAME_SIZE
    ensures Header(length)[..4] == MAGIC && Header(length)[4] == VERSION && FromBe(Header(length)[5..]) == length
  {
    assert Header(length)[5..] == Be(length, 4);
    assert Pow256(2) == 65536;
    assert Pow256(4) == 256 * (256 * Pow256(2));
    Frames.BeKeeps(length, 4);
  }

  /** The nine bytes of a header: "RHPR", version 1, the length with its most significant byte first. */
  lemma HeaderBytes(length: nat)
    requires length < 0x1_0000_0000
    ensures Header(length) ==
      [0x52, 0x48, 0x50, 0x52, 0x01, length / 0x100_0000, length / 0x1_0000 % 256, length / 0x100 % 256, length % 256]
  {
    hide Be;
    PlacesOfFour();
    BeAt(length, 4, 0);
    BeAt(length, 4, 1);
    BeAt(length, 4, 2);
    BeAt(length, 4, 3);
  }

  lemma PlacesOfFour()
    ensures Pow256(0) == 1 && Pow256(1) == 0x100 && Pow256(2) == 0x1_0000 && Pow256(3) == 0x100_0000
  {}

  /** Reading a message off a plain stream leaves exactly what follows it. */
  lemma MessageOnStream(payload: seq<byte>, tail: seq<byte>)
    requires |payload| <= MAX_FRAME_SIZE
    ensures Message(Stream(Header(|payload|) + (payload + tail))) == MessageRead(Ok(payload), Stream(tail))
  {
    hide Header;
    HeaderFields(|payload|);
    var h, s := Header(|payload|), Header(|payload|) + (payload + tail);
    assert s[..9] == h && s[9..] == payload + tail;
    assert (payload + tail)[..|payload|] == payload && (payload + tail)[|payload|..] == tail;
  }

  /** ReadMessage accepts nothing else: off a plain stream it returns a payload if and only if the
      stream starts with its header and it, and the payload has at most 16 MiB. */
  lemma MessageIff(s: seq<byte>, payload: seq<byte>)
    ensures Message(Stream(s)).result == Ok(payload)
            <==> |payload| <= 0x100_0000 && Header(|payload|) + payload <= s
  {
    hide Header, FromBe;
    if Message(Stream(s)).result == Ok(payload) {
      OnlyHeader(s[..9]);
      assert s[9..][..|payload|] == payload;
      assert s[..9 + |payload|] == s[..9] + s[9..][..|payload|];
    }
    if |payload| <= 0x100_0000 && Header(|payload|) + payload <= s {
      var tail := s[9 + |payload|..];
      assert s == (Header(|payload|) + payload) + tail == Header(|payload|) + (payload + tail);
      MessageOnStream(payload, tail);
    }
  }

  lemma OnlyHeader(h: seq<byte>)
    requires |h| == 9 && h[..4] == MAGIC && h[4] == VERSION
    ensures h == Header(FromBe(h[5..]))
  {
    FromBeStored(h[5..]);
    assert h == h[..4] + [h[4]] + h[5..];
  }

  /** A write that fits a frame shows up at the other end as exactly its bytes. */
  lemma EmissionArrives(ch: Channel, b: seq<byte>, chunk: seq<byte>, rest: seq<byte>)
    requires !ch.CipheredChannel? && IsEmission(ch, b, chunk) && |b| <= Frames.MAX_PAYLOAD
    ensures Arriving(ch, chunk + rest) == Stream(b + Arriving(ch, rest).bytes)
  {
    if ch.FramedChannel? {
      hide Frames.Encode, Frames.ParseFrame;
      var f: Frames.Frame :| IsBinaryFrame(f, ch.isClient, b) && chunk == Frames.Encode(f);
      Frames.ParseData(f, rest);
    }
  }

  lemma NoiseFull(key: Noise.Key, payload: seq<byte>, rest: seq<byte>)
    requires 0 < |payload| <= 65535
    ensures Full(NoiseFrames(Noise.Encode(key, payload) + rest, key), |payload|)
            == FullRead(payload, true, NoiseFrames(rest, key))
  {
    hide Noise.Encode, Noise.Parse;
    Noise.FrameReadableIff(key, payload, rest);
    assert payload[..|payload|] == payload;
    assert payload + [] == payload;
  }

  /** Over noise each of the two reads meets one whole frame, except that an empty payload is
      not read at all and its empty frame stays behind. */
  lemma MessageOnNoise(key: Noise.Key, payload: seq<byte>, rest: seq<byte>)
    requires |payload| <= 65535
    ensures var body := Noise.Encode(key, payload) + rest;
      Message(NoiseFrames(Noise.Encode(key, Header(|payload|)) + body, key))
      == MessageRead(Ok(payload), NoiseFrames(if payload == [] then body else rest, key))
  {
    hide Noise.Encode, Header;
    var body := Noise.Encode(key, payload) + rest;
    HeaderFields(|payload|);
    NoiseFull(key, Header(|payload|), body);
    if payload != [] {
      NoiseFull(key, payload, rest);
    }
  }

  /** A source without the empty noise frames at its front, which no read can tell apart. */
  function Settled(src: Source): Source
    decreases if src.NoiseFrames? then |src.incoming| else 0
  {
    match src
    case Stream(_) => src
    case NoiseFrames(s, key) =>
      var p := Noise.Parse(s, key);
      if p.Frame? && p.payload == [] then Settled(NoiseFrames(p.rest, key)) else src
  }

  lemma {:induction false} FullSettled(src: Source, n: nat)
    requires n > 0
    ensures Full(src, n) == Full(Settled(src), n)
    decreases if src.NoiseFrames? then |src.incoming| else 0
  {
    hide Noise.Parse;
    if src.NoiseFrames? {
      var p := Noise.Parse(src.incoming, src.key);
      if p.Frame? && p.payload == [] {
        FullSettled(NoiseFrames(p.rest, src.key), n);
        assert Full(src, n).data == Full(NoiseFrames(p.rest, src.key), n).data;
      }
    }
  }

  lemma MessageSettled(src: Source)
    ensures Message(src) == Message(Settled(src))
  {
    FullSettled(src, 9);
  }

  /** n ReadMessage calls in a row. */
  datatype Received = Received(results: seq<Result<seq<byte>, MessageError>>, after: Source)

  function Receive(src: Source, n: nat): Received
    decreases n
  {
    if n == 0 then
      Received([], src)
    else
      var m := Message(src);
      var r := Receive(m.after, n - 1);
      r.(results := [m.result] + r.results)
  }

  lemma ReceiveSettled(a: Source, b: Source, n: nat)
    requires Settled(a) == Settled(b)
    ensures Receive(a, n).results == Receive(b, n).results
    ensures Settled(Receive(a, n).after) == Settled(Receive(b, n).after)
  {
    MessageSettled(a);
    MessageSettled(b);
  }

  function WireOf(ms: seq<Sent>): seq<byte> {
    if ms == [] then [] else ms[0].Wire() + WireOf(ms[1..])
  }

  lemma OneMessage(ch: Channel, payload: seq<byte>, m: Sent, rest: seq<byte>)
    requires IsSent(ch, payload, m) && |payload| <= Limit(ch)
    ensures var r := Message(Arriving(ch, m.Wire() + rest));
      r.result == Ok(payload) && Settled(r.after) == Settled(Arriving(ch, rest))
  {
    hide Header, IsEmission, Message, Noise.Encode;
    assert m.Wire() + rest == m.header + (m.body + rest);
    if ch.CipheredChannel? {
      NoiseEmissions(ch, payload, m);
      MessageOnNoise(ch.key, payload, rest);
      EmptyFrameSettles(ch.key, rest);
    } else {
      EmissionArrives(ch, Header(|payload|), m.header, m.body + rest);
      EmissionArrives(ch, payload, m.body, rest);
      MessageOnStream(payload, Arriving(ch, rest).bytes);
    }
  }

  lemma NoiseEmissions(ch: Channel, payload: seq<byte>, m: Sent)
    requires ch.CipheredChannel? && IsSent(ch, payload, m)
    ensures m == Sent(Noise.Encode(ch.key, Header(|payload|)), Noise.Encode(ch.key, payload))
  {}

  lemma EmptyFrameSettles(key: Noise.Key, rest: seq<byte>)
    ensures Settled(NoiseFrames(Noise.Encode(key, []) + rest, key)) == Settled(NoiseFrames(rest, key))
  {
    hide Noise.Encode, Noise.Parse;
    Noise.FrameReadableIff(key, [], rest);
  }

  /** Whole-stack round trip on every transport: any list of messages within the limit, written
      with any mask keys, comes out in order, and the next protocol finds what follows them. */
  lemma {:induction false} MessagesRoundTrip(ch: Channel, payloads: seq<seq<byte>>, ms: seq<Sent>, rest: seq<byte>)
    requires |ms| == |payloads|
    requires forall i :: 0 <= i < |ms| ==> IsSent(ch, payloads[i], ms[i]) && |payloads[i]| <= Limit(ch)
    ensures var r := Receive(Arriving(ch, WireOf(ms) + rest), |ms|);
      && r.results == seq(|payloads|, i requires 0 <= i < |payloads| => Ok(payloads[i]))
      && Settled(r.after) == Settled(Arriving(ch, rest))
    decreases |ms|
  {
    hide Message, IsSent, Arriving, Settled;
    if ms == [] {
      assert WireOf(ms) + rest == rest;
    } else {
      var later := WireOf(ms[1..]) + rest;
      assert WireOf(ms) + rest == ms[0].Wire() + later;
      OneMessage(ch, payloads[0], ms[0], later);
      MessagesRoundTrip(ch, payloads[1..], ms[1..], rest);
      ReceiveSettled(Message(Arriving(ch, ms[0].Wire() + later)).after, Arriving(ch, later), |ms| - 1);
    }
  }

  /** Reading n bytes from noise frames costs at least one two-byte frame header on top. */
  lemma {:induction false} NoiseOverhead(s: seq<byte>, key: Noise.Key, n: nat)
    requires n > 0 && Full(NoiseFrames(s, key), n).ok
    ensures Full(NoiseFrames(s, key), n).after.NoiseFrames?
    ensures n + 2 + |Full(NoiseFrames(s, key), n).after.incoming| <= |s|
    decreases |s|
  {
    hide Noise.Parse;
    var p := Noise.Parse(s, key);
    var k := Min(n, |p.payload|);
    if n > k {
      NoiseOverhead(p.rest, key, n - k);
    }
  }

  /** WriteMessage accepts payloads up to 16 MiB on a noise connection too, but whatever follows
      it, a message is returned with exactly what follows left behind if and only if its payload
      fits one noise frame. */
  lemma NoiseMessageSurvivesIff(key: Noise.Key, payload: seq<byte>, rest: seq<byte>)
    requires |payload| <= MAX_FRAME_SIZE
    ensures var body := Noise.Encode(key, payload) + rest;
      Message(NoiseFrames(Noise.Encode(key, Header(|payload|)) + body, key))
      == MessageRead(Ok(payload), NoiseFrames(if payload == [] then body else rest, key))
      <==> |payload| <= 65535
  {
    hide Message, Noise.Encode, Header;
    if |payload| <= 65535 {
      MessageOnNoise(key, payload, rest);
    } else {
      LongMessageOverruns(key, payload, rest);
    }
  }

  /** Reading a longer message either fails or has taken bytes of what follows, and with nothing
      behind it, it fails for want of payload. */
  lemma LongMessageOverruns(key: Noise.Key, payload: seq<byte>, rest: seq<byte>)
    requires 65535 < |payload| <= MAX_FRAME_SIZE
    ensures var s := Noise.Encode(key, Header(|payload|)) + (Noise.Encode(key, payload) + rest);
      var m := Message(NoiseFrames(s, key));
      && (m.result == Err(ShortPayload) || m.result.Ok?)
      && (m.result.Ok? ==> m.after.NoiseFrames? && |m.after.incoming| + 2 <= |rest|)
      && (rest == [] ==> m.result == Err(ShortPayload))
  {
    hide Full, Noise.Encode, Header;
    var body := Noise.Encode(key, payload) + rest;
    HeaderFields(|payload|);
    NoiseFull(key, Header(|payload|), body);
    LongBodyOverruns(key, payload, rest);
  }

  lemma LongBodyOverruns(key: Noise.Key, payload: seq<byte>, rest: seq<byte>)
    requires |payload| > 65535
    ensures var r := Full(NoiseFrames(Noise.Encode(key, payload) + rest, key), |payload|);
      r.ok ==> r.after.NoiseFrames? && |r.after.incoming| + 2 <= |rest|
  {
    hide Noise.Parse, Noise.Encode, XorWith;
    var k := |payload| % 65536;
    Noise.EncodedFrameParse(key, payload, rest);
    var left := XorWith(payload, key)[k..] + rest;
    FullAfterFrame(Noise.Encode(key, payload) + rest, key, |payload|, payload[..k], left);
    if Full(NoiseFrames(left, key), |payload| - k).ok {
      NoiseOverhead(left, key, |payload| - k);
    }
  }

  lemma FullAfterFrame(s: seq<byte>, key: Noise.Key, n: nat, data: seq<byte>, rest: seq<byte>)
    requires Noise.Parse(s, key) == Noise.Frame(data, rest) && |data| < n
    ensures Full(NoiseFrames(s, key), n).ok == Full(NoiseFrames(rest, key), n - |data|).ok
    ensures Full(NoiseFrames(s, key), n).after == Full(NoiseFrames(rest, key), n - |data|).after
  {
    hide Full, Noise.Parse;
    NoiseStep([], s, key, n);
  }
}
