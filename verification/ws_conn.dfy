/** The WebSocket connection: frames over a raw connection, as a byte stream. */
module WebSocket {
  import opened Bytes
  import opened Conn
  import opened Frames
  import FrameReader

  /** Some key from the system's random source. */
  method RandomKey() returns (key: Key)
  {
    var a: nat := *;
    var b: nat := *;
    var c: nat := *;
    var d: nat := *;
    key := [Low(a), Low(b), Low(c), Low(d)];
  }

  /** The bytes between two states of an output hold the given frames, or a part of them when
      the connection broke on the way. */
  ghost predicate Sent(before: seq<byte>, after: seq<byte>, fs: seq<Frame>, broken: bool) {
    && before <= after <= before + Wire(fs)
    && (!broken ==> after == before + Wire(fs))
  }

  /** The frames that answer a list of pings, masked by a client and plain from a server. */
  ghost predicate ArePongs(fs: seq<Frame>, pings: seq<seq<byte>>, isClient: bool) {
    |fs| == |pings| && forall i :: 0 <= i < |fs| ==>
      fs[i].first == Final(PONG) && fs[i].key.Some? == isClient && fs[i].payload == pings[i]
  }

  lemma WireOne(f: Frame)
    ensures Wire([f]) == Encode(f)
  {
    assert Wire([f]) == Encode(f) + Wire([]);
  }

  lemma SentThen(a: seq<byte>, b: seq<byte>, c: seq<byte>, f: Frame, fs: seq<Frame>, brokenB: bool, brokenC: bool)
    requires Sent(a, b, [f], brokenB) && Sent(b, c, fs, brokenC)
    requires brokenB ==> brokenC && c == b
    ensures Sent(a, c, [f] + fs, brokenC)
  {
    WireOne(f);
    var x, y := Encode(f), Wire(fs);
    assert Wire([f] + fs) == x + y by {
      assert ([f] + fs)[1..] == fs;
    }
    assert a + (x + y) == (a + x) + y;
    if brokenB {
      PrefixOfLonger(c, a + x, y);
    } else {
      assert b == a + x;
    }
  }

  lemma PrefixOfLonger(p: seq<byte>, s: seq<byte>, more: seq<byte>)
    requires p <= s
    ensures p <= s + more
  {}

  /** ParseBody step by step, as the bytes are read. */
  lemma BodySteps(masked: bool, len7: nat, s: seq<byte>)
    ensures var e, k := ExtensionSize(len7), if masked then 4 else 0;
      if |s| < e + k then ParseBody(masked, len7, s) == Truncated
      else
        var length, body := if e == 0 then len7 else FromBe(s[..e]), s[e + k..];
        ParseBody(masked, len7, s) ==
          if length > MAX_PAYLOAD then TooLarge(body)
          else if |body| < length then Truncated
          else Payload(if masked then XorWith(body[..length], s[e..e + 4]) else body[..length], body[length..])
  {}

  class WSConn {
    const raw: RawConn
    const isClient: bool
    var readBuf: seq<byte>
    var readPos: nat

    constructor (raw: RawConn, isClient: bool)
      ensures this.raw == raw && this.isClient == isClient && Valid() && readBuf == []
      ensures State() == FrameReader.Reader(raw.incoming, [])
    {
      this.raw, this.isClient := raw, isClient;
      readBuf, readPos := [], 0;
    }

    predicate Valid()
      reads this
    {
      readPos <= |readBuf|
    }

    /** What this connection has yet to deliver. */
    function State(): FrameReader.Reader
      requires Valid()
      reads this, raw
    {
      FrameReader.Reader(raw.incoming, readBuf[readPos..])
    }

    method Read(b: array<byte>, from: nat) returns (n: nat, error: Option<ReadError>, ghost pongs: seq<Frame>)
      requires Valid() && from <= b.Length
      modifies this`readBuf, this`readPos, raw, b
      ensures Valid()
      ensures var s := FrameReader.Read(old(State()), b.Length - from);
        && State() == s.after && error == s.error && n == |s.data|
        && b[..] == old(b[..from]) + s.data + old(b[..])[from + n..]
        && ArePongs(pongs, s.pings, isClient)
      ensures Sent(old(raw.outgoing), raw.outgoing, pongs, raw.broken)
      ensures old(raw.broken) ==> raw.broken && raw.outgoing == old(raw.outgoing)
    {
      hide NextPayload;
      n, error, pongs := 0, None, [];
      if readPos < |readBuf| {
        n := Min(b.Length - from, |readBuf| - readPos);
        CopyInto(b, from, readBuf[readPos..][..n]);
        readPos := readPos + n;
        if readPos >= |readBuf| {
          readBuf, readPos := [], 0;
        }
        return;
      }
      var payload;
      payload, pongs := ReadFrame();
      if payload.Err? {
        return 0, Some(payload.error), pongs;
      }
      n := Min(b.Length - from, |payload.value|);
      CopyInto(b, from, payload.value[..n]);
      if n < |payload.value| {
        readBuf, readPos := payload.value, n;
      }
    }

    /** Puts one binary frame holding b on the wire. */
    method Write(b: seq<byte>) returns (ok: bool, ghost f: Frame)
      modifies raw`outgoing, raw`broken
      ensures f.first == Final(BINARY) && f.key.Some? == isClient && f.payload == b
      ensures Sent(old(raw.outgoing), raw.outgoing, [f], raw.broken) && ok == !raw.broken
      ensures old(raw.broken) ==> !ok && raw.outgoing == old(raw.outgoing)
    {
      ok, f := WriteFrame(BINARY, b);
    }

    /** Reads up to the next frame that is neither ping nor close, answering pings. */
    method ReadFrame() returns (payload: Result<seq<byte>, ReadError>, ghost pongs: seq<Frame>)
      modifies raw
      ensures var r := NextPayload(old(raw.incoming));
        payload == r.result && raw.incoming == r.rest && ArePongs(pongs, r.pings, isClient)
      ensures Sent(old(raw.outgoing), raw.outgoing, pongs, raw.broken)
      ensures old(raw.broken) ==> raw.broken && raw.outgoing == old(raw.outgoing)
      decreases |raw.incoming|, 0
    {
      pongs := [];
      ghost var s := raw.incoming;
      var header := new byte[2](_ => 0);
      var _, ok := ReadFull(raw, header);
      if !ok {
        return Err(Short), pongs;
      }
      assert header[..] == s[..2];
      assert header[0] == s[0] && header[1] == s[1];
      var opcode, len7 := Opcode(header[0]), Len7(header[1]);
      if opcode == CLOSE {
        return Err(Closed), pongs;
      }
      if opcode == PING {
        payload, pongs := AnswerPing(len7);
        return;
      }
      payload := ReadBody(IsMasked(header[1]), len7);
    }

    /** The ping branch of ReadFrame, after its two header bytes. */
    method AnswerPing(len7: nat) returns (payload: Result<seq<byte>, ReadError>, ghost pongs: seq<Frame>)
      requires len7 < 128
      modifies raw
      ensures var s := old(raw.incoming);
        var r := NextPayload(s[Min(len7, |s|)..]);
        payload == r.result && raw.incoming == r.rest
        && ArePongs(pongs, [ReadIgnoringError(s, len7)] + r.pings, isClient)
      ensures Sent(old(raw.outgoing), raw.outgoing, pongs, raw.broken)
      ensures old(raw.broken) ==> raw.broken && raw.outgoing == old(raw.outgoing)
      decreases |raw.incoming|, 1
    {
      var pingData := new byte[len7](_ => 0);
      ghost var s, blank := raw.incoming, pingData[..];
      assert blank == Zeros(len7);
      if len7 > 0 {
        var _, _ := ReadFull(raw, pingData);
      }
      assert pingData[..] == ReadIgnoringError(s, len7);
      label Answering:
      var _, f := WriteFrame(PONG, pingData[..]);
      label Answered:
      ghost var later;
      payload, later := ReadFrame();
      pongs := [f] + later;
      SentThen(old@Answering(raw.outgoing), old@Answered(raw.outgoing), raw.outgoing, f, later,
               old@Answered(raw.broken), raw.broken);
    }

    /** Extended length, mask key and payload of the frame whose first two bytes were read. */
    method ReadBody(masked: bool, len7: nat) returns (payload: Result<seq<byte>, ReadError>)
      requires len7 < 128
      modifies raw`incoming
      ensures match ParseBody(masked, len7, old(raw.incoming))
        case Payload(data, rest) => payload == Ok(data) && raw.incoming == rest
        case TooLarge(rest) => payload == Err(Oversized) && raw.incoming == rest
        case _ => payload == Err(Short) && raw.incoming == []
    {
      hide FromBe, XorWith, ParseBody;
      ghost var s, e := raw.incoming, ExtensionSize(len7);
      BodySteps(masked, len7, s);
      var length := len7;
      if len7 == 126 || len7 == 127 {
        var ext := new byte[if len7 == 126 then 2 else 8](_ => 0);
        var _, ok := ReadFull(raw, ext);
        if !ok {
          return Err(Short);
        }
        assert ext[..] == s[..e];
        length := FromBe(ext[..]);
      }
      assert raw.incoming == s[e..];
      var maskKey := new byte[4](_ => 0);
      if masked {
        var _, ok := ReadFull(raw, maskKey);
        if !ok {
          return Err(Short);
        }
        assert maskKey[..] == s[e..][..4] == s[e..e + 4];
      }
      ghost var k := if masked then 4 else 0;
      assert raw.incoming == s[e + k..];
      if length > MAX_PAYLOAD {
        return Err(Oversized);
      }
      payload := ReadPayload(length, masked, maskKey[..]);
    }

    /** The last part of ReadBody: the payload, unmasked in place. */
    method ReadPayload(length: nat, masked: bool, maskKey: Key) returns (payload: Result<seq<byte>, ReadError>)
      modifies raw`incoming
      ensures var s := old(raw.incoming);
        if |s| < length then
          payload == Err(Short) && raw.incoming == []
        else
          payload == Ok(if masked then XorWith(s[..length], maskKey) else s[..length]) && raw.incoming == s[length..]
    {
      var data := new byte[length](_ => 0);
      if length > 0 {
        var _, ok := ReadFull(raw, data);
        if !ok {
          return Err(Short);
        }
      }
      assert data[..] == old(raw.incoming)[..length];
      if masked {
        Unmask(data, maskKey);
      }
      payload := Ok(data[..]);
    }

    /** Lays the frame out in one buffer through a moving position and writes it at once. */
    method WriteFrame(opcode: byte, payload: seq<byte>) returns (ok: bool, ghost f: Frame)
      modifies raw`outgoing, raw`broken
      ensures f.first == Final(opcode) && f.key.Some? == isClient && f.payload == payload
      ensures Sent(old(raw.outgoing), raw.outgoing, [f], raw.broken) && ok == !raw.broken
      ensures old(raw.broken) ==> !ok && raw.outgoing == old(raw.outgoing)
    {
      var length := |payload|;
      var headerSize := 2;
      if length >= 126 && length < 65536 {
        headerSize := headerSize + 2;
      } else if length >= 65536 {
        headerSize := headerSize + 8;
      }
      if isClient {
        headerSize := headerSize + 4;
      }
      var frame := new byte[headerSize + length](_ => 0);
      var pos := PutHeader(frame, Final(opcode), length);
      ghost var header := frame[..pos];
      f := Frame(Final(opcode), None, payload);
      if isClient {
        var maskKey := RandomKey();
        CopyInto(frame, pos, maskKey);
        pos := pos + 4;
        assert frame[..pos] == header + maskKey;
        MaskInto(frame, pos, payload, maskKey);
        f := Frame(Final(opcode), Some(maskKey), payload);
        assert frame[..] == header + maskKey + XorWith(payload, maskKey);
      } else {
        CopyInto(frame, pos, payload);
        assert frame[..] == header + [] + payload;
      }
      assert frame[..] == Encode(f);
      WireOne(f);
      ok := raw.Write(frame[..]);
    }

    /** The part of WriteFrame that fills in the first byte, the mask flag and the length. */
    method PutHeader(frame: array<byte>, first: byte, length: nat) returns (pos: nat)
      requires 2 + |Extension(length)| <= frame.Length
      modifies frame
      ensures pos == 2 + |Extension(length)|
      ensures frame[..pos] == [first, SecondByte(isClient, length)] + Extension(length)
    {
      pos := 0;
      frame[pos] := first;
      pos := pos + 1;
      var maskBit: byte := if isClient then 128 else 0;
      if length < 126 {
        frame[pos] := maskBit + Low(length);
        pos := pos + 1;
      } else if length < 65536 {
        frame[pos] := maskBit + 126;
        pos := pos + 1;
        assert frame[..2] == [first, SecondByte(isClient, length)];
        CopyInto(frame, pos, Be(length, 2));
        pos := pos + 2;
      } else {
        frame[pos] := maskBit + 127;
        pos := pos + 1;
        assert frame[..2] == [first, SecondByte(isClient, length)];
        CopyInto(frame, pos, Be(length, 8));
        pos := pos + 8;
      }
    }
  }

  /** payload[i] ^= key[i%4] for every i, in place. */
  method Unmask(data: array<byte>, key: seq<byte>)
    requires |key| == 4
    modifies data
    ensures data[..] == XorWith(old(data[..]), key)
    ensures forall i :: 0 <= i < data.Length ==> data[i] == Xor(old(data[i]), key[i % 4])
  {
    for i := 0 to data.Length
      invariant forall k :: 0 <= k < i ==> data[k] == Xor(old(data[k]), key[k % 4])
      invariant forall k :: i <= k < data.Length ==> data[k] == old(data[k])
    {
      data[i] := Xor(data[i], key[i % 4]);
    }
  }

  /** frame[pos+i] = payload[i] ^ key[i%4] for every i. */
  method MaskInto(frame: array<byte>, pos: nat, payload: seq<byte>, key: Key)
    requires pos + |payload| == frame.Length
    modifies frame
    ensures frame[..] == old(frame[..pos]) + XorWith(payload, key)
    ensures forall i :: 0 <= i < |payload| ==> frame[pos + i] == Xor(payload[i], key[i % 4])
  {
    for i := 0 to |payload|
      invariant frame[..pos] == old(frame[..pos])
      invariant forall k :: 0 <= k < i ==> frame[pos + k] == Xor(payload[k], key[k % 4])
    {
      frame[pos + i] := Xor(payload[i], key[i % 4]);
    }
    assert frame[pos..] == XorWith(payload, key);
  }
}
