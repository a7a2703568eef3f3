/** RFC 6455 frames as byte strings: what writeFrame lays out, what readFrame understands,
    and the byte stream a whole sequence of frames stands for. */
module Frames {
  import opened Bytes

  const MAX_PAYLOAD: nat := 16 * 1024 * 1024

  const BINARY: byte := 0x02
  const CLOSE: byte := 0x08
  const PING: byte := 0x09
  const PONG: byte := 0x0A

  type Key = k: seq<byte> | |k| == 4 witness [0, 0, 0, 0]

  /** A frame a peer may send: its first byte (FIN, reserved bits, opcode), mask key and
      unmasked payload. */
  datatype Frame = Frame(first: byte, key: Option<Key>, payload: seq<byte>)

  /** header[0] & 0x0F */
  function Opcode(first: byte): byte {
    first % 16
  }

  /** header[1] & 0x80 != 0 */
  function IsMasked(second: byte): bool {
    second >= 128
  }

  /** header[1] & 0x7F */
  function Len7(second: byte): (n: nat)
    ensures n < 128
  {
    second % 128
  }

  /** 0x80 | opcode, for an opcode without other high bits. */
  function Final(opcode: byte): byte {
    if opcode < 128 then 128 + opcode else opcode
  }

  // ----- layout ---------------------------------------------------------------------------

  /** The seven-bit length field: the length itself or one of two escape values. */
  function LengthCode(length: nat): (n: nat)
    ensures n < 128
  {
    if length < 126 then length else if length < 65536 then 126 else 127
  }

  /** The second byte: mask flag and length field. */
  function SecondByte(masked: bool, length: nat): byte {
    (if masked then 128 else 0) + LengthCode(length)
  }

  /** The extended length field that follows an escape value. */
  function Extension(length: nat): seq<byte> {
    if length < 126 then [] else if length < 65536 then Be(length, 2) else Be(length, 8)
  }

  function KeyBytes(key: Option<Key>): seq<byte> {
    match key
    case None => []
    case Some(k) => k
  }

  function Body(key: Option<Key>, payload: seq<byte>): (b: seq<byte>)
    ensures |b| == |payload|
  {
    match key
    case None => payload
    case Some(k) => XorWith(payload, k)
  }

  /** The bytes of a frame. */
  function Encode(f: Frame): (s: seq<byte>)
    ensures |s| >= 2
  {
    [f.first, SecondByte(f.key.Some?, |f.payload|)]
    + Extension(|f.payload|) + KeyBytes(f.key) + Body(f.key, f.payload)
  }

  function Wire(fs: seq<Frame>): seq<byte> {
    if fs == [] then [] else Encode(fs[0]) + Wire(fs[1..])
  }

  // ----- understanding --------------------------------------------------------------------

  /** What one pass of readFrame makes of the front of the stream. */
  datatype Parsed =
    | Payload(data: seq<byte>, rest: seq<byte>)
    | PingFrame(echo: seq<byte>, rest: seq<byte>)
    | CloseFrame(rest: seq<byte>)
    | TooLarge(rest: seq<byte>)
    | Truncated

  function ExtensionSize(len7: nat): nat {
    if len7 == 126 then 2 else if len7 == 127 then 8 else 0
  }

  /** A zeroed buffer of n bytes after a ReadFull whose error is ignored. */
  function ReadIgnoringError(s: seq<byte>, n: nat): (d: seq<byte>)
    ensures |d| == n && d[..Min(n, |s|)] == s[..Min(n, |s|)]
    ensures forall i :: |s| <= i < n ==> d[i] == 0
  {
    if n <= |s| then s[..n] else s + Zeros(n - |s|)
  }

  function ParseFrame(s: seq<byte>): (p: Parsed)
    ensures !p.Truncated? ==> |p.rest| + 2 <= |s| && p.rest == s[|s| - |p.rest|..]
    ensures p.Payload? ==> |p.data| + |p.rest| + 2 <= |s| && |p.data| <= MAX_PAYLOAD
  {
    if |s| < 2 then
      Truncated
    else if Opcode(s[0]) == CLOSE then
      CloseFrame(s[2..])
    else if Opcode(s[0]) == PING then
      var n := Len7(s[1]);
      PingFrame(ReadIgnoringError(s[2..], n), s[2..][Min(n, |s| - 2)..])
    else
      ParseBody(IsMasked(s[1]), Len7(s[1]), s[2..])
  }

  /** The rest of a frame that is neither a close nor a ping: extended length, key, payload. */
  function ParseBody(masked: bool, len7: nat, s: seq<byte>): (p: Parsed)
    ensures !p.Truncated? ==> |p.rest| <= |s| && p.rest == s[|s| - |p.rest|..]
    ensures p.Payload? || p.TooLarge? || p.Truncated?
    ensures p.Payload? ==> |p.data| + |p.rest| <= |s| && |p.data| <= MAX_PAYLOAD
  {
    var e := ExtensionSize(len7);
    var k := if masked then 4 else 0;
    if |s| < e + k then
      Truncated
    else
      var length := if e == 0 then len7 else FromBe(s[..e]);
      if length > MAX_PAYLOAD then
        TooLarge(s[e + k..])
      else if |s| < e + k + length then
        Truncated
      else
        var body := s[e + k..][..length];
        Payload(if masked then XorWith(body, s[e..e + 4]) else body, s[e + k + length..])
  }

  datatype ReadError = Closed | Oversized | Short

  /** The outcome of a whole readFrame call: the pings answered on the way, what it returned,
      and the bytes it left on the connection. */
  datatype FrameRead = FrameRead(pings: seq<seq<byte>>, result: Result<seq<byte>, ReadError>, rest: seq<byte>)

  function NextPayload(s: seq<byte>): (r: FrameRead)
    ensures r.result.Ok? ==> |r.rest| + |r.result.value| + 2 <= |s|
  {
    match ParseFrame(s)
    case Payload(data, rest) => FrameRead([], Ok(data), rest)
    case PingFrame(echo, rest) =>
      var r := NextPayload(rest);
      r.(pings := [echo] + r.pings)
    case CloseFrame(rest) => FrameRead([], Err(Closed), rest)
    case TooLarge(rest) => FrameRead([], Err(Oversized), rest)
    case Truncated => FrameRead([], Err(Short), [])
  }

  /** The data a stream of frames carries up to its first close frame or error. */
  function Decoded(s: seq<byte>): seq<byte> {
    match ParseFrame(s)
    case Payload(data, rest) => data + Decoded(rest)
    case PingFrame(_, rest) => Decoded(rest)
    case _ => []
  }

  /** What is left on the connection once a reader has been told that the frames have ended. */
  function Remainder(s: seq<byte>): seq<byte> {
    match ParseFrame(s)
    case Payload(_, rest) => Remainder(rest)
    case PingFrame(_, rest) => Remainder(rest)
    case CloseFrame(rest) => rest
    case TooLarge(rest) => rest
    case Truncated => []
  }

  /** The payloads one by one, and the ping payloads to echo, up to the same point. */
  function Payloads(s: seq<byte>): seq<seq<byte>> {
    match ParseFrame(s)
    case Payload(data, rest) => [data] + Payloads(rest)
    case PingFrame(_, rest) => Payloads(rest)
    case _ => []
  }

  function Echoes(s: seq<byte>): seq<seq<byte>> {
    match ParseFrame(s)
    case Payload(_, rest) => Echoes(rest)
    case PingFrame(echo, rest) => [echo] + Echoes(rest)
    case _ => []
  }

  /** One readFrame call takes exactly the next payload off the decoded stream. */
  lemma {:induction false} NextPayloadTakes(s: seq<byte>)
    ensures var r := NextPayload(s);
      if r.result.Ok? then
        Decoded(s) == r.result.value + Decoded(r.rest) && Echoes(s) == r.pings + Echoes(r.rest)
      else
        Decoded(s) == [] && Echoes(s) == r.pings
    decreases |s|
  {
    hide ParseFrame;
    var p := ParseFrame(s);
    if p.PingFrame? {
      NextPayloadTakes(p.rest);
      var r := NextPayload(p.rest);
      assert NextPayload(s) == r.(pings := [p.echo] + r.pings);
      assert Decoded(s) == Decoded(p.rest) && Echoes(s) == [p.echo] + Echoes(p.rest);
      Associative([p.echo], r.pings, Echoes(r.rest));
    }
  }

  /** Readers that go on get to the same remainder, and the error leaves just that. */
  lemma {:induction false} NextPayloadRemainder(s: seq<byte>)
    ensures var r := NextPayload(s);
      if r.result.Ok? then Remainder(r.rest) == Remainder(s) else r.rest == Remainder(s)
    decreases |s|
  {
    hide ParseFrame;
    if ParseFrame(s).PingFrame? {
      NextPayloadRemainder(ParseFrame(s).rest);
    }
  }

  // ----- the codec ------------------------------------------------------------------------

  lemma ExtensionFields(length: nat)
    requires length < Pow256(8)
    ensures var len7 := LengthCode(length);
      |Extension(length)| == ExtensionSize(len7)
      && (ExtensionSize(len7) > 0 ==> FromBe(Extension(length)) == length)
  {
    if 126 <= length < 65536 {
      assert Pow256(2) == 65536;
      BeKeeps(length, 2);
    } else if 65536 <= length {
      BeKeeps(length, 8);
    }
  }

  lemma BeKeeps(n: nat, k: nat)
    requires n < Pow256(k)
    ensures FromBe(Be(n, k)) == n
  {
    BeRoundTrip(n, k);
    ModUnique(n, Pow256(k), 0, n);
  }

  predicate IsData(f: Frame) {
    Opcode(f.first) != CLOSE && Opcode(f.first) != PING && |f.payload| <= MAX_PAYLOAD
  }

  /** The pings readFrame is written for: no mask, and a payload a control frame may have. */
  predicate IsPlainPing(f: Frame) {
    Opcode(f.first) == PING && f.key.None? && |f.payload| <= 125
  }

  lemma BigPow()
    ensures MAX_PAYLOAD < Pow256(8) && Pow256(8) == 0x1_0000_0000_0000_0000
  {
    assert Pow256(2) == 65536;
    assert Pow256(4) == 256 * (256 * Pow256(2));
    assert Pow256(6) == 256 * (256 * Pow256(4));
    assert Pow256(8) == 256 * (256 * Pow256(6));
  }

  lemma EncodeSplit(f: Frame, rest: seq<byte>)
    ensures var s := Encode(f) + rest;
      s[0] == f.first && s[1] == SecondByte(f.key.Some?, |f.payload|)
      && s[2..] == Extension(|f.payload|) + KeyBytes(f.key) + Body(f.key, f.payload) + rest
  {}

  /** Parsing an encoded data frame gives back exactly its payload and what follows it. */
  lemma ParseData(f: Frame, rest: seq<byte>)
    requires IsData(f)
    ensures ParseFrame(Encode(f) + rest) == Payload(f.payload, rest)
  {
    hide Encode, ParseBody, Extension, Body, Pow256;
    EncodeSplit(f, rest);
    BigPow();
    ParseDataBody(f, rest);
  }

  lemma ParseDataBody(f: Frame, rest: seq<byte>)
    requires |f.payload| <= MAX_PAYLOAD < Pow256(8)
    ensures var n := |f.payload|;
      ParseBody(f.key.Some?, LengthCode(n), Extension(n) + KeyBytes(f.key) + Body(f.key, f.payload) + rest)
      == Payload(f.payload, rest)
  {
    hide Extension, FromBe, XorWith, Pow256;
    var n := |f.payload|;
    var x, k, b := Extension(n), KeyBytes(f.key), Body(f.key, f.payload);
    var s := x + k + b + rest;
    ExtensionFields(n);
    Cuts(x, k, b, rest);
    assert |k| == if f.key.Some? then 4 else 0;
    if f.key.Some? {
      XorTwice(f.payload, f.key.value);
    }
  }

  lemma Cuts(x: seq<byte>, k: seq<byte>, b: seq<byte>, rest: seq<byte>)
    ensures var s := x + k + b + rest;
      s[..|x|] == x && s[|x|..|x| + |k|] == k && s[|x| + |k|..] == b + rest
      && s[|x| + |k|..][..|b|] == b && s[|x| + |k| + |b|..] == rest
  {
    var s := x + k + b + rest;
    assert s[|x| + |k|..] == b + rest;
  }

  lemma ParsePing(f: Frame, rest: seq<byte>)
    requires IsPlainPing(f)
    ensures ParseFrame(Encode(f) + rest) == PingFrame(f.payload, rest)
  {
    EncodeSplit(f, rest);
    assert (f.payload + rest)[..|f.payload|] == f.payload;
    assert (f.payload + rest)[|f.payload|..] == rest;
  }

  /** A close frame ends the reading behind its first two bytes. */
  lemma ParseClose(f: Frame, rest: seq<byte>)
    requires Opcode(f.first) == CLOSE
    ensures ParseFrame(Encode(f) + rest)
            == CloseFrame(Extension(|f.payload|) + KeyBytes(f.key) + Body(f.key, f.payload) + rest)
  {
    EncodeSplit(f, rest);
  }
}
