/** What whole streams of frames decode to, for every peer and every cut of the stream. */
module FrameStreams {
  import opened Bytes
  import opened Frames

  // ----- single frames: the layout ------------------------------------------------------------

  /** RFC 6455 section 5.2 byte for byte: kind, mask flag and length, the extended length with its
      most significant byte first, key, and the payload, each byte under the key byte whose turn
      it is. */
  lemma FrameLayout(f: Frame)
    ensures var s, n := Encode(f), |f.payload|;
      var e := if n <= 125 then 0 else if n <= 65535 then 2 else 8;
      var p := 2 + e + if f.key.Some? then 4 else 0;
      && |s| == p + n
      && s[0] == f.first
      && s[1] == (if f.key.Some? then 128 else 0) + (if n <= 125 then n else if n <= 65535 then 126 else 127)
      && (forall j :: 2 <= j < 2 + e ==> s[j] == n / Pow256(1 + e - j) % 256)
      && (f.key.Some? ==> s[2 + e..p] == f.key.value)
      && forall j :: p <= j < |s| ==>
           s[j] == if f.key.Some? then Xor(f.payload[j - p], f.key.value[(j - p) % 4]) else f.payload[j - p]
  {
    hide Be, Xor, Encode, Extension, Body;
    var n, k := |f.payload|, KeyBytes(f.key);
    var x, b := Extension(n), Body(f.key, f.payload);
    EncodeSplit(f, []);
    var s := Encode(f);
    assert s + [] == s && s[2..] == x + k + b;
    ExtensionLayout(n);
    BodyLayout(f.key, f.payload);
    PartsAt(s, x, k, b);
  }

  lemma PartsAt(s: seq<byte>, x: seq<byte>, k: seq<byte>, b: seq<byte>)
    requires |s| >= 2 && s[2..] == x + k + b
    ensures var p := 2 + |x| + |k|;
      && |s| == p + |b| && s[2 + |x|..p] == k
      && (forall j :: 2 <= j < 2 + |x| ==> s[j] == x[j - 2])
      && (forall j :: p <= j < |s| ==> s[j] == b[j - p])
  {
    assert forall j :: 2 <= j < |s| ==> s[j] == s[2..][j - 2];
  }

  lemma ExtensionLayout(n: nat)
    ensures var x := Extension(n);
      |x| == (if n <= 125 then 0 else if n <= 65535 then 2 else 8)
      && forall i :: 0 <= i < |x| ==> x[i] == n / Pow256(|x| - 1 - i) % 256
  {
    hide Be, Pow256;
    var x := Extension(n);
    forall i | 0 <= i < |x|
      ensures x[i] == n / Pow256(|x| - 1 - i) % 256
    {
      BeAt(n, |x|, i);
    }
  }

  lemma BodyLayout(key: Option<Key>, payload: seq<byte>)
    ensures forall i :: 0 <= i < |payload| ==>
      Body(key, payload)[i] == if key.Some? then Xor(payload[i], key.value[i % 4]) else payload[i]
  {}

  /** The first bytes of the frames this side writes, and which frames are taken for a close or a
      ping. */
  lemma FirstBytes(s: seq<byte>)
    requires |s| >= 2
    ensures Final(BINARY) == 0x82 && Final(PONG) == 0x8A
    ensures ParseFrame(s).CloseFrame? <==> s[0] % 16 == 0x8
    ensures ParseFrame(s).PingFrame? <==> s[0] % 16 == 0x9
  {}

  /** The masked text frame "Hello" of RFC 6455 section 5.7. */
  lemma MaskedHello()
    ensures Encode(Frame(0x81, Some([0x37, 0xFA, 0x21, 0x3D]), [0x48, 0x65, 0x6C, 0x6C, 0x6F]))
            == [0x81, 0x85, 0x37, 0xFA, 0x21, 0x3D, 0x7F, 0x9F, 0x4D, 0x51, 0x58]
  {
    var f := Frame(0x81, Some([0x37, 0xFA, 0x21, 0x3D]), [0x48, 0x65, 0x6C, 0x6C, 0x6F]);
    hide Body;
    HelloUnderMask();
  }

  lemma HelloUnderMask()
    ensures Body(Some([0x37, 0xFA, 0x21, 0x3D]), [0x48, 0x65, 0x6C, 0x6C, 0x6F]) == [0x7F, 0x9F, 0x4D, 0x51, 0x58]
  {
    hide Xor;
    var key: Key, hello: seq<byte> := [0x37, 0xFA, 0x21, 0x3D], [0x48, 0x65, 0x6C, 0x6C, 0x6F];
    BodyLayout(Some(key), hello);
    HelloBytes();
    var b := Body(Some(key), hello);
    assert b[0] == 0x7F && b[1] == 0x9F && b[2] == 0x4D && b[3] == 0x51 && b[4] == 0x58;
  }

  lemma HelloBytes()
    ensures Xor(0x48, 0x37) == 0x7F && Xor(0x65, 0xFA) == 0x9F && Xor(0x6C, 0x21) == 0x4D
    ensures Xor(0x6C, 0x3D) == 0x51 && Xor(0x6F, 0x37) == 0x58
  {
    hide XorBits;
    HighDigits();
    LowDigits();
    XorOfBytes(0x4, 0x8, 0x3, 0x7);
    XorOfBytes(0x6, 0x5, 0xF, 0xA);
    XorOfBytes(0x6, 0xC, 0x2, 0x1);
    XorOfBytes(0x6, 0xC, 0x3, 0xD);
    XorOfBytes(0x6, 0xF, 0x3, 0x7);
  }

  lemma HighDigits()
    ensures XorBits(0x4, 0x3) == 0x7 && XorBits(0x6, 0xF) == 0x9
    ensures XorBits(0x6, 0x2) == 0x4 && XorBits(0x6, 0x3) == 0x5
  {
    hide XorBits;
    XorOfDigits(0, 1, 0, 0, 0, 0, 1, 1);
    XorOfDigits(0, 1, 1, 0, 1, 1, 1, 1);
    XorOfDigits(0, 1, 1, 0, 0, 0, 1, 0);
    XorOfDigits(0, 1, 1, 0, 0, 0, 1, 1);
  }

  lemma LowDigits()
    ensures XorBits(0x8, 0x7) == 0xF && XorBits(0x5, 0xA) == 0xF
    ensures XorBits(0xC, 0x1) == 0xD && XorBits(0xC, 0xD) == 0x1 && XorBits(0xF, 0x7) == 0x8
  {
    hide XorBits;
    XorOfDigits(1, 0, 0, 0, 0, 1, 1, 1);
    XorOfDigits(0, 1, 0, 1, 1, 0, 1, 0);
    XorOfDigits(1, 1, 0, 0, 0, 0, 0, 1);
    XorOfDigits(1, 1, 0, 0, 1, 1, 0, 1);
    XorOfDigits(1, 1, 1, 1, 0, 1, 1, 1);
  }

  // ----- single frames: exactly when the reader agrees with the writer ------------------------

  predicate IsDataOpcode(f: Frame) {
    Opcode(f.first) != CLOSE && Opcode(f.first) != PING
  }

  /** writeFrame has no size cap; a data frame is readable exactly up to readFrame's limit. */
  lemma DataFrameReadableIff(f: Frame, rest: seq<byte>)
    requires IsDataOpcode(f)
    ensures ParseFrame(Encode(f) + rest) == Payload(f.payload, rest) <==> |f.payload| <= 0x100_0000
  {
    if |f.payload| <= MAX_PAYLOAD {
      ParseData(f, rest);
    }
  }

  /** Above the limit the frame ends the stream: nothing behind it is delivered. */
  lemma OversizedFrameEndsStream(f: Frame, rest: seq<byte>)
    requires IsDataOpcode(f) && MAX_PAYLOAD < |f.payload| < Pow256(8)
    ensures ParseFrame(Encode(f) + rest) == TooLarge(Body(f.key, f.payload) + rest)
    ensures Decoded(Encode(f) + rest) == []
  {
    hide Encode, ParseBody, Extension, Body, Pow256;
    EncodeSplit(f, rest);
    OversizedBody(f, rest);
  }

  lemma OversizedBody(f: Frame, rest: seq<byte>)
    requires MAX_PAYLOAD < |f.payload| < Pow256(8)
    ensures var n := |f.payload|;
      ParseBody(f.key.Some?, LengthCode(n), Extension(n) + KeyBytes(f.key) + Body(f.key, f.payload) + rest)
      == TooLarge(Body(f.key, f.payload) + rest)
  {
    hide Extension, Body, Pow256;
    var x, k, b := Extension(|f.payload|), KeyBytes(f.key), Body(f.key, f.payload);
    ExtensionFields(|f.payload|);
    Cuts(x, k, b, rest);
    assert |k| == if f.key.Some? then 4 else 0;
  }

  /** The writer uses the shortest form: no byte string the reader takes for the same payload,
      masked or not as this frame is, is shorter than the frame. */
  lemma ShortestForm(f: Frame, s: seq<byte>)
    requires ParseFrame(s) == Payload(f.payload, [])
    requires IsMasked(s[1]) == f.key.Some?
    ensures |Encode(f)| <= |s|
  {
    var e := ExtensionSize(Len7(s[1]));
    var n := |f.payload|;
    assert |s| == 2 + e + (if f.key.Some? then 4 else 0) + n;
    if e == 2 {
      FromBeBound(s[2..][..2]);
      assert Pow256(2) == 65536;
    }
    assert |Extension(n)| <= e;
  }

  /** readFrame skips a ping cleanly exactly when it is unmasked and at most 125 bytes long. */
  lemma PingSkippedIff(f: Frame, rest: seq<byte>)
    requires Opcode(f.first) == PING
    ensures ParseFrame(Encode(f) + rest) == PingFrame(f.payload, rest)
            <==> f.key.None? && |f.payload| <= 125
  {
    if IsPlainPing(f) {
      ParsePing(f, rest);
    } else {
      EncodeSplit(f, rest);
    }
  }

  /** A masked ping is answered with the front of key and masked payload, and its last four
      bytes stay on the connection as the start of the next frame. */
  lemma MaskedPingLeavesFourBytes(f: Frame, rest: seq<byte>)
    requires Opcode(f.first) == PING && f.key.Some? && |f.payload| <= 125
    ensures var raw := f.key.value + XorWith(f.payload, f.key.value);
      ParseFrame(Encode(f) + rest) == PingFrame(raw[..|f.payload|], raw[|f.payload|..] + rest)
  {
    hide Encode, XorWith, ParseBody;
    var raw, n := f.key.value + XorWith(f.payload, f.key.value), |f.payload|;
    EncodeSplit(f, rest);
    assert Extension(n) == [] && [] + f.key.value + XorWith(f.payload, f.key.value) == raw;
    assert (Encode(f) + rest)[2..] == raw + rest;
    SplitWithin(raw, rest, n);
  }

  lemma SplitWithin(a: seq<byte>, b: seq<byte>, n: nat)
    requires n <= |a|
    ensures (a + b)[..n] == a[..n] && (a + b)[n..] == a[n..] + b
  {}

  /** A masked empty ping whose key reads as a data frame: two bytes nobody sent are delivered. */
  lemma MaskedPingCanInjectData()
    ensures var ping := Frame(0x89, Some([0x82, 0x02, 0x58, 0x59]), []);
      Opcode(ping.first) == PING && Decoded(Encode(ping)) == [0x58, 0x59]
  {
    hide Encode, ParseFrame, XorWith;
    var ping := Frame(0x89, Some([0x82, 0x02, 0x58, 0x59]), []);
    assert XorWith([], ping.key.value) == [];
    assert ping.key.value + [] == ping.key.value;
    assert Encode(ping) + [] == Encode(ping);
    MaskedPingLeavesFourBytes(ping, []);
    TwoByteFrame();
  }

  lemma TwoByteFrame()
    ensures Decoded([0x82, 0x02, 0x58, 0x59]) == [0x58, 0x59]
  {
    hide ParseFrame;
    var data := Frame(0x82, None, [0x58, 0x59]);
    assert Encode(data) + [] == [0x82, 0x02, 0x58, 0x59];
    ParseData(data, []);
    NothingParses();
  }

  lemma NothingParses()
    ensures ParseFrame([]) == Truncated
  {}

  /** readFrame hands a pong's payload to the application as if it were data. */
  lemma PongIsDelivered(key: Option<Key>, payload: seq<byte>, rest: seq<byte>)
    requires |payload| <= MAX_PAYLOAD
    ensures Decoded(Encode(Frame(Final(PONG), key, payload)) + rest) == payload + Decoded(rest)
  {
    hide Encode, ParseFrame;
    ParseData(Frame(Final(PONG), key, payload), rest);
  }

  // ----- streams ------------------------------------------------------------------------------

  /** Frames the reader is written for: data frames it can hold and plain pings. */
  predicate IsTransparent(f: Frame) {
    IsData(f) || IsPlainPing(f)
  }

  predicate AllTransparent(fs: seq<Frame>) {
    forall f :: f in fs ==> IsTransparent(f)
  }

  function PayloadsOf(fs: seq<Frame>): seq<seq<byte>> {
    if fs == [] then [] else PayloadPart(fs[0]) + PayloadsOf(fs[1..])
  }

  function PingsOf(fs: seq<Frame>): seq<seq<byte>> {
    if fs == [] then [] else PingPart(fs[0]) + PingsOf(fs[1..])
  }

  function DataOf(fs: seq<Frame>): seq<byte> {
    Concat(PayloadsOf(fs))
  }

  function PayloadPart(f: Frame): seq<seq<byte>> {
    if IsData(f) then [f.payload] else []
  }

  function PingPart(f: Frame): seq<seq<byte>> {
    if IsData(f) then [] else [f.payload]
  }

  lemma FrameDecodes(f: Frame, rest: seq<byte>)
    requires IsTransparent(f)
    ensures Decoded(Encode(f) + rest) == Concat(PayloadPart(f)) + Decoded(rest)
    ensures Payloads(Encode(f) + rest) == PayloadPart(f) + Payloads(rest)
    ensures Echoes(Encode(f) + rest) == PingPart(f) + Echoes(rest)
  {
    if IsData(f) {
      ParseData(f, rest);
      ConcatOne(f.payload);
    } else {
      ParsePing(f, rest);
    }
  }

  /** Transparency of the framing: whatever mix of data frames (any fragmentation, any keys)
      and plain pings comes first, the reader delivers the data frames' payloads in order and
      echoes the ping payloads in order, then goes on with the rest of the stream. */
  lemma {:induction false} FramesDecode(fs: seq<Frame>, rest: seq<byte>)
    requires AllTransparent(fs)
    ensures Decoded(Wire(fs) + rest) == DataOf(fs) + Decoded(rest)
    ensures Payloads(Wire(fs) + rest) == PayloadsOf(fs) + Payloads(rest)
    ensures Echoes(Wire(fs) + rest) == PingsOf(fs) + Echoes(rest)
  {
    if fs == [] {
      assert Wire(fs) + rest == rest;
    } else {
      hide Encode, Decoded, Payloads, Echoes, Concat, PayloadPart, PingPart;
      var f, tail := fs[0], fs[1..];
      FramesDecode(tail, rest);
      Associative(Encode(f), Wire(tail), rest);
      assert IsTransparent(f);
      FrameDecodes(f, Wire(tail) + rest);
      ConcatAppend(PayloadPart(f), PayloadsOf(tail));
      Associative(Concat(PayloadPart(f)), DataOf(tail), Decoded(rest));
      Associative(PayloadPart(f), PayloadsOf(tail), Payloads(rest));
      Associative(PingPart(f), PingsOf(tail), Echoes(rest));
    }
  }

  lemma NothingDecodes()
    ensures Decoded([]) == [] && Payloads([]) == [] && Echoes([]) == []
  {}

  /** One readFrame call on each kind of frame: what it returns and what it leaves. */
  lemma NextOfFrame(f: Frame, rest: seq<byte>)
    ensures IsData(f) ==> NextPayload(Encode(f) + rest) == FrameRead([], Ok(f.payload), rest)
    ensures Opcode(f.first) == CLOSE ==>
      NextPayload(Encode(f) + rest)
      == FrameRead([], Err(Closed), Extension(|f.payload|) + KeyBytes(f.key) + Body(f.key, f.payload) + rest)
    ensures IsDataOpcode(f) && MAX_PAYLOAD < |f.payload| < Pow256(8) ==>
      NextPayload(Encode(f) + rest) == FrameRead([], Err(Oversized), Body(f.key, f.payload) + rest)
    ensures forall n :: IsData(f) && 0 <= n < |Encode(f)| ==>
      NextPayload(Encode(f)[..n]) == FrameRead([], Err(Short), [])
  {
    hide Encode, ParseFrame, Extension, Body, Pow256, Opcode;
    if IsData(f) {
      ParseData(f, rest);
      forall n | 0 <= n < |Encode(f)|
        ensures NextPayload(Encode(f)[..n]) == FrameRead([], Err(Short), [])
      {
        PartOfFrameIsTruncated(f, n);
      }
    } else if Opcode(f.first) == CLOSE {
      ParseClose(f, rest);
    } else if IsDataOpcode(f) && MAX_PAYLOAD < |f.payload| < Pow256(8) {
      OversizedFrameEndsStream(f, rest);
    }
  }

  /** Plain pings in front are echoed in order and change nothing else. */
  lemma {:induction false} NextBehindPings(pings: seq<Frame>, rest: seq<byte>)
    requires forall f :: f in pings ==> IsPlainPing(f)
    ensures var r := NextPayload(rest);
      NextPayload(Wire(pings) + rest) == r.(pings := PingsOf(pings) + r.pings)
    decreases |pings|
  {
    hide Encode, NextPayload;
    if pings == [] {
      assert Wire(pings) + rest == rest;
      assert PingsOf(pings) + NextPayload(rest).pings == NextPayload(rest).pings;
    } else {
      var f, tail := pings[0], pings[1..];
      assert f in pings && forall g :: g in tail ==> g in pings;
      NextBehindPings(tail, rest);
      Associative(Encode(f), Wire(tail), rest);
      NextBehindPing(f, Wire(tail) + rest);
      Associative([f.payload], PingsOf(tail), NextPayload(rest).pings);
    }
  }

  lemma NextBehindPing(f: Frame, rest: seq<byte>)
    requires IsPlainPing(f)
    ensures NextPayload(Encode(f) + rest) == NextPayload(rest).(pings := [f.payload] + NextPayload(rest).pings)
  {
    hide Encode, ParseFrame;
    ParsePing(f, rest);
  }

  /** Everything before the first close frame is delivered and nothing after it. */
  lemma CloseEndsStream(fs: seq<Frame>, close: Frame, after: seq<byte>)
    requires AllTransparent(fs) && Opcode(close.first) == CLOSE
    ensures Decoded(Wire(fs) + Encode(close) + after) == DataOf(fs)
  {
    var rest := Encode(close) + after;
    assert Wire(fs) + Encode(close) + after == Wire(fs) + rest;
    FramesDecode(fs, rest);
    ParseClose(close, after);
    assert DataOf(fs) + [] == DataOf(fs);
  }

  /** Inserting plain pings anywhere, or cutting the same bytes into other frames, changes
      nothing in what is delivered. */
  lemma FragmentationAndPingsInvisible(fs: seq<Frame>, gs: seq<Frame>, rest: seq<byte>)
    requires AllTransparent(fs) && AllTransparent(gs)
    requires DataOf(fs) == DataOf(gs)
    ensures Decoded(Wire(fs) + rest) == Decoded(Wire(gs) + rest)
  {
    FramesDecode(fs, rest);
    FramesDecode(gs, rest);
  }

  /** A concatenation of frames can be read in only one way. */
  lemma WireUnambiguous(fs: seq<Frame>, gs: seq<Frame>)
    requires AllTransparent(fs) && AllTransparent(gs)
    requires Wire(fs) == Wire(gs)
    ensures PayloadsOf(fs) == PayloadsOf(gs) && PingsOf(fs) == PingsOf(gs)
  {
    FramesDecode(fs, []);
    FramesDecode(gs, []);
    NothingDecodes();
    assert Wire(fs) + [] == Wire(gs) + [];
    assert PayloadsOf(fs) + [] == PayloadsOf(fs) && PayloadsOf(gs) + [] == PayloadsOf(gs);
    assert PingsOf(fs) + [] == PingsOf(fs) && PingsOf(gs) + [] == PingsOf(gs);
  }

  lemma SliceOfPrefix(s: seq<byte>, more: seq<byte>, from: nat, n: nat)
    requires from + n <= |s|
    ensures (s + more)[from..][..n] == s[from..][..n]
    ensures (s + more)[from..from + n] == s[from..from + n]
    ensures (s + more)[from + n..] == s[from + n..] + more
  {}

  lemma ParseBodyExtends(masked: bool, len7: nat, s: seq<byte>, more: seq<byte>)
    requires ParseBody(masked, len7, s).Payload?
    ensures var p := ParseBody(masked, len7, s);
      ParseBody(masked, len7, s + more) == Payload(p.data, p.rest + more)
  {
    hide FromBe, XorWith;
    var e := ExtensionSize(len7);
    var k := if masked then 4 else 0;
    SliceOfPrefix(s, more, 0, e);
    assert s[0..e] == s[..e] && (s + more)[0..e] == (s + more)[..e];
    var length := if e == 0 then len7 else FromBe(s[..e]);
    SliceOfPrefix(s, more, e + k, length);
    SliceOfPrefix(s, more, e, k);
  }

  lemma ParseExtends(s: seq<byte>, more: seq<byte>)
    requires ParseFrame(s).Payload?
    ensures var p := ParseFrame(s);
      ParseFrame(s + more) == Payload(p.data, p.rest + more)
  {
    assert (s + more)[2..] == s[2..] + more;
    ParseBodyExtends(IsMasked(s[1]), Len7(s[1]), s[2..], more);
  }

  lemma ParsePingExtends(s: seq<byte>, more: seq<byte>)
    requires ParseFrame(s).PingFrame? && ParseFrame(s).rest != []
    ensures var p := ParseFrame(s);
      ParseFrame(s + more) == PingFrame(p.echo, p.rest + more)
  {
    var n := Len7(s[1]);
    assert (s + more)[2..] == s[2..] + more;
    SliceOfPrefix(s[2..], more, 0, n);
    assert s[2..][0..n] == s[2..][..n] && (s[2..] + more)[0..n] == (s[2..] + more)[..n];
  }

  lemma TooLargeExtends(masked: bool, len7: nat, s: seq<byte>, more: seq<byte>)
    requires ParseBody(masked, len7, s).TooLarge?
    ensures ParseBody(masked, len7, s + more).TooLarge?
  {
    var e := ExtensionSize(len7);
    assert (s + more)[..e] == s[..e];
  }

  /** A data frame of which any part is missing is not taken for anything else. */
  lemma PartOfFrameIsTruncated(f: Frame, n: nat)
    requires IsData(f) && n < |Encode(f)|
    ensures ParseFrame(Encode(f)[..n]) == Truncated
  {
    hide Encode, ParseBody;
    var part, more := Encode(f)[..n], Encode(f)[n..];
    assert part + more == Encode(f) && Encode(f) + [] == Encode(f);
    ParseData(f, []);
    EncodeSplit(f, []);
    if n >= 2 {
      assert (part + more)[2..] == part[2..] + more;
      if ParseFrame(part).Payload? {
        ParseExtends(part, more);
      } else if ParseFrame(part).TooLarge? {
        TooLargeExtends(IsMasked(part[1]), Len7(part[1]), part[2..], more);
      }
    }
  }

  /** Cutting any stream short only cuts what is delivered short. */
  lemma {:induction false} DecodedMonotone(s: seq<byte>, more: seq<byte>)
    ensures Decoded(s) <= Decoded(s + more)
    decreases |s|
  {
    match ParseFrame(s)
    case Payload(data, rest) =>
      ParseExtends(s, more);
      DecodedMonotone(rest, more);
    case PingFrame(echo, rest) =>
      if rest == [] {
        NothingDecodes();
      } else {
        ParsePingExtends(s, more);
        DecodedMonotone(rest, more);
      }
    case _ =>
  }
}
