/** The STUN client's walk over the attributes of a binding response. */
module Stun {
  import opened Bytes

  const BUFFER: nat := 256
  const HEADER: nat := 20
  const XOR_MAPPED_ADDRESS: nat := 0x0020
  const MAGIC: nat := 0x2112A442
  const PORT_MAGIC: nat := 0x2112

  /** The outcome of the walk; Panic is a slice expression past the end of the buffer. */
  datatype Discovery = Found(ip: nat, port: nat) | NotFound | TooShort | Panic

  /** int((attrLen + 3) & ^uint16(3)): the sum wraps at 16 bits. */
  function Aligned(attrLen: nat): (a: nat)
    ensures a % 4 == 0
  {
    var sum := (attrLen + 3) % 65536;
    sum - sum % 4
  }

  /** The padding formula rounds up to the next multiple of four exactly below 65533. */
  lemma AlignedRoundsUpIff(attrLen: nat)
    requires attrLen < 65536
    ensures attrLen <= Aligned(attrLen) < attrLen + 4 <==> attrLen <= 65532
    ensures attrLen > 65532 ==> Aligned(attrLen) == 0
  {}

  function Field16(buf: seq<byte>, at: nat): (v: nat)
    requires at + 2 <= |buf|
    ensures v < 65536
  {
    FromBeBound(buf[at..at + 2]);
    assert Pow256(2) == 65536;
    FromBe(buf[at..at + 2])
  }

  /** The address in an XOR-MAPPED-ADDRESS value, whatever family it claims. */
  function DecodeAddress(value: seq<byte>): Discovery
    requires |value| >= 8
  {
    Found(XorBits(FromBe(value[4..8]), MAGIC), XorBits(FromBe(value[2..4]), PORT_MAGIC))
  }

  /** The loop from `pos`, with `limit` the end the header claims and n the bytes received. */
  function Walk(buf: seq<byte>, n: nat, limit: nat, pos: nat): Discovery
    requires n <= |buf|
    decreases |buf| - pos
  {
    if pos + 4 <= limit && pos + 4 <= n then
      var attrType, attrLen := Field16(buf, pos), Field16(buf, pos + 2);
      if attrType == XOR_MAPPED_ADDRESS && attrLen >= 8 then
        if pos + 12 <= |buf| then DecodeAddress(buf[pos + 4..]) else Panic
      else
        Walk(buf, n, limit, pos + 4 + Aligned(attrLen))
    else
      NotFound
  }

  /** The part of STUNDiscover after the read: n bytes of buf hold the response. */
  method ParseResponse(buf: array<byte>, n: nat) returns (d: Discovery)
    requires buf.Length == BUFFER && n <= BUFFER
    ensures d == if n < HEADER then TooShort else Walk(buf[..], n, HEADER + Field16(buf[..], 2), HEADER)
  {
    hide FromBe, XorBits, Aligned;
    if n < HEADER {
      return TooShort;
    }
    var msgLen := FromBe(buf[2..4]);
    assert buf[2..4] == buf[..][2..4];
    var pos := HEADER;
    while pos + 4 <= HEADER + msgLen && pos + 4 <= n
      invariant Walk(buf[..], n, HEADER + msgLen, HEADER) == Walk(buf[..], n, HEADER + msgLen, pos)
      decreases BUFFER - pos
    {
      var attrType, attrLen := FromBe(buf[pos..pos + 2]), FromBe(buf[pos + 2..pos + 4]);
      assert buf[pos..pos + 2] == buf[..][pos..pos + 2] && buf[pos + 2..pos + 4] == buf[..][pos + 2..pos + 4];
      pos := pos + 4;
      if attrType == XOR_MAPPED_ADDRESS && attrLen >= 8 {
        if pos + 8 > buf.Length {
          return Panic;
        }
        var port := XorBits(FromBe(buf[pos + 2..pos + 4]), PORT_MAGIC);
        var ip := XorBits(FromBe(buf[pos + 4..pos + 8]), MAGIC);
        assert buf[pos + 2..pos + 4] == buf[..][pos..][2..4] && buf[pos + 4..pos + 8] == buf[..][pos..][4..8];
        return Found(ip, port);
      }
      pos := pos + Aligned(attrLen);
    }
    d := NotFound;
  }

  // ----- responses ------------------------------------------------------------------------

  /** An attribute as a server sends it: type, value and padding of any content. */
  datatype Attribute = Attribute(kind: nat, value: seq<byte>, padding: seq<byte>)

  predicate IsAttribute(a: Attribute) {
    a.kind < 65536 && |a.value| <= 65532 && |a.padding| == Aligned(|a.value|) - |a.value|
  }

  function EncodeAttribute(a: Attribute): seq<byte> {
    Be(a.kind, 2) + Be(|a.value|, 2) + a.value + a.padding
  }

  function EncodeAll(attrs: seq<Attribute>): seq<byte> {
    if attrs == [] then [] else EncodeAttribute(attrs[0]) + EncodeAll(attrs[1..])
  }

  /** The first mapped address long enough to hold one. */
  function FirstAddress(attrs: seq<Attribute>): Discovery {
    if attrs == [] then NotFound
    else if attrs[0].kind == XOR_MAPPED_ADDRESS && |attrs[0].value| >= 8 then DecodeAddress(attrs[0].value)
    else FirstAddress(attrs[1..])
  }

  lemma BeField(v: nat)
    requires v < 65536
    ensures FromBe(Be(v, 2)) == v
  {
    assert Pow256(2) == 65536;
    BeRoundTrip(v, 2);
    ModUnique(v, 65536, 0, v);
  }

  /** The attribute at `pos` of a buffer, read back. */
  lemma AttributeAt(before: seq<byte>, a: Attribute, after: seq<byte>)
    requires IsAttribute(a)
    ensures var buf, pos := before + EncodeAttribute(a) + after, |before|;
      && Field16(buf, pos) == a.kind && Field16(buf, pos + 2) == |a.value|
      && (|a.value| >= 8 ==> DecodeAddress(buf[pos + 4..]) == DecodeAddress(a.value))
  {
    hide Be, FromBe, XorBits;
    var buf, pos := before + EncodeAttribute(a) + after, |before|;
    BeField(a.kind);
    BeField(|a.value|);
    assert buf[pos..pos + 2] == Be(a.kind, 2);
    assert buf[pos + 2..pos + 4] == Be(|a.value|, 2);
    var tail := buf[pos + 4..];
    assert tail == a.value + a.padding + after;
    if |a.value| >= 8 {
      assert tail[4..8] == a.value[4..8] && tail[2..4] == a.value[2..4];
    }
  }

  lemma {:induction false} WalkReads(before: seq<byte>, attrs: seq<Attribute>, after: seq<byte>, n: nat)
    requires forall a :: a in attrs ==> IsAttribute(a)
    requires |before| + |EncodeAll(attrs)| <= n <= |before| + |EncodeAll(attrs)| + |after|
    ensures var limit := |before| + |EncodeAll(attrs)|;
      Walk(before + EncodeAll(attrs) + after, n, limit, |before|) == FirstAddress(attrs)
    decreases |attrs|
  {
    hide Field16, DecodeAddress, EncodeAttribute, Aligned;
    if attrs != [] {
      var a, rest := attrs[0], EncodeAll(attrs[1..]);
      assert a in attrs && forall b :: b in attrs[1..] ==> b in attrs;
      Regroup(before, EncodeAttribute(a), rest, after);
      AttributeAt(before, a, rest + after);
      AttributeSize(a);
      WalkReads(before + EncodeAttribute(a), attrs[1..], after, n);
    }
  }

  lemma Regroup(a: seq<byte>, b: seq<byte>, c: seq<byte>, d: seq<byte>)
    ensures a + (b + c) + d == a + b + (c + d) == (a + b) + c + d
  {}

  lemma AttributeSize(a: Attribute)
    requires IsAttribute(a)
    ensures |EncodeAttribute(a)| == 4 + Aligned(|a.value|) && (|a.value| >= 8 ==> Aligned(|a.value|) >= 8)
  {
    AlignedRoundsUpIff(|a.value|);
  }

  /** A complete response: a 20-byte header whose length field is right, and padded attributes. */
  predicate IsResponse(header: seq<byte>, attrs: seq<Attribute>) {
    && |header| == HEADER
    && (forall a :: a in attrs ==> IsAttribute(a))
    && HEADER + |EncodeAll(attrs)| <= BUFFER
    && header[2..4] == Be(|EncodeAll(attrs)|, 2)
  }

  /** For every complete response the walk returns the address in the first attribute that can
      hold one and NotFound if there is none, whatever else the buffer holds behind it. */
  lemma CompleteResponse(header: seq<byte>, attrs: seq<Attribute>, behind: seq<byte>, n: nat)
    requires IsResponse(header, attrs)
    requires HEADER + |EncodeAll(attrs)| <= n <= HEADER + |EncodeAll(attrs)| + |behind|
    ensures var buf := header + EncodeAll(attrs) + behind;
      Walk(buf, n, HEADER + Field16(buf, 2), HEADER) == FirstAddress(attrs)
  {
    var body := EncodeAll(attrs);
    var buf := header + body + behind;
    assert buf[2..4] == header[2..4];
    BeField(|body|);
    WalkReads(header, attrs, behind, n);
  }

  /** The value of an attribute that maps to the given IPv4 address and port. */
  function MappedAddress(ip: nat, port: nat): (v: seq<byte>)
    ensures |v| == 8
  {
    [0x00, 0x01] + Be(XorBits(port, PORT_MAGIC), 2) + Be(XorBits(ip, MAGIC), 4)
  }

  lemma XorKeeps(a: nat, b: nat, k: nat, width: nat)
    requires Pow2(k) == Pow256(width) && a < Pow2(k) && b < Pow2(k)
    ensures XorBits(FromBe(Be(XorBits(a, b), width)), b) == a
  {
    hide XorBits, Pow2, Pow256;
    XorBound(a, b, Pow2(k), k);
    BeRoundTrip(XorBits(a, b), width);
    ModUnique(XorBits(a, b), Pow256(width), 0, XorBits(a, b));
    XorBitsCancel(a, b);
  }

  lemma Powers()
    ensures Pow2(16) == 65536 == Pow256(2)
    ensures Pow2(32) == 0x1_0000_0000 == Pow256(4)
  {
    assert Pow2(4) == 16;
    assert Pow2(8) == 16 * Pow2(4);
    assert Pow2(12) == 16 * Pow2(8);
    assert Pow2(16) == 16 * Pow2(12);
    assert Pow2(20) == 16 * Pow2(16);
    assert Pow2(24) == 16 * Pow2(20);
    assert Pow2(28) == 16 * Pow2(24);
    assert Pow2(32) == 16 * Pow2(28);
    assert Pow256(2) == 65536;
    assert Pow256(4) == 65536 * Pow256(2);
  }

  /** The address a server encodes is the address the client discovers. */
  lemma AddressRoundTrip(ip: nat, port: nat)
    requires ip < 0x1_0000_0000 && port < 65536
    ensures DecodeAddress(MappedAddress(ip, port)) == Found(ip, port)
  {
    hide XorBits, Pow2, Pow256, Be, FromBe;
    Powers();
    XorKeeps(port, PORT_MAGIC, 16, 2);
    XorKeeps(ip, MAGIC, 32, 4);
    var v := MappedAddress(ip, port);
    assert v[2..4] == Be(XorBits(port, PORT_MAGIC), 2) && v[4..8] == Be(XorBits(ip, MAGIC), 4);
  }

  /** The first attribute of a list that can hold a mapped address. */
  function FirstMapped(attrs: seq<Attribute>): Option<Attribute> {
    if attrs == [] then None
    else if attrs[0].kind == XOR_MAPPED_ADDRESS && |attrs[0].value| >= 8 then Some(attrs[0])
    else FirstMapped(attrs[1..])
  }

  lemma {:induction false} FirstAddressDecodes(attrs: seq<Attribute>)
    ensures FirstMapped(attrs).Some? ==>
      |FirstMapped(attrs).value.value| >= 8 && FirstAddress(attrs) == DecodeAddress(FirstMapped(attrs).value.value)
  {
    hide DecodeAddress;
    if attrs != [] {
      FirstAddressDecodes(attrs[1..]);
    }
  }

  /** The client learns its address: for every complete response whose first mapped address is the
      encoding of an IPv4 address and port, the walk finds exactly these. */
  lemma DiscoversAddress(header: seq<byte>, attrs: seq<Attribute>, behind: seq<byte>, n: nat, ip: nat, port: nat)
    requires HEADER + |EncodeAll(attrs)| <= n <= HEADER + |EncodeAll(attrs)| + |behind|
    requires IsResponse(header, attrs) && ip < 0x1_0000_0000 && port < 65536
    requires FirstMapped(attrs).Some? && FirstMapped(attrs).value.value == MappedAddress(ip, port)
    ensures var buf := header + EncodeAll(attrs) + behind;
      Walk(buf, n, HEADER + Field16(buf, 2), HEADER) == Found(ip, port)
  {
    hide Walk, Field16, DecodeAddress, MappedAddress, IsResponse, FirstMapped, FirstAddress;
    CompleteResponse(header, attrs, behind, n);
    FirstAddressDecodes(attrs);
    AddressRoundTrip(ip, port);
  }

  /** The family byte is never looked at: a value of another family with the same six bytes at
      offset two, such as the front of an IPv6 address, decodes to the same IPv4 address. */
  lemma FamilyIgnored(v: seq<byte>, w: seq<byte>)
    requires |v| >= 8 && |w| >= 8 && v[2..8] == w[2..8]
    ensures DecodeAddress(v) == DecodeAddress(w)
  {
    assert v[2..4] == v[2..8][..2] && w[2..4] == w[2..8][..2];
    assert v[4..8] == v[2..8][2..] && w[4..8] == w[2..8][2..];
  }

  // ----- a known response -----------------------------------------------------------------

  /** The sample IPv4 response of RFC 5769 section 2.2 up to its mapped address: the header, the
      attribute 0x8022 "test vector" with one byte of padding, and the mapped address. */
  const SAMPLE_HEADER: seq<byte> := [
    0x01, 0x01, 0x00, 0x3C, 0x21, 0x12, 0xA4, 0x42,
    0xB7, 0xE7, 0xA7, 0x01, 0xBC, 0x34, 0xD6, 0x86, 0xFA, 0x87, 0xDF, 0xAE]

  const SAMPLE_SOFTWARE: seq<byte> := [
    0x80, 0x22, 0x00, 0x0B, 0x74, 0x65, 0x73, 0x74, 0x20, 0x76, 0x65, 0x63, 0x74, 0x6F, 0x72, 0x20]

  const SAMPLE_ADDRESS: seq<byte> := [0x00, 0x20, 0x00, 0x08, 0x00, 0x01, 0xA1, 0x47, 0xE1, 0x12, 0xA6, 0x43]

  /** From it the walk finds 192.0.2.1 and port 32853, whatever follows. */
  lemma SampleResponse(behind: seq<byte>, n: nat)
    requires 48 <= n <= 48 + |behind|
    ensures var buf := SAMPLE_HEADER + SAMPLE_SOFTWARE + SAMPLE_ADDRESS + behind;
      Walk(buf, n, HEADER + Field16(buf, 2), HEADER) == Found(0xC0000201, 32853)
  {
    hide Field16, DecodeAddress;
    var buf := SAMPLE_HEADER + SAMPLE_SOFTWARE + SAMPLE_ADDRESS + behind;
    SampleFields(behind);
    assert Aligned(11) == 12;
    assert Walk(buf, n, 80, 36) == DecodeAddress(buf[40..]);
    SampleAddress(buf[40..]);
  }

  lemma SampleFields(behind: seq<byte>)
    ensures var buf := SAMPLE_HEADER + SAMPLE_SOFTWARE + SAMPLE_ADDRESS + behind;
      && Field16(buf, 2) == 60
      && Field16(buf, 20) == 0x8022 && Field16(buf, 22) == 11
      && Field16(buf, 36) == XOR_MAPPED_ADDRESS && Field16(buf, 38) == 8
      && buf[40..][..8] == [0x00, 0x01, 0xA1, 0x47, 0xE1, 0x12, 0xA6, 0x43]
  {
    hide FromBe;
    var h, w, a := SAMPLE_HEADER, SAMPLE_SOFTWARE, SAMPLE_ADDRESS;
    var buf := h + w + a + behind;
    SampleLengths();
    assert buf[2..4] == h[2..4] == [0x00, 0x3C];
    assert buf[20..22] == w[0..2] == [0x80, 0x22];
    assert buf[22..24] == w[2..4] == [0x00, 0x0B];
    assert buf[36..38] == a[0..2] == [0x00, 0x20];
    assert buf[38..40] == a[2..4] == [0x00, 0x08];
    assert buf[40..][..8] == a[4..];
    TwoBytes(0x00, 0x3C);
    TwoBytes(0x80, 0x22);
    TwoBytes(0x00, 0x0B);
    TwoBytes(0x00, 0x20);
    TwoBytes(0x00, 0x08);
  }

  lemma SampleLengths()
    ensures |SAMPLE_HEADER| == 20 && |SAMPLE_SOFTWARE| == 16 && |SAMPLE_ADDRESS| == 12
  {}

  lemma SampleAddress(value: seq<byte>)
    requires |value| >= 8 && value[..8] == [0x00, 0x01, 0xA1, 0x47, 0xE1, 0x12, 0xA6, 0x43]
    ensures DecodeAddress(value) == Found(0xC0000201, 32853)
  {
    hide FromBe, XorBits;
    assert value[2..4] == value[..8][2..4] == [0xA1, 0x47];
    assert value[4..8] == value[..8][4..8] == [0xE1, 0x12, 0xA6, 0x43];
    TwoBytes(0xA1, 0x47);
    FourBytes(0xE1, 0x12, 0xA6, 0x43);
    SamplePort();
    SampleIp();
  }

  lemma FourBytes(a: byte, b: byte, c: byte, d: byte)
    ensures FromBe([a, b, c, d]) == ((a as int * 256 + b) * 256 + c) * 256 + d
  {
    var s: seq<byte> := [a, b, c, d];
    assert s[..3] == [a, b, c] && [a, b, c][..2] == [a, b];
    TwoBytes(a, b);
    assert FromBe([a, b, c]) == FromBe([a, b]) * 256 + c;
  }

  lemma SamplePort()
    ensures XorBits(0xA147, PORT_MAGIC) == 32853
  {
    hide XorBits;
    ByteBound();
    SampleDigits();
    XorOfBytes(0xA, 0x1, 0x2, 0x1);
    XorOfBytes(0x4, 0x7, 0x1, 0x2);
    XorSplit(0xA1, 0x47, 0x21, 0x12, 8);
  }

  lemma SampleIp()
    ensures XorBits(0xE112A643, MAGIC) == 0xC0000201
  {
    hide XorBits;
    ByteBound();
    Powers();
    SampleDigits();
    XorOfBytes(0xE, 0x1, 0x2, 0x1);
    XorOfBytes(0x1, 0x2, 0x1, 0x2);
    XorOfBytes(0xA, 0x6, 0xA, 0x4);
    XorOfBytes(0x4, 0x3, 0x4, 0x2);
    XorSplit(0xE1, 0x12, 0x21, 0x12, 8);
    XorSplit(0xA6, 0x43, 0xA4, 0x42, 8);
    XorSplit(0xE112, 0xA643, 0x2112, 0xA442, 16);
  }

  lemma SampleDigits()
    ensures XorBits(0xA, 0x2) == 0x8 && XorBits(0x1, 0x1) == 0 && XorBits(0x4, 0x1) == 0x5
    ensures XorBits(0x7, 0x2) == 0x5 && XorBits(0xE, 0x2) == 0xC && XorBits(0x2, 0x2) == 0
    ensures XorBits(0xA, 0xA) == 0 && XorBits(0x6, 0x4) == 0x2 && XorBits(0x4, 0x4) == 0
    ensures XorBits(0x3, 0x2) == 0x1
  {
    hide XorBits;
    XorOfDigits(1, 0, 1, 0, 0, 0, 1, 0);
    XorOfDigits(0, 0, 0, 1, 0, 0, 0, 1);
    XorOfDigits(0, 1, 0, 0, 0, 0, 0, 1);
    XorOfDigits(0, 1, 1, 1, 0, 0, 1, 0);
    XorOfDigits(1, 1, 1, 0, 0, 0, 1, 0);
    XorOfDigits(0, 0, 1, 0, 0, 0, 1, 0);
    XorOfDigits(1, 0, 1, 0, 1, 0, 1, 0);
    XorOfDigits(0, 1, 1, 0, 0, 1, 0, 0);
    XorOfDigits(0, 1, 0, 0, 0, 1, 0, 0);
    XorOfDigits(0, 0, 1, 1, 0, 0, 1, 0);
  }

  // ----- arbitrary input ------------------------------------------------------------------

  /** The offset of the attribute header at which the walk stops to decode an address. */
  function Reached(buf: seq<byte>, n: nat, limit: nat, pos: nat): Option<nat>
    requires n <= |buf|
    decreases |buf| - pos
  {
    if pos + 4 <= limit && pos + 4 <= n then
      if Field16(buf, pos) == XOR_MAPPED_ADDRESS && Field16(buf, pos + 2) >= 8 then Some(pos)
      else Reached(buf, n, limit, pos + 4 + Aligned(Field16(buf, pos + 2)))
    else
      None
  }

  /** The walk indexes past the buffer exactly when the first mapped address it meets has its
      header at offset 248 or later; the value is never compared with the bytes received. */
  lemma {:induction false} PanicIff(buf: seq<byte>, n: nat, limit: nat, pos: nat)
    requires |buf| == BUFFER && n <= BUFFER && pos % 4 == 0
    ensures Walk(buf, n, limit, pos).Panic?
            <==> Reached(buf, n, limit, pos).Some? && Reached(buf, n, limit, pos).value >= 248
    decreases |buf| - pos
  {
    hide Field16, Aligned;
    if pos + 4 <= limit && pos + 4 <= n {
      var attrType, attrLen := Field16(buf, pos), Field16(buf, pos + 2);
      if attrType == XOR_MAPPED_ADDRESS && attrLen >= 8 {
        ReachedIsAligned(buf, n, limit, pos);
      } else {
        PanicIff(buf, n, limit, pos + 4 + Aligned(attrLen));
      }
    }
  }

  lemma {:induction false} ReachedIsAligned(buf: seq<byte>, n: nat, limit: nat, pos: nat)
    requires n <= |buf| && pos % 4 == 0 && Reached(buf, n, limit, pos).Some?
    ensures var at := Reached(buf, n, limit, pos).value; pos <= at && at % 4 == 0 && at + 4 <= n
    decreases |buf| - pos
  {
    hide Field16, Aligned;
    if !(Field16(buf, pos) == XOR_MAPPED_ADDRESS && Field16(buf, pos + 2) >= 8) {
      var size := Aligned(Field16(buf, pos + 2));
      FourFurther(pos, size);
      ReachedIsAligned(buf, n, limit, pos + 4 + size);
    }
  }

  lemma FourFurther(pos: nat, size: nat)
    requires pos % 4 == 0 && size % 4 == 0
    ensures (pos + 4 + size) % 4 == 0
  {}

  /** A response of 252 bytes: length field 232, one attribute of another type and length 224,
      then the header of a mapped address whose value did not arrive. */
  function CutResponse(): (buf: seq<byte>)
    ensures |buf| == BUFFER
  {
    Zeros(2) + [0, 232] + Zeros(16) + [0, 0, 0, 224] + Zeros(224) + [0, 32, 0, 8] + Zeros(4)
  }

  lemma CutResponseFields()
    ensures var buf := CutResponse();
      && Field16(buf, 2) == 232
      && Field16(buf, 20) == 0 && Field16(buf, 22) == 224
      && Field16(buf, 248) == XOR_MAPPED_ADDRESS && Field16(buf, 250) == 8
  {
    var buf := CutResponse();
    assert buf[2..4] == [0, 232];
    assert buf[20..22] == [0, 0] && buf[22..24] == [0, 224];
    assert buf[248..250] == [0, 32] && buf[250..252] == [0, 8];
    TwoBytes(0, 232);
    TwoBytes(0, 0);
    TwoBytes(0, 224);
    TwoBytes(0, 32);
    TwoBytes(0, 8);
  }

  lemma TwoBytes(high: byte, low: byte)
    ensures FromBe([high, low]) == 256 * high + low
  {
    assert [high, low][..1] == [high] && [high][..0] == [];
    assert FromBe([high]) == high;
  }

  /** That response makes the client index past its buffer. */
  lemma CutResponsePanics(n: nat)
    requires 252 <= n <= BUFFER
    ensures var buf := CutResponse();
      Walk(buf, n, HEADER + Field16(buf, 2), HEADER) == Panic
  {
    hide Field16, CutResponse;
    CutResponseFields();
    var buf := CutResponse();
    assert Aligned(224) == 224;
    assert Walk(buf, n, 252, 248) == Panic;
  }

  /** Some response of n bytes makes the walk index past the buffer exactly from 252 bytes on. */
  lemma PanicPossibleIff(n: nat)
    requires HEADER <= n <= BUFFER
    ensures (exists buf: seq<byte> :: |buf| == BUFFER && Walk(buf, n, HEADER + Field16(buf, 2), HEADER).Panic?)
            <==> n >= 252
  {
    hide Field16, CutResponse, Walk, Reached;
    if n >= 252 {
      CutResponsePanics(n);
    } else {
      forall buf: seq<byte> | |buf| == BUFFER
        ensures !Walk(buf, n, HEADER + Field16(buf, 2), HEADER).Panic?
      {
        PanicIff(buf, n, HEADER + Field16(buf, 2), HEADER);
        if Reached(buf, n, HEADER + Field16(buf, 2), HEADER).Some? {
          ReachedIsAligned(buf, n, HEADER + Field16(buf, 2), HEADER);
        }
      }
    }
  }
}
