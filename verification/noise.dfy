/** The noise transport: key agreement, XOR keystream, and its length-prefixed frames. */
module Noise {
  import opened Bytes
  import opened Conn

  type Key = k: seq<byte> | |k| == 32 witness seq(32, _ => 0)

  // ----- key agreement --------------------------------------------------------------------

  /** b & 248 */
  function And248(b: byte): byte {
    b - b % 8
  }

  /** b & 127 */
  function And127(b: byte): byte {
    b % 128
  }

  /** b | 64 */
  function Or64(b: byte): byte {
    if b / 64 % 2 == 1 then b else b + 64
  }

  /** clampKey on a private key. */
  function Clamped(k: Key): Key {
    k[0 := And248(k[0])][31 := Or64(And127(k[31]))]
  }

  /** scalarBaseMult: the public key of a private key. */
  function Public(private: Key): Key {
    private[0 := Xor(private[0], 0x09)]
  }

  /** scalarMult: the secret derived from one side's private and the other side's public key. */
  function Shared(private: Key, point: Key): Key {
    XorWith(private, point)
  }

  /** What clamping is for: a multiple of eight below 2^255 with bit 254 set, little-endian, and
      nothing else changed; clamping again changes nothing. */
  lemma ClampedShape(k: Key)
    ensures var c := Clamped(k);
      && c[0] % 8 == 0 && 64 <= c[31] <= 127 && c[1..31] == k[1..31]
      && c[0] / 8 == k[0] / 8 && c[31] % 64 == k[31] % 64
      && Clamped(c) == c
  {}

  method ClampKey(k: array<byte>)
    requires k.Length == 32
    modifies k
    ensures k[..] == Clamped(old(k[..]))
  {
    k[0] := And248(k[0]);
    k[31] := And127(k[31]);
    k[31] := Or64(k[31]);
  }

  method ScalarBaseMult(dst: array<byte>, scalar: array<byte>)
    requires dst.Length == 32 && scalar.Length == 32 && dst != scalar
    modifies dst
    ensures dst[..] == Public(scalar[..])
    ensures dst[0] == Xor(scalar[0], 0x09) && dst[1..] == scalar[1..]
  {
    CopyInto(dst, 0, scalar[..]);
    dst[0] := Xor(dst[0], 0x09);
  }

  method ScalarMult(dst: array<byte>, scalar: array<byte>, point: array<byte>)
    requires dst.Length == 32 && scalar.Length == 32 && point.Length == 32
    requires dst != scalar && dst != point
    modifies dst
    ensures dst[..] == Shared(scalar[..], point[..])
    ensures forall i :: 0 <= i < 32 ==> dst[i] == Xor(scalar[i], point[i])
  {
    hide Xor;
    for i := 0 to 32
      invariant forall k :: 0 <= k < i ==> dst[k] == Xor(scalar[k], point[k])
      invariant scalar[..] == old(scalar[..]) && point[..] == old(point[..])
    {
      dst[i] := Xor(scalar[i], point[i]);
    }
  }

  /** Both sides derive the same secret, whatever private keys they drew. */
  lemma KeyAgreement(a: Key, b: Key)
    ensures Shared(a, Public(b)) == Shared(b, Public(a))
  {
    hide Shared, Public;
    forall i | 0 <= i < 32
      ensures Shared(a, Public(b))[i] == Shared(b, Public(a))[i]
    {
      AgreeAt(a, b, i);
    }
  }

  lemma AgreeAt(a: Key, b: Key, i: nat)
    requires i < 32
    ensures Shared(a, Public(b))[i] == Shared(b, Public(a))[i]
  {
    hide XorBits;
    assert Shared(a, Public(b))[i] == Xor(a[i], Public(b)[i]);
    assert Shared(b, Public(a))[i] == Xor(b[i], Public(a)[i]);
    if i == 0 {
      XorBitsSwap(a[0], b[0], 0x09);
    } else {
      XorBitsCommute(a[i], b[i]);
    }
  }

  /** xorCrypt, in place. */
  method XorCrypt(data: array<byte>, key: Key)
    modifies data
    ensures data[..] == XorWith(old(data[..]), key)
    ensures forall i :: 0 <= i < data.Length ==> data[i] == Xor(old(data[i]), key[i % 32])
  {
    for i := 0 to data.Length
      invariant forall k :: 0 <= k < i ==> data[k] == Xor(old(data[k]), key[k % 32])
      invariant forall k :: i <= k < data.Length ==> data[k] == old(data[k])
    {
      data[i] := Xor(data[i], key[i % 32]);
    }
  }

  // ----- frames ---------------------------------------------------------------------------

  /** The bytes of one Write: the low 16 bits of the length, then the encrypted payload. */
  function Encode(key: Key, payload: seq<byte>): (s: seq<byte>)
    ensures |s| == 2 + |payload|
  {
    [Low(|payload| / 256), Low(|payload|)] + XorWith(payload, key)
  }

  /** The layout byte for byte. */
  lemma FrameLayout(key: Key, payload: seq<byte>)
    ensures var s := Encode(key, payload);
      && s[0] as int * 256 + s[1] == |payload| % 65536
      && forall i :: 0 <= i < |payload| ==> s[2 + i] == Xor(payload[i], key[i % 32])
  {
    EncodedLength(|payload|);
  }

  /** The frame at the front of the stream, decrypted, and what follows it. */
  datatype Parsed = Frame(payload: seq<byte>, rest: seq<byte>) | Truncated

  function FrameLength(s: seq<byte>): (n: nat)
    requires |s| >= 2
    ensures n <= 65535
  {
    var high: int := s[0];
    high * 256 + s[1]
  }

  function Parse(s: seq<byte>, key: Key): (p: Parsed)
    ensures p.Frame? ==> |p.payload| + |p.rest| + 2 == |s| && |p.payload| <= 65535
  {
    if |s| < 2 then
      Truncated
    else
      var n := FrameLength(s);
      if |s| < 2 + n then Truncated else Frame(XorWith(s[2..2 + n], key), s[2 + n..])
  }

  lemma EncodedLength(n: nat)
    ensures Low(n / 256) * 256 + Low(n) == n % 65536
  {
    DivSplit(n, 256);
  }

  /** A payload is announced with its length modulo 65536; the excess stays on the stream. */
  lemma EncodedFrameParse(key: Key, payload: seq<byte>, rest: seq<byte>)
    ensures var n := |payload| % 65536;
      Parse(Encode(key, payload) + rest, key) == Frame(payload[..n], XorWith(payload, key)[n..] + rest)
  {
    var s, n := Encode(key, payload) + rest, |payload| % 65536;
    EncodedLength(|payload|);
    assert FrameLength(s) == n;
    assert s[2..2 + n] == XorWith(payload, key)[..n];
    assert s[2 + n..] == XorWith(payload, key)[n..] + rest;
    XorPrefix(payload, key, n);
    XorTwice(payload[..n], key);
  }

  /** A frame parses back exactly when its payload's length fits the 16-bit field. */
  lemma FrameReadableIff(key: Key, payload: seq<byte>, rest: seq<byte>)
    ensures Parse(Encode(key, payload) + rest, key) == Frame(payload, rest) <==> |payload| <= 65535
  {
    EncodedFrameParse(key, payload, rest);
    if |payload| <= 65535 {
      assert |payload| % 65536 == |payload|;
      assert XorWith(payload, key)[|payload|..] + rest == rest;
    }
  }

  lemma TwoParts(out: seq<byte>, header: seq<byte>, body: seq<byte>, sent: seq<byte>)
    ensures out + (header + body) == (out + header) + body
    ensures sent <= out + header ==> sent <= out + (header + body)
  {}

  class NoiseConn {
    const raw: RawConn
    const encKey: Key
    const decKey: Key

    constructor (raw: RawConn, shared: Key)
      ensures this.raw == raw && encKey == shared && decKey == shared
    {
      this.raw, encKey, decKey := raw, shared, shared;
    }

    /** Reads one whole frame; what does not fit in b[from..] is lost. */
    method Read(b: array<byte>, from: nat) returns (n: nat, ok: bool)
      requires from <= b.Length
      modifies raw`incoming, b
      ensures match Parse(old(raw.incoming), decKey)
        case Frame(payload, rest) =>
          ok && n == Min(b.Length - from, |payload|) && raw.incoming == rest
          && b[..] == old(b[..from]) + payload[..n] + old(b[..])[from + n..]
        case Truncated => !ok && n == 0 && raw.incoming == [] && b[..] == old(b[..])
    {
      ghost var s := raw.incoming;
      n := 0;
      var header := new byte[2](_ => 0);
      var _, okHeader := ReadFull(raw, header);
      if !okHeader {
        return 0, false;
      }
      assert header[..] == s[..2] && raw.incoming == s[2..];
      assert header[0] == s[0] && header[1] == s[1];
      var high: int := header[0];
      var length := high * 256 + header[1];
      var buf := new byte[length](_ => 0);
      var _, okBody := ReadFull(raw, buf);
      if !okBody {
        return 0, false;
      }
      assert buf[..] == s[2..][..length] == s[2..2 + length];
      assert raw.incoming == s[2..][length..] == s[2 + length..];
      XorCrypt(buf, decKey);
      assert Parse(s, decKey) == Frame(buf[..], raw.incoming);
      n := Min(b.Length - from, length);
      CopyInto(b, from, buf[..n]);
      ok := true;
    }

    /** Writes header and encrypted payload one after the other. */
    method Write(b: seq<byte>) returns (ok: bool)
      modifies raw`outgoing, raw`broken
      ensures ok == !raw.broken
      ensures ok ==> raw.outgoing == old(raw.outgoing) + Encode(encKey, b)
      ensures old(raw.outgoing) <= raw.outgoing <= old(raw.outgoing) + Encode(encKey, b)
      ensures old(raw.broken) ==> !ok && raw.outgoing == old(raw.outgoing)
    {
      hide XorWith;
      var encrypted := new byte[|b|](_ => 0);
      CopyInto(encrypted, 0, b);
      assert encrypted[..] == b;
      XorCrypt(encrypted, encKey);
      var header := [Low(|b| / 256), Low(|b|)];
      ok := raw.Write(header);
      TwoParts(old(raw.outgoing), header, encrypted[..], raw.outgoing);
      if ok {
        ok := raw.Write(encrypted[..]);
      }
    }
  }

  // ----- upgrade --------------------------------------------------------------------------

  /** A private key from the system's random source. */
  method RandomPrivate() returns (k: array<byte>)
    ensures fresh(k) && k.Length == 32
  {
    k := new byte[32];
  }

  /** A connection set up with the drawn private key: the public key has gone out, the first
      32 bytes that came in were taken as the peer's, and both directions use the secret. */
  ghost predicate Upgraded(nc: NoiseConn, raw: RawConn, drawn: Key, cameIn: seq<byte>, wentOut: seq<byte>)
    reads raw
  {
    && |cameIn| >= 32
    && raw.outgoing == wentOut + Public(Clamped(drawn))
    && raw.incoming == cameIn[32..]
    && nc.raw == raw
    && nc.encKey == nc.decKey == Shared(Clamped(drawn), cameIn[..32])
  }

  /** The public key that goes out is that of a clamped private key. */
  lemma ClampedGoesOut(before: seq<byte>, drawn: Key)
    ensures 64 <= (before + Public(Clamped(drawn)))[|before| + 31] <= 127
  {
    ClampedShape(drawn);
  }

  /** When each side receives what the other sent first, both hold the same keys. */
  lemma UpgradesAgree(server: NoiseConn, client: NoiseConn, s: Key, c: Key,
                      toServer: seq<byte>, toClient: seq<byte>)
    requires Upgraded(server, server.raw, s, Public(Clamped(c)) + toServer, [])
    requires Upgraded(client, client.raw, c, Public(Clamped(s)) + toClient, [])
    ensures server.encKey == client.decKey && client.encKey == server.decKey
    ensures server.raw.incoming == toServer && client.raw.incoming == toClient
  {
    KeyAgreement(Clamped(s), Clamped(c));
    assert (Public(Clamped(c)) + toServer)[..32] == Public(Clamped(c));
    assert (Public(Clamped(s)) + toClient)[..32] == Public(Clamped(s));
  }

  /** The noise section of the configuration: missing, or with a private key that is not base64,
      or with the bytes it decodes to. */
  datatype NoiseConfig = Missing | NotBase64 | PrivateKey(bytes: seq<byte>)

  predicate IsUsable(cfg: NoiseConfig) {
    cfg.PrivateKey? && |cfg.bytes| == 32
  }

  /** The server half of the exchange: with a configured key of 32 bytes it sends its public key,
      then reads the client's; otherwise it touches nothing. */
  method ServerUpgrade(raw: RawConn, cfg: NoiseConfig) returns (conn: Option<NoiseConn>, ghost drawn: Key)
    modifies raw
    ensures conn.Some? ==> Upgraded(conn.value, raw, drawn, old(raw.incoming), old(raw.outgoing))
    ensures conn.Some? ==> 64 <= raw.outgoing[|old(raw.outgoing)| + 31] <= 127
    ensures conn.None? ==> !IsUsable(cfg) || raw.broken || |old(raw.incoming)| < 32
    ensures !IsUsable(cfg) ==>
      conn.None? && raw.outgoing == old(raw.outgoing) && raw.incoming == old(raw.incoming)
  {
    hide Public, Shared, Clamped, Xor;
    drawn := Zeros(32);
    if !cfg.PrivateKey? || |cfg.bytes| != 32 {
      return None, drawn;
    }
    var priv := RandomPrivate();
    drawn := priv[..];
    ClampedGoesOut(raw.outgoing, drawn);
    ClampKey(priv);
    var pub := new byte[32](_ => 0);
    ScalarBaseMult(pub, priv);
    var sent := raw.Write(pub[..]);
    if !sent {
      return None, drawn;
    }
    var peer := new byte[32](_ => 0);
    var _, ok := ReadFull(raw, peer);
    if !ok {
      return None, drawn;
    }
    var shared := new byte[32](_ => 0);
    ScalarMult(shared, priv, peer);
    assert peer[..] == old(raw.incoming)[..32];
    var nc := new NoiseConn(raw, shared[..]);
    conn := Some(nc);
  }

  /** The client half: reads the server's public key, then sends its own. */
  method ClientUpgrade(raw: RawConn, cfg: NoiseConfig) returns (conn: Option<NoiseConn>, ghost drawn: Key)
    modifies raw
    ensures conn.Some? ==> Upgraded(conn.value, raw, drawn, old(raw.incoming), old(raw.outgoing))
    ensures conn.Some? ==> 64 <= raw.outgoing[|old(raw.outgoing)| + 31] <= 127
    ensures conn.None? ==> cfg.Missing? || raw.broken || |old(raw.incoming)| < 32
    ensures cfg.Missing? ==>
      conn.None? && raw.outgoing == old(raw.outgoing) && raw.incoming == old(raw.incoming)
  {
    hide Public, Shared, Clamped, Xor;
    drawn := Zeros(32);
    if cfg.Missing? {
      return None, drawn;
    }
    var peer := new byte[32](_ => 0);
    var _, ok := ReadFull(raw, peer);
    if !ok {
      return None, drawn;
    }
    var priv := RandomPrivate();
    drawn := priv[..];
    ClampedGoesOut(raw.outgoing, drawn);
    ClampKey(priv);
    var pub := new byte[32](_ => 0);
    ScalarBaseMult(pub, priv);
    var sent := raw.Write(pub[..]);
    if !sent {
      return None, drawn;
    }
    var shared := new byte[32](_ => 0);
    ScalarMult(shared, priv, peer);
    assert peer[..] == old(raw.incoming)[..32];
    var nc := new NoiseConn(raw, shared[..]);
    conn := Some(nc);
  }
}
