/** The WebSocket upgrade: what each side sends and how it reads the other through a buffered
    reader that is then thrown away. */
module Upgrade {
  import opened Bytes
  import opened Conn
  import opened Text
  import opened WebSocket

  // ----- texts ----------------------------------------------------------------------------

  /** The request line and the Host header. */
  function RequestHead(path: seq<byte>, host: seq<byte>): seq<byte> {
    Ascii("GET ") + path + Ascii(" HTTP/1.1") + CRLF + (Ascii("Host: ") + host + CRLF)
  }

  function RequestTail(key: seq<byte>): seq<byte> {
    Ascii("Upgrade: websocket") + CRLF
    + (Ascii("Connection: Upgrade") + CRLF
       + (Ascii("Sec-WebSocket-Key: ") + key + CRLF
          + (Ascii("Sec-WebSocket-Version: 13") + CRLF + CRLF)))
  }

  /** The client's whole request. */
  function Request(path: seq<byte>, host: seq<byte>, key: seq<byte>): seq<byte> {
    RequestHead(path, host) + RequestTail(key)
  }

  /** The server's whole answer, for an accept value. */
  function Response(accept: seq<byte>): seq<byte> {
    Ascii("HTTP/1.1 101 Switching Protocols") + CRLF
    + (Ascii("Upgrade: websocket") + CRLF
       + (Ascii("Connection: Upgrade") + CRLF
          + (Ascii("Sec-WebSocket-Accept: ") + accept + CRLF + CRLF)))
  }

  const GUID: seq<byte> := Ascii("258EAFA5-E914-47DA-95CA-C5AB0DC85B11")

  /** The accept value of a key, with SHA-1 as a parameter. */
  function Accept(sha1: seq<byte> -> seq<byte>, key: seq<byte>): seq<byte> {
    Base64(sha1(key + GUID))
  }

  // ----- reading --------------------------------------------------------------------------

  /** What the server's loop does with a trimmed header line. */
  function UpdateKey(key: seq<byte>, trimmed: seq<byte>): seq<byte> {
    if HasLowerPrefix(trimmed, Ascii("sec-websocket-key")) then
      match AfterColon(trimmed)
      case None => key
      case Some(value) => Trim(value)
    else key
  }

  /** The header loop up to the blank line: the key found and what follows, or the end of the
      stream before it. */
  datatype HeaderRead = Complete(key: seq<byte>, rest: seq<byte>) | Incomplete

  function Headers(s: seq<byte>, key: seq<byte>): HeaderRead
    decreases |s|
  {
    match NextLine(s)
    case NoLine => Incomplete
    case Line(line, rest) =>
      var trimmed := Trim(line);
      if trimmed == [] then Complete(key, rest) else Headers(rest, UpdateKey(key, trimmed))
  }

  /** The server's reading: the request line is skipped. */
  function ReadRequest(s: seq<byte>): HeaderRead {
    match NextLine(s)
    case NoLine => Incomplete
    case Line(_, rest) => Headers(rest, [])
  }

  predicate Contains(s: seq<byte>, part: seq<byte>) {
    part <= s || (s != [] && Contains(s[1..], part))
  }

  /** The client's reading: a status line that mentions 101, then headers it ignores. */
  datatype ResponseRead = Accepted(rest: seq<byte>) | Refused | Cut

  function ReadResponse(s: seq<byte>): ResponseRead {
    match NextLine(s)
    case NoLine => Cut
    case Line(line, rest) =>
      if !Contains(line, Ascii("101")) then Refused else Skipped(rest)
  }

  /** The client's header loop: everything up to the blank line is ignored. */
  function Skipped(s: seq<byte>): ResponseRead
    decreases |s|
  {
    match NextLine(s)
    case NoLine => Cut
    case Line(line, rest) => if Trim(line) == [] then Accepted(rest) else Skipped(rest)
  }

  /** Both loops stop at the same line. */
  lemma {:induction false} SkippedIsHeaders(s: seq<byte>, key: seq<byte>)
    ensures Skipped(s) == match Headers(s, key)
      case Incomplete => Cut
      case Complete(_, rest) => Accepted(rest)
    decreases |s|
  {
    hide NextLine, Trim, UpdateKey;
    match NextLine(s)
    case NoLine =>
    case Line(line, rest) =>
      if Trim(line) != [] {
        SkippedIsHeaders(rest, UpdateKey(key, Trim(line)));
      }
  }

  // ----- the two programs -----------------------------------------------------------------

  /** A bufio.Reader: bytes it has taken from the connection ahead of its user. */
  class BufReader {
    const raw: RawConn
    var buf: seq<byte>

    constructor (raw: RawConn)
      ensures this.raw == raw && buf == []
    {
      this.raw, buf := raw, [];
    }

    /** Everything its user has yet to see. */
    function Ahead(): seq<byte>
      reads this, raw
    {
      buf + raw.incoming
    }

    /** Takes some more bytes from the connection; none only at the end of the stream. */
    method Fill() returns (eof: bool)
      requires buf == []
      modifies this`buf, raw`incoming
      ensures Ahead() == old(Ahead())
      ensures eof ==> Ahead() == []
      ensures !eof ==> |raw.incoming| < |old(raw.incoming)|
    {
      var chunk := new byte[4096](_ => 0);
      var n;
      n, eof := raw.Read(chunk, 0);
      buf := chunk[..n];
      assert chunk[..n] == old(raw.incoming)[..n];
      assert old(raw.incoming)[..n] + old(raw.incoming)[n..] == old(raw.incoming);
    }

    /** ReadString('\n') */
    method ReadString() returns (line: seq<byte>, ok: bool)
      modifies this`buf, raw`incoming
      ensures match NextLine(old(Ahead()))
        case Line(l, rest) => ok && line == l && Ahead() == rest
        case NoLine => !ok
    {
      hide NextLine;
      line, ok := [], false;
      ghost var all := Ahead();
      while true
        invariant line + Ahead() == all && LF !in line
        decreases |raw.incoming|, |buf|
      {
        var r := NextLine(buf);
        if r.Line? {
          LineFound(line, buf, raw.incoming);
          line, buf := line + r.line, r.rest;
          return line, true;
        }
        ghost var ahead := Ahead();
        line, buf := line + buf, [];
        assert line + Ahead() == all;
        var eof := Fill();
        if eof {
          assert line + [] == line;
          return line, false;
        }
      }
    }
  }

  /** The first line of a text that has been read up to the middle of that line. */
  lemma LineFound(seen: seq<byte>, buf: seq<byte>, more: seq<byte>)
    requires LF !in seen && NextLine(buf).Line?
    ensures NextLine(seen + (buf + more)) == Line(seen + NextLine(buf).line, NextLine(buf).rest + more)
  {
    NextLineExtends(buf, more);
    LineBehind(seen, buf + more);
  }

  lemma NextLineCons(b: byte, s: seq<byte>)
    requires b != LF && NextLine(s).Line?
    ensures NextLine([b] + s) == Line([b] + NextLine(s).line, NextLine(s).rest)
  {
    assert ([b] + s)[1..] == s;
  }

  lemma {:induction false} LineBehind(seen: seq<byte>, s: seq<byte>)
    requires LF !in seen && NextLine(s).Line?
    ensures NextLine(seen + s) == Line(seen + NextLine(s).line, NextLine(s).rest)
  {
    hide NextLine;
    if seen == [] {
      assert seen + s == s && seen + NextLine(s).line == NextLine(s).line;
    } else {
      LineBehind(seen[1..], s);
      NextLineCons(seen[0], seen[1..] + s);
      assert [seen[0]] + (seen[1..] + s) == seen + s;
      assert [seen[0]] + (seen[1..] + NextLine(s).line) == seen + NextLine(s).line;
    }
  }

  /** The header loop of WSServerUpgrade; WSClientUpgrade's ignores the key. */
  method ReadHeaders(reader: BufReader) returns (r: Option<seq<byte>>)
    modifies reader`buf, reader.raw`incoming
    ensures match Headers(old(reader.Ahead()), [])
      case Complete(key, rest) => r == Some(key) && reader.Ahead() == rest
      case Incomplete => r == None
  {
    hide NextLine, Trim, UpdateKey;
    var wsKey := [];
    ghost var all := Headers(reader.Ahead(), []);
    while true
      invariant all == Headers(reader.Ahead(), wsKey)
      decreases |reader.Ahead()|
    {
      var line, ok := reader.ReadString();
      if !ok {
        return None;
      }
      var trimmed := Trim(line);
      if trimmed == [] {
        return Some(wsKey);
      }
      wsKey := UpdateKey(wsKey, trimmed);
    }
  }

  /** A WSConn over raw that has read nothing yet. */
  predicate IsNew(ws: WSConn, raw: RawConn, isClient: bool)
    reads ws, raw
  {
    ws.raw == raw && ws.isClient == isClient && ws.Valid() && ws.readBuf == []
  }

  /** WSServerUpgrade. `lost` is what the reader held when it was dropped. */
  method ServerUpgrade(raw: RawConn, sha1: seq<byte> -> seq<byte>) returns (ws: Option<WSConn>, ghost lost: seq<byte>)
    modifies raw
    ensures match ReadRequest(old(raw.incoming))
      case Complete(key, rest) =>
        if key == [] then
          ws == None && raw.outgoing == old(raw.outgoing)
        else
          && (ws.Some? <==> !raw.broken) && lost + raw.incoming == rest
          && (ws.Some? ==>
                var accept := Base64(sha1(key + Ascii("258EAFA5-E914-47DA-95CA-C5AB0DC85B11")));
                raw.outgoing == old(raw.outgoing) + Response(accept))
      case Incomplete => ws == None && raw.outgoing == old(raw.outgoing)
    ensures ws.Some? ==> IsNew(ws.value, raw, false)
  {
    hide NextLine, Headers, Response, Base64;
    lost := [];
    var reader := new BufReader(raw);
    assert reader.Ahead() == raw.incoming;
    var _, okLine := reader.ReadString();
    if !okLine {
      return None, lost;
    }
    var headers := ReadHeaders(reader);
    if headers.None? || headers.value == [] {
      return None, lost;
    }
    var ok := raw.Write(Response(Accept(sha1, headers.value)));
    lost := reader.buf;
    if !ok {
      return None, lost;
    }
    var conn := new WSConn(raw, false);
    ws := Some(conn);
  }

  /** The path asked for: the configured one, or /tunnel when there is none. */
  function PathOf(configured: Option<seq<byte>>): (path: seq<byte>)
    ensures configured == None || configured == Some([]) ==> path == [47, 116, 117, 110, 110, 101, 108]
    ensures configured.Some? && configured.value != [] ==> path == configured.value
  {
    if configured.Some? && configured.value != [] then configured.value else Ascii("/tunnel")
  }

  /** The client's half of the upgrade up to its one write. */
  method SendRequest(raw: RawConn, configured: Option<seq<byte>>, host: seq<byte>, key: seq<byte>) returns (ok: bool)
    modifies raw`outgoing, raw`broken
    ensures ok == !raw.broken
    ensures ok ==> raw.outgoing == old(raw.outgoing) + Request(PathOf(configured), host, key)
  {
    hide Request, Ascii;
    var path := Ascii("/tunnel");
    if configured.Some? && configured.value != [] {
      path := configured.value;
    }
    ok := raw.Write(Request(path, host, key));
  }

  /** WSClientUpgrade, with the configured path, if any, and the 16 random bytes of its key. */
  method ClientUpgrade(raw: RawConn, configured: Option<seq<byte>>, host: seq<byte>, keyBytes: seq<byte>)
    returns (ws: Option<WSConn>, ghost lost: seq<byte>)
    requires |keyBytes| == 16
    modifies raw
    ensures !raw.broken ==> raw.outgoing == old(raw.outgoing) + Request(PathOf(configured), host, Base64(keyBytes))
    ensures ws.Some? <==> !raw.broken && ReadResponse(old(raw.incoming)).Accepted?
    ensures ws.Some? ==> lost + raw.incoming == ReadResponse(old(raw.incoming)).rest
    ensures ws.Some? ==> IsNew(ws.value, raw, true)
  {
    hide NextLine, Headers, Skipped, Request, PathOf, Contains;
    lost := [];
    var sent := SendRequest(raw, configured, host, Base64(keyBytes));
    if !sent {
      return None, lost;
    }
    var reader := new BufReader(raw);
    assert reader.Ahead() == raw.incoming;
    var status, okStatus := reader.ReadString();
    if !okStatus || !Contains(status, Ascii("101")) {
      return None, lost;
    }
    SkippedIsHeaders(reader.Ahead(), []);
    var headers := ReadHeaders(reader);
    if headers.None? {
      return None, lost;
    }
    lost := reader.buf;
    var conn := new WSConn(raw, true);
    ws := Some(conn);
  }

  // ----- what the texts read as -----------------------------------------------------------

  lemma LineStep(body: seq<byte>, rest: seq<byte>, key: seq<byte>)
    requires LF !in body && StartsPlain(body)
    ensures Headers(body + CRLF + rest, key) == Headers(rest, UpdateKey(key, Trim(body + CRLF)))
  {
    hide Trim, UpdateKey;
    var b := body + [CR];
    assert body + CRLF == b + [LF];
    NextLineOf(b, rest);
    assert (body + CRLF)[0] == body[0];
    PlainIsNotBlank(body + CRLF);
  }

  lemma BlankStep(rest: seq<byte>, key: seq<byte>)
    ensures Headers(CRLF + rest, key) == Complete(key, rest)
  {
    hide Trim;
    assert CRLF + rest == [CR] + [LF] + rest;
    NextLineOf([CR], rest);
    assert [CR] + [LF] == CRLF;
    BlankLineIsBlank();
  }

  lemma BlankLineIsBlank()
    ensures Trim(CRLF) == []
  {
    hide SpaceFront, SpaceBack;
    TrimLeftDrops(CRLF, []);
    assert CRLF + [] == CRLF;
    assert SpaceBack([]) == 0;
  }

  /** A key the header can carry: what base64 of any bytes looks like. */
  predicate IsToken(key: seq<byte>) {
    key != [] && forall i :: 0 <= i < |key| ==> IsPlain(key[i])
  }

  const KEY_NAME: seq<byte> := Ascii("Sec-WebSocket-Key")

  /** The key's own line sets the key, whatever was found before it. */
  lemma KeyLine(key: seq<byte>, before: seq<byte>)
    requires IsToken(key)
    ensures var body := Ascii("Sec-WebSocket-Key: ") + key;
      LF !in body && StartsPlain(body) && UpdateKey(before, Trim(body + CRLF)) == key
  {
    hide Trim, AfterColon;
    var body := Ascii("Sec-WebSocket-Key: ") + key;
    assert body == KEY_NAME + [COLON] + ([32] + key);
    assert body[0] == 83 && body[|body| - 1] == key[|key| - 1];
    TrimFinds([], body, CRLF);
    assert [] + body + CRLF == body + CRLF;
    KeyValue(key);
    FixedTextsAreLines();
    assert LF !in key;
  }

  /** What a header line does to the key: nothing, unless it starts with the header's name in any
      case and has a colon; then the text behind the first colon, trimmed, is the key. */
  lemma UpdateKeyMeaning(key: seq<byte>, trimmed: seq<byte>, name: seq<byte>, value: seq<byte>)
    ensures !(Ascii("sec-websocket-key") <= LowerText(trimmed)) || COLON !in trimmed ==>
      UpdateKey(key, trimmed) == key
    ensures Ascii("sec-websocket-key") <= LowerText(trimmed) && COLON !in name && trimmed == name + [COLON] + value ==>
      UpdateKey(key, trimmed) == Trim(value)
  {
    hide Trim, AfterColon, HasLowerPrefix, LowerText;
    LowerPrefixIff(trimmed, Ascii("sec-websocket-key"));
    if COLON !in name {
      AfterColonOf(name, value);
    }
  }

  lemma FixedTextsAreLines()
    ensures LF !in Ascii("Sec-WebSocket-Key: ") && LF !in Ascii("Sec-WebSocket-Version: 13")
    ensures LF !in Ascii("Sec-WebSocket-Accept: ")
  {}

  lemma KeyValue(key: seq<byte>)
    requires IsToken(key)
    ensures var text := KEY_NAME + [COLON] + ([32] + key);
      && AfterColon(text) == Some([32] + key) && Trim([32] + key) == key
      && HasLowerPrefix(text, Ascii("sec-websocket-key"))
  {
    hide Trim, AfterColon, HasLowerPrefix;
    NameIsPrefix([COLON] + ([32] + key));
    assert KEY_NAME + [COLON] + ([32] + key) == KEY_NAME + ([COLON] + ([32] + key));
    AfterColonOf(KEY_NAME, [32] + key);
    TrimFinds([32], key, []);
    assert [32] + key + [] == [32] + key;
  }

  lemma NameIsPrefix(more: seq<byte>)
    ensures HasLowerPrefix(KEY_NAME + more, Ascii("sec-websocket-key")) && COLON !in KEY_NAME
  {
    hide HasLowerPrefix;
    PrefixByBytes(KEY_NAME + more, Ascii("sec-websocket-key"));
  }

  lemma OtherLine(body: seq<byte>, key: seq<byte>)
    requires body != [] && IsPlain(body[0]) && IsPlain(body[|body| - 1])
    requires !HasLowerPrefix(body, Ascii("sec-websocket-key"))
    ensures UpdateKey(key, Trim(body + CRLF)) == key
  {
    hide Trim, AfterColon, HasLowerPrefix, Ascii;
    TrimFinds([], body, CRLF);
    assert [] + body + CRLF == body + CRLF;
  }

  /** The fixed part of the request is read to its end and yields the key in it. */
  lemma TailYieldsKey(key: seq<byte>, before: seq<byte>, more: seq<byte>)
    requires IsToken(key)
    ensures Headers(RequestTail(key) + more, before) == Complete(key, more)
  {
    hide Headers, UpdateKey;
    var upgrade, connection := Ascii("Upgrade: websocket"), Ascii("Connection: Upgrade");
    var version := Ascii("Sec-WebSocket-Version: 13");
    var rest4 := CRLF + more;
    var rest3 := version + CRLF + rest4;
    var rest2 := Ascii("Sec-WebSocket-Key: ") + key + CRLF + rest3;
    var rest1 := connection + CRLF + rest2;
    assert RequestTail(key) + more == upgrade + CRLF + rest1;
    PlainLines();
    LineStep(upgrade, rest1, before);
    var k1 := UpdateKey(before, Trim(upgrade + CRLF));
    LineStep(connection, rest2, k1);
    var k2 := UpdateKey(k1, Trim(connection + CRLF));
    KeyLine(key, k2);
    LineStep(Ascii("Sec-WebSocket-Key: ") + key, rest3, k2);
    VersionLine(key);
    LineStep(version, rest4, key);
    BlankStep(more, key);
  }

  lemma PlainLines()
    ensures LF !in Ascii("Upgrade: websocket") && StartsPlain(Ascii("Upgrade: websocket"))
    ensures LF !in Ascii("Connection: Upgrade") && StartsPlain(Ascii("Connection: Upgrade"))
  {
    assert Ascii("Upgrade: websocket")[0] == 85;
    assert Ascii("Connection: Upgrade")[0] == 67;
  }

  lemma VersionLine(key: seq<byte>)
    ensures var version := Ascii("Sec-WebSocket-Version: 13");
      LF !in version && StartsPlain(version) && UpdateKey(key, Trim(version + CRLF)) == key
  {
    hide Trim, UpdateKey;
    VersionIsOther();
    OtherLine(Ascii("Sec-WebSocket-Version: 13"), key);
  }

  lemma VersionIsOther()
    ensures var version := Ascii("Sec-WebSocket-Version: 13");
      LF !in version && IsPlain(version[0]) && IsPlain(version[|version| - 1])
      && !HasLowerPrefix(version, Ascii("sec-websocket-key"))
  {
    var version := Ascii("Sec-WebSocket-Version: 13");
    FixedTextsAreLines();
    assert version[0] == 83 && version[24] == 51;
    assert Lower(version[14]) == 118 && Ascii("sec-websocket-key")[14] == 107;
    NoPrefixByByte(version, Ascii("sec-websocket-key"), 14);
  }

  /** The server's answer is accepted and read to its end. */
  lemma ResponseAccepted(accept: seq<byte>, more: seq<byte>)
    requires LF !in accept
    ensures ReadResponse(Response(accept) + more) == Accepted(more)
  {
    hide Headers, Skipped, UpdateKey, Contains;
    var status := Ascii("HTTP/1.1 101 Switching Protocols");
    var upgrade, connection := Ascii("Upgrade: websocket"), Ascii("Connection: Upgrade");
    var rest4 := CRLF + more;
    var rest3 := Ascii("Sec-WebSocket-Accept: ") + accept + CRLF + rest4;
    var rest2 := connection + CRLF + rest3;
    var rest1 := upgrade + CRLF + rest2;
    assert Response(accept) + more == status + [CR] + [LF] + rest1;
    StatusLine();
    NextLineOf(status + [CR], rest1);
    SkippedIsHeaders(rest1, []);
    PlainLines();
    LineStep(upgrade, rest2, []);
    var k1 := UpdateKey([], Trim(upgrade + CRLF));
    LineStep(connection, rest3, k1);
    var k2 := UpdateKey(k1, Trim(connection + CRLF));
    AcceptLine(accept);
    LineStep(Ascii("Sec-WebSocket-Accept: ") + accept, rest4, k2);
    BlankStep(more, UpdateKey(k2, Trim(Ascii("Sec-WebSocket-Accept: ") + accept + CRLF)));
  }

  lemma AcceptLine(accept: seq<byte>)
    requires LF !in accept
    ensures var body := Ascii("Sec-WebSocket-Accept: ") + accept; LF !in body && StartsPlain(body)
  {
    assert (Ascii("Sec-WebSocket-Accept: ") + accept)[0] == 83;
    FixedTextsAreLines();
  }

  lemma StatusLine()
    ensures var line := Ascii("HTTP/1.1 101 Switching Protocols") + [CR];
      LF !in line && Contains(line + [LF], Ascii("101"))
  {
    hide Contains, Ascii;
    var line := Ascii("HTTP/1.1 101 Switching Protocols") + [CR];
    StatusIsOneLine();
    StatusMentions101();
    ContainsAt(line + [LF], Ascii("101"), 9);
  }

  lemma StatusIsOneLine()
    ensures LF !in Ascii("HTTP/1.1 101 Switching Protocols")
  {}

  lemma StatusMentions101()
    ensures var line := Ascii("HTTP/1.1 101 Switching Protocols") + [CR] + [LF];
      line[9..12] == Ascii("101")
  {
    var line := Ascii("HTTP/1.1 101 Switching Protocols") + [CR] + [LF];
    assert line[9] == 49 && line[10] == 48 && line[11] == 49;
    assert Ascii("101") == [49, 48, 49];
  }

  lemma {:induction false} ContainsAt(s: seq<byte>, part: seq<byte>, i: nat)
    requires i + |part| <= |s| && s[i..i + |part|] == part
    ensures Contains(s, part)
  {
    if i == 0 {
      assert s[..|part|] == part;
    } else {
      assert s[1..][i - 1..i - 1 + |part|] == part;
      ContainsAt(s[1..], part, i - 1);
    }
  }

  predicate OccursAt(s: seq<byte>, part: seq<byte>, i: int) {
    0 <= i <= |s| - |part| && s[i..i + |part|] == part
  }

  lemma {:induction false} ContainsOccurs(s: seq<byte>, part: seq<byte>) returns (i: nat)
    requires Contains(s, part)
    ensures OccursAt(s, part, i)
  {
    if part <= s {
      i := 0;
      assert s[0..0 + |part|] == part;
    } else {
      var j := ContainsOccurs(s[1..], part);
      i := j + 1;
      assert s[1..][j..j + |part|] == s[i..i + |part|];
    }
  }

  /** Contains is true exactly when the part occurs somewhere. */
  lemma ContainsIff(s: seq<byte>, part: seq<byte>)
    ensures Contains(s, part) <==> exists i :: OccursAt(s, part, i)
  {
    if Contains(s, part) {
      var i := ContainsOccurs(s, part);
    }
    forall i | OccursAt(s, part, i)
      ensures Contains(s, part)
    {
      ContainsAt(s, part, i);
    }
  }

  lemma OccursInLine(status: seq<byte>, part: seq<byte>, i: int)
    requires part != [] && LF !in part
    ensures OccursAt(status + [LF], part, i) <==> OccursAt(status, part, i)
  {
    var line, n := status + [LF], |part|;
    if 0 <= i <= |status| - n {
      assert line[i..i + n] == status[i..i + n];
    } else if 0 <= i <= |line| - n {
      assert line[i..i + n][n - 1] == LF;
    }
  }

  /** Where the answer's first line ends, the client refuses exactly if "101" is nowhere in it. */
  lemma RefusedIff(status: seq<byte>, rest: seq<byte>)
    requires LF !in status
    ensures ReadResponse(status + [LF] + rest) == Refused <==> forall i :: !OccursAt(status, [49, 48, 49], i)
  {
    hide Contains, Skipped, OccursAt, Headers;
    SkippedIsHeaders(rest, []);
    var line := status + [LF];
    var part: seq<byte> := [49, 48, 49];
    NextLineOf(status, rest);
    ContainsIff(line, part);
    assert Ascii("101") == part;
    forall i
      ensures OccursAt(line, part, i) <==> OccursAt(status, part, i)
    {
      OccursInLine(status, part, i);
    }
  }

  /** For example, a 404 answer is refused. */
  lemma NotFoundIsRefused(rest: seq<byte>)
    ensures ReadResponse(Ascii("HTTP/1.1 404 Not Found") + CRLF + rest) == Refused
  {
    var status := Ascii("HTTP/1.1 404 Not Found") + [CR];
    NotFoundLine();
    assert Ascii("HTTP/1.1 404 Not Found") + CRLF + rest == status + [LF] + rest;
    forall i
      ensures !OccursAt(status, [49, 48, 49], i)
    {
      if 0 <= i <= |status| - 3 {
        assert status[i..i + 3][0] == status[i] && status[i..i + 3][1] == status[i + 1];
      }
    }
    RefusedIff(status, rest);
  }

  lemma NotFoundLine()
    ensures var status := Ascii("HTTP/1.1 404 Not Found") + [CR];
      LF !in status && forall i :: 0 <= i < |status| && status[i] == 49 ==> i == 5 || i == 7
    ensures (Ascii("HTTP/1.1 404 Not Found") + [CR])[6] == 46 && (Ascii("HTTP/1.1 404 Not Found") + [CR])[8] == 32
  {}

  /** The header loop runs into the end of the stream exactly when no complete line is blank. */
  lemma {:induction false} IncompleteIff(s: seq<byte>, key: seq<byte>)
    ensures Headers(s, key) == Incomplete <==> NoBlankLine(s)
    decreases |s|
  {
    hide NextLine, Trim, UpdateKey;
    if NextLine(s).Line? && Trim(NextLine(s).line) != [] {
      IncompleteIff(NextLine(s).rest, UpdateKey(key, Trim(NextLine(s).line)));
    }
  }

  // ----- the texts, line by line ----------------------------------------------------------

  /** A text split at its line ends, whose CR is dropped too. */
  function LinesOf(s: seq<byte>): seq<seq<byte>>
    decreases |s|
  {
    match NextLine(s)
    case NoLine => if s == [] then [] else [s]
    case Line(line, rest) =>
      [if |line| >= 2 && line[|line| - 2] == CR then line[..|line| - 2] else line[..|line| - 1]] + LinesOf(rest)
  }

  lemma LinesStep(body: seq<byte>, rest: seq<byte>)
    requires LF !in body
    ensures LinesOf(body + CRLF + rest) == [body] + LinesOf(rest)
  {
    var b := body + [CR];
    assert body + CRLF + rest == b + [LF] + rest;
    NextLineOf(b, rest);
    assert (b + [LF])[..|b| - 1] == body;
  }

  /** The client's request is these lines and no other. */
  lemma RequestLines(path: seq<byte>, host: seq<byte>, key: seq<byte>)
    requires LF !in path && LF !in host && LF !in key
    ensures LinesOf(Request(path, host, key)) == [
      Ascii("GET ") + path + Ascii(" HTTP/1.1"),
      Ascii("Host: ") + host,
      Ascii("Upgrade: websocket"),
      Ascii("Connection: Upgrade"),
      Ascii("Sec-WebSocket-Key: ") + key,
      Ascii("Sec-WebSocket-Version: 13"),
      []]
  {
    hide Ascii, LinesOf;
    FirstLines();
    FixedTextsAreLines();
    PlainLines();
    var l1, l2 := Ascii("GET ") + path + Ascii(" HTTP/1.1"), Ascii("Host: ") + host;
    var l5, l6 := Ascii("Sec-WebSocket-Key: ") + key, Ascii("Sec-WebSocket-Version: 13");
    var r5 := l6 + CRLF + (CRLF + []);
    var r4 := l5 + CRLF + r5;
    var r3 := Ascii("Connection: Upgrade") + CRLF + r4;
    var r2 := Ascii("Upgrade: websocket") + CRLF + r3;
    var r1 := l2 + CRLF + r2;
    assert Request(path, host, key) == l1 + CRLF + r1;
    LinesStep(l1, r1);
    LinesStep(l2, r2);
    LinesStep(Ascii("Upgrade: websocket"), r3);
    LinesStep(Ascii("Connection: Upgrade"), r4);
    LinesStep(l5, r5);
    LinesStep(l6, CRLF + []);
    NoMoreLines();
  }

  /** And the server's answer these. */
  lemma ResponseLines(accept: seq<byte>)
    requires LF !in accept
    ensures LinesOf(Response(accept)) == [
      Ascii("HTTP/1.1 101 Switching Protocols"),
      Ascii("Upgrade: websocket"),
      Ascii("Connection: Upgrade"),
      Ascii("Sec-WebSocket-Accept: ") + accept,
      []]
  {
    hide Ascii, LinesOf;
    StatusIsOneLine();
    FixedTextsAreLines();
    PlainLines();
    var l1, l4 := Ascii("HTTP/1.1 101 Switching Protocols"), Ascii("Sec-WebSocket-Accept: ") + accept;
    var r3 := l4 + CRLF + (CRLF + []);
    var r2 := Ascii("Connection: Upgrade") + CRLF + r3;
    var r1 := Ascii("Upgrade: websocket") + CRLF + r2;
    assert Response(accept) == l1 + CRLF + r1;
    LinesStep(l1, r1);
    LinesStep(Ascii("Upgrade: websocket"), r2);
    LinesStep(Ascii("Connection: Upgrade"), r3);
    LinesStep(l4, CRLF + []);
    NoMoreLines();
  }

  lemma NoMoreLines()
    ensures LinesOf(CRLF + []) == [[]]
  {
    LinesStep([], []);
    assert [] + CRLF + [] == CRLF + [];
  }

  // ----- paths and hosts ------------------------------------------------------------------

  /** The text of path and host behind the request line: what the server takes for headers. */
  function Injected(path: seq<byte>, host: seq<byte>): seq<byte> {
    match NextLine(RequestHead(path, host))
    case NoLine => []
    case Line(_, rest) => rest
  }

  /** No complete line of the text is blank. */
  predicate NoBlankLine(s: seq<byte>)
    decreases |s|
  {
    match NextLine(s)
    case NoLine => true
    case Line(line, rest) => Trim(line) != [] && NoBlankLine(rest)
  }

  /** Headers over complete lines: they are all passed if none is blank, and otherwise reading
      stops inside them. */
  lemma {:induction false} CompleteLines(s: seq<byte>, tail: seq<byte>, key: seq<byte>) returns (found: seq<byte>)
    requires s == [] || s[|s| - 1] == LF
    ensures NoBlankLine(s) ==> Headers(s + tail, key) == Headers(tail, found)
    ensures !NoBlankLine(s) ==> Headers(s + tail, key).Complete? && |Headers(s + tail, key).rest| >= |tail|
    decreases |s|
  {
    hide NextLine, Trim, UpdateKey;
    found := key;
    if s == [] {
      assert s + tail == tail;
      assert NextLine(s).NoLine?;
    } else {
      assert LF in s;
      var line, rest := NextLine(s).line, NextLine(s).rest;
      NextLineExtends(s, tail);
      if Trim(line) != [] {
        assert rest == [] || rest[|rest| - 1] == s[|s| - 1];
        found := CompleteLines(rest, tail, UpdateKey(key, Trim(line)));
      }
    }
  }

  /** The server reads a request to its end, and finds exactly the key sent, if and only if path
      and host do not smuggle a blank line into the headers. */
  lemma RequestConsumedIff(path: seq<byte>, host: seq<byte>, key: seq<byte>, more: seq<byte>)
    requires IsToken(key)
    ensures ReadRequest(Request(path, host, key) + more) == Complete(key, more)
            <==> NoBlankLine(Injected(path, host))
  {
    hide NextLine, Headers, RequestTail;
    var head, tail := RequestHead(path, host), RequestTail(key) + more;
    assert Request(path, host, key) + more == head + tail;
    assert head[|head| - 1] == LF;
    NextLineExtends(head, tail);
    var line, text := NextLine(head).line, NextLine(head).rest;
    assert text == [] || text[|text| - 1] == head[|head| - 1];
    var found := CompleteLines(text, tail, []);
    TailYieldsKey(key, found, more);
    assert |RequestTail(key)| > 0 by {
      RequestTailLong(key);
    }
  }

  lemma RequestTailLong(key: seq<byte>)
    ensures |RequestTail(key)| > 0
  {}

  /** Inputs for which it fails: a path with an empty line, and one with a line that is only
      U+00A0, which Go trims as well. */
  lemma BlankLineInPath(host: seq<byte>)
    ensures !NoBlankLine(Injected([47, LF, LF], host))
    ensures !NoBlankLine(Injected([47, LF, 0xC2, 0xA0, LF], host))
  {
    hide NoBlankLine, Injected, IsBlank;
    TwoBlankLines();
    BlankSecondLine([], host);
    BlankSecondLine([0xC2, 0xA0], host);
    assert [47, LF] + ([] + [LF]) == [47, LF, LF];
    assert [47, LF] + ([0xC2, 0xA0] + [LF]) == [47, LF, 0xC2, 0xA0, LF];
  }

  lemma TwoBlankLines()
    ensures IsBlank([] + [LF]) && IsBlank([0xC2, 0xA0] + [LF])
  {
    var nbsp: seq<byte> := [0xC2, 0xA0];
    assert [] + [LF] == [LF] && [LF][1..] == [];
    assert (nbsp + [LF])[..1] == [0xC2] && (nbsp + [LF])[..2] == nbsp && (nbsp + [LF])[2..] == [LF];
    assert SpaceFront(nbsp + [LF]) == 2 by {
      assert nbsp[0] == 0xC2 && nbsp[1] == 0xA0 && |[0xC2]| == 1;
    }
    assert IsBlank([LF]);
  }

  lemma BlankSecondLine(blank: seq<byte>, host: seq<byte>)
    requires LF !in blank && IsBlank(blank + [LF])
    ensures !NoBlankLine(Injected([47, LF] + (blank + [LF]), host))
  {
    hide Trim, IsBlank;
    var first := Ascii("GET ") + [47];
    var behind := Ascii(" HTTP/1.1") + CRLF + (Ascii("Host: ") + host + CRLF);
    assert RequestHead([47, LF] + (blank + [LF]), host) == first + [LF] + (blank + [LF] + behind);
    FirstLines();
    NextLineOf(first, blank + [LF] + behind);
    NextLineOf(blank, behind);
    BlankIff(blank + [LF]);
  }

  /** Text without line feeds cannot: every ordinary path and host is safe. */
  lemma OrdinaryIsSafe(path: seq<byte>, host: seq<byte>)
    requires LF !in path && LF !in host
    ensures NoBlankLine(Injected(path, host))
  {
    hide Ascii, Trim;
    var first := Ascii("GET ") + path + Ascii(" HTTP/1.1") + [CR];
    var second := Ascii("Host: ") + host + [CR];
    assert RequestHead(path, host) == first + [LF] + (second + [LF]);
    FirstLines();
    assert LF !in first && LF !in second;
    NextLineOf(first, second + [LF]);
    NextLineOf(second, []);
    assert second + [LF] + [] == second + [LF];
    assert (second + [LF])[0] == 72;
    PlainIsNotBlank(second + [LF]);
  }

  lemma FirstLines()
    ensures LF !in Ascii("GET ") && LF !in Ascii(" HTTP/1.1") && LF !in Ascii("Host: ")
    ensures Ascii("Host: ")[0] == 72
  {}

  /** The key the client generates is a token, and no accept value holds a line feed. */
  lemma KeysAreTokens(keyBytes: seq<byte>)
    ensures LF !in Base64(keyBytes)
    ensures keyBytes != [] ==> IsToken(Base64(keyBytes))
  {
    var key := Base64(keyBytes);
    assert forall i :: 0 <= i < |key| ==> IsPlain(key[i]);
  }
}
