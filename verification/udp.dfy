/** UDP over a stream: datagram framing in both directions and the server's session table. */
module Udp {
  import opened Bytes
  import opened Conn

  // ----- framing --------------------------------------------------------------------------

  /** A datagram on the stream: the key of the source it came from and its payload. */
  datatype Datagram = Datagram(key: seq<byte>, payload: seq<byte>)

  const MAX_UDP_PACKET: nat := 65535

  /** What both sides write for a datagram. */
  function Encode(d: Datagram): (s: seq<byte>) {
    Be(|d.key|, 2) + d.key + Be(|d.payload|, 2) + d.payload
  }

  function Wire(ds: seq<Datagram>): seq<byte> {
    if ds == [] then [] else Encode(ds[0]) + Wire(ds[1..])
  }

  /** A field of 16-bit length and that many bytes, at the front of a stream. */
  datatype Field = Field(value: seq<byte>, rest: seq<byte>) | NoField

  function ParseField(s: seq<byte>): (f: Field)
    ensures f.Field? ==> |f.value| + |f.rest| + 2 == |s| && |f.value| < 65536
  {
    if |s| < 2 then NoField
    else
      var n := FromBe(s[..2]);
      FromBeBound(s[..2]);
      assert Pow256(2) == 65536;
      if |s| < 2 + n then NoField else Field(s[2..][..n], s[2 + n..])
  }

  datatype Parsed = Parsed(datagram: Datagram, rest: seq<byte>) | Truncated

  /** What both reading loops make of the front of the stream. */
  function Parse(s: seq<byte>): (p: Parsed)
    ensures p.Parsed? ==> |p.rest| < |s| && |p.datagram.key| < 65536 && |p.datagram.payload| < 65536
  {
    var key := ParseField(s);
    if key.NoField? then Truncated
    else
      var payload := ParseField(key.rest);
      if payload.NoField? then Truncated else Parsed(Datagram(key.value, payload.value), payload.rest)
  }

  /** The layout byte for byte: key length, key, payload length, payload. */
  lemma DatagramLayout(d: Datagram)
    ensures var s, k, n := Encode(d), |d.key|, |d.payload|;
      && |s| == 2 + k + 2 + n
      && s[0] as int * 256 + s[1] == k % 65536 && s[2..2 + k] == d.key
      && s[2 + k] as int * 256 + s[3 + k] == n % 65536 && s[4 + k..] == d.payload
  {
    TwoBytes(|d.key|);
    TwoBytes(|d.payload|);
  }

  lemma TwoBytes(n: nat)
    ensures Be(n, 2)[0] as int * 256 + Be(n, 2)[1] == n % 65536
  {
    BeAt(n, 2, 0);
    BeAt(n, 2, 1);
    assert Pow256(1) == 256 && Pow256(0) == 1;
    DivSplit(n, 256);
  }

  /** All complete datagrams on a stream, in order. */
  function ParseAll(s: seq<byte>): seq<Datagram> {
    match Parse(s)
    case Truncated => []
    case Parsed(d, rest) => [d] + ParseAll(rest)
  }

  predicate Fits(d: Datagram) {
    |d.key| <= 65535 && |d.payload| <= MAX_UDP_PACKET
  }

  lemma FieldRoundTrip(v: seq<byte>, rest: seq<byte>)
    requires |v| <= 65535
    ensures ParseField(Be(|v|, 2) + (v + rest)) == Field(v, rest)
  {
    assert Pow256(2) == 65536;
    BeRoundTrip(|v|, 2);
    ModUnique(|v|, 65536, 0, |v|);
    var s := Be(|v|, 2) + (v + rest);
    assert s[..2] == Be(|v|, 2) && s[2..] == v + rest;
    assert (v + rest)[..|v|] == v && s[2 + |v|..] == rest;
  }

  /** A datagram is read back with its boundaries exactly when both parts fit 16-bit lengths;
      the payload always does, as it was read into a buffer of 65535 bytes. */
  lemma DatagramRoundTripIff(d: Datagram, rest: seq<byte>)
    ensures Parse(Encode(d) + rest) == Parsed(d, rest) <==> Fits(d)
  {
    if Fits(d) {
      var tail := Be(|d.payload|, 2) + (d.payload + rest);
      assert Encode(d) + rest == Be(|d.key|, 2) + (d.key + tail);
      FieldRoundTrip(d.key, tail);
      FieldRoundTrip(d.payload, rest);
    }
  }

  /** The tunnel keeps every datagram, its boundaries and the order, empty ones included. */
  lemma {:induction false} TunnelRoundTrip(ds: seq<Datagram>, rest: seq<byte>)
    requires forall d :: d in ds ==> Fits(d)
    ensures ParseAll(Wire(ds) + rest) == ds + ParseAll(rest)
  {
    hide Parse, Encode;
    if ds == [] {
      assert Wire(ds) + rest == rest;
    } else {
      var later := Wire(ds[1..]) + rest;
      assert Wire(ds) + rest == Encode(ds[0]) + later;
      assert ds[0] in ds;
      DatagramRoundTripIff(ds[0], later);
      TunnelRoundTrip(ds[1..], rest);
      assert ds == [ds[0]] + ds[1..];
    }
  }

  lemma FieldExtends(s: seq<byte>, more: seq<byte>)
    requires ParseField(s).Field?
    ensures ParseField(s + more) == Field(ParseField(s).value, ParseField(s).rest + more)
  {
    var n := FromBe(s[..2]);
    assert (s + more)[..2] == s[..2];
    assert (s + more)[2..][..n] == s[2..][..n];
    assert (s + more)[2 + n..] == s[2 + n..] + more;
  }

  /** While the stream is still arriving, what has been read is a prefix of what was written. */
  lemma {:induction false} PartialStream(s: seq<byte>, more: seq<byte>)
    ensures ParseAll(s) <= ParseAll(s + more)
    decreases |s|
  {
    hide ParseField;
    if Parse(s).Parsed? {
      FieldExtends(s, more);
      FieldExtends(ParseField(s).rest, more);
      PartialStream(Parse(s).rest, more);
    }
  }

  /** ServerUDP's frame for n bytes in buf from the source with the given key. */
  method ServerFrame(key: seq<byte>, buf: array<byte>, n: nat) returns (frame: seq<byte>)
    requires n <= buf.Length
    ensures frame == Encode(Datagram(key, buf[..n]))
  {
    hide Be;
    var f := new byte[2 + |key| + 2 + n](_ => 0);
    CopyInto(f, 0, Be(|key|, 2));
    assert f[..2] == Be(|key|, 2);
    CopyInto(f, 2, key);
    assert f[..2 + |key|] == Be(|key|, 2) + key;
    CopyInto(f, 2 + |key|, Be(n, 2));
    assert f[..4 + |key|] == Be(|key|, 2) + key + Be(n, 2);
    CopyInto(f, 4 + |key|, buf[..n]);
    frame := f[..];
  }

  /** ClientUDP's frame: an empty key. */
  method ClientFrame(buf: array<byte>, n: nat) returns (frame: seq<byte>)
    requires n <= buf.Length
    ensures frame == Encode(Datagram([], buf[..n]))
  {
    var f := new byte[2 + 0 + 2 + n](_ => 0);
    CopyInto(f, 0, Be(0, 2));
    CopyInto(f, 2, Be(n, 2));
    CopyInto(f, 4, buf[..n]);
    assert f[..] == Be(0, 2) + [] + Be(n, 2) + buf[..n];
    frame := f[..];
  }

  /** Reads a 16-bit length and that many bytes. */
  method ReadField(stream: RawConn) returns (value: Option<seq<byte>>)
    modifies stream`incoming
    ensures match ParseField(old(stream.incoming))
      case Field(v, rest) => value == Some(v) && stream.incoming == rest
      case NoField => value == None
    ensures |stream.incoming| <= |old(stream.incoming)|
  {
    ghost var s := stream.incoming;
    var header := new byte[2](_ => 0);
    var _, okHeader := ReadFull(stream, header);
    if !okHeader {
      return None;
    }
    assert header[..] == s[..2] && stream.incoming == s[2..];
    var buf := new byte[FromBe(header[..])](_ => 0);
    var _, okBody := ReadFull(stream, buf);
    if !okBody {
      return None;
    }
    assert buf[..] == s[2..][..buf.Length] && stream.incoming == s[2 + buf.Length..];
    value := Some(buf[..]);
  }

  /** One pass of either reading loop. */
  method ReadDatagram(stream: RawConn) returns (d: Option<Datagram>)
    modifies stream`incoming
    ensures match Parse(old(stream.incoming))
      case Parsed(p, rest) => d == Some(p) && stream.incoming == rest
      case Truncated => d == None
  {
    hide ParseField;
    var key := ReadField(stream);
    if key.None? {
      return None;
    }
    var payload := ReadField(stream);
    if payload.None? {
      return None;
    }
    d := Some(Datagram(key.value, payload.value));
  }

  function PayloadsOf(ds: seq<Datagram>): (ps: seq<seq<byte>>)
    ensures |ps| == |ds|
  {
    seq(|ds|, i requires 0 <= i < |ds| => ds[i].payload)
  }

  /** ClientUDP's first loop: every payload on the stream goes to the local socket, in order,
      until the stream ends. */
  method RelayToLocal(stream: RawConn) returns (local: seq<seq<byte>>)
    modifies stream`incoming
    ensures local == PayloadsOf(ParseAll(old(stream.incoming)))
  {
    hide Parse;
    ghost var all, got := ParseAll(stream.incoming), [];
    local := [];
    while true
      invariant all == got + ParseAll(stream.incoming)
      invariant local == PayloadsOf(got)
      decreases |stream.incoming|
    {
      ghost var s := stream.incoming;
      var d := ReadDatagram(stream);
      if d.None? {
        return;
      }
      assert ParseAll(s) == [d.value] + ParseAll(stream.incoming);
      assert PayloadsOf(got + [d.value]) == PayloadsOf(got) + [d.value.payload];
      got := got + [d.value];
      local := local + [d.value.payload];
    }
  }

  // ----- the session table ----------------------------------------------------------------

  /** A source address; what it prints to is a parameter of the server. */
  type Addr = nat
  type Time = int

  const SECOND: Time := 1_000_000_000
  const SESSION_TIMEOUT: Time := 60 * SECOND
  const CLEANUP_TICK: Time := 30 * SECOND

  datatype Session = Session(addr: Addr, lastSeen: Time)

  type Table = map<seq<byte>, Session>

  predicate Expired(s: Session, now: Time) {
    now - s.lastSeen > SESSION_TIMEOUT
  }

  /** The table after a cleanup. */
  function Swept(t: Table, now: Time): Table {
    map k | k in t && !Expired(t[k], now) :: t[k]
  }

  class UdpServer {
    const printed: Addr -> seq<byte>
    var sessions: Table

    constructor (printed: Addr -> seq<byte>)
      ensures this.printed == printed && sessions == map[]
    {
      this.printed := printed;
      sessions := map[];
    }

    /** A datagram of n bytes in buf arrives from addr: the table is touched, then the frame for
        the stream is built. */
    method OnDatagram(addr: Addr, buf: array<byte>, n: nat, now: Time) returns (frame: seq<byte>)
      requires n <= buf.Length
      modifies this
      ensures sessions == old(sessions)[printed(addr) := Session(addr, now)]
      ensures frame == Encode(Datagram(printed(addr), buf[..n]))
    {
      var key := printed(addr);
      sessions := sessions[key := Session(addr, now)];
      frame := ServerFrame(key, buf, n);
    }

    /** One tick of the cleanup loop: visits every key and deletes the expired ones. */
    method Sweep(now: Time)
      modifies this
      ensures sessions == Swept(old(sessions), now)
    {
      var todo := sessions.Keys;
      while todo != {}
        invariant todo <= sessions.Keys <= old(sessions).Keys
        invariant forall k :: k in sessions ==> sessions[k] == old(sessions)[k]
        invariant forall k :: k in old(sessions) && k !in todo ==>
          (k in sessions <==> !Expired(old(sessions)[k], now))
        decreases todo
      {
        var k :| k in todo;
        if Expired(sessions[k], now) {
          sessions := sessions - {k};
        }
        todo := todo - {k};
      }
    }

    /** One pass of the stream loop: the address to send the payload to, if any. */
    method OnFrame(stream: RawConn) returns (ok: bool, target: Option<Addr>, payload: seq<byte>)
      modifies stream`incoming
      ensures match Parse(old(stream.incoming))
        case Truncated => !ok
        case Parsed(d, rest) =>
          && ok && stream.incoming == rest && payload == d.payload
          && target == if d.key in sessions then Some(sessions[d.key].addr) else None
    {
      hide Parse;
      target, payload := None, [];
      var d := ReadDatagram(stream);
      ok := d.Some?;
      if ok {
        payload := d.value.payload;
        if d.value.key in sessions {
          target := Some(sessions[d.value.key].addr);
        }
      }
    }
  }

  // ----- whole runs -----------------------------------------------------------------------

  /** The server over time: its table, the clock, the last cleanup, from where and when each key
      was last received, and what was sent to the socket. */
  datatype State = State(table: Table, now: Time, swept: Time, seen: Table, sent: seq<(Addr, seq<byte>)>)

  datatype Step = Receive(addr: Addr) | Tick | Frame(d: Datagram) | Wait(time: nat)

  /** Time passes freely, but never more than one period without a cleanup. */
  predicate Enabled(s: State, step: Step) {
    step.Wait? ==> s.now + step.time <= s.swept + CLEANUP_TICK
  }

  function Apply(printed: Addr -> seq<byte>, s: State, step: Step): State {
    match step
    case Receive(a) =>
      s.(table := s.table[printed(a) := Session(a, s.now)], seen := s.seen[printed(a) := Session(a, s.now)])
    case Tick => s.(table := Swept(s.table, s.now), swept := s.now)
    case Frame(d) => if d.key in s.table then s.(sent := s.sent + [(s.table[d.key].addr, d.payload)]) else s
    case Wait(time) => s.(now := s.now + time)
  }

  function Run(printed: Addr -> seq<byte>, s: State, steps: seq<Step>): Option<State>
    decreases |steps|
  {
    if steps == [] then Some(s)
    else if Enabled(s, steps[0]) then Run(printed, Apply(printed, s, steps[0]), steps[1..])
    else None
  }

  function Start(now: Time): State {
    State(map[], now, now, map[], [])
  }

  /** Every entry prints to its key, is the last session the key was received from, and is at most
      90 seconds old; a key received in the last 60 seconds is there. */
  ghost predicate Inv(printed: Addr -> seq<byte>, s: State) {
    && s.swept <= s.now <= s.swept + CLEANUP_TICK
    && (forall k :: k in s.table ==>
          k in s.seen && s.seen[k] == s.table[k] && s.swept - SESSION_TIMEOUT <= s.table[k].lastSeen)
    && (forall k :: k in s.seen ==> printed(s.seen[k].addr) == k && s.seen[k].lastSeen <= s.now)
    && (forall k :: k in s.seen && s.now - s.seen[k].lastSeen <= SESSION_TIMEOUT ==> k in s.table)
  }

  lemma StepKeepsInv(printed: Addr -> seq<byte>, s: State, step: Step)
    requires Inv(printed, s) && Enabled(s, step)
    ensures Inv(printed, Apply(printed, s, step))
  {}

  lemma {:induction false} RunKeepsInv(printed: Addr -> seq<byte>, s: State, steps: seq<Step>)
    requires Inv(printed, s) && Run(printed, s, steps).Some?
    ensures Inv(printed, Run(printed, s, steps).value)
    decreases |steps|
  {
    hide Inv, Apply, Enabled;
    if steps != [] {
      StepKeepsInv(printed, s, steps[0]);
      RunKeepsInv(printed, Apply(printed, s, steps[0]), steps[1..]);
    }
  }

  lemma StartHolds(printed: Addr -> seq<byte>, now: Time)
    ensures Inv(printed, Start(now))
  {}

  // ----- what happened in a run, from its steps alone --------------------------------------

  /** The time after the steps, which begin at the given time. */
  function Clock(now: Time, steps: seq<Step>): Time
    decreases |steps|
  {
    if steps == [] then now
    else Clock(if steps[0].Wait? then now + steps[0].time else now, steps[1..])
  }

  /** Where and when a datagram whose source prints to the key last arrived. */
  function LastReceived(printed: Addr -> seq<byte>, now: Time, steps: seq<Step>, k: seq<byte>): Option<Session>
    decreases |steps|
  {
    if steps == [] then None
    else
      match LastReceived(printed, Clock(now, [steps[0]]), steps[1..], k)
      case Some(session) => Some(session)
      case None =>
        if steps[0].Receive? && printed(steps[0].addr) == k then Some(Session(steps[0].addr, now)) else None
  }

  /** The records in the state are those of the steps. */
  lemma {:induction false} RunRecords(printed: Addr -> seq<byte>, s: State, steps: seq<Step>, k: seq<byte>)
    requires Run(printed, s, steps).Some?
    ensures var r, last := Run(printed, s, steps).value, LastReceived(printed, s.now, steps, k);
      && r.now == Clock(s.now, steps)
      && (last.Some? ==> k in r.seen && r.seen[k] == last.value)
      && (last.None? ==> (k in r.seen <==> k in s.seen) && (k in s.seen ==> r.seen[k] == s.seen[k]))
    decreases |steps|
  {
    if steps != [] {
      hide Swept;
      var s' := Apply(printed, s, steps[0]);
      assert [steps[0]][1..] == [];
      assert s'.now == Clock(s.now, [steps[0]]);
      RunRecords(printed, s', steps[1..], k);
    }
  }

  lemma RecordsFromStart(printed: Addr -> seq<byte>, start: Time, steps: seq<Step>, s: State, k: seq<byte>)
    requires Run(printed, Start(start), steps) == Some(s)
    ensures Inv(printed, s) && s.now == Clock(start, steps)
    ensures LastReceived(printed, start, steps, k) == if k in s.seen then Some(s.seen[k]) else None
  {
    hide Run, Inv;
    StartHolds(printed, start);
    RunKeepsInv(printed, Start(start), steps);
    RunRecords(printed, Start(start), steps, k);
  }

  /** The table in every run with a cleanup at least every 30 seconds: an entry is the last session
      its key was received from and at most 90 seconds old, and a source received from in the last
      60 seconds is present. */
  lemma TableOverRuns(printed: Addr -> seq<byte>, start: Time, steps: seq<Step>, s: State, k: seq<byte>)
    requires Run(printed, Start(start), steps) == Some(s)
    ensures s.now == Clock(start, steps)
    ensures var last := LastReceived(printed, start, steps, k);
      && (k in s.table ==>
            last == Some(s.table[k]) && printed(s.table[k].addr) == k && s.now - s.table[k].lastSeen <= 90 * SECOND)
      && (last.Some? && s.now - last.value.lastSeen <= 60 * SECOND ==> k in s.table)
    ensures (forall a :: printed(a) != []) ==> [] !in s.table
  {
    hide Run, LastReceived, Clock;
    RecordsFromStart(printed, start, steps, s, k);
  }

  /** A reply on the stream goes to the address its key was last received from while that was at
      most 60 seconds ago, and is dropped once it was more than 90 seconds ago or never. */
  lemma ReplyRule(printed: Addr -> seq<byte>, start: Time, steps: seq<Step>, s: State, d: Datagram)
    requires Run(printed, Start(start), steps) == Some(s)
    ensures var s', last := Apply(printed, s, Frame(d)), LastReceived(printed, start, steps, d.key);
      && (last.Some? && Clock(start, steps) - last.value.lastSeen <= 60 * SECOND ==>
            s'.sent == s.sent + [(last.value.addr, d.payload)])
      && (last.None? || Clock(start, steps) - last.value.lastSeen > 90 * SECOND ==> s'.sent == s.sent)
  {
    hide Run, LastReceived, Clock;
    RecordsFromStart(printed, start, steps, s, d.key);
  }

  /** The shortest run that answers: a datagram, a wait of at most one cleanup period, a reply. */
  lemma PromptReplyIsSent(printed: Addr -> seq<byte>, start: Time, a: Addr, wait: nat, payload: seq<byte>)
    requires wait <= 30 * SECOND
    ensures var r := Run(printed, Start(start), [Receive(a), Wait(wait), Frame(Datagram(printed(a), payload))]);
      r.Some? && r.value.sent == [(a, payload)]
  {
    var s1 := Apply(printed, Start(start), Receive(a));
    var s2 := Apply(printed, s1, Wait(wait));
    var last := [Frame(Datagram(printed(a), payload))];
    var s3 := Apply(printed, s2, last[0]);
    assert s3.sent == [(a, payload)];
    assert last[1..] == [] && Run(printed, s2, last) == Some(s3);
    var steps := [Receive(a), Wait(wait)] + last;
    assert steps[1..] == [Wait(wait)] + last && steps[1..][1..] == last;
    assert Run(printed, s1, [Wait(wait)] + last) == Some(s3);
  }

  /** And one that comes too late: three cleanup periods later the entry is gone. */
  lemma LateReplyIsDropped(printed: Addr -> seq<byte>, start: Time, a: Addr, payload: seq<byte>)
    ensures var period := 30 * SECOND;
      var r := Run(printed, Start(start),
                   [Receive(a)] + Periods(3) + [Frame(Datagram(printed(a), payload))]);
      r.Some? && r.value.now == start + 3 * period && r.value.sent == []
  {
    var s1 := Apply(printed, Start(start), Receive(a));
    var last := [Frame(Datagram(printed(a), payload))];
    assert last[1..] == [];
    assert ([Receive(a)] + Periods(3) + last)[1..] == Periods(3) + last;
    PeriodPasses(printed, s1, Periods(2) + last);
    PeriodPasses(printed, AfterPeriod(s1), Periods(1) + last);
    PeriodPasses(printed, AfterPeriod(AfterPeriod(s1)), Periods(0) + last);
    assert forall n | n in {1, 2, 3} :: Periods(n) + last == [Wait(30 * SECOND), Tick] + (Periods(n - 1) + last);
    assert Periods(0) + last == last;
  }

  /** Cleanup periods one after another. */
  function Periods(n: nat): seq<Step> {
    if n == 0 then [] else [Wait(30 * SECOND), Tick] + Periods(n - 1)
  }

  function AfterPeriod(s: State): State {
    var now := s.now + 30 * SECOND;
    s.(now := now, swept := now, table := Swept(s.table, now))
  }

  lemma PeriodPasses(printed: Addr -> seq<byte>, s: State, steps: seq<Step>)
    requires s.swept == s.now
    ensures Run(printed, s, [Wait(30 * SECOND), Tick] + steps) == Run(printed, AfterPeriod(s), steps)
  {
    var s1 := Apply(printed, s, Wait(30 * SECOND));
    assert ([Wait(30 * SECOND), Tick] + steps)[1..] == [Tick] + steps && ([Tick] + steps)[1..] == steps;
    assert Apply(printed, s1, Tick) == AfterPeriod(s);
    assert Run(printed, s1, [Tick] + steps) == Run(printed, AfterPeriod(s), steps);
  }

  function ClientDatagrams(payloads: seq<seq<byte>>): (ds: seq<Datagram>)
    ensures |ds| == |payloads|
  {
    seq(|payloads|, i requires 0 <= i < |payloads| => Datagram([], payloads[i]))
  }

  function FrameSteps(ds: seq<Datagram>): seq<Step> {
    seq(|ds|, i requires 0 <= i < |ds| => Frame(ds[i]))
  }

  lemma {:induction false} EmptyKeysSendNothing(printed: Addr -> seq<byte>, s: State, ds: seq<Datagram>)
    requires [] !in s.table && forall d :: d in ds ==> d.key == []
    ensures Run(printed, s, FrameSteps(ds)) == Some(s)
    decreases |ds|
  {
    if ds != [] {
      assert ds[0] in ds;
      assert FrameSteps(ds)[1..] == FrameSteps(ds[1..]);
      EmptyKeysSendNothing(printed, s, ds[1..]);
    }
  }

  /** Replies are addressed by key, and ClientUDP leaves the key empty: whatever it writes, the
      server parses exactly its payloads but, in every run, sends none of them, since no address
      prints to the empty string. */
  lemma ClientRepliesAreDropped(printed: Addr -> seq<byte>, start: Time, steps: seq<Step>, s: State,
                                payloads: seq<seq<byte>>)
    requires Run(printed, Start(start), steps) == Some(s)
    requires forall a :: printed(a) != []
    requires forall p :: p in payloads ==> |p| <= MAX_UDP_PACKET
    ensures var ds := ParseAll(Wire(ClientDatagrams(payloads)));
      && ds == ClientDatagrams(payloads)
      && Run(printed, s, FrameSteps(ds)) == Some(s)
  {
    var ds := ClientDatagrams(payloads);
    TunnelRoundTrip(ds, []);
    assert Wire(ds) + [] == Wire(ds) && ds + [] == ds;
    assert ParseAll([]) == [];
    StartHolds(printed, start);
    RunKeepsInv(printed, Start(start), steps);
    EmptyKeysSendNothing(printed, s, ds);
  }
}
