/** The upgrade as a two-party protocol: client, server, the bytes in flight between them and
    their buffered readers, in every interleaving. */
module Handoff {
  import opened Bytes
  import opened Text
  import opened Upgrade
  import Frames
  import FrameStreams

  datatype ClientPhase = Fresh | AwaitStatus | AwaitHeaders | ClientUp | ClientFailed

  datatype ServerPhase = AwaitRequest | InHeaders(key: seq<byte>) | ServerUp(key: seq<byte>) | ServerFailed

  /** `toServer` and `toClient` are in flight; the buffers belong to the bufio.Readers, and what
      they hold when the readers are dropped is lost. After the upgrade each side's own writes
      and what it has read are recorded. */
  datatype State = State(
    client: ClientPhase, server: ServerPhase,
    toServer: seq<byte>, toClient: seq<byte>,
    clientBuf: seq<byte>, serverBuf: seq<byte>,
    clientLost: seq<byte>, serverLost: seq<byte>,
    clientSent: seq<byte>, clientGot: seq<byte>,
    serverSent: seq<byte>, serverGot: seq<byte>)

  datatype Step =
    | ClientRequests
    | ClientFills(n: nat)
    | ClientLine
    | ClientWrites(data: seq<byte>)
    | ClientReads(n: nat)
    | ServerFills(n: nat)
    | ServerLine
    | ServerWrites(data: seq<byte>)
    | ServerReads(n: nat)

  /** The parameters of one connection: what the client sends first, and the server's SHA-1. */
  datatype Setup = Setup(request: seq<byte>, sha1: seq<byte> -> seq<byte>)

  const INIT: State := State(Fresh, AwaitRequest, [], [], [], [], [], [], [], [], [], [])

  /** Readers take any bytes that are in flight, ahead of what their lines need. The client uses
      the connection freely once upgraded; the server writes only after reading something, as
      its first act is to read the Auth message. */
  predicate Enabled(s: State, step: Step) {
    match step
    case ClientRequests => s.client.Fresh?
    case ClientFills(n) => (s.client.AwaitStatus? || s.client.AwaitHeaders?) && n <= |s.toClient|
    case ClientLine => (s.client.AwaitStatus? || s.client.AwaitHeaders?) && NextLine(s.clientBuf).Line?
    case ClientWrites(_) => s.client.ClientUp?
    case ClientReads(n) => s.client.ClientUp? && n <= |s.toClient|
    case ServerFills(n) => (s.server.AwaitRequest? || s.server.InHeaders?) && n <= |s.toServer|
    case ServerLine => (s.server.AwaitRequest? || s.server.InHeaders?) && NextLine(s.serverBuf).Line?
    case ServerWrites(_) => s.server.ServerUp? && s.serverGot != []
    case ServerReads(n) => s.server.ServerUp? && n <= |s.toServer|
  }

  function Apply(p: Setup, s: State, step: Step): State
    requires Enabled(s, step)
  {
    match step
    case ClientRequests => s.(client := AwaitStatus, toServer := s.toServer + p.request)
    case ClientFills(n) => s.(clientBuf := s.clientBuf + s.toClient[..n], toClient := s.toClient[n..])
    case ClientLine =>
      var l := NextLine(s.clientBuf);
      if s.client.AwaitStatus? then
        s.(clientBuf := l.rest, client := if Contains(l.line, Ascii("101")) then AwaitHeaders else ClientFailed)
      else if Trim(l.line) == [] then s.(client := ClientUp, clientLost := l.rest, clientBuf := [])
      else s.(clientBuf := l.rest)
    case ClientWrites(data) => s.(toServer := s.toServer + data, clientSent := s.clientSent + data)
    case ClientReads(n) => s.(clientGot := s.clientGot + s.toClient[..n], toClient := s.toClient[n..])
    case ServerFills(n) => s.(serverBuf := s.serverBuf + s.toServer[..n], toServer := s.toServer[n..])
    case ServerLine =>
      var l := NextLine(s.serverBuf);
      if s.server.AwaitRequest? then s.(serverBuf := l.rest, server := InHeaders([]))
      else if Trim(l.line) != [] then
        s.(serverBuf := l.rest, server := InHeaders(UpdateKey(s.server.key, Trim(l.line))))
      else if s.server.key == [] then s.(serverBuf := [], server := ServerFailed)
      else
        s.(serverBuf := [], serverLost := l.rest, server := ServerUp(s.server.key),
           toClient := s.toClient + Response(Accept(p.sha1, s.server.key)))
    case ServerWrites(data) => s.(toClient := s.toClient + data, serverSent := s.serverSent + data)
    case ServerReads(n) => s.(serverGot := s.serverGot + s.toServer[..n], toServer := s.toServer[n..])
  }

  function Run(p: Setup, s: State, steps: seq<Step>): Option<State>
    decreases |steps|
  {
    if steps == [] then Some(s)
    else if Enabled(s, steps[0]) then Run(p, Apply(p, s, steps[0]), steps[1..])
    else None
  }

  // ----- the invariant --------------------------------------------------------------------

  /** What the server will make of the bytes before it. */
  function ServerView(phase: ServerPhase, s: seq<byte>): HeaderRead
    requires phase.AwaitRequest? || phase.InHeaders?
  {
    if phase.AwaitRequest? then ReadRequest(s) else Headers(s, phase.key)
  }

  function ClientView(phase: ClientPhase, s: seq<byte>): ResponseRead
    requires phase.AwaitStatus? || phase.AwaitHeaders?
  {
    if phase.AwaitStatus? then ReadResponse(s) else Skipped(s)
  }

  /** The part of the request behind its first blank line: empty for an ordinary request. */
  function Residue(p: Setup): seq<byte> {
    match ReadRequest(p.request)
    case Incomplete => []
    case Complete(_, rest) => rest
  }

  predicate Idle(s: State) {
    s.clientSent == [] && s.clientGot == [] && s.serverSent == [] && s.serverGot == []
  }

  predicate BeforeUp(s: State) {
    s.server.AwaitRequest? || s.server.InHeaders?
  }

  /** Before the server is up nothing has come back and nobody has gone past the upgrade. */
  predicate QuietBefore(s: State) {
    && (s.client.Fresh? ==> s.server.AwaitRequest? && s.toServer == [] && s.serverBuf == [])
    && (!s.server.ServerUp? ==>
          && s.toClient == [] && s.clientBuf == [] && (s.client.Fresh? || s.client.AwaitStatus?)
          && s.serverSent == [] && s.serverGot == [] && s.serverLost == [])
    && (!s.client.ClientUp? ==> s.clientSent == [] && s.clientGot == [])
  }

  /** From the client to the server: first what the server will make of the request, then where
      the bytes behind the request's blank line and the client's own bytes are. */
  ghost predicate ToServerInv(p: Setup, s: State) {
    && (BeforeUp(s) && !s.client.Fresh? ==>
          ServerView(s.server, s.serverBuf + s.toServer) == ReadRequest(p.request))
    && (s.server.ServerUp? ==>
          && s.serverLost <= Residue(p)
          && s.serverLost + s.serverGot + s.toServer == Residue(p) + s.clientSent
          && ReadRequest(p.request) == Complete(s.server.key, Residue(p)))
  }

  /** From the server to the client: behind the answer come the server's own bytes, which the
      client's reader drops, the client reads, or are in flight. */
  ghost predicate ToClientInv(s: State) {
    && !s.client.ClientFailed?
    && (s.server.ServerUp? && !s.client.ClientUp? ==>
          && !s.client.Fresh?
          && ClientView(s.client, s.clientBuf + s.toClient) == Accepted(s.serverSent))
    && (s.client.ClientUp? ==> s.clientLost + s.clientGot + s.toClient == s.serverSent)
  }

  /** When the request was read to its end, the server has nothing to answer before the client is
      up. */
  predicate NothingEarly(s: State) {
    s.clientLost == [] && (!s.client.ClientUp? ==> s.serverSent == [])
  }

  lemma MoveAhead(buf: seq<byte>, wire: seq<byte>, n: nat)
    requires n <= |wire|
    ensures (buf + wire[..n]) + wire[n..] == buf + wire
  {}

  /** The server's next line, read from its buffer, is the next line of all that is before it. */
  lemma ServerLineView(s: State)
    requires BeforeUp(s) && NextLine(s.serverBuf).Line?
    ensures var l := NextLine(s.serverBuf);
      ServerView(s.server, s.serverBuf + s.toServer) ==
        if s.server.AwaitRequest? then Headers(l.rest + s.toServer, [])
        else if Trim(l.line) == [] then Complete(s.server.key, l.rest + s.toServer)
        else Headers(l.rest + s.toServer, UpdateKey(s.server.key, Trim(l.line)))
  {
    hide NextLine, Trim, UpdateKey;
    NextLineExtends(s.serverBuf, s.toServer);
  }

  lemma ClientLineView(s: State)
    requires (s.client.AwaitStatus? || s.client.AwaitHeaders?) && NextLine(s.clientBuf).Line?
    ensures var l := NextLine(s.clientBuf);
      ClientView(s.client, s.clientBuf + s.toClient) ==
        if s.client.AwaitStatus? then
          if Contains(l.line, Ascii("101")) then Skipped(l.rest + s.toClient) else Refused
        else if Trim(l.line) == [] then Accepted(l.rest + s.toClient)
        else Skipped(l.rest + s.toClient)
  {
    hide NextLine, Trim, Contains;
    NextLineExtends(s.clientBuf, s.toClient);
  }

  lemma StepQuiet(p: Setup, s: State, step: Step)
    requires QuietBefore(s) && Enabled(s, step)
    ensures QuietBefore(Apply(p, s, step))
  {
    hide NextLine, Trim, UpdateKey, Response, Contains;
    NoLineInNothing();
  }

  lemma NoLineInNothing()
    ensures NextLine([]).NoLine?
  {}

  lemma StepToServer(p: Setup, s: State, step: Step)
    requires QuietBefore(s) && ToServerInv(p, s) && Enabled(s, step)
    ensures ToServerInv(p, Apply(p, s, step))
  {
    hide NextLine, Headers, ReadRequest, Trim, UpdateKey, Response, Contains, Skipped, ReadResponse;
    match step
    case ServerLine => StepServerLine(p, s);
    case ServerFills(n) => MoveAhead(s.serverBuf, s.toServer, n);
    case ClientRequests =>
      assert [] + ([] + p.request) == p.request;
    case ServerReads(n) =>
      assert s.serverLost + (s.serverGot + s.toServer[..n]) + s.toServer[n..]
          == s.serverLost + s.serverGot + s.toServer;
    case ClientWrites(data) =>
      if s.server.ServerUp? {
        assert s.serverLost + s.serverGot + (s.toServer + data) == (s.serverLost + s.serverGot + s.toServer) + data;
        assert Residue(p) + (s.clientSent + data) == (Residue(p) + s.clientSent) + data;
      }
    case ClientFills(_) =>
    case ClientLine =>
      NoLineInNothing();
    case ClientReads(_) =>
    case ServerWrites(_) =>
  }

  lemma StepServerLine(p: Setup, s: State)
    requires QuietBefore(s) && ToServerInv(p, s) && Enabled(s, ServerLine)
    ensures ToServerInv(p, Apply(p, s, ServerLine))
  {
    hide NextLine, Headers, ReadRequest, Trim, UpdateKey, Response, Contains, Skipped, ReadResponse;
    NoLineInNothing();
    ServerLineView(s);
    var s' := Apply(p, s, ServerLine);
    if s'.server.ServerUp? {
      assert s'.serverLost + [] + s'.toServer == Residue(p) + [];
    }
  }

  lemma StepToClient(p: Setup, s: State, step: Step)
    requires QuietBefore(s) && ToClientInv(s) && Enabled(s, step)
    ensures ToClientInv(Apply(p, s, step))
  {
    hide NextLine, Headers, ReadRequest, Trim, UpdateKey, Response, Contains, Skipped, ReadResponse;
    match step
    case ClientFills(n) => MoveAhead(s.clientBuf, s.toClient, n);
    case ClientLine => StepClientLine(p, s);
    case ClientReads(n) =>
      assert s.toClient == s.toClient[..n] + s.toClient[n..];
      assert s.clientLost + (s.clientGot + s.toClient[..n]) + s.toClient[n..]
          == s.clientLost + s.clientGot + s.toClient;
    case ServerLine => StepServerAnswers(p, s);
    case ServerWrites(data) => StepServerWrites(p, s, data);
    case _ =>
  }

  lemma StepServerWrites(p: Setup, s: State, data: seq<byte>)
    requires QuietBefore(s) && ToClientInv(s) && Enabled(s, ServerWrites(data))
    ensures ToClientInv(Apply(p, s, ServerWrites(data)))
  {
    hide NextLine, Headers, ReadRequest, Trim, UpdateKey, Response, Contains, Skipped, ReadResponse;
    Associative(s.clientBuf, s.toClient, data);
    Associative(s.clientLost + s.clientGot, s.toClient, data);
    if !s.client.ClientUp? {
      ViewExtends(s.client, s.clientBuf + s.toClient, data);
    }
  }

  lemma {:induction false} SkippedExtends(s: seq<byte>, more: seq<byte>)
    requires Skipped(s).Accepted?
    ensures Skipped(s + more) == Accepted(Skipped(s).rest + more)
    decreases |s|
  {
    hide NextLine, Trim;
    NextLineExtends(s, more);
    if Trim(NextLine(s).line) != [] {
      SkippedExtends(NextLine(s).rest, more);
    }
  }

  lemma ViewExtends(phase: ClientPhase, s: seq<byte>, more: seq<byte>)
    requires (phase.AwaitStatus? || phase.AwaitHeaders?) && ClientView(phase, s).Accepted?
    ensures ClientView(phase, s + more) == Accepted(ClientView(phase, s).rest + more)
  {
    hide NextLine, Skipped, Contains;
    if phase.AwaitStatus? {
      NextLineExtends(s, more);
      SkippedExtends(NextLine(s).rest, more);
    } else {
      SkippedExtends(s, more);
    }
  }

  lemma StepNothingEarly(p: Setup, s: State, step: Step)
    requires QuietBefore(s) && ToServerInv(p, s) && ToClientInv(s) && NothingEarly(s) && Enabled(s, step)
    requires Residue(p) == []
    ensures NothingEarly(Apply(p, s, step))
  {
    hide NextLine, Headers, ReadRequest, Trim, UpdateKey, Response, Contains, Skipped, ReadResponse;
    if step.ClientLine? {
      NoLineInNothing();
      ClientLineView(s);
    }
  }

  lemma StepClientLine(p: Setup, s: State)
    requires QuietBefore(s) && ToClientInv(s) && Enabled(s, ClientLine)
    ensures ToClientInv(Apply(p, s, ClientLine))
  {
    hide NextLine, Trim, Contains, Skipped, ReadResponse;
    NoLineInNothing();
    ClientLineView(s);
    var s' := Apply(p, s, ClientLine);
    if s'.client.ClientUp? {
      assert s'.clientLost + [] == s'.clientLost;
    }
  }

  lemma StepServerAnswers(p: Setup, s: State)
    requires QuietBefore(s) && ToClientInv(s) && Enabled(s, ServerLine)
    ensures ToClientInv(Apply(p, s, ServerLine))
  {
    hide NextLine, Trim, UpdateKey, Response, Contains, Skipped, ReadResponse, Base64;
    NoLineInNothing();
    var s' := Apply(p, s, ServerLine);
    if s'.server.ServerUp? {
      var accept := Accept(p.sha1, s'.server.key);
      KeysAreTokens(p.sha1(s'.server.key + GUID));
      ResponseAccepted(accept, []);
      assert [] + ([] + Response(accept)) == Response(accept) + [];
    }
  }

  lemma {:induction false} RunKeepsInv(p: Setup, s: State, steps: seq<Step>)
    requires QuietBefore(s) && ToServerInv(p, s) && ToClientInv(s) && Run(p, s, steps).Some?
    requires Residue(p) == [] ==> NothingEarly(s)
    ensures var r := Run(p, s, steps).value;
      QuietBefore(r) && ToServerInv(p, r) && ToClientInv(r) && (Residue(p) == [] ==> NothingEarly(r))
    decreases |steps|
  {
    hide QuietBefore, ToServerInv, ToClientInv, NothingEarly, Apply, Enabled, Residue;
    if steps != [] {
      StepQuiet(p, s, steps[0]);
      StepToServer(p, s, steps[0]);
      StepToClient(p, s, steps[0]);
      if Residue(p) == [] {
        StepNothingEarly(p, s, steps[0]);
      }
      RunKeepsInv(p, Apply(p, s, steps[0]), steps[1..]);
    }
  }

  lemma InitHolds(p: Setup)
    ensures QuietBefore(INIT) && ToServerInv(p, INIT) && ToClientInv(INIT) && NothingEarly(INIT)
  {}

  // ----- what a run did, from its steps alone ---------------------------------------------

  function WrittenByClient(step: Step): seq<byte> {
    if step.ClientWrites? then step.data else []
  }

  function WrittenByServer(step: Step): seq<byte> {
    if step.ServerWrites? then step.data else []
  }

  /** How many bytes a side's Read after the upgrade took. */
  function TakenByClient(step: Step): nat {
    if step.ClientReads? then step.n else 0
  }

  function TakenByServer(step: Step): nat {
    if step.ServerReads? then step.n else 0
  }

  function ClientWrote(steps: seq<Step>): seq<byte> {
    if steps == [] then [] else WrittenByClient(steps[0]) + ClientWrote(steps[1..])
  }

  function ServerWrote(steps: seq<Step>): seq<byte> {
    if steps == [] then [] else WrittenByServer(steps[0]) + ServerWrote(steps[1..])
  }

  function ClientTook(steps: seq<Step>): nat {
    if steps == [] then 0 else TakenByClient(steps[0]) + ClientTook(steps[1..])
  }

  function ServerTook(steps: seq<Step>): nat {
    if steps == [] then 0 else TakenByServer(steps[0]) + ServerTook(steps[1..])
  }

  /** The records in the state are those of the steps. */
  lemma {:induction false} RunRecords(p: Setup, s: State, steps: seq<Step>)
    requires Run(p, s, steps).Some?
    ensures var r := Run(p, s, steps).value;
      && r.clientSent == s.clientSent + ClientWrote(steps) && r.serverSent == s.serverSent + ServerWrote(steps)
      && |r.clientGot| == |s.clientGot| + ClientTook(steps) && |r.serverGot| == |s.serverGot| + ServerTook(steps)
    decreases |steps|
  {
    if steps == [] {
      assert s.clientSent + [] == s.clientSent && s.serverSent + [] == s.serverSent;
    } else {
      hide Apply, Enabled, WrittenByClient, WrittenByServer, TakenByClient, TakenByServer;
      var step, rest := steps[0], steps[1..];
      StepRecords(p, s, step);
      RunRecords(p, Apply(p, s, step), rest);
      Associative(s.clientSent, WrittenByClient(step), ClientWrote(rest));
      Associative(s.serverSent, WrittenByServer(step), ServerWrote(rest));
    }
  }

  lemma StepRecords(p: Setup, s: State, step: Step)
    requires Enabled(s, step)
    ensures var r := Apply(p, s, step);
      && r.clientSent == s.clientSent + WrittenByClient(step) && r.serverSent == s.serverSent + WrittenByServer(step)
      && |r.clientGot| == |s.clientGot| + TakenByClient(step) && |r.serverGot| == |s.serverGot| + TakenByServer(step)
  {
    hide NextLine, Trim, UpdateKey, Response, Contains;
  }

  lemma RecordsFromInit(p: Setup, steps: seq<Step>, s: State)
    requires Run(p, INIT, steps) == Some(s)
    ensures s.clientSent == ClientWrote(steps) && s.serverSent == ServerWrote(steps)
    ensures |s.clientGot| == ClientTook(steps) && |s.serverGot| == ServerTook(steps)
  {
    hide Run;
    RunRecords(p, INIT, steps);
    assert [] + ClientWrote(steps) == ClientWrote(steps) && [] + ServerWrote(steps) == ServerWrote(steps);
  }

  // ----- results --------------------------------------------------------------------------

  /** For any request, in every interleaving and for every chunking: once the server is up,
      what its reader dropped, what it has read and what is in flight are together the bytes
      behind the request's first blank line and then all the client wrote in the run. */
  lemma ServerSideAccounting(p: Setup, steps: seq<Step>, s: State)
    requires Run(p, INIT, steps) == Some(s) && s.server.ServerUp?
    ensures s.serverLost + s.serverGot + s.toServer == Residue(p) + ClientWrote(steps)
    ensures s.serverLost <= Residue(p) && |s.serverGot| == ServerTook(steps)
  {
    hide Run, Residue;
    InitHolds(p);
    RunKeepsInv(p, INIT, steps);
    RecordsFromInit(p, steps, s);
  }

  /** And for any request, in every interleaving: once the client is up, what its reader dropped,
      what it has read and what is in flight are together all the server wrote behind its answer.
      No client is ever refused. */
  lemma ClientSideAccounting(p: Setup, steps: seq<Step>, s: State)
    requires Run(p, INIT, steps) == Some(s)
    ensures !s.client.ClientFailed? && |s.clientGot| == ClientTook(steps)
    ensures s.client.ClientUp? ==> s.clientLost + s.clientGot + s.toClient == ServerWrote(steps)
  {
    hide Run, Residue;
    InitHolds(p);
    RunKeepsInv(p, INIT, steps);
    RecordsFromInit(p, steps, s);
  }

  /** The exact condition of a clean handoff, in every run with the server up: nothing is lost and
      the server reads just what the client wrote after its upgrade if and only if nothing of the
      request lies behind its first blank line. */
  lemma CleanHandoffIff(p: Setup, steps: seq<Step>, s: State)
    requires Run(p, INIT, steps) == Some(s) && s.server.ServerUp?
    ensures s.serverLost == [] && ClientWrote(steps) == s.serverGot + s.toServer <==> Residue(p) == []
  {
    hide Run, Residue, ClientWrote;
    ServerSideAccounting(p, steps, s);
    var all, wrote := s.serverLost + s.serverGot + s.toServer, ClientWrote(steps);
    if Residue(p) == [] {
      assert all == s.serverGot + s.toServer && Residue(p) + wrote == wrote;
    } else if s.serverLost == [] {
      assert all == s.serverGot + s.toServer;
      assert |Residue(p) + wrote| > |wrote|;
    }
  }

  /** The line that brings the server up puts its whole answer on the wire, and nothing else is
      there. */
  lemma AnswerIsSent(p: Setup, steps: seq<Step>, s: State)
    requires Run(p, INIT, steps) == Some(s) && Enabled(s, ServerLine)
    requires Apply(p, s, ServerLine).server.ServerUp?
    ensures var s' := Apply(p, s, ServerLine);
      s'.toClient == Response(Base64(p.sha1(s'.server.key + Ascii("258EAFA5-E914-47DA-95CA-C5AB0DC85B11"))))
  {
    hide Run, NextLine, Trim, UpdateKey, Response, Base64;
    InitHolds(p);
    RunKeepsInv(p, INIT, steps);
  }

  /** The request is read to its end and holds a key. */
  predicate ReadsWhole(p: Setup, key: seq<byte>) {
    key != [] && ReadRequest(p.request) == Complete(key, [])
  }

  /** The handoff loses nothing: when the request is read to its end, in every interleaving and
      for every chunking, both buffered readers are empty when they are dropped, nobody fails, the
      server has found the key, and from then on what each side has read are the first bytes of
      what the other wrote, as many as its Reads took, and the remaining ones are in flight. */
  lemma HandoffLosesNothing(p: Setup, key: seq<byte>, steps: seq<Step>, s: State)
    requires ReadsWhole(p, key) && Run(p, INIT, steps) == Some(s)
    ensures s.clientLost == [] && s.serverLost == []
    ensures !s.client.ClientFailed? && !s.server.ServerFailed?
    ensures s.server.ServerUp? ==> s.server.key == key && ClientWrote(steps) == s.serverGot + s.toServer
    ensures s.client.ClientUp? ==> s.server.ServerUp? && ServerWrote(steps) == s.clientGot + s.toClient
    ensures |s.serverGot| == ServerTook(steps) && |s.clientGot| == ClientTook(steps)
  {
    hide Run, ReadRequest, ClientWrote, ServerWrote;
    RecordsFromInit(p, steps, s);
    InitHolds(p);
    RunKeepsInv(p, INIT, steps);
    NeverFailsFrom(p, key, INIT, steps);
    assert [] + s.serverGot == s.serverGot && [] + s.clientGot == s.clientGot;
  }

  /** The server's reading stays on course to the key, so it never ends without one. */
  lemma {:induction false} NeverFailsFrom(p: Setup, key: seq<byte>, s: State, steps: seq<Step>)
    requires QuietBefore(s) && ToServerInv(p, s) && !s.server.ServerFailed?
    requires ReadsWhole(p, key) && Run(p, s, steps).Some?
    ensures !Run(p, s, steps).value.server.ServerFailed?
    decreases |steps|
  {
    hide QuietBefore, ToServerInv, Apply, Enabled, ReadsWhole;
    if steps != [] {
      StepQuiet(p, s, steps[0]);
      StepToServer(p, s, steps[0]);
      StepNotFailing(p, key, s, steps[0]);
      NeverFailsFrom(p, key, Apply(p, s, steps[0]), steps[1..]);
    }
  }

  lemma StepNotFailing(p: Setup, key: seq<byte>, s: State, step: Step)
    requires QuietBefore(s) && ToServerInv(p, s) && !s.server.ServerFailed? && Enabled(s, step)
    requires ReadsWhole(p, key)
    ensures !Apply(p, s, step).server.ServerFailed?
  {
    hide NextLine, Headers, ReadRequest, Trim, UpdateKey, Response, Contains, Skipped, ReadResponse;
    if step.ServerLine? {
      NoLineInNothing();
      ServerLineView(s);
    }
  }

  /** The client's own request is read whole, with the key sent, exactly when path and host put no
      blank line into it; then the handoff is clean by the theorem above. */
  lemma RequestReadsWholeIff(p: Setup, path: seq<byte>, host: seq<byte>, key: seq<byte>)
    requires IsToken(key) && p.request == Request(path, host, key)
    ensures ReadsWhole(p, key) <==> NoBlankLine(Injected(path, host))
  {
    hide Headers, ReadRequest, NoBlankLine, Injected, Request;
    RequestConsumedIff(path, host, key, []);
    assert Request(path, host, key) + [] == Request(path, host, key);
  }

  /** The tunnel from the first byte: whatever the client sends after the upgrade, what the server
      has read of it so far decodes to a prefix of what all of it decodes to, and to the whole
      once nothing is in flight. */
  lemma UpgradedStreamDecodes(p: Setup, key: seq<byte>, steps: seq<Step>, s: State)
    requires ReadsWhole(p, key) && Run(p, INIT, steps) == Some(s) && s.server.ServerUp?
    ensures Frames.Decoded(s.serverGot) <= Frames.Decoded(ClientWrote(steps))
    ensures s.toServer == [] ==> Frames.Decoded(s.serverGot) == Frames.Decoded(ClientWrote(steps))
  {
    hide Run, ReadsWhole, Frames.Decoded, ClientWrote;
    HandoffLosesNothing(p, key, steps, s);
    FrameStreams.DecodedMonotone(s.serverGot, s.toServer);
    if s.toServer == [] {
      assert s.serverGot + [] == s.serverGot;
    }
  }

  // ----- the handoff can complete ----------------------------------------------------------

  lemma {:induction false} RunAppend(p: Setup, s: State, a: seq<Step>, b: seq<Step>)
    requires Run(p, s, a).Some?
    ensures Run(p, s, a + b) == Run(p, Run(p, s, a).value, b)
    decreases |a|
  {
    hide Apply, Enabled;
    if a == [] {
      assert a + b == b;
    } else {
      assert (a + b)[1..] == a[1..] + b;
      RunAppend(p, Apply(p, s, a[0]), a[1..], b);
    }
  }

  /** A server whose reader holds a whole request gets to the end of it line by line. */
  lemma {:induction false} ServerFinishes(p: Setup, s: State, key: seq<byte>) returns (steps: seq<Step>)
    requires BeforeUp(s) && key != [] && s.toServer == []
    requires ServerView(s.server, s.serverBuf) == Complete(key, [])
    ensures Run(p, s, steps) == Some(s.(server := ServerUp(key), serverBuf := [], serverLost := [],
      toClient := s.toClient + Response(Accept(p.sha1, key))))
    decreases |s.serverBuf|
  {
    hide NextLine, Trim, UpdateKey, Response, Accept;
    var t := Apply(p, s, ServerLine);
    var rest := [];
    if !t.server.ServerUp? {
      rest := ServerFinishes(p, t, key);
    }
    steps := [ServerLine] + rest;
    assert steps[1..] == rest;
  }

  lemma {:induction false} ClientFinishes(p: Setup, s: State) returns (steps: seq<Step>)
    requires (s.client.AwaitStatus? || s.client.AwaitHeaders?) && s.toClient == []
    requires ClientView(s.client, s.clientBuf) == Accepted([])
    ensures Run(p, s, steps) == Some(s.(client := ClientUp, clientBuf := [], clientLost := []))
    decreases |s.clientBuf|
  {
    hide NextLine, Trim, Contains;
    var t := Apply(p, s, ClientLine);
    var rest := [];
    if !t.client.ClientUp? {
      rest := ClientFinishes(p, t);
    }
    steps := [ClientLine] + rest;
    assert steps[1..] == rest;
  }

  /** For every request that is read whole there is a run at whose end both sides are up. */
  lemma HandoffCompletes(p: Setup, key: seq<byte>) returns (steps: seq<Step>)
    requires ReadsWhole(p, key)
    ensures Run(p, INIT, steps) == Some(INIT.(client := ClientUp, server := ServerUp(key)))
  {
    hide Run, NextLine, ReadRequest, ReadResponse, Response, Accept, Base64;
    var s2 := INIT.(client := AwaitStatus, serverBuf := p.request);
    RequestArrives(p);
    var first := [ClientRequests, ServerFills(|p.request|)];
    var lines := ServerFinishes(p, s2, key);
    RunAppend(p, INIT, first, lines);
    var answer := Response(Accept(p.sha1, key));
    var s3 := s2.(server := ServerUp(key), serverBuf := [], serverLost := [], toClient := [] + answer);
    AnswerArrives(p, s3, answer);
    RunAppend(p, INIT, first + lines, [ClientFills(|answer|)]);
    var s4 := s3.(clientBuf := answer, toClient := []);
    KeysAreTokens(p.sha1(key + GUID));
    AcceptIsBase64(p, key);
    ResponseAccepted(Accept(p.sha1, key), []);
    assert answer + [] == answer;
    var last := ClientFinishes(p, s4);
    RunAppend(p, INIT, first + lines + [ClientFills(|answer|)], last);
    steps := first + lines + [ClientFills(|answer|)] + last;
  }

  /** And from there the connection carries any bytes both ways. */
  lemma BothWaysOpen(p: Setup, key: seq<byte>, asked: seq<byte>, answered: seq<byte>) returns (steps: seq<Step>)
    requires ReadsWhole(p, key) && asked != []
    ensures Run(p, INIT, steps).Some?
    ensures ClientWrote(steps) == asked == Run(p, INIT, steps).value.serverGot
    ensures ServerWrote(steps) == answered == Run(p, INIT, steps).value.clientGot
  {
    hide ReadsWhole, ClientWrote, ServerWrote;
    var first := HandoffCompletes(p, key);
    var up := INIT.(client := ClientUp, server := ServerUp(key));
    var exchange := Exchange(p, up, asked, answered);
    RunAppend(p, INIT, first, exchange);
    steps := first + exchange;
    RecordsFromInit(p, steps, Run(p, INIT, steps).value);
  }

  lemma Exchange(p: Setup, up: State, asked: seq<byte>, answered: seq<byte>) returns (steps: seq<Step>)
    requires up.client.ClientUp? && up.server.ServerUp? && up.toServer == up.toClient == [] && Idle(up)
    requires asked != []
    ensures Run(p, up, steps) ==
      Some(up.(clientSent := asked, serverGot := asked, serverSent := answered, clientGot := answered))
  {
    var s1 := Apply(p, up, ClientWrites(asked));
    assert s1.toServer == s1.clientSent == asked;
    var s2 := Apply(p, s1, ServerReads(|asked|));
    assert s2.serverGot == asked && s2.toServer == [];
    var s3 := Apply(p, s2, ServerWrites(answered));
    assert s3.toClient == s3.serverSent == answered;
    var s4 := Apply(p, s3, ClientReads(|answered|));
    assert s4.clientGot == answered && s4.toClient == [];
    hide Run, Apply, Enabled;
    RunCons(p, s3, ClientReads(|answered|), []);
    RunCons(p, s2, ServerWrites(answered), [ClientReads(|answered|)] + []);
    RunCons(p, s1, ServerReads(|asked|), [ServerWrites(answered)] + ([ClientReads(|answered|)] + []));
    steps := [ServerReads(|asked|)] + ([ServerWrites(answered)] + ([ClientReads(|answered|)] + []));
    RunCons(p, up, ClientWrites(asked), steps);
    steps := [ClientWrites(asked)] + steps;
    RunNothing(p, s4);
  }

  lemma RunCons(p: Setup, s: State, step: Step, steps: seq<Step>)
    requires Enabled(s, step)
    ensures Run(p, s, [step] + steps) == Run(p, Apply(p, s, step), steps)
  {
    assert ([step] + steps)[1..] == steps;
  }

  lemma RunNothing(p: Setup, s: State)
    ensures Run(p, s, []) == Some(s)
  {}

  lemma AcceptIsBase64(p: Setup, key: seq<byte>)
    ensures Accept(p.sha1, key) == Base64(p.sha1(key + GUID))
  {}

  lemma RequestArrives(p: Setup)
    ensures Run(p, INIT, [ClientRequests, ServerFills(|p.request|)])
            == Some(INIT.(client := AwaitStatus, serverBuf := p.request))
  {
    var s1 := Apply(p, INIT, ClientRequests);
    assert s1.toServer == p.request;
    var s2 := Apply(p, s1, ServerFills(|p.request|));
    assert s2.serverBuf == p.request && s2.toServer == [];
    assert s2 == INIT.(client := AwaitStatus, serverBuf := p.request);
    var steps := [ClientRequests, ServerFills(|p.request|)];
    assert steps[1..] == [ServerFills(|p.request|)] && steps[1..][1..] == [];
    assert Run(p, s1, steps[1..]) == Run(p, s2, []);
  }

  lemma AnswerArrives(p: Setup, s: State, answer: seq<byte>)
    requires s.client.AwaitStatus? && s.clientBuf == [] && s.toClient == [] + answer
    ensures Run(p, s, [ClientFills(|answer|)]) == Some(s.(clientBuf := answer, toClient := []))
  {
    var t := Apply(p, s, ClientFills(|answer|));
    assert t.clientBuf == answer && t.toClient == [];
    assert [ClientFills(|answer|)][1..] == [];
  }
}
