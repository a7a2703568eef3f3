/** The server: one pool per service, authenticated sessions in them, visitors picking. */
module Server {
  import opened Bytes
  import opened SessionPools
  import Q = SessionQueue

  datatype Service = Service(kind: string, token: string)

  datatype Config = Config(defaultToken: string, services: map<string, Service>)

  /** The service's type, "tcp" unless configured. */
  function KindOf(svc: Service): string {
    if svc.kind == "" then "tcp" else svc.kind
  }

  function IsUdp(svc: Service): bool {
    KindOf(svc) == "udp"
  }

  function TokenOf(cfg: Config, svc: Service): string {
    if svc.token != "" then svc.token else cfg.defaultToken
  }

  function TcpNames(cfg: Config): set<string> {
    set name | name in cfg.services && !IsUdp(cfg.services[name])
  }

  function UdpNames(cfg: Config): set<string> {
    set name | name in cfg.services && IsUdp(cfg.services[name])
  }

  // ----- pool setup -----------------------------------------------------------------------

  /** Pools made for the names: one empty pool object each, shared with no other name. */
  ghost predicate FreshPools(pools: map<string, SessionPool>, names: set<string>)
    reads pools.Values, set name | name in pools :: pools[name].data
  {
    && pools.Keys == names
    && (forall name :: name in pools ==> pools[name].Valid() && pools[name].Queue() == [])
    && (forall a, b :: a in pools && b in pools && a != b ==> pools[a] != pools[b])
  }

  /** The part of Run that makes a pool for every service in the configuration. */
  method SetupPools(cfg: Config) returns (tcp: map<string, SessionPool>, udp: map<string, SessionPool>)
    ensures FreshPools(tcp, TcpNames(cfg)) && FreshPools(udp, UdpNames(cfg))
    ensures forall a, b :: a in tcp && b in udp ==> tcp[a] != udp[b]
    ensures forall name :: name in udp <==> name in cfg.services && cfg.services[name].kind == "udp"
    ensures forall name :: name in tcp <==> name in cfg.services && cfg.services[name].kind != "udp"
  {
    tcp, udp := map[], map[];
    var todo := cfg.services.Keys;
    while todo != {}
      invariant todo <= cfg.services.Keys
      invariant FreshPools(tcp, TcpNames(cfg) - todo) && FreshPools(udp, UdpNames(cfg) - todo)
      invariant forall a, b :: a in tcp && b in udp ==> tcp[a] != udp[b]
      decreases todo
    {
      var name :| name in todo;
      var pool := new SessionPool();
      if IsUdp(cfg.services[name]) {
        udp := udp[name := pool];
      } else {
        tcp := tcp[name := pool];
      }
      todo := todo - {name};
    }
  }

  // ----- authentication -------------------------------------------------------------------

  datatype Auth = Auth(service: string, tokenHash: string)

  /** What ReadMessage gave: nothing usable, a message without Auth, or an Auth. */
  datatype FirstMessage = Unreadable | NotAuth | AuthMessage(auth: Auth)

  /** The first answer of handleClientConn. */
  datatype Verdict = Dropped | UnknownService | NoToken | BadToken | Success(service: string)

  function Authenticate(cfg: Config, hash: string -> string, m: FirstMessage): Verdict {
    if !m.AuthMessage? then Dropped
    else if m.auth.service !in cfg.services then UnknownService
    else
      var token := TokenOf(cfg, cfg.services[m.auth.service]);
      if token == "" then NoToken
      else if m.auth.tokenHash != hash(token) then BadToken
      else Success(m.auth.service)
  }

  /** The Auth a client sends for a service, unless it has no token for it. */
  function ClientAuth(hash: string -> string, name: string, serviceToken: string, defaultToken: string): Option<Auth> {
    var token := if serviceToken != "" then serviceToken else defaultToken;
    if token == "" then None else Some(Auth(name, hash(token)))
  }

  /** An Auth that names a configured service and carries its token's hash: of the service's own
      token if it has one, else of the default token. */
  predicate Matches(cfg: Config, hash: string -> string, auth: Auth) {
    && auth.service in cfg.services
    && var own := cfg.services[auth.service].token;
       if own != "" then auth.tokenHash == hash(own)
       else cfg.defaultToken != "" && auth.tokenHash == hash(cfg.defaultToken)
  }

  /** A connection is answered Success exactly when its Auth matches the configuration; every
      other answer has one cause, and with the causes in this order just one answer fits. */
  lemma AuthenticateMeaning(cfg: Config, hash: string -> string, m: FirstMessage)
    ensures Authenticate(cfg, hash, m).Success? <==> m.AuthMessage? && Matches(cfg, hash, m.auth)
    ensures Authenticate(cfg, hash, m).Success? ==> Authenticate(cfg, hash, m).service == m.auth.service
    ensures Authenticate(cfg, hash, m) == Dropped <==> !m.AuthMessage?
    ensures Authenticate(cfg, hash, m) == UnknownService <==> m.AuthMessage? && m.auth.service !in cfg.services
    ensures Authenticate(cfg, hash, m) == NoToken <==>
      && m.AuthMessage? && m.auth.service in cfg.services
      && cfg.services[m.auth.service].token == "" && cfg.defaultToken == ""
  {}

  /** A client and a server get together exactly when the server has the service and the token that
      counts for it there, its own before the default, hashes like the one that counts for the
      client; with a hash that tells tokens apart, exactly when the two tokens are the same. */
  lemma ClientAcceptedIff(cfg: Config, hash: string -> string, name: string, serviceToken: string,
                          defaultToken: string)
    requires ClientAuth(hash, name, serviceToken, defaultToken).Some?
    ensures var m := AuthMessage(ClientAuth(hash, name, serviceToken, defaultToken).value);
      var mine := if serviceToken != "" then serviceToken else defaultToken;
      && (Authenticate(cfg, hash, m) == Success(name)
          <==> name in cfg.services
               && if cfg.services[name].token != "" then hash(cfg.services[name].token) == hash(mine)
                  else cfg.defaultToken != "" && hash(cfg.defaultToken) == hash(mine))
      && ((forall a, b :: hash(a) == hash(b) ==> a == b) ==>
            (Authenticate(cfg, hash, m) == Success(name)
             <==> name in cfg.services
                  && mine == if cfg.services[name].token != "" then cfg.services[name].token else cfg.defaultToken))
  {}

  // ----- the whole server as a state machine ----------------------------------------------

  type Sid = nat

  /** `accepted` remembers, for every session ever pooled, the Auth its connection sent. */
  datatype State = State(tcp: map<string, seq<Sid>>, udp: map<string, seq<Sid>>,
                         closed: set<Sid>, accepted: map<Sid, Auth>)

  /** One critical section or outside event:
      Connect   handleClientConn, with the outcomes of its write and of the yamux upgrade
      Visit     the pick of handleVisitor, or of the UDP starter loop
      OpenFails handleVisitor after session.Open failed on a session it had picked
      Close     a session closes */
  datatype Step =
    | Connect(m: FirstMessage, writeOk: bool, muxOk: bool, sid: Sid)
    | Visit(name: string)
    | OpenFails(name: string, sid: Sid)
    | Close(sid: Sid)

  function Init(cfg: Config): State {
    State(map name | name in TcpNames(cfg) :: [], map name | name in UdpNames(cfg) :: [], {}, map[])
  }

  /** New sessions are new objects. */
  predicate Enabled(s: State, step: Step) {
    match step
    case Connect(_, _, _, sid) => sid !in s.accepted && sid !in s.closed
    case Visit(name) => name in s.tcp || name in s.udp
    case OpenFails(name, _) => name in s.tcp
    case Close(_) => true
  }

  function Apply(cfg: Config, hash: string -> string, s: State, step: Step): State
    requires Enabled(s, step)
  {
    match step
    case Connect(m, writeOk, muxOk, sid) =>
      var v := Authenticate(cfg, hash, m);
      if v.Success? && writeOk && muxOk then Place(cfg, s, v.service, m.auth, sid) else s
    case Visit(name) =>
      if name in s.tcp then s.(tcp := s.tcp[name := Q.Pick(s.tcp[name], s.closed).queue])
      else s.(udp := s.udp[name := Q.Pick(s.udp[name], s.closed).queue])
    case OpenFails(name, sid) =>
      if sid in s.closed then s.(tcp := s.tcp[name := Q.Remove(s.tcp[name], sid)]) else s
    case Close(sid) => s.(closed := s.closed + {sid})
  }

  /** The end of handleClientConn: the session goes to the pool of the service's type, and is
      closed when there is no such pool. */
  function Place(cfg: Config, s: State, name: string, auth: Auth, sid: Sid): State
    requires name in cfg.services
  {
    if IsUdp(cfg.services[name]) then
      if name in s.udp then
        s.(udp := s.udp[name := s.udp[name] + [sid]], accepted := s.accepted[sid := auth])
      else s.(closed := s.closed + {sid})
    else
      if name in s.tcp then
        s.(tcp := s.tcp[name := s.tcp[name] + [sid]], accepted := s.accepted[sid := auth])
      else s.(closed := s.closed + {sid})
  }

  /** The state after a run, if every step was enabled. */
  function Run(cfg: Config, hash: string -> string, s: State, steps: seq<Step>): Option<State>
    decreases |steps|
  {
    if steps == [] then Some(s)
    else if Enabled(s, steps[0]) then Run(cfg, hash, Apply(cfg, hash, s, steps[0]), steps[1..])
    else None
  }

  /** The pool a service's sessions are in. */
  function PoolOf(s: State, name: string): seq<Sid> {
    if name in s.tcp then s.tcp[name] else if name in s.udp then s.udp[name] else []
  }

  // ----- the invariant --------------------------------------------------------------------

  /** Every service has one pool, of its type. */
  predicate OnePoolEach(cfg: Config, s: State) {
    s.tcp.Keys == TcpNames(cfg) && s.udp.Keys == UdpNames(cfg)
  }

  /** Pools hold only sessions that authenticated for their service, each at most once, and
      every such session that is still open. */
  ghost predicate PoolInv(s: State, name: string) {
    var q := PoolOf(s, name);
    && (forall x :: x in q ==> x in s.accepted && s.accepted[x].service == name)
    && (forall x :: x in s.accepted && s.accepted[x].service == name && x !in s.closed ==> x in q)
    && Q.Distinct(q)
  }

  ghost predicate Inv(cfg: Config, hash: string -> string, s: State) {
    && OnePoolEach(cfg, s)
    && (forall x :: x in s.accepted ==> Matches(cfg, hash, s.accepted[x]))
    && (forall name :: PoolInv(s, name))
  }

  lemma PickFacts(q: seq<Sid>, closed: set<Sid>)
    requires Q.Distinct(q)
    ensures var p := Q.Pick(q, closed).queue;
      Q.Distinct(p) && (forall x :: x in p ==> x in q) && (forall x :: x in q && x !in closed ==> x in p)
  {
    Q.PickKeepsDistinct(q, closed);
    var k := Q.PickDropsOnlyClosed(q, closed);
    if k < |q| {
      forall x | x in q && x !in closed
        ensures x in Q.Pick(q, closed).queue
      {
        var i :| 0 <= i < |q| && q[i] == x;
        assert i >= k;
        assert i > k ==> q[k + 1..][i - k - 1] == x;
      }
    }
  }

  lemma RemoveFacts(q: seq<Sid>, x: Sid)
    requires Q.Distinct(q)
    ensures var r := Q.Remove(q, x);
      Q.Distinct(r) && (forall y :: y in r ==> y in q) && (forall y :: y in q && y != x ==> y in r)
  {
    hide Q.Remove, Q.Distinct;
    Q.RemoveKeepsDistinct(q, x);
    Q.RemoveShape(q, x);
    if x in q {
      CutOut(q, Q.IndexOf(q, x));
    }
  }

  lemma CutOut(q: seq<Sid>, i: nat)
    requires i < |q|
    ensures forall y :: y in q[..i] + q[i + 1..] ==> y in q
    ensures forall y :: y in q && y != q[i] ==> y in q[..i] + q[i + 1..]
  {
    assert q == q[..i] + [q[i]] + q[i + 1..];
  }

  lemma DistinctAppend(q: seq<Sid>, x: Sid)
    requires Q.Distinct(q) && x !in q
    ensures Q.Distinct(q + [x])
  {}

  lemma StepKeepsPool(cfg: Config, hash: string -> string, s: State, step: Step, name: string)
    requires Inv(cfg, hash, s) && Enabled(s, step)
    ensures PoolInv(Apply(cfg, hash, s, step), name)
  {
    hide Q.Pick, Q.Remove, Authenticate, Q.Distinct, TokenOf;
    var s', q := Apply(cfg, hash, s, step), PoolOf(s, name);
    assert PoolInv(s, name);
    if step.Connect? {
      AuthenticateMeaning(cfg, hash, step.m);
      if s'.accepted != s.accepted {
        PlaceKeepsPool(cfg, s, step.m.auth, step.sid, name);
      }
    } else {
      if step.Visit? && step.name == name {
        PickFacts(q, s.closed);
      } else if step.OpenFails? && step.name == name {
        RemoveFacts(q, step.sid);
      }
      ShrinkKeepsPool(s, s', name);
    }
  }

  lemma PlaceKeepsPool(cfg: Config, s: State, auth: Auth, sid: Sid, name: string)
    requires OnePoolEach(cfg, s) && PoolInv(s, name)
    requires auth.service in cfg.services && sid !in s.accepted
    ensures PoolInv(Place(cfg, s, auth.service, auth, sid), name)
  {
    hide Q.Distinct;
    assert sid !in PoolOf(s, name);
    DistinctAppend(PoolOf(s, name), sid);
  }

  /** A pool may lose closed sessions. */
  lemma ShrinkKeepsPool(s: State, s': State, name: string)
    requires PoolInv(s, name) && s'.accepted == s.accepted && s.closed <= s'.closed
    requires var q, q' := PoolOf(s, name), PoolOf(s', name);
      Q.Distinct(q') && (forall x :: x in q' ==> x in q) && (forall x :: x in q && x !in s'.closed ==> x in q')
    ensures PoolInv(s', name)
  {
    hide Q.Distinct, PoolOf;
  }

  lemma StepKeepsInv(cfg: Config, hash: string -> string, s: State, step: Step)
    requires Inv(cfg, hash, s) && Enabled(s, step)
    ensures Inv(cfg, hash, Apply(cfg, hash, s, step))
  {
    hide Q.Pick, Q.Remove, Authenticate, PoolInv;
    var s' := Apply(cfg, hash, s, step);
    forall name
      ensures PoolInv(s', name)
    {
      StepKeepsPool(cfg, hash, s, step, name);
    }
    if step.Connect? {
      AuthenticateMeaning(cfg, hash, step.m);
    }
  }

  /** The routing invariant holds in every run: one pool per service and of its type; every
      pooled session authenticated for that very service with its token; none is pooled twice;
      none that is still open is ever missing from its pool. */
  lemma {:induction false} RoutingInvariant(cfg: Config, hash: string -> string, s: State, steps: seq<Step>)
    requires Inv(cfg, hash, s) && Run(cfg, hash, s, steps).Some?
    ensures Inv(cfg, hash, Run(cfg, hash, s, steps).value)
    decreases |steps|
  {
    hide Inv, Apply;
    if steps != [] {
      StepKeepsInv(cfg, hash, s, steps[0]);
      RoutingInvariant(cfg, hash, Apply(cfg, hash, s, steps[0]), steps[1..]);
    }
  }

  lemma InitHolds(cfg: Config, hash: string -> string)
    ensures Inv(cfg, hash, Init(cfg))
  {}

  // ----- what a run did, from its steps alone ---------------------------------------------

  function ClosedIn(steps: seq<Step>): set<Sid> {
    if steps == [] then {} else (if steps[0].Close? then {steps[0].sid} else {}) + ClosedIn(steps[1..])
  }

  /** A connection sent this Auth, was accepted, and its session came up. */
  predicate Joined(cfg: Config, hash: string -> string, steps: seq<Step>, x: Sid, auth: Auth) {
    Connect(AuthMessage(auth), true, true, x) in steps && Matches(cfg, hash, auth)
  }

  predicate Recorded(s: State, x: Sid, auth: Auth) {
    x in s.accepted && s.accepted[x] == auth
  }

  lemma StepRecords(cfg: Config, hash: string -> string, s: State, step: Step)
    requires Inv(cfg, hash, s) && Enabled(s, step)
    ensures Apply(cfg, hash, s, step).closed == s.closed + ClosedIn([step])
    ensures var r := Apply(cfg, hash, s, step);
      forall x, a :: Recorded(r, x, a)
                     <==> Recorded(s, x, a) || (step == Connect(AuthMessage(a), true, true, x) && Matches(cfg, hash, a))
  {
    hide Q.Pick, Q.Remove, Authenticate, Matches, PoolInv;
    assert [step][1..] == [];
    if step.Connect? {
      AuthenticateMeaning(cfg, hash, step.m);
      MatchesIsConfigured(cfg, hash, step.m);
    }
  }

  lemma MatchesIsConfigured(cfg: Config, hash: string -> string, m: FirstMessage)
    ensures m.AuthMessage? && Matches(cfg, hash, m.auth) ==> m.auth.service in cfg.services
  {}

  /** The records in the state are those of the steps. */
  lemma {:induction false} RunRecords(cfg: Config, hash: string -> string, s: State, steps: seq<Step>)
    requires Inv(cfg, hash, s) && Run(cfg, hash, s, steps).Some?
    ensures var r := Run(cfg, hash, s, steps).value;
      && r.closed == s.closed + ClosedIn(steps)
      && forall x, a :: Recorded(r, x, a) <==> Recorded(s, x, a) || Joined(cfg, hash, steps, x, a)
    decreases |steps|
  {
    hide Inv, Apply, Enabled, Matches, Recorded;
    if steps != [] {
      var step, s' := steps[0], Apply(cfg, hash, s, steps[0]);
      StepKeepsInv(cfg, hash, s, step);
      StepRecords(cfg, hash, s, step);
      RunRecords(cfg, hash, s', steps[1..]);
      assert ClosedIn([step]) == (if step.Close? then {step.sid} else {}) by {
        assert [step][1..] == [];
      }
      assert steps == [step] + steps[1..];
    }
  }

  lemma RecordsFromInit(cfg: Config, hash: string -> string, steps: seq<Step>, s: State)
    requires Run(cfg, hash, Init(cfg), steps) == Some(s)
    ensures Inv(cfg, hash, s) && s.closed == ClosedIn(steps)
    ensures forall x, a :: Recorded(s, x, a) <==> Joined(cfg, hash, steps, x, a)
  {
    hide Inv, Run, Joined;
    InitHolds(cfg, hash);
    RoutingInvariant(cfg, hash, Init(cfg), steps);
    RunRecords(cfg, hash, Init(cfg), steps);
  }

  lemma {:induction false} ClosedInIff(steps: seq<Step>, x: Sid)
    ensures x in ClosedIn(steps) <==> Close(x) in steps
  {
    if steps != [] {
      ClosedInIff(steps[1..], x);
      assert steps == [steps[0]] + steps[1..];
    }
  }

  lemma {:induction false} RunThen(cfg: Config, hash: string -> string, s: State, steps: seq<Step>, step: Step)
    requires Run(cfg, hash, s, steps).Some? && Enabled(Run(cfg, hash, s, steps).value, step)
    ensures Run(cfg, hash, s, steps + [step]) == Some(Apply(cfg, hash, Run(cfg, hash, s, steps).value, step))
    decreases |steps|
  {
    hide Apply, Enabled;
    if steps == [] {
      assert [] + [step] == [step] && [step][1..] == [];
    } else {
      assert (steps + [step])[1..] == steps[1..] + [step];
      RunThen(cfg, hash, Apply(cfg, hash, s, steps[0]), steps[1..], step);
    }
  }

  /** The branches for a missing pool cannot be reached: in every run, a new connection whose Auth
      matches and whose session comes up is pooled under its service, and nothing is closed. */
  lemma AuthenticatedIsPooled(cfg: Config, hash: string -> string, steps: seq<Step>, s: State,
                              auth: Auth, sid: Sid)
    requires Run(cfg, hash, Init(cfg), steps) == Some(s) && Matches(cfg, hash, auth)
    requires Close(sid) !in steps && forall m, w, u :: Connect(m, w, u, sid) !in steps
    ensures var r := Run(cfg, hash, Init(cfg), steps + [Connect(AuthMessage(auth), true, true, sid)]);
      && r.Some? && r.value.closed == s.closed
      && PoolOf(r.value, auth.service) == PoolOf(s, auth.service) + [sid]
      && (auth.service in r.value.udp <==> cfg.services[auth.service].kind == "udp")
  {
    hide Run, Authenticate;
    RecordsFromInit(cfg, hash, steps, s);
    ClosedInIff(steps, sid);
    assert forall x :: x in s.accepted ==> Recorded(s, x, s.accepted[x]);
    RunThen(cfg, hash, Init(cfg), steps, Connect(AuthMessage(auth), true, true, sid));
    AuthenticateMeaning(cfg, hash, AuthMessage(auth));
  }

  /** A session that a visitor of the service may be given after these steps: it joined for that
      very service and has not closed. */
  ghost predicate Available(cfg: Config, hash: string -> string, steps: seq<Step>, name: string, x: Sid) {
    Close(x) !in steps && exists auth: Auth :: auth.service == name && Joined(cfg, hash, steps, x, auth)
  }

  /** In every run, a visitor of a service is given an open session that authenticated for that
      service, and is turned away exactly when there is none; serving it leaves the queue that the
      pick leaves. */
  lemma VisitorServedIff(cfg: Config, hash: string -> string, steps: seq<Step>, s: State, name: string)
    requires Run(cfg, hash, Init(cfg), steps) == Some(s)
    ensures var p := Q.Pick(PoolOf(s, name), s.closed);
      && (p.session.Some? ==> Available(cfg, hash, steps, name, p.session.value))
      && (p.session.Some? <==> exists x :: Available(cfg, hash, steps, name, x))
      && (name in cfg.services ==>
            var r := Run(cfg, hash, Init(cfg), steps + [Visit(name)]);
            r.Some? && PoolOf(r.value, name) == p.queue && r.value.closed == s.closed)
  {
    hide Run, Joined, Q.Pick;
    RecordsFromInit(cfg, hash, steps, s);
    if name in cfg.services {
      RunThen(cfg, hash, Init(cfg), steps, Visit(name));
    }
    var q := PoolOf(s, name);
    assert PoolInv(s, name);
    forall x | Available(cfg, hash, steps, name, x)
      ensures x in q && x !in s.closed
    {
      ClosedInIff(steps, x);
      var auth: Auth :| auth.service == name && Joined(cfg, hash, steps, x, auth);
      assert Recorded(s, x, auth);
    }
    var k := Q.PickDropsOnlyClosed(q, s.closed);
    if k < |q| {
      assert q[k] in q;
      ClosedInIff(steps, q[k]);
      assert Recorded(s, q[k], s.accepted[q[k]]);
    }
  }

  /** In every run any session may close, and then no visitor of any service is given it. */
  lemma ClosedIsNotServed(cfg: Config, hash: string -> string, steps: seq<Step>, s: State, name: string, x: Sid)
    requires Run(cfg, hash, Init(cfg), steps) == Some(s)
    ensures var r := Run(cfg, hash, Init(cfg), steps + [Close(x)]);
      r.Some? && Q.Pick(PoolOf(r.value, name), r.value.closed).session != Some(x)
  {
    hide Run, Q.Pick, PoolOf;
    RunThen(cfg, hash, Init(cfg), steps, Close(x));
    VisitorServedIff(cfg, hash, steps + [Close(x)], Run(cfg, hash, Init(cfg), steps + [Close(x)]).value, name);
  }

  /** In every run: a session that closed before a visitor could open it is taken out of its pool,
      the others stay as they were, and so does one that is still open. */
  lemma FailedSessionLeaves(cfg: Config, hash: string -> string, steps: seq<Step>, s: State, name: string, x: Sid)
    requires Run(cfg, hash, Init(cfg), steps) == Some(s) && name in s.tcp
    ensures var r := Run(cfg, hash, Init(cfg), steps + [OpenFails(name, x)]);
      && r.Some?
      && (Close(x) !in steps ==> r.value == s)
      && (Close(x) in steps ==>
            var before, after := PoolOf(s, name), PoolOf(r.value, name);
            && x !in after
            && (x !in before ==> after == before)
            && (x in before ==> var i := Q.IndexOf(before, x); after == before[..i] + before[i + 1..]))
      && (forall other :: other != name ==> PoolOf(r.value, other) == PoolOf(s, other))
  {
    hide Run, Inv, Q.Remove;
    RecordsFromInit(cfg, hash, steps, s);
    ClosedInIff(steps, x);
    RunThen(cfg, hash, Init(cfg), steps, OpenFails(name, x));
    assert PoolInv(s, name) by {
      InvHasPool(cfg, hash, s, name);
    }
    Q.RemoveKeepsDistinct(PoolOf(s, name), x);
    Q.RemoveShape(PoolOf(s, name), x);
  }

  lemma InvHasPool(cfg: Config, hash: string -> string, s: State, name: string)
    requires Inv(cfg, hash, s)
    ensures PoolInv(s, name)
  {}

  // ----- one service seen alone -----------------------------------------------------------

  function QueueOf(s: State, name: string): Q.State<Sid> {
    Q.State(PoolOf(s, name), s.closed)
  }

  /** What a server step does to the pool of one service. */
  function Project(cfg: Config, hash: string -> string, s: State, step: Step, name: string): seq<Q.Step<Sid>> {
    match step
    case Connect(m, writeOk, muxOk, sid) =>
      var v := Authenticate(cfg, hash, m);
      if v.Success? && writeOk && muxOk && v.service == name then [Q.Add(sid)] else []
    case Visit(n) => if n == name then [Q.PickNext] else []
    case OpenFails(n, sid) => if n == name && sid in s.closed then [Q.Drop(sid)] else []
    case Close(sid) => [Q.Close(sid)]
  }

  function ProjectRun(cfg: Config, hash: string -> string, s: State, steps: seq<Step>, name: string): seq<Q.Step<Sid>>
    requires Run(cfg, hash, s, steps).Some?
    decreases |steps|
  {
    if steps == [] then [] else
      Project(cfg, hash, s, steps[0], name) + ProjectRun(cfg, hash, Apply(cfg, hash, s, steps[0]), steps[1..], name)
  }

  lemma StepRefines(cfg: Config, hash: string -> string, s: State, step: Step, name: string)
    requires Inv(cfg, hash, s) && Enabled(s, step)
    ensures QueueOf(Apply(cfg, hash, s, step), name)
            == Q.Run(QueueOf(s, name), Project(cfg, hash, s, step, name))
  {
    hide Q.Pick, Q.Remove, Authenticate, PoolInv;
    var p := Project(cfg, hash, s, step, name);
    if p != [] {
      assert Q.Run(QueueOf(s, name), p) == Q.Run(Q.Apply(QueueOf(s, name), p[0]), p[1..]);
    }
    if step.Connect? {
      AuthenticateMeaning(cfg, hash, step.m);
    }
  }

  lemma {:induction false} QueueRunAppend(s: Q.State<Sid>, a: seq<Q.Step<Sid>>, b: seq<Q.Step<Sid>>)
    ensures Q.Run(s, a + b) == Q.Run(Q.Run(s, a), b)
    decreases |a|
  {
    hide Q.Apply;
    if a == [] {
      assert a + b == b;
    } else {
      assert (a + b)[1..] == a[1..] + b;
      QueueRunAppend(Q.Apply(s, a[0]), a[1..], b);
    }
  }

  /** Refinement: seen from one service, every run of the server is a run of its queue. */
  lemma {:induction false} RunRefines(cfg: Config, hash: string -> string, s: State, steps: seq<Step>, name: string)
    requires Inv(cfg, hash, s) && Run(cfg, hash, s, steps).Some?
    ensures QueueOf(Run(cfg, hash, s, steps).value, name)
            == Q.Run(QueueOf(s, name), ProjectRun(cfg, hash, s, steps, name))
    decreases |steps|
  {
    hide Inv, Apply, Project, Q.Apply;
    if steps != [] {
      var step, s' := steps[0], Apply(cfg, hash, s, steps[0]);
      StepKeepsInv(cfg, hash, s, step);
      StepRefines(cfg, hash, s, step, name);
      RunRefines(cfg, hash, s', steps[1..], name);
      QueueRunAppend(QueueOf(s, name), Project(cfg, hash, s, step, name), ProjectRun(cfg, hash, s', steps[1..], name));
    }
  }

  /** How many visits of a service a run holds. */
  function Visits(steps: seq<Step>, name: string): nat {
    if steps == [] then 0 else (if steps[0] == Visit(name) then 1 else 0) + Visits(steps[1..], name)
  }

  lemma {:induction false} PicksAppend(a: seq<Q.Step<Sid>>, b: seq<Q.Step<Sid>>)
    ensures Q.Picks(a + b) == Q.Picks(a) + Q.Picks(b)
  {
    if a == [] {
      assert a + b == b;
    } else {
      assert (a + b)[1..] == a[1..] + b;
      PicksAppend(a[1..], b);
    }
  }

  /** One step that does not close x leaves x pooled and open, and picks once if it visits. */
  lemma StepProjection(cfg: Config, hash: string -> string, s: State, step: Step, name: string, x: Sid)
    requires Enabled(s, step) && x in s.accepted && x !in s.closed && step != Close(x)
    ensures var s', p := Apply(cfg, hash, s, step), Project(cfg, hash, s, step, name);
      && x in s'.accepted && x !in s'.closed
      && Q.LeavesAlone(p, x) && Q.Picks(p) == if step == Visit(name) then 1 else 0
  {
    hide Q.Pick, Q.Remove, Authenticate, Matches;
    if step.Connect? {
      AuthenticateMeaning(cfg, hash, step.m);
    }
    var p := Project(cfg, hash, s, step, name);
    if p != [] {
      assert p[1..] == [];
    }
  }

  /** The server itself never removes an open session: in the projection of a run that does not
      close x, x is left alone. */
  lemma {:induction false} ProjectionFacts(cfg: Config, hash: string -> string, s: State, steps: seq<Step>,
                                           name: string, x: Sid)
    requires Inv(cfg, hash, s) && Run(cfg, hash, s, steps).Some?
    requires x in s.accepted && x !in s.closed && Close(x) !in steps
    ensures var p := ProjectRun(cfg, hash, s, steps, name);
      Q.LeavesAlone(p, x) && Q.Picks(p) == Visits(steps, name)
    decreases |steps|
  {
    hide Inv, Apply, Project;
    if steps != [] {
      var step, s' := steps[0], Apply(cfg, hash, s, steps[0]);
      assert step in steps && forall t :: t in steps[1..] ==> t in steps;
      StepKeepsInv(cfg, hash, s, step);
      StepProjection(cfg, hash, s, step, name, x);
      ProjectionFacts(cfg, hash, s', steps[1..], name, x);
      PicksAppend(Project(cfg, hash, s, step, name), ProjectRun(cfg, hash, s', steps[1..], name));
    }
  }

  /** Bounded waiting for the whole server: whatever connects, visits, fails or closes, a session
      at index i of its service's pool that stays open is given to one of the next i + 1 visitors
      of that service. */
  lemma EverySessionServes(cfg: Config, hash: string -> string, s: State, steps: seq<Step>, name: string, i: nat)
    returns (j: nat)
    requires Inv(cfg, hash, s) && Run(cfg, hash, s, steps).Some?
    requires i < |PoolOf(s, name)| && PoolOf(s, name)[i] !in s.closed
    requires Close(PoolOf(s, name)[i]) !in steps && Visits(steps, name) > i
    ensures var out := Q.Outputs(QueueOf(s, name), ProjectRun(cfg, hash, s, steps, name));
      j <= i && j < |out| && out[j] == Some(PoolOf(s, name)[i])
  {
    var x := PoolOf(s, name)[i];
    assert PoolInv(s, name);
    ProjectionFacts(cfg, hash, s, steps, name, x);
    j := Q.BoundedWaiting(QueueOf(s, name), ProjectRun(cfg, hash, s, steps, name), x, i);
  }
}
