/** The load balancer: round robin on a wrapping counter, and least connections under
    concurrent connects, failed dials and releases. */
module Balancer {
  import opened Bytes

  datatype Strategy = RoundRobin | Random | LeastConn

  // ----- round robin ----------------------------------------------------------------------

  const UINT64: nat := 0x1_0000_0000_0000_0000

  /** Go's int(x) for an unsigned x, where int has the values -half .. half - 1. */
  function ToInt(x: nat, half: nat): int
    requires half > 0
  {
    var low := x % (2 * half);
    if low < half then low else low - 2 * half
  }

  /** Go's % truncates toward zero. */
  function GoMod(a: int, n: nat): int
    requires n > 0
  {
    if a >= 0 then a % n else -((-a) % n)
  }

  /** The index computed from a value of the counter, and the counter after it. */
  function RoundRobinIndex(counter: nat, n: nat, half: nat): int
    requires n > 0 && half > 0
  {
    GoMod(ToInt(counter, half), n)
  }

  function Advance(counter: nat): nat {
    (counter + 1) % UINT64
  }

  /** What the index is: the remainder, with the sign of the dividend, of the one int that equals
      the counter modulo 2 * half. */
  lemma IndexMeaning(counter: nat, n: nat, half: nat) returns (wraps: int, v: int, q: int)
    requires n > 0 && half > 0
    ensures counter == (2 * half) * wraps + v && -(half as int) <= v < half
    ensures var i := RoundRobinIndex(counter, n, half);
      v == n * q + i && -(n as int) < i < n && (v >= 0 ==> i >= 0) && (v <= 0 ==> i <= 0)
  {
    v := ToInt(counter, half);
    var m := 2 * half;
    var low := counter % m;
    wraps := counter / m + if low < half then 0 else 1;
    assert counter == m * (counter / m) + low;
    assert m * (counter / m + 1) == m * (counter / m) + m;
    q := if v >= 0 then v / n else -((-v) / n);
    if v < 0 {
      assert -v == n * ((-v) / n) + (-v) % n;
      assert n * -((-v) / n) == -(n * ((-v) / n));
    }
  }

  /** The index is inside the list exactly when the counter converts to a non-negative int, or
      to a negative multiple of the number of backends. */
  lemma IndexInRangeIff(counter: nat, n: nat, half: nat)
    requires n > 0 && half > 0
    ensures 0 <= RoundRobinIndex(counter, n, half) < n
            <==> counter % (2 * half) < half || (2 * half - counter % (2 * half)) % n == 0
  {}

  /** A counter value the conversion keeps. */
  lemma IndexBelowHalf(counter: nat, n: nat, half: nat)
    requires n > 0 && counter < half
    ensures RoundRobinIndex(counter, n, half) == counter % n
  {
    ModUnique(counter, 2 * half, 0, counter);
  }

  /** With two backends, int of 64 bits and a counter just past 2^63 the index is -1. */
  lemma IndexCanBeNegative()
    ensures RoundRobinIndex(0x8000_0000_0000_0001, 2, 0x8000_0000_0000_0000) == -1
  {
    ModUnique(0x8000_0000_0000_0001, 0x1_0000_0000_0000_0000, 0, 0x8000_0000_0000_0001);
  }

  /** The counter after k calls, each of which draws one value and advances it. */
  function AfterCalls(from: nat, k: nat): nat {
    if k == 0 then from else Advance(AfterCalls(from, k - 1))
  }

  /** Successive calls draw successive values, from 0 again behind 2^64 - 1. */
  lemma {:induction false} AfterCallsIs(from: nat, k: nat)
    requires from < UINT64
    ensures AfterCalls(from, k) == (from + k) % UINT64
  {
    if k == 0 {
      ModUnique(from, UINT64, 0, from);
    } else {
      AfterCallsIs(from, k - 1);
      NextModUint64(from + k - 1);
    }
  }

  lemma NextModUint64(i: nat)
    ensures (i % UINT64 + 1) % UINT64 == (i + 1) % UINT64
  {
    NextDivMod(i, UINT64);
  }

  /** How often backend j is hit by k successive calls of Next that start with the given counter. */
  function Hits(from: nat, k: nat, n: nat, half: nat, j: nat): nat
    requires n > 0 && half > 0
    decreases k
  {
    if k == 0 then 0 else
      Hits(from, k - 1, n, half, j)
      + if RoundRobinIndex(AfterCalls(from, k - 1), n, half) == j then 1 else 0
  }

  lemma HitsNext(from: nat, k: nat, n: nat, half: nat, j: nat)
    requires n > 0 && from + k < half <= UINT64
    ensures Hits(from, k + 1, n, half, j) == Hits(from, k, n, half, j) + if (from + k) % n == j then 1 else 0
  {
    hide RoundRobinIndex;
    AfterCallsIs(from, k);
    ModUnique(from + k, UINT64, 0, from + k);
    IndexBelowHalf(from + k, n, half);
  }

  /** The number of values below k that are j modulo n. */
  function Share(k: nat, n: nat, j: nat): nat
    requires n > 0
  {
    k / n + if j < k % n then 1 else 0
  }

  lemma ShareNext(k: nat, n: nat, j: nat)
    requires n > 0 && j < n
    ensures Share(k + 1, n, j) == Share(k, n, j) + if k % n == j then 1 else 0
  {
    NextDivMod(k, n);
  }

  /** Exactness from a counter at 0: after k calls backend j was hit floor(k/n) times, and once
      more if j is below k mod n. */
  lemma {:induction false} HitsExactly(k: nat, n: nat, half: nat, j: nat)
    requires 0 < n && k <= half && 0 < half <= UINT64 && j < n
    ensures Hits(0, k, n, half, j) == k / n + if j < k % n then 1 else 0
    decreases k
  {
    hide Hits;
    HitsFrom(0, k, n, half, j);
    assert 0 / n == 0 && 0 % n == 0;
  }

  /** From any counter: the hits of a run are the difference of two shares. */
  lemma {:induction false} HitsFrom(from: nat, k: nat, n: nat, half: nat, j: nat)
    requires 0 < n && from + k <= half && 0 < half <= UINT64 && j < n
    ensures Hits(from, k, n, half, j) == Share(from + k, n, j) - Share(from, n, j)
    decreases k
  {
    hide Share, RoundRobinIndex, AfterCalls;
    if k > 0 {
      HitsFrom(from, k - 1, n, half, j);
      HitsNext(from, k - 1, n, half, j);
      ShareNext(from + k - 1, n, j);
    }
  }

  lemma NextDivMod(i: nat, n: nat)
    requires n > 0
    ensures if i % n + 1 == n
      then (i + 1) / n == i / n + 1 && (i + 1) % n == 0
      else (i + 1) / n == i / n && (i + 1) % n == i % n + 1
  {
    NextOf(i, n, i / n, i % n);
  }

  lemma NextOf(i: nat, n: nat, q: nat, r: nat)
    requires i == n * q + r && r < n
    ensures if r + 1 == n
      then (i + 1) / n == q + 1 && (i + 1) % n == 0
      else (i + 1) / n == q && (i + 1) % n == r + 1
  {
    if r + 1 == n {
      assert n * (q + 1) == n * q + n;
      DivModUnique(i + 1, n, q + 1, 0);
    } else {
      DivModUnique(i + 1, n, q, r + 1);
    }
  }

  lemma DivModUnique(i: nat, n: nat, q: nat, r: nat)
    requires i == n * q + r && r < n
    ensures i / n == q && i % n == r
  {
    ModUnique(i, n, q, r);
    QuotientUnique(i, n, q, r);
  }

  /** Every window of n consecutive calls hits every backend exactly once. */
  lemma EveryWindowHitsEach(from: nat, n: nat, half: nat, j: nat)
    requires n > 0 && from + n <= half <= UINT64 && j < n
    ensures Hits(from, n, n, half, j) == 1
  {
    hide Hits;
    HitsFrom(from, n, n, half, j);
    OneRoundLater(from, n);
  }

  lemma OneRoundLater(i: nat, n: nat)
    requires n > 0
    ensures (i + n) / n == i / n + 1 && (i + n) % n == i % n
  {
    assert i + n == n * (i / n + 1) + i % n;
    DivModUnique(i + n, n, i / n + 1, i % n);
  }

  // ----- the balancer ---------------------------------------------------------------------

  /** The least value of a list, and the first index that has it. */
  predicate IsFirstMinimum(cs: seq<int>, i: nat) {
    && i < |cs|
    && (forall k :: 0 <= k < |cs| ==> cs[i] <= cs[k])
    && (forall k :: 0 <= k < i ==> cs[i] < cs[k])
  }

  /** What Next decides: an error, an index, or a panic on an index outside the list. */
  datatype Pick = NoBackend | Backend(idx: nat) | Panic

  class LoadBalancer {
    const backends: seq<string>
    const strategy: Strategy
    const half: nat
    var index: nat
    var connections: array<int>

    constructor (backends: seq<string>, strategy: Strategy, half: nat)
      requires half > 0
      ensures this.backends == backends && this.strategy == strategy && this.half == half && index == 0
      ensures fresh(connections) && connections[..] == seq(|backends|, _ => 0)
    {
      this.backends, this.strategy, this.half, index := backends, strategy, half, 0;
      connections := new int[|backends|](_ => 0);
    }

    predicate Valid()
      reads this
    {
      half > 0 && connections.Length == |backends| && index < UINT64
    }

    /** The next backend. For round robin the computed index may lie outside the list. */
    method Next() returns (p: Pick)
      requires Valid()
      modifies this`index
      ensures Valid()
      ensures p.NoBackend? <==> backends == []
      ensures p.Panic? ==> strategy == RoundRobin
      ensures p.Backend? ==> p.idx < |backends|
      ensures backends != [] && strategy == RoundRobin ==> index == Advance(old(index))
      ensures backends != [] && strategy == RoundRobin ==>
        var i := RoundRobinIndex(old(index), |backends|, half);
        p == if 0 <= i < |backends| then Backend(i) else Panic
      ensures backends == [] || strategy != RoundRobin ==> index == old(index)
      ensures p.Backend? && strategy == LeastConn ==> IsFirstMinimum(connections[..], p.idx)
    {
      if |backends| == 0 {
        return NoBackend;
      }
      match strategy
      case RoundRobin =>
        var i := RoundRobinIndex(index, |backends|, half);
        index := Advance(index);
        p := if 0 <= i < |backends| then Backend(i) else Panic;
      case Random =>
        var i: nat :| i < |backends|;
        p := Backend(i);
      case LeastConn =>
        var least, minConn := 0, connections[0];
        for i := 1 to |backends|
          invariant 0 <= least < i && minConn == connections[least]
          invariant forall k :: 0 <= k < i ==> minConn <= connections[k]
          invariant forall k :: 0 <= k < least ==> minConn < connections[k]
        {
          var c := connections[i];
          if c < minConn {
            minConn, least := c, i;
          }
        }
        p := Backend(least);
    }

    /** Takes the next backend, counts the attempt, and takes it back if the dial fails. */
    method Connect(dialOk: bool) returns (p: Pick, connected: bool)
      requires Valid()
      modifies this`index, connections
      ensures Valid()
      ensures connected <==> p.Backend? && dialOk
      ensures !connected ==> connections[..] == old(connections[..])
      ensures connected ==>
        p.idx < |backends| && connections[..] == old(connections[..])[p.idx := old(connections[p.idx]) + 1]
      ensures connected && strategy == LeastConn ==> IsFirstMinimum(old(connections[..]), p.idx)
      ensures backends != [] && strategy == RoundRobin ==>
        p == if 0 <= RoundRobinIndex(old(index), |backends|, half) < |backends|
             then Backend(RoundRobinIndex(old(index), |backends|, half)) else Panic
    {
      p := Next();
      connected := false;
      if p.Backend? {
        connections[p.idx] := connections[p.idx] + 1;
        if !dialOk {
          connections[p.idx] := connections[p.idx] - 1;
          return;
        }
        connected := true;
      }
    }

    /** Gives back one connection of a backend; other indices are ignored. */
    method Release(idx: int)
      requires Valid()
      modifies connections
      ensures connections[..] == if 0 <= idx < |backends|
        then old(connections[..])[idx := old(connections[..])[idx] - 1] else old(connections[..])
    {
      if idx >= 0 && idx < connections.Length {
        connections[idx] := connections[idx] - 1;
      }
    }
  }

  // ----- concurrent calls -----------------------------------------------------------------

  type Tid = nat

  /** A call before its counter is incremented: it has compared the backends below `next` and
      remembers the best of them and the value it read there, or it has made its choice. */
  datatype Call = Scanning(next: nat, best: nat, value: int) | Decided(choice: nat)

  /** `calls` are those still to be counted; `dialing` and `held` count, per backend, the calls
      waiting for their dial and the connections not yet released. */
  datatype State = State(counters: seq<int>, calls: map<Tid, Call>, dialing: seq<nat>, held: seq<nat>)

  /** The atomic steps of Connect and Release; the scan loads one counter at a time. */
  datatype Step =
    | Begin(tid: Tid)
    | Look(tid: Tid)
    | Decide(tid: Tid)
    | Count(tid: Tid, backend: nat)
    | DialOk(backend: nat)
    | DialFails(backend: nat)
    | Release(backend: nat)

  predicate WellFormed(s: State) {
    && |s.counters| == |s.dialing| == |s.held|
    && forall t :: t in s.calls ==>
         match s.calls[t]
         case Scanning(next, best, _) => best < next <= |s.counters|
         case Decided(i) => i < |s.counters|
  }

  /** A connection is released at most once, by the caller that holds it. */
  predicate Enabled(s: State, step: Step)
    requires WellFormed(s)
  {
    match step
    case Begin(t) => t !in s.calls && s.counters != []
    case Look(t) => t in s.calls && s.calls[t].Scanning? && s.calls[t].next < |s.counters|
    case Decide(t) => t in s.calls && s.calls[t].Scanning? && s.calls[t].next == |s.counters|
    case Count(t, i) => t in s.calls && s.calls[t] == Decided(i)
    case DialOk(i) => i < |s.dialing| && s.dialing[i] > 0
    case DialFails(i) => i < |s.dialing| && s.dialing[i] > 0
    case Release(i) => i < |s.held| && s.held[i] > 0
  }

  function Apply(s: State, step: Step): (s': State)
    requires WellFormed(s) && Enabled(s, step)
    ensures WellFormed(s') && |s'.counters| == |s.counters|
  {
    match step
    case Begin(t) => s.(calls := s.calls[t := Scanning(1, 0, s.counters[0])])
    case Look(t) =>
      var call := s.calls[t];
      var c := s.counters[call.next];
      s.(calls := s.calls[t :=
        if c < call.value then Scanning(call.next + 1, call.next, c) else call.(next := call.next + 1)])
    case Decide(t) => s.(calls := s.calls[t := Decided(s.calls[t].best)])
    case Count(t, i) =>
      s.(counters := s.counters[i := s.counters[i] + 1], calls := s.calls - {t},
         dialing := s.dialing[i := s.dialing[i] + 1])
    case DialOk(i) =>
      s.(dialing := s.dialing[i := s.dialing[i] - 1], held := s.held[i := s.held[i] + 1])
    case DialFails(i) =>
      s.(dialing := s.dialing[i := s.dialing[i] - 1], counters := s.counters[i := s.counters[i] - 1])
    case Release(i) =>
      s.(held := s.held[i := s.held[i] - 1], counters := s.counters[i := s.counters[i] - 1])
  }

  function Run(s: State, steps: seq<Step>): (r: Option<State>)
    requires WellFormed(s)
    ensures r.Some? ==> WellFormed(r.value) && |r.value.counters| == |s.counters|
    decreases |steps|
  {
    if steps == [] then Some(s)
    else if Enabled(s, steps[0]) then Run(Apply(s, steps[0]), steps[1..])
    else None
  }

  function Start(n: nat): (s: State)
    ensures WellFormed(s) && |s.counters| == n
  {
    State(seq(n, _ => 0), map[], seq(n, _ => 0), seq(n, _ => 0))
  }

  predicate Conserved(s: State)
    requires WellFormed(s)
  {
    forall i :: 0 <= i < |s.counters| ==> s.counters[i] == s.dialing[i] + s.held[i]
  }

  lemma StepConserves(s: State, step: Step)
    requires WellFormed(s) && Conserved(s) && Enabled(s, step)
    ensures Conserved(Apply(s, step))
  {}

  /** Conservation: in every interleaving each counter is the attempts being dialled plus the
      connections held, so it is never negative. */
  lemma {:induction false} CountersConserved(s: State, steps: seq<Step>)
    requires WellFormed(s) && Conserved(s) && Run(s, steps).Some?
    ensures var r := Run(s, steps).value;
      Conserved(r) && forall i :: 0 <= i < |r.counters| ==> r.counters[i] >= 0
    decreases |steps|
  {
    hide Apply, Enabled;
    if steps != [] {
      StepConserves(s, steps[0]);
      CountersConserved(Apply(s, steps[0]), steps[1..]);
    }
  }

  // ----- what a run did, from its steps alone ---------------------------------------------

  /** At one backend: increments, dials that succeeded, dials that failed, releases. */
  datatype Events = Events(counted: nat, connected: nat, failed: nat, released: nat)

  function EventsAt(steps: seq<Step>, b: nat): Events {
    if steps == [] then Events(0, 0, 0, 0)
    else
      var e := EventsAt(steps[1..], b);
      match steps[0]
      case Count(_, i) => if i == b then e.(counted := e.counted + 1) else e
      case DialOk(i) => if i == b then e.(connected := e.connected + 1) else e
      case DialFails(i) => if i == b then e.(failed := e.failed + 1) else e
      case Release(i) => if i == b then e.(released := e.released + 1) else e
      case _ => e
  }

  lemma {:induction false} RunRecords(s: State, steps: seq<Step>, b: nat)
    requires WellFormed(s) && b < |s.counters| && Run(s, steps).Some?
    ensures var r, e := Run(s, steps).value, EventsAt(steps, b);
      && r.counters[b] == s.counters[b] + e.counted - e.failed - e.released
      && r.dialing[b] == s.dialing[b] + e.counted - e.connected - e.failed
      && r.held[b] == s.held[b] + e.connected - e.released
    decreases |steps|
  {
    if steps != [] {
      RunRecords(Apply(s, steps[0]), steps[1..], b);
    }
  }

  /** What the counters count, in every run: a backend's counter is the increments at it less its
      failed dials and releases, and it holds the dials that succeeded less the releases. */
  lemma CountersFromSteps(n: nat, steps: seq<Step>, s: State, b: nat)
    requires b < n && Run(Start(n), steps) == Some(s)
    ensures var e := EventsAt(steps, b);
      && s.counters[b] == e.counted - e.failed - e.released >= 0
      && s.held[b] == e.connected - e.released
  {
    hide Run;
    RunRecords(Start(n), steps, b);
    CountersConserved(Start(n), steps);
  }

  /** The steps of a scan that nobody disturbs. */
  function Looks(t: Tid, k: nat): seq<Step> {
    if k == 0 then [] else [Look(t)] + Looks(t, k - 1)
  }

  lemma {:induction false} ScanOn(s: State, t: Tid, next: nat, best: nat) returns (i: nat)
    requires WellFormed(s) && best < next <= |s.counters|
    requires t in s.calls && s.calls[t] == Scanning(next, best, s.counters[best])
    requires IsFirstMinimum(s.counters[..next], best)
    ensures IsFirstMinimum(s.counters, i)
    ensures Run(s, Looks(t, |s.counters| - next) + [Decide(t)]) == Some(s.(calls := s.calls[t := Decided(i)]))
    decreases |s.counters| - next
  {
    var steps := Looks(t, |s.counters| - next) + [Decide(t)];
    if next == |s.counters| {
      i := best;
      assert s.counters[..next] == s.counters;
      assert steps == [Decide(t)] && steps[1..] == [];
      assert Run(Apply(s, Decide(t)), []) == Some(s.(calls := s.calls[t := Decided(i)]));
    } else {
      var s' := Apply(s, Look(t));
      var best' := if s.counters[next] < s.counters[best] then next else best;
      assert s.counters[..next + 1] == s.counters[..next] + [s.counters[next]];
      i := ScanOn(s', t, next + 1, best');
      assert steps[1..] == Looks(t, |s.counters| - next - 1) + [Decide(t)];
      assert s'.calls[t := Decided(i)] == s.calls[t := Decided(i)];
    }
  }

  /** A scan that runs alone chooses what Next promises, the first of the least counters, and its
      call is then the one to be counted. */
  lemma UndisturbedScan(s: State, t: Tid) returns (i: nat)
    requires WellFormed(s) && t !in s.calls && s.counters != []
    ensures IsFirstMinimum(s.counters, i)
    ensures Run(s, [Begin(t)] + (Looks(t, |s.counters| - 1) + [Decide(t)]))
            == Some(s.(calls := s.calls[t := Decided(i)]))
    ensures Enabled(s.(calls := s.calls[t := Decided(i)]), Count(t, i))
  {
    var s', steps := Apply(s, Begin(t)), Looks(t, |s.counters| - 1) + [Decide(t)];
    assert s.counters[..1] == [s.counters[0]];
    i := ScanOn(s', t, 1, 0);
    assert ([Begin(t)] + steps)[1..] == steps;
    assert s'.calls[t := Decided(i)] == s.calls[t := Decided(i)];
  }

  /** A call that has chosen can be counted, and what it counted is taken back by its failed dial or
      by the release of its connection. */
  lemma CallsComplete(s: State, t: Tid, i: nat)
    requires WellFormed(s) && t in s.calls && s.calls[t] == Decided(i)
    ensures Run(s, [Count(t, i), DialFails(i)]) == Some(s.(calls := s.calls - {t}))
    ensures Run(s, [Count(t, i), DialOk(i), Release(i)]) == Some(s.(calls := s.calls - {t}))
  {
    var done, s1 := s.(calls := s.calls - {t}), Apply(s, Count(t, i));
    var s2 := Apply(s1, DialOk(i));
    var failed, released := Apply(s1, DialFails(i)), Apply(s2, Release(i));
    assert failed.counters == released.counters == s.counters;
    assert failed.dialing == released.dialing == s.dialing && released.held == s.held;
    assert failed == done == released;
    OneStep(s1, DialFails(i));
    OneStep(s2, Release(i));
    assert [Count(t, i), DialFails(i)][1..] == [DialFails(i)];
    assert [Count(t, i), DialOk(i), Release(i)][1..] == [DialOk(i), Release(i)];
    assert [DialOk(i), Release(i)][1..] == [Release(i)];
    assert Run(s1, [DialOk(i), Release(i)]) == Some(done);
  }

  lemma OneStep(s: State, step: Step)
    requires WellFormed(s) && Enabled(s, step)
    ensures Run(s, [step]) == Some(Apply(s, step))
  {
    hide Apply, Enabled;
    assert [step][1..] == [];
  }

  // ----- balance --------------------------------------------------------------------------

  /** Every scan has read the least of the counters it has passed, and those have not shrunk. */
  predicate ScansSound(s: State)
    requires WellFormed(s)
  {
    forall t, j :: t in s.calls && s.calls[t].Scanning? && 0 <= j < s.calls[t].next ==>
      s.calls[t].value <= s.counters[j]
  }

  /** Calls that will or may yet raise backend b while the least counter is at most w: those that
      decided on it, and scans that hold it as their best with a value of at most w. */
  predicate Threatens(call: Call, b: nat, w: int) {
    match call
    case Decided(i) => i == b
    case Scanning(_, best, value) => best == b && value <= w
  }

  function Threats(calls: map<Tid, Call>, b: nat, w: int): set<Tid> {
    set t | t in calls && Threatens(calls[t], b, w)
  }

  predicate Bounded(s: State, b: nat, w: int, T: nat)
    requires b < |s.counters|
  {
    s.counters[b] + |Threats(s.calls, b, w)| <= w + T
  }

  /** From the least counter upwards, a backend and its threats stay within T of each level. */
  ghost predicate Balanced(s: State, T: nat)
    requires WellFormed(s)
  {
    && ScansSound(s)
    && forall b, j, w :: 0 <= b < |s.counters| && 0 <= j < |s.counters| && s.counters[j] <= w ==> Bounded(s, b, w, T)
  }

  lemma ThreatsAreCalls(calls: map<Tid, Call>, b: nat, w: int)
    ensures |Threats(calls, b, w)| <= |calls|
  {
    SubsetSize(Threats(calls, b, w), calls.Keys);
  }

  lemma {:induction false} SubsetSize(a: set<Tid>, b: set<Tid>)
    requires a <= b
    ensures |a| <= |b|
  {
    if a != {} {
      var t :| t in a;
      SubsetSize(a - {t}, b - {t});
    }
  }

  predicate Connecting(step: Step) {
    !step.DialFails? && !step.Release?
  }

  lemma StepKeepsScans(s: State, step: Step)
    requires WellFormed(s) && ScansSound(s) && Enabled(s, step) && Connecting(step)
    ensures ScansSound(Apply(s, step))
  {}

  /** One level of one backend: a step leaves the bound alone, or the level is at or above the
      backend's own counter, where at most T calls in flight keep it. */
  lemma StepKeepsBound(s: State, step: Step, b: nat, j: nat, w: int, T: nat)
    requires WellFormed(s) && Balanced(s, T) && Enabled(s, step) && Connecting(step)
    requires b < |s.counters| && j < |s.counters| && Apply(s, step).counters[j] <= w
    requires |Apply(s, step).calls| <= T
    ensures Bounded(Apply(s, step), b, w, T)
  {
    var s' := Apply(s, step);
    CountersAfter(s, step);
    assert Bounded(s, b, w, T);
    if w >= s'.counters[b] {
      ThreatsAreCalls(s'.calls, b, w);
    } else {
      hide Apply, Threats, WellFormed, Enabled, ScansSound;
      ThreatsAfter(s, step, b, j, w);
      SubsetSize(Threats(s'.calls, b, w), Threats(s.calls, b, w));
    }
  }

  /** Only a count raises a counter. */
  lemma CountersAfter(s: State, step: Step)
    requires WellFormed(s) && Enabled(s, step) && Connecting(step)
    ensures var s' := Apply(s, step);
      if step.Count? then
        s'.counters == s.counters[step.backend := s.counters[step.backend] + 1]
      else
        s'.counters == s.counters
  {}

  /** Below a backend's counter no step adds a threat to it, and the call counted was one. */
  lemma ThreatsAfter(s: State, step: Step, b: nat, j: nat, w: int)
    requires WellFormed(s) && ScansSound(s) && Enabled(s, step) && Connecting(step)
    requires b < |s.counters| && j < |s.counters| && s.counters[j] <= w < Apply(s, step).counters[b]
    ensures var before, after := Threats(s.calls, b, w), Threats(Apply(s, step).calls, b, w);
      if step.Count? && step.backend == b
      then step.tid in before && after == before - {step.tid} else after <= before
  {
    if step.Decide? {
      assert s.calls[step.tid].value <= s.counters[j];
    }
  }

  /** At most T calls are between the start of their scan and their increment, in every state. */
  predicate AtMostInFlight(s: State, steps: seq<Step>, T: nat)
    requires WellFormed(s)
    decreases |steps|
  {
    && |s.calls| <= T
    && (steps != [] && Enabled(s, steps[0]) ==> AtMostInFlight(Apply(s, steps[0]), steps[1..], T))
  }

  lemma StepKeepsBalance(s: State, step: Step, T: nat)
    requires WellFormed(s) && Balanced(s, T) && Enabled(s, step) && Connecting(step)
    requires |Apply(s, step).calls| <= T
    ensures Balanced(Apply(s, step), T)
  {
    hide Bounded;
    var s' := Apply(s, step);
    StepKeepsScans(s, step);
    forall b, j, w | 0 <= b < |s'.counters| && 0 <= j < |s'.counters| && s'.counters[j] <= w
      ensures Bounded(s', b, w, T)
    {
      StepKeepsBound(s, step, b, j, w, T);
    }
  }

  /** Least-connections balance: whatever the interleaving of the scans' single loads, with at
      most T calls between the start of their scan and their increment every counter stays
      within T of the smallest. Called one at a time, within 1. */
  lemma {:induction false} LeastConnectionsBalance(s: State, steps: seq<Step>, T: nat)
    requires WellFormed(s) && Balanced(s, T) && Run(s, steps).Some?
    requires (forall step :: step in steps ==> Connecting(step)) && AtMostInFlight(s, steps, T)
    ensures var r := Run(s, steps).value;
      Balanced(r, T)
      && forall i, j :: 0 <= i < |r.counters| && 0 <= j < |r.counters| ==> r.counters[i] <= r.counters[j] + T
    decreases |steps|
  {
    hide Apply, Enabled, Balanced;
    if steps == [] {
      BalancedMeans(s, T);
    } else {
      var step := steps[0];
      assert step in steps && forall t :: t in steps[1..] ==> t in steps;
      StepKeepsBalance(s, step, T);
      LeastConnectionsBalance(Apply(s, step), steps[1..], T);
    }
  }

  lemma BalancedMeans(s: State, T: nat)
    requires WellFormed(s) && Balanced(s, T)
    ensures forall i, j :: 0 <= i < |s.counters| && 0 <= j < |s.counters| ==> s.counters[i] <= s.counters[j] + T
  {
    forall i, j | 0 <= i < |s.counters| && 0 <= j < |s.counters|
      ensures s.counters[i] <= s.counters[j] + T
    {
      assert Bounded(s, i, s.counters[j], T);
    }
  }

  lemma StartHolds(n: nat, T: nat)
    ensures Conserved(Start(n)) && Balanced(Start(n), T)
  {
    assert forall b, w :: Threats(map[], b, w) == {};
  }
}
