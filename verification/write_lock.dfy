/** Concurrent writers on one connection: Write calls and the reader's pong replies take the
    write mutex, put their bytes on the wire piece by piece, and release it. */
module WriteLock {
  import opened Bytes
  import opened Frames
  import opened FrameStreams

  type Tid = nat

  /** Where a thread is in its call, whose whole wire form is `bytes`. */
  datatype Pc = Idle | Waiting(bytes: seq<byte>) | Writing(bytes: seq<byte>, sent: nat)

  /** A call and the thread that made it. */
  datatype Call = Call(tid: Tid, bytes: seq<byte>)

  /** `called` lists the calls in the order they were made, `done` and `failed` in the order they
      returned. Once a raw write has failed the connection is broken; `cut` is what that call had
      put on the wire by then. */
  datatype State = State(pcs: map<Tid, Pc>, holder: Option<Tid>, out: seq<byte>, broken: bool, cut: seq<byte>,
                         called: seq<Call>, done: seq<Call>, failed: seq<Call>)

  datatype Step =
    | Enter(tid: Tid, bytes: seq<byte>)
    | Acquire(tid: Tid)
    | Push(tid: Tid, n: nat)
    | Release(tid: Tid)
    | Fail(tid: Tid)

  function PcOf(s: State, t: Tid): Pc {
    if t in s.pcs then s.pcs[t] else Idle
  }

  /** Bytes move and calls succeed only while the connection works; a call may fail at any point,
      and releases the mutex like one that succeeds. */
  predicate Enabled(s: State, step: Step) {
    var pc := PcOf(s, step.tid);
    match step
    case Enter(_, _) => pc.Idle?
    case Acquire(_) => pc.Waiting? && s.holder.None?
    case Push(_, n) => pc.Writing? && !s.broken && pc.sent + n <= |pc.bytes|
    case Release(_) => pc.Writing? && !s.broken && pc.sent == |pc.bytes|
    case Fail(_) => pc.Writing?
  }

  function Apply(s: State, step: Step): State
    requires Enabled(s, step)
  {
    var t := step.tid;
    var pc := PcOf(s, t);
    match step
    case Enter(_, bytes) => s.(pcs := s.pcs[t := Waiting(bytes)], called := s.called + [Call(t, bytes)])
    case Acquire(_) => s.(pcs := s.pcs[t := Writing(pc.bytes, 0)], holder := Some(t))
    case Push(_, n) =>
      s.(pcs := s.pcs[t := Writing(pc.bytes, pc.sent + n)], out := s.out + pc.bytes[pc.sent..pc.sent + n])
    case Release(_) =>
      s.(pcs := s.pcs[t := Idle], holder := None, done := s.done + [Call(t, pc.bytes)])
    case Fail(_) =>
      s.(pcs := s.pcs[t := Idle], holder := None, failed := s.failed + [Call(t, pc.bytes)],
         broken := true, cut := Partial(s))
  }

  const INIT: State := State(map[], None, [], false, [], [], [], [])

  /** The state after a run from INIT, if every step is enabled where it is taken. */
  function Run(steps: seq<Step>): Option<State> {
    if steps == [] then
      Some(INIT)
    else
      match Run(steps[..|steps| - 1])
      case None => None
      case Some(s) =>
        var step := steps[|steps| - 1];
        if Enabled(s, step) then Some(Apply(s, step)) else None
  }

  function BytesOf(calls: seq<Call>): seq<byte> {
    if calls == [] then [] else BytesOf(calls[..|calls| - 1]) + calls[|calls| - 1].bytes
  }

  /** The calls of one thread, in order. */
  function By(calls: seq<Call>, t: Tid): seq<seq<byte>> {
    if calls == [] then [] else
      By(calls[..|calls| - 1], t) + if calls[|calls| - 1].tid == t then [calls[|calls| - 1].bytes] else []
  }

  /** The one call that may be out in part: the first that failed, or else the holder's. */
  function Unfinished(s: State): Option<seq<byte>> {
    if s.broken then
      if s.failed == [] then None else Some(s.failed[0].bytes)
    else if s.holder.Some? && PcOf(s, s.holder.value).Writing? then
      Some(PcOf(s, s.holder.value).bytes)
    else
      None
  }

  /** What of it is out. */
  function Partial(s: State): seq<byte> {
    if s.broken then s.cut
    else if s.holder.None? then []
    else
      var pc := PcOf(s, s.holder.value);
      if pc.Writing? && pc.sent <= |pc.bytes| then pc.bytes[..pc.sent] else []
  }

  function Pending(s: State, t: Tid): seq<seq<byte>> {
    var pc := PcOf(s, t);
    if pc.Idle? then [] else [pc.bytes]
  }

  /** Only the holder of the lock is writing, and the output is whole calls and part of one. */
  ghost predicate LockInv(s: State) {
    && (forall t :: t in s.pcs && s.pcs[t].Writing? <==> s.holder == Some(t))
    && (s.holder.Some? ==> PcOf(s, s.holder.value).sent <= |PcOf(s, s.holder.value).bytes|)
    && s.out == BytesOf(s.done) + Partial(s)
    && (s.broken <==> s.failed != [])
    && (s.broken ==> s.cut <= s.failed[0].bytes)
  }

  /** A thread's calls are the ones that succeeded, then those that failed, then the one it is in. */
  ghost predicate HistoryInv(s: State, t: Tid) {
    By(s.called, t) == By(s.done, t) + By(s.failed, t) + Pending(s, t)
  }

  lemma ByAppend(calls: seq<Call>, c: Call, t: Tid)
    ensures By(calls + [c], t) == By(calls, t) + if c.tid == t then [c.bytes] else []
  {
    assert (calls + [c])[..|calls|] == calls;
  }

  lemma BytesAppend(calls: seq<Call>, c: Call)
    ensures BytesOf(calls + [c]) == BytesOf(calls) + c.bytes
  {
    assert (calls + [c])[..|calls|] == calls;
  }

  lemma StepKeepsHistory(s: State, step: Step, t: Tid)
    requires LockInv(s) && HistoryInv(s, t) && Enabled(s, step)
    ensures HistoryInv(Apply(s, step), t)
  {
    hide By, BytesOf;
    if step.Enter? {
      ByAppend(s.called, Call(step.tid, step.bytes), t);
    } else if step.Release? {
      ByAppend(s.done, Call(step.tid, PcOf(s, step.tid).bytes), t);
      NoCalls(t);
    } else if step.Fail? {
      ByAppend(s.failed, Call(step.tid, PcOf(s, step.tid).bytes), t);
    }
  }

  lemma NoCalls(t: Tid)
    ensures By([], t) == []
  {}

  lemma StepKeepsLock(s: State, step: Step)
    requires LockInv(s) && Enabled(s, step)
    ensures LockInv(Apply(s, step))
  {
    hide BytesOf, Partial;
    StepKeepsOutput(s, step);
    if step.Fail? {
      PartOfFirst(s, Call(step.tid, PcOf(s, step.tid).bytes));
    }
  }

  lemma PartOfFirst(s: State, c: Call)
    requires LockInv(s) && s.holder == Some(c.tid) && c.bytes == PcOf(s, c.tid).bytes
    ensures Partial(s) <= (s.failed + [c])[0].bytes
  {}

  lemma StepKeepsOutput(s: State, step: Step)
    requires LockInv(s) && Enabled(s, step)
    ensures Apply(s, step).out == BytesOf(Apply(s, step).done) + Partial(Apply(s, step))
  {
    hide BytesOf;
    var s', t, pc := Apply(s, step), step.tid, PcOf(s, step.tid);
    match step
    case Push(_, n) =>
      assert Partial(s) == pc.bytes[..pc.sent] && Partial(s') == pc.bytes[..pc.sent + n];
      assert pc.bytes[..pc.sent + n] == pc.bytes[..pc.sent] + pc.bytes[pc.sent..pc.sent + n];
      Associative(BytesOf(s.done), pc.bytes[..pc.sent], pc.bytes[pc.sent..pc.sent + n]);
    case Release(_) =>
      BytesAppend(s.done, Call(t, pc.bytes));
      assert Partial(s) == pc.bytes && Partial(s') == [];
    case _ =>
      assert Partial(s') == Partial(s);
  }

  lemma {:induction false} RunKeepsInvariants(steps: seq<Step>)
    requires Run(steps).Some?
    ensures LockInv(Run(steps).value) && forall t :: HistoryInv(Run(steps).value, t)
  {
    hide LockInv, HistoryInv, Apply, Enabled;
    if steps == [] {
      InitHolds();
    } else {
      var s, step := Run(steps[..|steps| - 1]).value, steps[|steps| - 1];
      RunKeepsInvariants(steps[..|steps| - 1]);
      StepKeepsLock(s, step);
      forall t
        ensures HistoryInv(Apply(s, step), t)
      {
        StepKeepsHistory(s, step, t);
      }
    }
  }

  lemma InitHolds()
    ensures LockInv(INIT) && forall t :: HistoryInv(INIT, t)
  {}

  // ----- what a run did, from its steps alone ---------------------------------------------

  /** The calls made, in order. */
  function Made(steps: seq<Step>): seq<Call> {
    if steps == [] then [] else
      var step := steps[|steps| - 1];
      Made(steps[..|steps| - 1]) + if step.Enter? then [Call(step.tid, step.bytes)] else []
  }

  /** The threads in the order they got the lock. */
  function LockOrder(steps: seq<Step>): seq<Tid> {
    if steps == [] then [] else
      var step := steps[|steps| - 1];
      LockOrder(steps[..|steps| - 1]) + if step.Acquire? then [step.tid] else []
  }

  function TidsOf(calls: seq<Call>): seq<Tid> {
    seq(|calls|, i requires 0 <= i < |calls| => calls[i].tid)
  }

  function Holder(s: State): seq<Tid> {
    if s.holder.Some? then [s.holder.value] else []
  }

  /** The records in the state are those of the steps, and calls return in lock order. */
  lemma {:induction false} RunRecords(steps: seq<Step>)
    requires Run(steps).Some?
    ensures var s := Run(steps).value;
      s.called == Made(steps) && TidsOf(s.done + s.failed) + Holder(s) == LockOrder(steps)
  {
    hide LockInv, HistoryInv;
    if steps == [] {
      assert TidsOf([] + []) + [] == [];
    } else {
      hide Apply, Enabled;
      var before := steps[..|steps| - 1];
      var s, step := Run(before).value, steps[|steps| - 1];
      RunRecords(before);
      RunKeepsInvariants(before);
      StepRecords(s, step);
    }
  }

  lemma StepRecords(s: State, step: Step)
    requires LockInv(s) && Enabled(s, step)
    ensures var r := Apply(s, step);
      && r.called == s.called + (if step.Enter? then [Call(step.tid, step.bytes)] else [])
      && TidsOf(r.done + r.failed) + Holder(r)
         == TidsOf(s.done + s.failed) + Holder(s) + if step.Acquire? then [step.tid] else []
  {
    hide BytesOf, Partial;
    var r := Apply(s, step);
    if step.Release? || step.Fail? {
      assert s.holder == Some(step.tid);
      assert r.done + r.failed == (s.done + s.failed) + [Call(step.tid, PcOf(s, step.tid).bytes)];
      assert TidsOf(r.done + r.failed) == TidsOf(s.done + s.failed) + [step.tid];
    }
  }

  // ----- results --------------------------------------------------------------------------

  /** Whole calls on the wire: in every interleaving, failing writes included, the output is the
      calls that succeeded, in lock order, followed by part of one call: the first that failed, or
      the one that holds the lock. Every call made is accounted for once, and each thread's calls
      are in the order it made them. */
  lemma OutputIsWholeCalls(steps: seq<Step>, s: State, t: Tid)
    requires Run(steps) == Some(s)
    ensures s.out == BytesOf(s.done) + Partial(s)
    ensures if Unfinished(s).Some? then Partial(s) <= Unfinished(s).value else Partial(s) == []
    ensures By(Made(steps), t) == By(s.done, t) + By(s.failed, t) + Pending(s, t)
    ensures TidsOf(s.done + s.failed) + Holder(s) == LockOrder(steps)
  {
    hide Run, By, BytesOf, TidsOf, Made;
    RunKeepsInvariants(steps);
    RunRecords(steps);
    assert HistoryInv(s, t);
  }

  /** From every state with the lock free on a working connection a thread that is not in a call
      can make one, whole, or have it fail after any number of its bytes. */
  lemma CallCompletes(steps: seq<Step>, s: State, t: Tid, bytes: seq<byte>)
    requires Run(steps) == Some(s) && s.holder.None? && !s.broken && PcOf(s, t).Idle?
    ensures var r := Run(steps + [Enter(t, bytes)] + [Acquire(t)] + [Push(t, |bytes|)] + [Release(t)]);
      r.Some? && r.value.out == s.out + bytes && r.value.done == s.done + [Call(t, bytes)]
    ensures forall n :: 0 <= n <= |bytes| ==>
      var r := Run(steps + [Enter(t, bytes)] + [Acquire(t)] + [Push(t, n)] + [Fail(t)]);
      r.Some? && r.value.out == s.out + bytes[..n] && r.value.failed == s.failed + [Call(t, bytes)] && r.value.broken
  {
    hide Run;
    forall n | 0 <= n <= |bytes|
      ensures var r := Run(steps + [Enter(t, bytes)] + [Acquire(t)] + [Push(t, n)] + [Fail(t)]);
        r.Some? && r.value.out == s.out + bytes[..n] && r.value.failed == s.failed + [Call(t, bytes)] && r.value.broken
    {
      CallFails(steps, s, t, bytes, n);
    }
    RunThen(steps, Enter(t, bytes));
    RunThen(steps + [Enter(t, bytes)], Acquire(t));
    RunThen(steps + [Enter(t, bytes)] + [Acquire(t)], Push(t, |bytes|));
    RunThen(steps + [Enter(t, bytes)] + [Acquire(t)] + [Push(t, |bytes|)], Release(t));
    assert bytes[0..0 + |bytes|] == bytes;
  }

  lemma CallFails(steps: seq<Step>, s: State, t: Tid, bytes: seq<byte>, n: nat)
    requires Run(steps) == Some(s) && s.holder.None? && !s.broken && PcOf(s, t).Idle? && n <= |bytes|
    ensures var r := Run(steps + [Enter(t, bytes)] + [Acquire(t)] + [Push(t, n)] + [Fail(t)]);
      r.Some? && r.value.out == s.out + bytes[..n] && r.value.failed == s.failed + [Call(t, bytes)] && r.value.broken
  {
    hide Run;
    RunThen(steps, Enter(t, bytes));
    RunThen(steps + [Enter(t, bytes)], Acquire(t));
    RunThen(steps + [Enter(t, bytes)] + [Acquire(t)], Push(t, n));
    RunThen(steps + [Enter(t, bytes)] + [Acquire(t)] + [Push(t, n)], Fail(t));
  }

  lemma RunThen(steps: seq<Step>, step: Step)
    requires Run(steps).Some? && Enabled(Run(steps).value, step)
    ensures Run(steps + [step]) == Some(Apply(Run(steps).value, step))
  {
    hide Enabled, Apply;
    assert (steps + [step])[..|steps|] == steps;
  }

  /** The calls were frames. */
  ghost predicate AreFrames(calls: seq<Call>, fs: seq<Frame>) {
    |fs| == |calls| && forall i :: 0 <= i < |fs| ==> calls[i].bytes == Encode(fs[i])
  }

  lemma {:induction false} WireAppend(fs: seq<Frame>, f: Frame)
    ensures Wire(fs + [f]) == Wire(fs) + Encode(f)
  {
    if fs == [] {
      assert Wire([f]) == Encode(f) + Wire([]);
      assert fs + [f] == [f];
    } else {
      assert (fs + [f])[1..] == fs[1..] + [f];
      WireAppend(fs[1..], f);
    }
  }

  lemma {:induction false} FramesOnWire(calls: seq<Call>, fs: seq<Frame>)
    requires AreFrames(calls, fs)
    ensures BytesOf(calls) == Wire(fs)
  {
    hide Encode;
    if fs != [] {
      var n := |fs| - 1;
      FramesOnWire(calls[..n], fs[..n]);
      WireAppend(fs[..n], fs[n]);
      assert fs[..n] + [fs[n]] == fs;
    }
  }

  /** The peer of concurrent WebSocket writers and pong replies reads, at every moment, exactly the
      frames completed so far, in lock order: a frame that is half written, or cut by a failed
      write, is invisible, and one that is fully on the wire counts before its call returns. */
  lemma PeerReadsLockOrder(steps: seq<Step>, s: State, fs: seq<Frame>, current: Frame)
    requires Run(steps) == Some(s)
    requires AreFrames(s.done, fs) && AllTransparent(fs)
    requires Unfinished(s).Some? ==> IsData(current) && Unfinished(s).value == Encode(current)
    ensures var complete := Unfinished(s).Some? && |Partial(s)| == |Encode(current)|;
      && Payloads(s.out) == PayloadsOf(fs) + (if complete then [current.payload] else [])
      && Echoes(s.out) == PingsOf(fs)
  {
    hide Run, Encode, Payloads, Echoes, Unfinished, Partial;
    OutputIsWholeCalls(steps, s, 0);
    FramesOnWire(s.done, fs);
    FramesDecode(fs, Partial(s));
    PartDecodes(current, Partial(s), Unfinished(s).Some?);
    assert PingsOf(fs) + [] == PingsOf(fs);
  }

  /** A part of a data frame decodes to nothing until it is the whole frame. */
  lemma PartDecodes(f: Frame, part: seq<byte>, some: bool)
    requires if some then IsData(f) && part <= Encode(f) else part == []
    ensures Payloads(part) == if some && |part| == |Encode(f)| then [f.payload] else []
    ensures Echoes(part) == []
  {
    hide Encode, ParseFrame;
    NothingDecodes();
    if some {
      if |part| == |Encode(f)| {
        assert part + [] == Encode(f) + [];
        assert part + [] == part;
        ParseData(f, []);
      } else {
        assert part == Encode(f)[..|part|];
        PartOfFrameIsTruncated(f, |part|);
      }
    }
  }
}
