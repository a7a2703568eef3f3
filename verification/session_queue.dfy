/** The session pool as a queue of values: rotation with lazy removal of closed sessions. */
module SessionQueue {
  import opened Bytes

  /** The queue pick leaves and the session it returns. */
  datatype Picked<T> = Picked(session: Option<T>, queue: seq<T>)

  /** pick: drops closed sessions from the front, then moves the first open one to the back. */
  function Pick<T(==)>(q: seq<T>, closed: set<T>): Picked<T> {
    if q == [] then Picked(None, [])
    else if q[0] in closed then Pick(q[1..], closed)
    else Picked(Some(q[0]), q[1..] + [q[0]])
  }

  lemma PickUnfolds<T>(q: seq<T>, closed: set<T>)
    ensures Pick(q, closed) ==
      if q == [] then Picked(None, [])
      else if q[0] in closed then Pick(q[1..], closed)
      else Picked(Some(q[0]), q[1..] + [q[0]])
  {}

  /** remove: deletes the first entry equal to x. */
  function Remove<T(==)>(q: seq<T>, x: T): seq<T> {
    if q == [] then [] else if q[0] == x then q[1..] else [q[0]] + Remove(q[1..], x)
  }

  /** The open sessions of a queue, in order. */
  function OpenOf<T(==)>(q: seq<T>, closed: set<T>): seq<T> {
    if q == [] then [] else (if q[0] in closed then [] else [q[0]]) + OpenOf(q[1..], closed)
  }

  function Count<T(==)>(q: seq<T>, x: T): nat {
    if q == [] then 0 else (if q[0] == x then 1 else 0) + Count(q[1..], x)
  }

  function IndexOf<T(==)>(q: seq<T>, x: T): (i: nat)
    requires x in q
    ensures i < |q| && q[i] == x && x !in q[..i]
  {
    if q[0] == x then 0 else 1 + IndexOf(q[1..], x)
  }

  lemma {:induction false} OpenOfAppend<T>(q: seq<T>, r: seq<T>, closed: set<T>)
    ensures OpenOf(q + r, closed) == OpenOf(q, closed) + OpenOf(r, closed)
  {
    if q == [] {
      assert q + r == r;
    } else {
      assert (q + r)[1..] == q[1..] + r;
      OpenOfAppend(q[1..], r, closed);
    }
  }

  lemma {:induction false} CountAppend<T>(q: seq<T>, r: seq<T>, x: T)
    ensures Count(q + r, x) == Count(q, x) + Count(r, x)
  {
    if q == [] {
      assert q + r == r;
    } else {
      assert (q + r)[1..] == q[1..] + r;
      CountAppend(q[1..], r, x);
    }
  }

  // ----- one call -------------------------------------------------------------------------

  /** pick fails exactly when no pooled session is open, and then empties the pool; otherwise
      it returns the first open session and rotates the open sessions by one. */
  lemma {:induction false} PickRotates<T>(q: seq<T>, closed: set<T>)
    ensures var p, open := Pick(q, closed), OpenOf(q, closed);
      if open == [] then
        p == Picked(None, [])
      else
        p.session == Some(open[0]) && OpenOf(p.queue, closed) == open[1..] + [open[0]]
  {
    if q != [] {
      if q[0] in closed {
        PickRotates(q[1..], closed);
      } else {
        OpenOfAppend(q[1..], [q[0]], closed);
      }
    }
  }

  /** pick drops nothing but the closed sessions in front of the one it returns. */
  lemma {:induction false} PickDropsOnlyClosed<T>(q: seq<T>, closed: set<T>) returns (k: nat)
    ensures k <= |q| && forall i :: 0 <= i < k ==> q[i] in closed
    ensures var p := Pick(q, closed);
      if k == |q| then p == Picked(None, [])
      else q[k] !in closed && p == Picked(Some(q[k]), q[k + 1..] + [q[k]])
  {
    if q == [] || q[0] !in closed {
      k := 0;
    } else {
      var j := PickDropsOnlyClosed(q[1..], closed);
      k := j + 1;
    }
  }

  ghost predicate Distinct<T>(q: seq<T>) {
    forall i, j :: 0 <= i < j < |q| ==> q[i] != q[j]
  }

  lemma PickKeepsDistinct<T>(q: seq<T>, closed: set<T>)
    requires Distinct(q)
    ensures Distinct(Pick(q, closed).queue)
  {
    var k := PickDropsOnlyClosed(q, closed);
  }

  lemma {:induction false} RemoveAt<T>(q: seq<T>, x: T, i: nat)
    requires i < |q| && q[i] == x && x !in q[..i]
    ensures Remove(q, x) == q[..i] + q[i + 1..]
  {
    if i > 0 {
      assert q[..i][0] == q[0];
      assert q[1..][..i - 1] == q[..i][1..];
      RemoveAt(q[1..], x, i - 1);
      assert q[..i] == [q[0]] + q[1..][..i - 1] && q[i + 1..] == q[1..][i..];
    }
  }

  lemma {:induction false} RemoveAbsent<T>(q: seq<T>, x: T)
    requires x !in q
    ensures Remove(q, x) == q
  {
    if q != [] {
      RemoveAbsent(q[1..], x);
    }
  }

  /** remove deletes one entry if the session is there, none otherwise, and keeps the order. */
  lemma RemoveShape<T>(q: seq<T>, x: T)
    ensures if x in q then
        var i := IndexOf(q, x);
        Remove(q, x) == q[..i] + q[i + 1..]
      else
        Remove(q, x) == q
  {
    hide Remove, IndexOf;
    if x in q {
      RemoveAt(q, x, IndexOf(q, x));
    } else {
      RemoveAbsent(q, x);
    }
  }

  lemma RemoveKeepsDistinct<T>(q: seq<T>, x: T)
    requires Distinct(q)
    ensures Distinct(Remove(q, x)) && x !in Remove(q, x)
  {
    RemoveShape(q, x);
  }

  lemma {:induction false} PickCount<T>(q: seq<T>, closed: set<T>, x: T)
    requires x !in closed
    ensures Count(Pick(q, closed).queue, x) == Count(q, x)
  {
    if q != [] {
      if q[0] in closed {
        PickCount(q[1..], closed, x);
      } else {
        CountAppend(q[1..], [q[0]], x);
        assert Count([q[0]], x) == (if q[0] == x then 1 else 0) + Count([q[0]][1..], x);
      }
    }
  }

  lemma {:induction false} RemoveCount<T>(q: seq<T>, y: T, x: T)
    requires x != y
    ensures Count(Remove(q, y), x) == Count(q, x)
  {
    if q != [] && q[0] != y {
      RemoveCount(q[1..], y, x);
      assert Remove(q, y)[1..] == Remove(q[1..], y);
    }
  }

  // ----- runs -----------------------------------------------------------------------------

  /** add, pick and remove happen under the mutex, closing at any moment from outside. */
  datatype Step<T> = Add(added: T) | PickNext | Drop(dropped: T) | Close(target: T)

  /** A closed session stays closed. */
  datatype State<T> = State(queue: seq<T>, closed: set<T>)

  function Apply<T(==)>(s: State<T>, step: Step<T>): State<T> {
    match step
    case Add(x) => s.(queue := s.queue + [x])
    case PickNext => s.(queue := Pick(s.queue, s.closed).queue)
    case Drop(x) => s.(queue := Remove(s.queue, x))
    case Close(x) => s.(closed := s.closed + {x})
  }

  function Run<T(==)>(s: State<T>, steps: seq<Step<T>>): State<T>
    decreases |steps|
  {
    if steps == [] then s else Run(Apply(s, steps[0]), steps[1..])
  }

  /** What the picks of a run returned, in order. */
  function Outputs<T(==)>(s: State<T>, steps: seq<Step<T>>): seq<Option<T>>
    decreases |steps|
  {
    if steps == [] then [] else
      (if steps[0].PickNext? then [Pick(s.queue, s.closed).session] else [])
      + Outputs(Apply(s, steps[0]), steps[1..])
  }

  function Picks<T(==)>(steps: seq<Step<T>>): nat {
    if steps == [] then 0 else (if steps[0].PickNext? then 1 else 0) + Picks(steps[1..])
  }

  function Adds<T(==)>(steps: seq<Step<T>>, x: T): nat {
    if steps == [] then 0 else (if steps[0] == Add(x) then 1 else 0) + Adds(steps[1..], x)
  }

  /** x is neither closed nor removed during the run. */
  predicate LeavesAlone<T(==)>(steps: seq<Step<T>>, x: T) {
    forall step :: step in steps ==> step != Close(x) && step != Drop(x)
  }

  /** One step other than closing or removing x brings x no further from the front; a pick that
      does not return it brings it nearer. */
  lemma StepAdvances<T>(s: State<T>, step: Step<T>, x: T, i: nat)
    requires i < |s.queue| && s.queue[i] == x && x !in s.closed
    requires step != Close(x) && step != Drop(x)
    requires step.PickNext? ==> Pick(s.queue, s.closed).session != Some(x)
    ensures x !in Apply(s, step).closed
    ensures var q, j := Apply(s, step).queue, if step.PickNext? then i - 1 else i;
      x in q && IndexOf(q, x) <= j
  {
    match step
    case Add(y) =>
      assert (s.queue + [y])[i] == x;
    case PickNext =>
      var k := PickDropsOnlyClosed(s.queue, s.closed);
      assert k < i;
      assert Pick(s.queue, s.closed).queue[i - k - 1] == x;
    case Drop(y) =>
      RemoveShape(s.queue, y);
      if y in s.queue {
        var k := IndexOf(s.queue, y);
        assert Remove(s.queue, y)[if i < k then i else i - 1] == x;
      }
    case Close(y) =>
  }

  /** Bounded waiting: whatever the others do, a session at index i that stays open and in the
      pool is returned by one of the next i + 1 picks. */
  lemma {:induction false} BoundedWaiting<T>(s: State<T>, steps: seq<Step<T>>, x: T, i: nat) returns (j: nat)
    requires i < |s.queue| && s.queue[i] == x && x !in s.closed
    requires LeavesAlone(steps, x) && Picks(steps) > i
    ensures j <= i && j < |Outputs(s, steps)| && Outputs(s, steps)[j] == Some(x)
    decreases |steps|
  {
    hide Pick;
    var step, s' := steps[0], Apply(s, steps[0]);
    assert step in steps && forall t :: t in steps[1..] ==> t in steps;
    if step.PickNext? && Pick(s.queue, s.closed).session == Some(x) {
      j := 0;
    } else {
      StepAdvances(s, step, x, i);
      var h := BoundedWaiting(s', steps[1..], x, IndexOf(s'.queue, x));
      j := if step.PickNext? then h + 1 else h;
    }
  }

  /** A session is never returned once it is closed. */
  lemma {:induction false} ClosedNeverReturned<T>(s: State<T>, steps: seq<Step<T>>, x: T)
    requires x in s.closed
    ensures Some(x) !in Outputs(s, steps)
    decreases |steps|
  {
    if steps != [] {
      ClosedNeverReturned(Apply(s, steps[0]), steps[1..], x);
      var k := PickDropsOnlyClosed(s.queue, s.closed);
    }
  }

  /** Only pooled sessions are returned. */
  lemma {:induction false} ReturnedWasPooled<T>(s: State<T>, steps: seq<Step<T>>, x: T)
    requires Some(x) in Outputs(s, steps)
    ensures x in s.queue || Add(x) in steps
    decreases |steps|
  {
    var k := PickDropsOnlyClosed(s.queue, s.closed);
    if !(steps[0].PickNext? && Pick(s.queue, s.closed).session == Some(x)) {
      ReturnedWasPooled(Apply(s, steps[0]), steps[1..], x);
      if steps[0].Drop? {
        RemoveShape(s.queue, steps[0].dropped);
      }
    }
  }

  /** Conservation: an open session is in the pool as often as it was put there, whatever picks
      happen and whichever other sessions are closed or removed. */
  lemma {:induction false} OpenSessionsStay<T>(s: State<T>, steps: seq<Step<T>>, x: T)
    requires x !in s.closed && LeavesAlone(steps, x)
    ensures Count(Run(s, steps).queue, x) == Count(s.queue, x) + Adds(steps, x)
    decreases |steps|
  {
    if steps != [] {
      var step := steps[0];
      assert step in steps && forall t :: t in steps[1..] ==> t in steps;
      OpenSessionsStay(Apply(s, step), steps[1..], x);
      match step
      case Add(y) =>
        CountAppend(s.queue, [y], x);
        assert Count([y], x) == (if y == x then 1 else 0) + Count([y][1..], x);
      case PickNext => PickCount(s.queue, s.closed, x);
      case Drop(y) => RemoveCount(s.queue, y, x);
      case Close(_) =>
    }
  }

  /** k picks and nothing else. */
  function OnlyPicks<T>(k: nat): (steps: seq<Step<T>>)
    ensures |steps| == k
  {
    seq(k, _ => PickNext)
  }

  function Rotated<T>(q: seq<T>, k: nat): seq<T>
    requires k <= |q|
  {
    q[k..] + q[..k]
  }

  /** The first k of the queue's entries repeated in a cycle. */
  function Cycle<T>(q: seq<T>, k: nat): seq<Option<T>>
    requires q != []
  {
    seq(k, i requires 0 <= i < k => Some(q[i % |q|]))
  }

  lemma NextModulo(i: nat, n: nat)
    requires n > 0
    ensures (i + 1) % n == if i % n + 1 == n then 0 else i % n + 1
  {
    if i % n + 1 == n {
      ModUnique(i + 1, n, i / n + 1, 0);
    } else {
      ModUnique(i + 1, n, i / n, i % n + 1);
    }
  }

  /** Round robin: with n open sessions and no other step, the i-th pick returns session
      i mod n, so every n picks in a row return each session once and restore the order. */
  lemma {:induction false} RoundRobin<T>(s: State<T>, k: nat)
    requires s.queue != [] && forall x :: x in s.queue ==> x !in s.closed
    ensures var n := |s.queue|;
      && Outputs(s, OnlyPicks(k)) == Cycle(s.queue, k)
      && Run(s, OnlyPicks(k)) == State(Rotated(s.queue, k % n), s.closed)
    decreases k
  {
    var q := s.queue;
    if k == 0 {
      assert Rotated(q, 0) == q;
    } else {
      hide Rotated, Cycle, Run, Outputs, OnlyPicks;
      OnePick(s, k);
      RoundRobin(State(q[1..] + [q[0]], s.closed), k - 1);
      OneFurther(q, k - 1);
      RotateMore(q, k - 1);
    }
  }

  lemma OnePick<T>(s: State<T>, k: nat)
    requires k > 0 && s.queue != [] && s.queue[0] !in s.closed
    ensures var s' := State(s.queue[1..] + [s.queue[0]], s.closed);
      && Outputs(s, OnlyPicks(k)) == [Some(s.queue[0])] + Outputs(s', OnlyPicks(k - 1))
      && Run(s, OnlyPicks(k)) == Run(s', OnlyPicks(k - 1))
  {
    assert OnlyPicks<T>(k)[1..] == OnlyPicks<T>(k - 1);
  }

  lemma OneFurther<T>(q: seq<T>, k: nat)
    requires q != []
    ensures Cycle(q, k + 1) == [Some(q[0])] + Cycle(q[1..] + [q[0]], k)
  {
    var n, r := |q|, q[1..] + [q[0]];
    assert 0 % n == 0;
    forall i | 0 <= i < k
      ensures r[i % n] == q[(i + 1) % n]
    {
      NextModulo(i, n);
    }
  }

  lemma RotateMore<T>(q: seq<T>, k: nat)
    requires q != []
    ensures Rotated(q[1..] + [q[0]], k % |q|) == Rotated(q, (k + 1) % |q|)
  {
    NextModulo(k, |q|);
    var r, m := q[1..] + [q[0]], k % |q|;
    assert r[m..] + r[..m] == if m + 1 == |q| then q else q[m + 1..] + q[..m + 1];
  }
}
