/** The session pool as the server keeps it: a slice over a backing array. */
module SessionPools {
  import opened Bytes
  import Q = SessionQueue

  /** A yamux session, of which only its identity and whether it is closed matter here. */
  class Session {
    var closed: bool

    constructor ()
      ensures !closed
    {
      closed := false;
    }

    method Close()
      modifies this
      ensures closed
    {
      closed := true;
    }
  }

  ghost function ClosedAmong(q: seq<Session>): set<Session>
    reads q
  {
    set s | s in q && s.closed
  }

  lemma ClosedMeansClosed(q: seq<Session>)
    ensures forall s :: s in q ==> (s.closed <==> s in ClosedAmong(q))
  {}

  /** A window of a sequence after everything behind index i in it moved down by one. */
  lemma GapClosed<T>(was: seq<T>, now: seq<T>, off: nat, i: nat, len: nat)
    requires off + len < |was| == |now| && i <= len
    requires forall k :: off <= k < off + i ==> now[k] == was[k]
    requires forall k :: off + i <= k < off + len ==> now[k] == was[k + 1]
    ensures now[off..off + len] == was[off..off + len + 1][..i] + was[off..off + len + 1][i + 1..]
  {}

  /** sessionPool, and udpPool, whose add and pick are the same code. `data`, `off` and `len`
      are the slice: its backing array, where it starts in it and how long it is. */
  class SessionPool {
    var data: array<Session>
    var off: nat
    var len: nat

    predicate Valid()
      reads this
    {
      off + len <= data.Length
    }

    /** The abstract queue the slice holds. */
    function Queue(): (q: seq<Session>)
      requires Valid()
      reads this, data
      ensures |q| == len
    {
      data[off..off + len]
    }

    constructor ()
      ensures Valid() && fresh(data) && Queue() == []
    {
      data, off, len := new Session[0], 0, 0;
    }

    /** Go's append: in place while the backing array has room, else in a larger copy. */
    method Append(s: Session)
      requires Valid()
      modifies this, data
      ensures Valid() && (data == old(data) || fresh(data))
      ensures Queue() == old(Queue()) + [s]
    {
      if off + len < data.Length {
        data[off + len] := s;
      } else {
        var capacity: nat :| capacity > len;
        var larger := new Session[capacity](_ => s);
        for i := 0 to len
          modifies larger
          invariant larger[..i] == Queue()[..i]
        {
          larger[i] := data[off + i];
        }
        data, off := larger, 0;
        data[len] := s;
      }
      len := len + 1;
    }

    method Add(s: Session)
      requires Valid()
      modifies this, data
      ensures Valid() && (data == old(data) || fresh(data))
      ensures Queue() == old(Queue()) + [s]
    {
      Append(s);
    }

    method Pick() returns (session: Option<Session>)
      requires Valid()
      modifies this, data
      ensures Valid() && (data == old(data) || fresh(data))
      ensures var p := old(Q.Pick(Queue(), ClosedAmong(Queue())));
        session == p.session && Queue() == p.queue
    {
      hide Q.Pick, ClosedAmong;
      ghost var closed := ClosedAmong(Queue());
      ClosedMeansClosed(Queue());
      ghost var result := Q.Pick(Queue(), closed);
      while len > 0
        invariant Valid() && data == old(data)
        invariant forall s :: s in Queue() ==> (s.closed <==> s in closed)
        invariant Q.Pick(Queue(), closed) == result
        decreases len
      {
        ghost var q := Queue();
        Q.PickUnfolds(q, closed);
        var s := data[off];
        assert s == q[0];
        off, len := off + 1, len - 1;
        assert Queue() == q[1..];
        if !s.closed {
          Append(s);
          return Some(s);
        }
      }
      Q.PickUnfolds(Queue(), closed);
      session := None;
    }

    method Remove(target: Session)
      requires Valid()
      modifies this, data
      ensures Valid() && data == old(data)
      ensures Queue() == Q.Remove(old(Queue()), target)
    {
      ghost var q := Queue();
      for i := 0 to len
        invariant Valid() && data == old(data) && Queue() == q
        invariant target !in q[..i]
      {
        if data[off + i] == target {
          Q.RemoveAt(q, target, i);
          CloseGap(i);
          return;
        }
      }
      assert q[..len] == q;
      Q.RemoveAbsent(q, target);
    }

    /** append(p.sessions[:i], p.sessions[i+1:]...), which moves the tail down in place. */
    method CloseGap(i: nat)
      requires Valid() && i < len
      modifies this`len, data
      ensures Valid()
      ensures Queue() == old(Queue())[..i] + old(Queue())[i + 1..]
    {
      ghost var was := data[..];
      for j := i to len - 1
        modifies data
        invariant forall k :: off + i <= k < off + j ==> data[k] == was[k + 1]
        invariant forall k :: 0 <= k < off + i || off + j <= k < data.Length ==> data[k] == was[k]
      {
        data[off + j] := data[off + j + 1];
      }
      len := len - 1;
      GapClosed(was, data[..], off, i, len);
    }
  }
}
