/** From the upgrade to the control messages: what one side writes as messages after the upgrade
    is what the other side receives. */
module Tunnel {
  import opened Bytes
  import opened Handoff
  import opened Protocol
  import opened Transports

  /** A wire form of a payload small enough for a message. */
  ghost predicate IsMessage(ch: Channel, payload: seq<byte>, m: Sent) {
    IsSent(ch, payload, m) && |payload| <= MAX_FRAME_SIZE
  }

  /** The chunks are messages with these payloads. */
  ghost predicate AreMessages(ch: Channel, payloads: seq<seq<byte>>, ms: seq<Sent>) {
    |ms| == |payloads| && forall i :: 0 <= i < |ms| ==> IsMessage(ch, payloads[i], ms[i])
  }

  /** The bytes are the first that were written, and at least as many have been read. */
  predicate Crossed(wire: seq<byte>, wrote: seq<byte>, took: nat) {
    wire <= wrote && |wire| <= took
  }

  /** ReadMessage calls return the payloads, in order. */
  predicate AllReceived(src: Source, payloads: seq<seq<byte>>) {
    Receive(src, |payloads|).results == seq(|payloads|, i requires 0 <= i < |payloads| => Ok(payloads[i]))
  }

  lemma MessagesIn(isClient: bool, got: seq<byte>, payloads: seq<seq<byte>>, ms: seq<Sent>)
    requires AreMessages(FramedChannel(isClient), payloads, ms) && WireOf(ms) <= got
    ensures AllReceived(Arriving(FramedChannel(isClient), got), payloads)
  {
    hide IsSent, Receive, Arriving, Settled;
    var rest := got[|WireOf(ms)|..];
    assert WireOf(ms) + rest == got;
    MessagesRoundTrip(FramedChannel(isClient), payloads, ms, rest);
  }

  /** After a clean handoff, in every interleaving: the messages a client writes on its upgraded
      connection are what the server's ReadMessage calls return, in order, as soon as their bytes
      have crossed, whatever the client goes on to send. */
  lemma MessagesReachServer(p: Setup, key: seq<byte>, steps: seq<Step>, s: State,
                            payloads: seq<seq<byte>>, ms: seq<Sent>)
    requires ReadsWhole(p, key) && Run(p, INIT, steps) == Some(s) && s.server.ServerUp?
    requires Crossed(WireOf(ms), ClientWrote(steps), ServerTook(steps))
    requires AreMessages(FramedChannel(true), payloads, ms)
    ensures AllReceived(Arriving(FramedChannel(true), s.serverGot), payloads)
  {
    hide ReadsWhole, Run, AreMessages, AllReceived, Arriving, WireOf, ClientWrote, ServerTook;
    HandoffLosesNothing(p, key, steps, s);
    assert s.serverGot <= ClientWrote(steps);
    MessagesIn(true, s.serverGot, payloads, ms);
  }

  /** And the server's answers reach the client. */
  lemma MessagesReachClient(p: Setup, key: seq<byte>, steps: seq<Step>, s: State,
                            payloads: seq<seq<byte>>, ms: seq<Sent>)
    requires ReadsWhole(p, key) && Run(p, INIT, steps) == Some(s) && s.client.ClientUp?
    requires Crossed(WireOf(ms), ServerWrote(steps), ClientTook(steps))
    requires AreMessages(FramedChannel(false), payloads, ms)
    ensures AllReceived(Arriving(FramedChannel(false), s.clientGot), payloads)
  {
    hide ReadsWhole, Run, AreMessages, AllReceived, Arriving, WireOf, ServerWrote, ClientTook;
    HandoffLosesNothing(p, key, steps, s);
    assert s.clientGot <= ServerWrote(steps);
    MessagesIn(false, s.clientGot, payloads, ms);
  }
}
