/**
  The three-way handshake. The client sends a SYN with its initial sequence
  number, answers the server's SYN-ACK with a copy of it that has SYN cleared
  and seq/ack swapped and advanced, and is connected at once. The server
  repeats its SYN-ACK until a reply whose seq equals the SYN-ACK's ack
  arrives; each repetition consumes one receive event.
 */
module Handshake {
  import opened Packets

  /** initConnection (client), first packet. */
  function ClientSyn(isn: int): (p: Packet)
    ensures p.syn && !p.fin && p.seqNum == isn && p.ackNum == 0 && p.payload == []
  {
    PctZero.(syn := true, seqNum := isn)
  }

  /** initConnection (server), second packet: acknowledges the SYN's seq + 1 and carries isn. */
  function ServerSynAck(syn: Packet, isn: int): (p: Packet)
    ensures p.syn && !p.fin && p.ackNum == syn.seqNum + 1 && p.seqNum == isn && p.payload == []
    ensures p.rwnd == DefaultRwnd
  {
    PctZero.(syn := true, ackNum := syn.seqNum + 1, seqNum := isn)
  }

  /** initConnection (client), third packet, with the offsets the client keeps:
      (packet, nowAck, lastAck). The packet is the SYN-ACK with SYN cleared, seq set to the
      SYN-ACK's ack and ack set to the SYN-ACK's seq + 1; every other field is copied. */
  function ClientAck(synAck: Packet): (r: (Packet, int, int))
    ensures !r.0.syn && r.0.seqNum == synAck.ackNum && r.0.ackNum == synAck.seqNum + 1
    ensures r.0.fin == synAck.fin && r.0.rwnd == synAck.rwnd && r.0.payload == synAck.payload
    ensures r.1 == r.0.ackNum && r.2 == synAck.ackNum
  {
    var reply := synAck.(ackNum := synAck.seqNum + 1, seqNum := synAck.ackNum, syn := false);
    (reply, reply.ackNum, synAck.ackNum)
  }

  /** How the server's handshake loop ends. */
  datatype Outcome = Established(nowAck: int) | Aborted | Pending

  /** A reply completes the handshake when its seq is the offset the SYN-ACK acknowledged. */
  predicate Completes(synAck: Packet, reply: Packet)
  {
    reply.seqNum == synAck.ackNum
  }

  /** The server's loop over the receive events, as (outcome, events consumed); one SYN-ACK is
      sent per consumed event. A non-completing reply and a timeout both lead to a resend; a
      receive error aborts; running out of events leaves the handshake pending. */
  function ServerRun(synAck: Packet, events: seq<RecvEvent>): (r: (Outcome, nat))
    ensures r.1 <= |events|
    ensures r.0.Established? ==>
              && 1 <= r.1 && events[r.1 - 1].Received?
              && Completes(synAck, events[r.1 - 1].packet)
              && r.0.nowAck == events[r.1 - 1].packet.ackNum
    ensures r.0.Aborted? ==> 1 <= r.1 && events[r.1 - 1].Failed?
    ensures r.0.Pending? ==> r.1 == |events|
    decreases |events|
  {
    if events == [] then (Pending, 0)
    else
      var rest := ServerRun(synAck, events[1..]);
      assert rest.1 >= 1 ==> events[rest.1] == events[1..][rest.1 - 1];
      match events[0]
      case Received(p) =>
        if Completes(synAck, p) then (Established(p.ackNum), 1) else (rest.0, rest.1 + 1)
      case TimedOut => (rest.0, rest.1 + 1)
      case Failed => (Aborted, 1)
  }

  /** Every event the loop consumed before the last one was a timeout or a non-completing reply,
      and so led to a resend. */
  lemma {:induction false} ServerRunResends(synAck: Packet, events: seq<RecvEvent>)
    ensures var n := ServerRun(synAck, events).1;
            forall i :: 0 <= i < n - 1 ==>
              events[i].TimedOut? || (events[i].Received? && !Completes(synAck, events[i].packet))
    decreases |events|
  {
    if events != [] {
      ServerRunResends(synAck, events[1..]);
      var n := ServerRun(synAck, events).1;
      forall i | 0 <= i < n - 1
        ensures events[i].TimedOut? || (events[i].Received? && !Completes(synAck, events[i].packet))
      {
        if i > 0 {
          assert events[i] == events[1..][i - 1];
        }
      }
    }
  }

  /** The loop is still waiting after the last event exactly when no event completed the
      handshake or failed: every one was a timeout or a non-completing reply. */
  lemma {:induction false} ServerRunPending(synAck: Packet, events: seq<RecvEvent>)
    ensures ServerRun(synAck, events).0.Pending? <==>
            forall i :: 0 <= i < |events| ==>
              events[i].TimedOut? || (events[i].Received? && !Completes(synAck, events[i].packet))
    decreases |events|
  {
    if events != [] {
      ServerRunPending(synAck, events[1..]);
      forall i | 0 < i < |events| ensures events[i] == events[1..][i - 1] {}
    }
  }

  /** One event of ServerRun, unfolded. */
  lemma ServerRunStep(synAck: Packet, events: seq<RecvEvent>)
    requires events != []
    ensures var r := ServerRun(synAck, events);
            var rest := ServerRun(synAck, events[1..]);
            && (events[0].Received? && Completes(synAck, events[0].packet) ==>
                  r == (Established(events[0].packet.ackNum), 1))
            && (events[0].Failed? ==> r == (Aborted, 1))
            && (!events[0].Failed? && !(events[0].Received? && Completes(synAck, events[0].packet)) ==>
                  r == (rest.0, rest.1 + 1))
  {
  }

  /** initConnection (server), after the SYN has been received: the retry loop. */
  method ServerHandshake(syn: Packet, isn: int, events: seq<RecvEvent>)
    returns (sent: seq<Packet>, outcome: Outcome)
    ensures var r := ServerRun(ServerSynAck(syn, isn), events);
            outcome == r.0 && sent == Repeat(ServerSynAck(syn, isn), r.1)
  {
    var synAck := ServerSynAck(syn, isn);
    ghost var whole := ServerRun(synAck, events);
    sent := [];
    var i := 0;
    var rest := events;
    while rest != []
      invariant whole == (ServerRun(synAck, rest).0, i + ServerRun(synAck, rest).1)
      invariant sent == Repeat(synAck, i)
      decreases |rest|
    {
      ServerRunStep(synAck, rest);
      var ev := rest[0];
      sent := sent + [synAck];
      if ev.Received? && Completes(synAck, ev.packet) {
        outcome := Established(ev.packet.ackNum);
        return;
      }
      if ev.Failed? {
        outcome := Aborted;
        return;
      }
      i, rest := i + 1, rest[1..];
    }
    outcome := Pending;
  }

  /** Both ends agree once the handshake is done: after k lost replies the server accepts the
      client's third packet, and the offset it starts sending from equals the offset from which
      the client expects data, namely the server's initial sequence number + 1. The client's
      own acknowledgement offset is its initial sequence number + 1. */
  lemma {:induction false} HandshakeAgreement(clientIsn: int, serverIsn: int, k: nat)
    ensures var synAck := ServerSynAck(ClientSyn(clientIsn), serverIsn);
            var (third, clientNowAck, clientLastAck) := ClientAck(synAck);
            var r := ServerRun(synAck, Repeat(TimedOut, k) + [Received(third)]);
            && r == (Established(serverIsn + 1), k + 1)
            && clientNowAck == serverIsn + 1 && clientLastAck == clientIsn + 1
    decreases k
  {
    var synAck := ServerSynAck(ClientSyn(clientIsn), serverIsn);
    var third := ClientAck(synAck).0;
    var events := Repeat(TimedOut, k) + [Received(third)];
    if k > 0 {
      HandshakeAgreement(clientIsn, serverIsn, k - 1);
      assert events[1..] == Repeat(TimedOut, k - 1) + [Received(third)];
    }
  }
}
