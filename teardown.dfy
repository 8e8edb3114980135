/**
  Connection teardown. The initiator (the sending peer) sends a FIN at its
  final offset and then makes at most five bounded receive attempts: a
  FIN-ACK acknowledging the FIN's seq + 1 is answered with a last ACK and
  ends the exchange, a timeout resends the FIN, any other packet is ignored
  (the attempt is still spent) and a receive error gives up. The responder's
  half (a FIN-ACK, then one bounded wait) is Receiver.ResponderFinAck and
  Receiver.ResponderCloseWait.
 */
module Teardown {
  import opened Packets
  import Receiver

  /** Receive attempts the initiator makes after sending its FIN. */
  const FinAttempts: nat := 5

  /** finishConnection (server): the FIN at offset nowAck. */
  function FinPacket(nowAck: int): (p: Packet)
    ensures p.fin && !p.syn && p.seqNum == nowAck && p.ackNum == 0 && p.payload == []
    ensures p.rwnd == DefaultRwnd
  {
    PctZero.(seqNum := nowAck, fin := true, payload := "")
  }

  /** The reply that ends the exchange: the FIN-ACK acknowledges the FIN's seq + 1. */
  predicate AcceptsFinAck(nowAck: int, reply: Packet)
  {
    reply.ackNum == nowAck + 1
  }

  /** The last ACK, acknowledging the FIN-ACK's seq + 1. */
  function FinalAck(finAck: Packet): (p: Packet)
    ensures p.ackNum == finAck.seqNum + 1 && p.seqNum == 0 && !p.fin && !p.syn && p.payload == []
  {
    PctZero.(ackNum := finAck.seqNum + 1)
  }

  /** The initiator's receive attempts, at most `attempts` of them, one per event, as (packets
      sent after the first FIN, whether a FIN-ACK was acknowledged). Events past the last attempt
      are never looked at. */
  function InitiatorRun(nowAck: int, attempts: nat, events: seq<RecvEvent>): (r: (seq<Packet>, bool))
    ensures |r.0| <= |events| && |r.0| <= attempts
    decreases attempts
  {
    if attempts == 0 || events == [] then ([], false)
    else
      var rest := InitiatorRun(nowAck, attempts - 1, events[1..]);
      match events[0]
      case Received(p) =>
        if AcceptsFinAck(nowAck, p) then ([FinalAck(p)], true) else rest
      case TimedOut => ([FinPacket(nowAck)] + rest.0, rest.1)
      case Failed => ([], false)
  }

  /** What the initiator sends after its first FIN is a run of resent FINs, ended by the last ACK
      exactly when the exchange closed cleanly; and it closes cleanly only after an
      acknowledging FIN-ACK arrived within its attempts. */
  lemma {:induction false} InitiatorRunShape(nowAck: int, attempts: nat, events: seq<RecvEvent>)
    ensures var r := InitiatorRun(nowAck, attempts, events);
            && (forall i :: 0 <= i < |r.0| ==> r.0[i] == FinPacket(nowAck) || (r.1 && i == |r.0| - 1))
            && (r.1 ==> r.0 != [] && r.0[|r.0| - 1] != FinPacket(nowAck))
            && (r.1 ==> exists i :: 0 <= i < |events| && i < attempts
                          && events[i].Received? && AcceptsFinAck(nowAck, events[i].packet))
    decreases attempts
  {
    if attempts > 0 && events != [] {
      var rest := InitiatorRun(nowAck, attempts - 1, events[1..]);
      InitiatorRunShape(nowAck, attempts - 1, events[1..]);
      var r := InitiatorRun(nowAck, attempts, events);
      if events[0].TimedOut? {
        assert r.0 == [FinPacket(nowAck)] + rest.0;
        forall i | 0 < i < |r.0| ensures r.0[i] == rest.0[i - 1] {}
      }
      if r.1 && !(events[0].Received? && AcceptsFinAck(nowAck, events[0].packet)) {
        var j :| 0 <= j < |events| - 1 && j < attempts - 1
                 && events[1..][j].Received? && AcceptsFinAck(nowAck, events[1..][j].packet);
        assert events[j + 1] == events[1..][j];
      }
    }
  }

  /** The packets an attempt that does not end the exchange sends: a FIN after a timeout,
      nothing after an unacceptable reply. */
  function Resend(nowAck: int, ev: RecvEvent): (out: seq<Packet>)
  {
    if ev.TimedOut? then [FinPacket(nowAck)] else []
  }

  lemma AppendAssoc<T>(a: seq<T>, b: seq<T>, c: seq<T>)
    ensures a + (b + c) == (a + b) + c
  {
  }

  /** One attempt of InitiatorRun, unfolded. */
  lemma RunStep(nowAck: int, attempts: nat, events: seq<RecvEvent>)
    requires attempts > 0 && events != []
    ensures var r := InitiatorRun(nowAck, attempts, events);
            var rest := InitiatorRun(nowAck, attempts - 1, events[1..]);
            && (events[0].Received? && AcceptsFinAck(nowAck, events[0].packet) ==> r == ([FinalAck(events[0].packet)], true))
            && (events[0].Failed? ==> r == ([], false))
            && (!events[0].Failed? && !(events[0].Received? && AcceptsFinAck(nowAck, events[0].packet)) ==>
                  r == (Resend(nowAck, events[0]) + rest.0, rest.1))
  {
    var rest := InitiatorRun(nowAck, attempts - 1, events[1..]);
    assert [] + rest.0 == rest.0;
  }

  /** finishConnection (server): send the FIN, then one receive attempt per event, at most
      FinAttempts of them. Returns every packet sent, the first FIN included. */
  method FinishConnection(nowAck: int, events: seq<RecvEvent>) returns (sent: seq<Packet>, closedCleanly: bool)
    ensures sent == [FinPacket(nowAck)] + InitiatorRun(nowAck, FinAttempts, events).0
    ensures closedCleanly == InitiatorRun(nowAck, FinAttempts, events).1
  {
    var fin := FinPacket(nowAck);
    ghost var whole := InitiatorRun(nowAck, FinAttempts, events);
    var resent: seq<Packet> := [];
    var left := FinAttempts;
    var rest := events;
    assert resent + whole.0 == whole.0;
    while left > 0 && rest != []
      invariant whole.0 == resent + InitiatorRun(nowAck, left, rest).0
      invariant whole.1 == InitiatorRun(nowAck, left, rest).1
      decreases left
    {
      RunStep(nowAck, left, rest);
      var ev := rest[0];
      if ev.Received? && AcceptsFinAck(nowAck, ev.packet) {
        sent, closedCleanly := [fin] + (resent + [FinalAck(ev.packet)]), true;
        return;
      }
      if ev.Failed? {
        sent, closedCleanly := [fin] + resent, false;
        return;
      }
      ghost var next := InitiatorRun(nowAck, left - 1, rest[1..]);
      var extra := if ev.TimedOut? then [fin] else [];
      assert extra == Resend(nowAck, ev);
      AppendAssoc(resent, extra, next.0);
      resent := resent + extra;
      left, rest := left - 1, rest[1..];
    }
    assert InitiatorRun(nowAck, left, rest) == ([], false);
    sent, closedCleanly := [fin] + resent, false;
  }

  /** If the first k < FinAttempts attempts time out and the responder's FIN-ACK then arrives,
      the initiator sends its FIN k + 1 times in all, acknowledges the FIN-ACK's seq + 1 and is
      done, whatever the remaining attempts would have returned. */
  lemma ClosesDespiteLostReplies(nowAck: int, lastAck: int, k: nat, later: seq<RecvEvent>)
    requires k < FinAttempts
    ensures var finAck := Receiver.ResponderFinAck(FinPacket(nowAck), lastAck);
            && AcceptsFinAck(nowAck, finAck)
            && InitiatorRun(nowAck, FinAttempts, Repeat(TimedOut, k) + [Received(finAck)] + later)
               == (Repeat(FinPacket(nowAck), k) + [FinalAck(finAck)], true)
            && FinalAck(finAck).ackNum == lastAck + 1
  {
    ClosesAfter(nowAck, Receiver.ResponderFinAck(FinPacket(nowAck), lastAck), FinAttempts, k, later);
  }

  lemma {:induction false} ClosesAfter(nowAck: int, finAck: Packet, attempts: nat, k: nat, later: seq<RecvEvent>)
    requires AcceptsFinAck(nowAck, finAck) && k < attempts
    ensures InitiatorRun(nowAck, attempts, Repeat(TimedOut, k) + [Received(finAck)] + later)
            == (Repeat(FinPacket(nowAck), k) + [FinalAck(finAck)], true)
    decreases k
  {
    var events := Repeat(TimedOut, k) + [Received(finAck)] + later;
    if k == 0 {
      assert events[0] == Received(finAck);
      assert Repeat(FinPacket(nowAck), 0) + [FinalAck(finAck)] == [FinalAck(finAck)];
    } else {
      assert events[0] == TimedOut;
      assert events[1..] == Repeat(TimedOut, k - 1) + [Received(finAck)] + later;
      ClosesAfter(nowAck, finAck, attempts - 1, k - 1, later);
      assert [FinPacket(nowAck)] + (Repeat(FinPacket(nowAck), k - 1) + [FinalAck(finAck)])
             == Repeat(FinPacket(nowAck), k) + [FinalAck(finAck)];
    }
  }

  /** While only timeouts arrive, every attempt resends the FIN, and nothing after the last
      attempt is looked at. */
  lemma {:induction false} TimeoutsUseUpAttempts(nowAck: int, attempts: nat, n: nat, later: seq<RecvEvent>)
    requires attempts <= n
    ensures InitiatorRun(nowAck, attempts, Repeat(TimedOut, n) + later) == (Repeat(FinPacket(nowAck), attempts), false)
    decreases attempts
  {
    if attempts > 0 {
      var events := Repeat(TimedOut, n) + later;
      assert events[0] == TimedOut;
      assert events[1..] == Repeat(TimedOut, n - 1) + later;
      TimeoutsUseUpAttempts(nowAck, attempts - 1, n - 1, later);
      assert [FinPacket(nowAck)] + Repeat(FinPacket(nowAck), attempts - 1) == Repeat(FinPacket(nowAck), attempts);
    }
  }

  /** When the first FinAttempts receive attempts all time out the initiator gives up: it has
      sent FinAttempts + 1 FINs (the first one and one per timeout), does not close cleanly, and
      ignores a FIN-ACK or anything else that would only have arrived later. */
  lemma GivesUpAfterAllTimeouts(nowAck: int, n: nat, later: seq<RecvEvent>)
    requires n >= FinAttempts
    ensures var r := InitiatorRun(nowAck, FinAttempts, Repeat(TimedOut, n) + later);
            var sent := [FinPacket(nowAck)] + r.0;
            && |sent| == FinAttempts + 1
            && (forall i :: 0 <= i < |sent| ==> sent[i] == FinPacket(nowAck))
            && !r.1
  {
    TimeoutsUseUpAttempts(nowAck, FinAttempts, n, later);
  }

  /** finishConnection (client), as a whole: the responder answers the FIN with a FIN-ACK that
      the initiator accepts, and during its one bounded wait answers whatever arrives, a
      retransmitted FIN or the initiator's own last ACK, with the same FIN-ACK once more. So it
      sends one or two packets, both the same FIN-ACK, and two exactly when something arrived. */
  lemma ResponderAnswersInKind(nowAck: int, lastAck: int, ev: RecvEvent)
    ensures var finAck := Receiver.ResponderFinAck(FinPacket(nowAck), lastAck);
            var out := [finAck] + Receiver.ResponderCloseWait(finAck, ev);
            && AcceptsFinAck(nowAck, finAck)
            && 1 <= |out| <= 2
            && (|out| == 2 <==> ev.Received?)
            && (forall i :: 0 <= i < |out| ==> out[i] == finAck)
            && (ev == Received(FinalAck(finAck)) ==> |out| == 2)
  {
  }
}
