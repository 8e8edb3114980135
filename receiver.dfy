/**
  The receiver engine: the expected offset, the out-of-order buffer and the
  delayed-ACK counter, stepped once per receive event. Every acknowledgement
  it emits carries the current expected offset. A ghost log records the
  segments accepted in order, so the invariant can say that they tile the
  byte stream from the initial offset up to the expected one.
 */
module Receiver {
  import opened Packets

  /** A buffered out-of-order payload and the size measured when it arrived. */
  datatype Buffered = Buffered(payload: string, size: nat)

  /** A segment accepted in order: where it starts, its payload, its size. */
  datatype Segment = Segment(seqNum: int, payload: string, size: nat)

  /** segs start at lo, each begins where the previous one ends, and the last one ends at hi. */
  ghost predicate Contiguous(segs: seq<Segment>, lo: int, hi: int)
    decreases |segs|
  {
    if segs == [] then lo == hi
    else segs[0].seqNum == lo && Contiguous(segs[1..], lo + segs[0].size, hi)
  }

  /** Offsets at which the segments start. */
  ghost function Starts(segs: seq<Segment>): (r: set<int>)
    decreases |segs|
  {
    if segs == [] then {} else {segs[0].seqNum} + Starts(segs[1..])
  }

  /** Every stored size is the wire size of the stored payload. */
  ghost predicate BufferOk(buf: map<int, Buffered>)
  {
    forall k :: k in buf ==> buf[k].size == WireSize(buf[k].payload)
  }

  ghost predicate SizesOk(segs: seq<Segment>)
  {
    forall i :: 0 <= i < |segs| ==> segs[i].size == WireSize(segs[i].payload)
  }

  /** Two tilings laid end to end form one tiling. */
  lemma {:induction false} ContiguousAppend(a: seq<Segment>, b: seq<Segment>, lo: int, mid: int, hi: int)
    requires Contiguous(a, lo, mid) && Contiguous(b, mid, hi)
    ensures Contiguous(a + b, lo, hi)
    decreases |a|
  {
    if a != [] {
      assert (a + b)[0] == a[0];
      assert (a + b)[1..] == a[1..] + b;
      ContiguousAppend(a[1..], b, lo + a[0].size, mid, hi);
    } else {
      assert a + b == b;
    }
  }

  /** Well-formed segment logs stay well formed when laid end to end. */
  lemma SizesOkAppend(a: seq<Segment>, b: seq<Segment>)
    requires SizesOk(a) && SizesOk(b)
    ensures SizesOk(a + b)
  {
    forall i | 0 <= i < |a + b| ensures (a + b)[i].size == WireSize((a + b)[i].payload) {
      if i >= |a| {
        assert (a + b)[i] == b[i - |a|];
      }
    }
  }

  /** A tiling never ends before it starts, and every segment starts inside it. */
  lemma {:induction false} ContiguousBounds(segs: seq<Segment>, lo: int, hi: int)
    requires Contiguous(segs, lo, hi)
    ensures lo <= hi
    ensures forall i :: 0 <= i < |segs| ==> lo <= segs[i].seqNum && segs[i].seqNum + segs[i].size <= hi
    decreases |segs|
  {
    if segs != [] {
      ContiguousBounds(segs[1..], lo + segs[0].size, hi);
      forall i | 0 <= i < |segs| ensures lo <= segs[i].seqNum && segs[i].seqNum + segs[i].size <= hi {
        if i > 0 {
          assert segs[i] == segs[1..][i - 1];
        }
      }
    }
  }

  /** With non-empty segments the start offsets strictly increase: no offset is accepted twice. */
  lemma {:induction false} ContiguousIncreasing(segs: seq<Segment>, lo: int, hi: int)
    requires Contiguous(segs, lo, hi)
    requires forall i :: 0 <= i < |segs| ==> segs[i].size > 0
    ensures forall i, j :: 0 <= i < j < |segs| ==> segs[i].seqNum < segs[j].seqNum
    decreases |segs|
  {
    if segs != [] {
      var rest := segs[1..];
      ContiguousIncreasing(rest, lo + segs[0].size, hi);
      ContiguousBounds(rest, lo + segs[0].size, hi);
      forall i, j | 0 <= i < j < |segs| ensures segs[i].seqNum < segs[j].seqNum {
        assert segs[j] == rest[j - 1];
        if i > 0 {
          assert segs[i] == rest[i - 1];
        }
      }
    }
  }

  /** process_buffered_packets as a function: starting at offset e, repeatedly take the buffered
      entry stored at the current offset and move past it. Returns the remaining buffer, the
      offset reached and the segments taken, in order. */
  function Drain(buf: map<int, Buffered>, e: int): (r: (map<int, Buffered>, int, seq<Segment>))
    ensures r.1 !in r.0
    ensures forall k :: k in r.0 ==> k in buf && r.0[k] == buf[k]
    decreases |buf|
  {
    if e in buf then
      var b := buf[e];
      var rest := Drain(buf - {e}, e + b.size);
      var segs := [Segment(e, b.payload, b.size)] + rest.2;
      assert segs[1..] == rest.2;
      (rest.0, rest.1, segs)
    else
      (buf, e, [])
  }

  /** The taken segments tile the stream from e up to the offset the drain reaches. */
  lemma {:induction false} DrainContiguous(buf: map<int, Buffered>, e: int)
    ensures Contiguous(Drain(buf, e).2, e, Drain(buf, e).1)
    decreases |buf|
  {
    if e in buf {
      var b := buf[e];
      var rest := Drain(buf - {e}, e + b.size);
      DrainContiguous(buf - {e}, e + b.size);
      var segs := [Segment(e, b.payload, b.size)] + rest.2;
      assert Drain(buf, e) == (rest.0, rest.1, segs);
      assert segs[1..] == rest.2;
    }
  }

  /** A drain splits the buffer: every entry is either left in place or taken as a segment,
      never both, and nothing is taken that was not buffered. */
  lemma {:induction false} DrainPartition(buf: map<int, Buffered>, e: int)
    ensures forall k :: k in buf ==> k in Drain(buf, e).0 || k in Starts(Drain(buf, e).2)
    ensures Starts(Drain(buf, e).2) <= buf.Keys
    ensures Drain(buf, e).0.Keys !! Starts(Drain(buf, e).2)
    decreases |buf|
  {
    if e in buf {
      var b := buf[e];
      DrainPartition(buf - {e}, e + b.size);
    }
  }

  /** Each taken segment removes exactly one buffer entry. */
  lemma {:induction false} DrainCount(buf: map<int, Buffered>, e: int)
    ensures |buf| == |Drain(buf, e).0| + |Drain(buf, e).2|
    decreases |buf|
  {
    if e in buf {
      var b := buf[e];
      DrainCount(buf - {e}, e + b.size);
      assert (buf - {e}).Keys == buf.Keys - {e};
      assert |buf - {e}| == |buf| - 1;
    }
  }

  /** The loop of process_buffered_packets over the buffer and the expected offset. */
  method DrainLoop(buf0: map<int, Buffered>, e0: int) returns (buf: map<int, Buffered>, e: int, taken: seq<Segment>)
    ensures (buf, e, taken) == Drain(buf0, e0)
  {
    buf, e, taken := buf0, e0, [];
    while e in buf
      invariant Drain(buf, e).0 == Drain(buf0, e0).0 && Drain(buf, e).1 == Drain(buf0, e0).1
      invariant Drain(buf0, e0).2 == taken + Drain(buf, e).2
      decreases |buf|
    {
      var b := buf[e];
      var seg := Segment(e, b.payload, b.size);
      ghost var after := Drain(buf - {e}, e + b.size);
      assert Drain(buf, e).2 == [seg] + after.2;
      assert Drain(buf0, e0).2 == (taken + [seg]) + after.2;
      buf := buf - {e};
      taken := taken + [seg];
      e := e + b.size;
    }
    assert Drain(buf, e) == (buf, e, []);
    assert taken + [] == taken;
  }

  /** The segments a drain takes from a well-formed buffer are well formed, and so is what it leaves. */
  lemma {:induction false} DrainSizesOk(buf: map<int, Buffered>, e: int)
    requires BufferOk(buf)
    ensures SizesOk(Drain(buf, e).2) && BufferOk(Drain(buf, e).0)
    decreases |buf|
  {
    if e in buf {
      var b := buf[e];
      var rest := Drain(buf - {e}, e + b.size);
      DrainSizesOk(buf - {e}, e + b.size);
      var segs := [Segment(e, b.payload, b.size)] + rest.2;
      assert Drain(buf, e).2 == segs;
      forall i | 0 <= i < |segs| ensures segs[i].size == WireSize(segs[i].payload) {
        if i > 0 {
          assert segs[i] == rest.2[i - 1];
        }
      }
    }
  }

  /** send_ack: the acknowledgement of everything below expected. */
  function AckPacket(expected: int, lastAck: int): (p: Packet)
    ensures p.ackNum == expected && p.seqNum == lastAck
    ensures !p.syn && !p.fin && p.payload == [] && p.rwnd == DefaultRwnd
  {
    PctZero.(ackNum := expected, seqNum := lastAck)
  }

  /** finishConnection, first half: the FIN-ACK answering a FIN. */
  function ResponderFinAck(fin: Packet, lastAck: int): (p: Packet)
    ensures p.ackNum == fin.seqNum + 1 && p.seqNum == lastAck && p.fin
    ensures !p.syn && p.payload == [] && p.rwnd == DefaultRwnd
  {
    PctZero.(ackNum := fin.seqNum + 1, seqNum := lastAck, fin := true)
  }

  /** finishConnection, second half: one bounded wait; whatever arrives is taken as a
      retransmitted FIN and answered with the same FIN-ACK; a timeout or an error ends it. */
  function ResponderCloseWait(finAck: Packet, ev: RecvEvent): (out: seq<Packet>)
    ensures ev.Received? ==> out == [finAck]
    ensures !ev.Received? ==> out == []
  {
    match ev
    case Received(_) => [finAck]
    case TimedOut => []
    case Failed => []
  }

  class ReceiverEngine {
    const initialAck: int
    const lastAck: int
    var expectedSeq: int
    var buffer: map<int, Buffered>
    var pctsSinceAck: nat
    var receivedCount: nat
    var ackSentCount: nat
    var bufferedCount: nat
    var closed: bool
    ghost var delivered: seq<Segment>

    ghost predicate Valid()
      reads this
    {
      && BufferOk(buffer)
      && expectedSeq !in buffer
      && Contiguous(delivered, initialAck, expectedSeq)
      && SizesOk(delivered)
      && receivedCount == |delivered|
    }

    constructor (initialAck: int, lastAck: int)
      ensures Valid() && !closed
      ensures this.initialAck == initialAck && this.lastAck == lastAck
      ensures expectedSeq == initialAck && buffer == map[] && delivered == []
      ensures pctsSinceAck == 0 && receivedCount == 0 && ackSentCount == 0 && bufferedCount == 0
    {
      this.initialAck := initialAck;
      this.lastAck := lastAck;
      expectedSeq := initialAck;
      buffer := map[];
      pctsSinceAck := 0;
      receivedCount := 0;
      ackSentCount := 0;
      bufferedCount := 0;
      closed := false;
      delivered := [];
    }

    /** send_ack: acknowledge expectedSeq and reset the delayed-ACK counter. */
    method SendAck() returns (ack: Packet)
      modifies this
      ensures ack == AckPacket(expectedSeq, lastAck)
      ensures pctsSinceAck == 0 && ackSentCount == old(ackSentCount) + 1
      ensures expectedSeq == old(expectedSeq) && buffer == old(buffer) && delivered == old(delivered)
      ensures receivedCount == old(receivedCount) && bufferedCount == old(bufferedCount)
      ensures closed == old(closed)
    {
      ack := AckPacket(expectedSeq, lastAck);
      ackSentCount := ackSentCount + 1;
      pctsSinceAck := 0;
    }

    /** process_buffered_packets: every drained entry counts as received and as waiting for an ACK. */
    method ProcessBufferedPackets()
      modifies this
      ensures var d := Drain(old(buffer), old(expectedSeq));
              && buffer == d.0 && expectedSeq == d.1 && delivered == old(delivered) + d.2
              && receivedCount == old(receivedCount) + |d.2|
              && pctsSinceAck == old(pctsSinceAck) + |d.2|
      ensures ackSentCount == old(ackSentCount) && bufferedCount == old(bufferedCount)
      ensures closed == old(closed)
    {
      var buf, e, taken := DrainLoop(buffer, expectedSeq);
      buffer, expectedSeq := buf, e;
      receivedCount := receivedCount + |taken|;
      pctsSinceAck := pctsSinceAck + |taken|;
      delivered := delivered + taken;
    }

    /** An in-order packet: accept it and drain the buffer behind it. */
    method AcceptInOrder(p: Packet)
      requires Valid() && p.seqNum == expectedSeq
      modifies this
      ensures Valid()
      ensures var d := Drain(old(buffer), old(expectedSeq) + WireSize(p.payload));
              && buffer == d.0 && expectedSeq == d.1
              && delivered == old(delivered) + [Segment(p.seqNum, p.payload, WireSize(p.payload))] + d.2
              && receivedCount == old(receivedCount) + 1 + |d.2|
              && pctsSinceAck == old(pctsSinceAck) + 1 + |d.2|
      ensures old(expectedSeq) <= expectedSeq
      ensures ackSentCount == old(ackSentCount) && bufferedCount == old(bufferedCount)
      ensures closed == old(closed)
    {
      var size := WireSize(p.payload);
      var seg := Segment(p.seqNum, p.payload, size);
      var e1 := expectedSeq + size;
      receivedCount := receivedCount + 1;
      delivered := delivered + [seg];
      ContiguousAppend(old(delivered), [seg], initialAck, old(expectedSeq), e1);
      expectedSeq := e1;
      pctsSinceAck := pctsSinceAck + 1;
      ProcessBufferedPackets();
      ghost var d := Drain(old(buffer), e1);
      DrainSizesOk(old(buffer), e1);
      DrainContiguous(old(buffer), e1);
      ContiguousAppend(old(delivered) + [seg], d.2, initialAck, e1, d.1);
      ContiguousBounds(d.2, e1, d.1);
      SizesOkAppend(old(delivered), [seg]);
      SizesOkAppend(old(delivered) + [seg], d.2);
    }

    /** One data or FIN packet (already deciphered). Returns the packets sent in reply. */
    method OnPacket(p: Packet) returns (out: seq<Packet>)
      requires Valid() && !closed
      modifies this
      ensures Valid()
      ensures old(expectedSeq) <= expectedSeq
      // FIN: flush a pending acknowledgement, answer with a FIN-ACK, stop receiving
      ensures p.fin ==>
        && out == (if old(pctsSinceAck) > 0 then [AckPacket(old(expectedSeq), lastAck)] else [])
                  + [ResponderFinAck(p, lastAck)]
        && closed && pctsSinceAck == 0
        && ackSentCount == old(ackSentCount) + (if old(pctsSinceAck) > 0 then 1 else 0)
        && expectedSeq == old(expectedSeq) && buffer == old(buffer) && delivered == old(delivered)
        && receivedCount == old(receivedCount) && bufferedCount == old(bufferedCount)
      // in order: accept, drain, no acknowledgement yet
      ensures !p.fin && p.seqNum == old(expectedSeq) ==>
        var d := Drain(old(buffer), old(expectedSeq) + WireSize(p.payload));
        && out == [] && !closed
        && buffer == d.0 && expectedSeq == d.1
        && delivered == old(delivered) + [Segment(p.seqNum, p.payload, WireSize(p.payload))] + d.2
        && receivedCount == old(receivedCount) + 1 + |d.2|
        && pctsSinceAck == old(pctsSinceAck) + 1 + |d.2|
        && ackSentCount == old(ackSentCount) && bufferedCount == old(bufferedCount)
      // ahead of the expected offset: buffer the first copy only, send one duplicate ACK
      ensures !p.fin && p.seqNum > old(expectedSeq) ==>
        && out == [AckPacket(old(expectedSeq), lastAck)] && !closed
        && expectedSeq == old(expectedSeq) && delivered == old(delivered)
        && (p.seqNum in old(buffer) ==> buffer == old(buffer) && bufferedCount == old(bufferedCount))
        && (p.seqNum !in old(buffer) ==>
              && buffer == old(buffer)[p.seqNum := Buffered(p.payload, WireSize(p.payload))]
              && bufferedCount == old(bufferedCount) + 1)
        && pctsSinceAck == 0 && ackSentCount == old(ackSentCount) + 1
        && receivedCount == old(receivedCount)
      // behind the expected offset: already accepted, acknowledge again
      ensures !p.fin && p.seqNum < old(expectedSeq) ==>
        && out == [AckPacket(old(expectedSeq), lastAck)] && !closed
        && expectedSeq == old(expectedSeq) && buffer == old(buffer) && delivered == old(delivered)
        && pctsSinceAck == 0 && ackSentCount == old(ackSentCount) + 1
        && receivedCount == old(receivedCount) && bufferedCount == old(bufferedCount)
    {
      if p.fin {
        out := [];
        if pctsSinceAck > 0 {
          var ack := SendAck();
          out := [ack];
        }
        out := out + [ResponderFinAck(p, lastAck)];
        closed := true;
      } else if p.seqNum == expectedSeq {
        AcceptInOrder(p);
        out := [];
      } else if p.seqNum > expectedSeq {
        if p.seqNum !in buffer {
          buffer := buffer[p.seqNum := Buffered(p.payload, WireSize(p.payload))];
          bufferedCount := bufferedCount + 1;
        }
        var ack := SendAck();
        out := [ack];
      } else {
        var ack := SendAck();
        out := [ack];
      }
    }

    /** The receive call timed out: acknowledge only if packets are waiting for one. */
    method OnPollTimeout() returns (out: seq<Packet>)
      requires Valid() && !closed
      modifies this
      ensures Valid() && !closed
      ensures old(pctsSinceAck) > 0 ==>
        out == [AckPacket(expectedSeq, lastAck)] && pctsSinceAck == 0
        && ackSentCount == old(ackSentCount) + 1
      ensures old(pctsSinceAck) == 0 ==> out == [] && pctsSinceAck == 0 && ackSentCount == old(ackSentCount)
      ensures expectedSeq == old(expectedSeq) && buffer == old(buffer) && delivered == old(delivered)
      ensures receivedCount == old(receivedCount) && bufferedCount == old(bufferedCount)
    {
      out := [];
      if pctsSinceAck > 0 {
        var ack := SendAck();
        out := [ack];
      }
    }

    /** One iteration of the receive loop. A receive error ends the loop without a reply. */
    method OnEvent(ev: RecvEvent) returns (out: seq<Packet>)
      requires Valid() && !closed
      modifies this
      ensures Valid()
      ensures old(expectedSeq) <= expectedSeq
      ensures ev.Failed? ==> closed && out == [] && expectedSeq == old(expectedSeq) && buffer == old(buffer)
      ensures ev.TimedOut? ==>
        && !closed && pctsSinceAck == 0
        && out == (if old(pctsSinceAck) > 0 then [AckPacket(old(expectedSeq), lastAck)] else [])
        && expectedSeq == old(expectedSeq) && buffer == old(buffer) && delivered == old(delivered)
      ensures ev.Received? && ev.packet.fin ==>
        && closed && pctsSinceAck == 0
        && out == (if old(pctsSinceAck) > 0 then [AckPacket(old(expectedSeq), lastAck)] else [])
                  + [ResponderFinAck(ev.packet, lastAck)]
        && expectedSeq == old(expectedSeq) && buffer == old(buffer) && delivered == old(delivered)
      ensures ev.Received? && !ev.packet.fin && ev.packet.seqNum == old(expectedSeq) ==>
        var d := Drain(old(buffer), old(expectedSeq) + WireSize(ev.packet.payload));
        && !closed && out == [] && buffer == d.0 && expectedSeq == d.1
        && pctsSinceAck == old(pctsSinceAck) + 1 + |d.2|
      ensures ev.Received? && !ev.packet.fin && ev.packet.seqNum > old(expectedSeq) ==>
        && !closed && pctsSinceAck == 0
        && out == [AckPacket(old(expectedSeq), lastAck)] && expectedSeq == old(expectedSeq)
        && buffer == (if ev.packet.seqNum in old(buffer) then old(buffer)
                      else old(buffer)[ev.packet.seqNum := Buffered(ev.packet.payload, WireSize(ev.packet.payload))])
      ensures ev.Received? && !ev.packet.fin && ev.packet.seqNum < old(expectedSeq) ==>
        && !closed && pctsSinceAck == 0
        && out == [AckPacket(old(expectedSeq), lastAck)]
        && expectedSeq == old(expectedSeq) && buffer == old(buffer)
      ensures closed ==> ev.Failed? || (ev.Received? && ev.packet.fin)
    {
      match ev {
        case Received(p) =>
          out := OnPacket(p);
        case TimedOut =>
          out := OnPollTimeout();
        case Failed =>
          out := [];
          closed := true;
      }
    }
  }

  /** The first two arrivals of ReassemblyScenario on a fresh engine: the first segment is
      accepted, the third is buffered and draws a duplicate ACK for n. */
  method OpenGap(r: ReceiverEngine, payload: string) returns (out: seq<Packet>)
    requires payload != [] && r.Valid() && !r.closed
    requires r.expectedSeq == 0 && r.buffer == map[] && r.lastAck == 1
    modifies r
    ensures r.Valid() && !r.closed
    ensures r.expectedSeq == WireSize(payload)
    ensures r.buffer == map[2 * WireSize(payload) := Buffered(payload, WireSize(payload))]
    ensures r.delivered == old(r.delivered) + [Segment(0, payload, WireSize(payload))]
    ensures out == [AckPacket(WireSize(payload), 1)]
  {
    var n := WireSize(payload);
    assert Drain(map[], 0 + n) == (map[], n, []);
    var out1 := r.OnPacket(DataPacket(0, payload));
    assert r.expectedSeq == n && r.buffer == map[] && out1 == [];
    var out2 := r.OnPacket(DataPacket(2 * n, payload));
    out := out1 + out2;
  }

  /** Three equal segments of n > 0 bytes arrive as first, third, second: the third is buffered
      and draws one duplicate ACK for n; the second fills the gap and drains it, reaching 3n.
      The segments are delivered in stream order, at offsets 0, n and 2n. */
  method ReassemblyScenario(payload: string)
    returns (replies: seq<Packet>, finalExpected: int, stillBuffered: nat, ghost log: seq<Segment>)
    requires payload != []
    ensures replies == [AckPacket(WireSize(payload), 1)]
    ensures var n := WireSize(payload);
            log == [Segment(0, payload, n), Segment(n, payload, n), Segment(2 * n, payload, n)]
    ensures finalExpected == 3 * WireSize(payload)
    ensures stillBuffered == 0
  {
    var n := WireSize(payload);
    var r := new ReceiverEngine(0, 1);
    var out12 := OpenGap(r, payload);
    var second := DataPacket(n, payload);
    ghost var d := Drain(r.buffer, r.expectedSeq + WireSize(second.payload));
    assert r.buffer - {2 * n} == map[];
    assert Drain(map[], 3 * n) == (map[], 3 * n, []);
    assert d.0 == map[] && d.1 == 3 * n && d.2 == [Segment(2 * n, payload, n)];
    var out3 := r.OnPacket(second);
    assert r.expectedSeq == d.1 && r.buffer == d.0 && out3 == [];
    assert out12 + out3 == out12;
    replies := out12 + out3;
    finalExpected := r.expectedSeq;
    stillBuffered := |r.buffer|;
    log := r.delivered;
    assert [] + [Segment(0, payload, n)] + [Segment(n, payload, n)] + [Segment(2 * n, payload, n)]
           == [Segment(0, payload, n), Segment(n, payload, n), Segment(2 * n, payload, n)];
  }
}
