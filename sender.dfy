/**
  The sender engine: one iteration of the transmit loop is a window fill
  followed by either one received ACK or one poll timeout. Sockets, the
  clock and the loss hook are parameters of the step methods; the packets a
  step transmits are its result (before the payload transform of
  Packets.EncodeForWire is applied on the way out).
 */
module Sender {
  import opened Packets
  import opened Congestion

  /** Retransmission timeout, in seconds. */
  const Rto: real := 2.0

  /** One in-flight record: message index, payload, time of the last (re)transmission. */
  datatype Entry = Entry(msgIndex: nat, payload: string, timestamp: real)

  function Digit(d: nat): (c: char)
    requires d < 10
    ensures '0' <= c <= '9'
  {
    ('0' as int + d) as char
  }

  /** Decimal rendering of a natural number, most significant digit first. */
  function Decimal(n: nat): (s: string)
    ensures |s| >= 1
    ensures forall i :: 0 <= i < |s| ==> '0' <= s[i] <= '9'
  {
    if n < 10 then [Digit(n)] else Decimal(n / 10) + [Digit(n % 10)]
  }

  /** The payload of message i. */
  function MessagePayload(i: nat): (s: string)
  {
    "Mensagem numero " + Decimal(i)
  }

  /** Bytes message i takes in the sequence space: the payload is ASCII, so
      this is its length; PayloadSizeIsWireSize ties it to Packets.WireSize. */
  function PayloadSize(i: nat): (n: nat)
    ensures n >= 17
  {
    16 + |Decimal(i)|
  }

  /** The size the sender advances by is the wire size the receiver measures. */
  lemma PayloadSizeIsWireSize(i: nat)
    ensures PayloadSize(i) == WireSize(MessagePayload(i))
  {
    var p := MessagePayload(i);
    var d := Decimal(i);
    assert |p| == 16 + |d|;
    forall k | 0 <= k < |p| ensures p[k] as int < 0x80 {
      if k >= 16 {
        assert p[k] == d[k - 16];
      }
    }
    AsciiUtf8Len(p);
  }

  /** Bytes taken by messages 0 .. i-1 together. */
  function SpanLen(i: nat): (n: nat)
  {
    if i == 0 then 0 else SpanLen(i - 1) + PayloadSize(i - 1)
  }

  /** Every message adds at least 17 bytes, so distinct messages start at distinct offsets. */
  lemma {:induction false} SpanLenGrows(i: nat, j: nat)
    requires i <= j
    ensures SpanLen(i) + 17 * (j - i) <= SpanLen(j)
    decreases j - i
  {
    if i < j {
      SpanLenGrows(i, j - 1);
    }
  }

  ghost predicate Expired(e: Entry, now: real)
  {
    now - e.timestamp > Rto
  }

  ghost predicate NoneExpired(m: map<int, Entry>, now: real)
  {
    forall j :: j in m ==> !Expired(m[j], now)
  }

  /** k is, in ascending key order, the first entry older than the timeout. */
  ghost predicate FirstExpiredAt(m: map<int, Entry>, now: real, k: int)
  {
    k in m && Expired(m[k], now) && forall j :: j in m && j < k ==> !Expired(m[j], now)
  }

  ghost predicate IsLowest(keys: set<int>, k: int)
  {
    k in keys && forall j :: j in keys ==> k <= j
  }

  /** Keys a cumulative ACK confirms. */
  ghost function Confirmed(m: map<int, Entry>, ack: int): (r: set<int>)
  {
    set k | k in m && k < ack
  }

  /** What a cumulative ACK leaves in flight. */
  ghost function Unacked(m: map<int, Entry>, ack: int): (r: map<int, Entry>)
  {
    map k | k in m && k >= ack :: m[k]
  }

  /** The confirmed and the remaining keys split the table: nothing is lost or kept twice. */
  lemma AckPartitions(m: map<int, Entry>, ack: int)
    ensures Confirmed(m, ack) + Unacked(m, ack).Keys == m.Keys
    ensures Confirmed(m, ack) !! Unacked(m, ack).Keys
    ensures |Confirmed(m, ack)| + |Unacked(m, ack)| == |m|
  {
    var c, u := Confirmed(m, ack), Unacked(m, ack).Keys;
    assert c + u == m.Keys;
    assert c * u == {};
  }

  /** A set is empty or has a member. */
  lemma HasMember(s: set<int>)
    ensures s == {} || exists x :: x in s
  {
    if forall x :: x !in s {
      assert s == {};
    }
  }

  /** min(keys): the smallest element of a non-empty set. */
  method LowestKey(keys: set<int>) returns (k: int)
    requires keys != {}
    ensures IsLowest(keys, k)
  {
    HasMember(keys);
    var first :| first in keys;
    k := first;
    var rest := keys - {k};
    while rest != {}
      invariant rest <= keys && k in keys
      invariant forall j :: j in keys && j !in rest ==> k <= j
      decreases |rest|
    {
      HasMember(rest);
      var x :| x in rest;
      if x < k {
        k := x;
      }
      rest := rest - {x};
    }
  }

  /** The timeout scan: visit keys in ascending order and stop at the first expired entry. */
  method FirstExpired(m: map<int, Entry>, now: real) returns (found: bool, k: int)
    ensures found ==> FirstExpiredAt(m, now, k)
    ensures !found ==> NoneExpired(m, now)
  {
    var pending := m.Keys;
    ghost var scanned: set<int> := {};
    while pending != {}
      invariant pending + scanned == m.Keys && pending !! scanned
      invariant forall j, p :: j in scanned && p in pending ==> j < p
      invariant forall j :: j in scanned ==> !Expired(m[j], now)
      decreases |pending|
    {
      var s := LowestKey(pending);
      if now - m[s].timestamp > Rto {
        return true, s;
      }
      pending := pending - {s};
      scanned := scanned + {s};
    }
    return false, 0;
  }

  /** A quotient by a positive number is 1 exactly when both numbers are equal. */
  lemma QuotientIsOne(a: real, b: real)
    requires b > 0.0
    ensures a / b == 1.0 <==> a == b
  {
    if a == b {
      assert a / b == b / b;
    }
  }

  /** Summary as the source computes it: the number of distinct messages stands in for every transmission. */
  function EfficiencyAsWritten(totalMsgs: nat, totalSent: nat): (e: real)
    ensures totalSent > 0 ==> (e == 100.0 <==> totalMsgs == totalSent)
    ensures totalSent == 0 ==> e == 0.0
  {
    if totalSent > 0 then
      var share := (totalMsgs as real) / (totalSent as real);
      QuotientIsOne(totalMsgs as real, totalSent as real);
      share * 100.0
    else 0.0
  }

  /** The transmit loop ends only once nextMsg has reached totalMsgs (nextMsg never passes it):
      the figure as written is then 100, although with any retransmission the corrected figure
      is below 100. */
  lemma EfficiencyAsWrittenIsConstant(totalMsgs: nat, nextMsg: nat, retransmissions: nat)
    requires nextMsg <= totalMsgs && !(nextMsg < totalMsgs)
    requires totalMsgs > 0 && retransmissions > 0
    ensures EfficiencyAsWritten(totalMsgs, nextMsg) == 100.0
    ensures Efficiency(nextMsg, retransmissions) < 100.0
  {
  }

  /** Share of transmissions that carried a message for the first time, in percent. */
  function Efficiency(unique: nat, retransmissions: nat): (e: real)
    ensures unique > 0 ==> 0.0 < e <= 100.0
    ensures unique > 0 ==> (e == 100.0 <==> retransmissions == 0)
    ensures unique == 0 ==> e == 0.0
  {
    if unique > 0 then
      var total := (unique + retransmissions) as real;
      var share := (unique as real) / total;
      assert share * total == unique as real;
      assert share <= 1.0 by {
        if share > 1.0 { assert share * total > total; }
      }
      assert share == 1.0 ==> retransmissions == 0;
      share * 100.0
    else 0.0
  }

  /** The number of table entries a window of w admits: a count k is below w exactly when k < Slots(w). */
  function Slots(w: real): (k: int)
  {
    if w.Floor as real == w then w.Floor else w.Floor + 1
  }

  lemma SlotsAdmit(k: int, w: real)
    ensures (k as real) < w <==> k < Slots(w)
  {
    var f := w.Floor;
    assert f as real <= w < f as real + 1.0;
    if k < Slots(w) {
      assert k <= f;
    } else {
      assert k >= f;
    }
  }

  /** The fill loop of one transmit iteration, over the table m, the next offset cur and the
      next message index next, for a stream of totalMsgs messages starting at start. */
  method Fill(start: int, totalMsgs: nat, window: real, m0: map<int, Entry>, cur0: int, next0: nat,
              now: real, dropped: set<nat>)
    returns (m: map<int, Entry>, cur: int, next: nat, sent: seq<Packet>)
    requires next0 <= totalMsgs && cur0 == Offset(start, next0) && TableOk(start, m0, next0)
    ensures next0 <= next <= totalMsgs
    ensures cur == Offset(start, next) && TableOk(start, m, next)
    ensures m == Recorded(start, m0, next0, next, now)
    ensures |m| == |m0| + (next - next0)
    ensures next == totalMsgs || |m| as real >= window
    ensures next > next0 ==> ((|m| - 1) as real) < window
    ensures sent == Transmitted(start, next0, next, dropped)
  {
    m, cur, next := m0, cur0, next0;
    sent := [];
    var slots := Slots(window);
    while |m| < slots && next < totalMsgs
      invariant next0 <= next <= totalMsgs
      invariant cur == Offset(start, next)
      invariant TableOk(start, m, next)
      invariant m == Recorded(start, m0, next0, next, now)
      invariant |m| == |m0| + (next - next0)
      invariant next > next0 ==> |m| - 1 < slots
      invariant sent == Transmitted(start, next0, next, dropped)
      decreases totalMsgs - next
    {
      m, cur, next, sent := FillOne(start, m0, next0, m, cur, next, now, dropped, sent);
    }
    SlotsAdmit(|m|, window);
    SlotsAdmit(|m| - 1, window);
  }

  /** One round of the fill loop: message n, which starts at cur, is recorded in the table
      and, unless the loss hook drops it, sent. */
  method FillOne(start: int, m0: map<int, Entry>, next0: nat, m: map<int, Entry>, cur: int, n: nat,
                 now: real, dropped: set<nat>, sent: seq<Packet>)
    returns (m': map<int, Entry>, cur': int, n': nat, sent': seq<Packet>)
    requires next0 <= n && cur == Offset(start, n) && TableOk(start, m, n)
    requires m == Recorded(start, m0, next0, n, now) && |m| == |m0| + (n - next0)
    requires sent == Transmitted(start, next0, n, dropped)
    ensures n' == n + 1 && cur' == Offset(start, n') && TableOk(start, m', n')
    ensures m' == Recorded(start, m0, next0, n', now) && |m'| == |m0| + (n' - next0)
    ensures |m'| == |m| + 1
    ensures sent' == Transmitted(start, next0, n', dropped)
  {
    var payload := MessagePayload(n);
    var payloadSize := PayloadSize(n);
    TransmittedStep(start, next0, n, dropped);
    RecordedStep(start, m0, next0, n, now);
    TableExtend(start, m, n, now);
    var extra := if n in dropped then [] else [DataPacket(cur, payload)];
    sent' := sent + extra;
    m' := m[cur := Entry(n, payload, now)];
    cur' := cur + payloadSize;
    n' := n + 1;
  }

  /** Final statistics of a transfer. */
  datatype Stats = Stats(totalMsgs: nat, totalSent: nat, retransmissions: nat, efficiency: real)

  /** Offset at which message i starts, for a stream starting at start. */
  function Offset(start: int, i: nat): (o: int)
  {
    start + SpanLen(i)
  }

  /** Every entry of m is one of the first n messages, stored under its own offset. */
  ghost predicate TableOk(start: int, m: map<int, Entry>, n: nat)
  {
    forall k :: k in m ==>
      m[k].msgIndex < n && k == Offset(start, m[k].msgIndex) && m[k].payload == MessagePayload(m[k].msgIndex)
  }

  /** Every key of a well-formed table lies below the offset of the next message. */
  lemma TableKeysBelow(start: int, m: map<int, Entry>, n: nat)
    requires TableOk(start, m, n)
    ensures forall k :: k in m ==> k < Offset(start, n)
  {
    forall k | k in m ensures k < Offset(start, n) {
      SpanLenGrows(m[k].msgIndex, n);
    }
  }

  /** Recording message n under its offset adds a fresh key and keeps the table well formed. */
  lemma TableExtend(start: int, m: map<int, Entry>, n: nat, now: real)
    requires TableOk(start, m, n)
    ensures Offset(start, n) !in m
    ensures TableOk(start, m[Offset(start, n) := Entry(n, MessagePayload(n), now)], n + 1)
    ensures |m[Offset(start, n) := Entry(n, MessagePayload(n), now)]| == |m| + 1
  {
    TableKeysBelow(start, m, n);
  }

  /** The in-flight table after messages lo .. hi-1 were recorded at time now. */
  ghost function Recorded(start: int, m: map<int, Entry>, lo: nat, hi: nat, now: real): (r: map<int, Entry>)
    requires lo <= hi
    decreases hi
  {
    if hi == lo then m
    else Recorded(start, m, lo, hi - 1, now)[Offset(start, hi - 1) := Entry(hi - 1, MessagePayload(hi - 1), now)]
  }

  /** The packets that reach the channel for messages lo .. hi-1: those the loss hook spares. */
  ghost function Transmitted(start: int, lo: nat, hi: nat, dropped: set<nat>): (r: seq<Packet>)
    requires lo <= hi
    decreases hi
  {
    if hi == lo then []
    else Transmitted(start, lo, hi - 1, dropped)
         + (if hi - 1 in dropped then [] else [DataPacket(Offset(start, hi - 1), MessagePayload(hi - 1))])
  }

  lemma RecordedStep(start: int, m: map<int, Entry>, lo: nat, hi: nat, now: real)
    requires lo <= hi
    ensures Recorded(start, m, lo, hi + 1, now)
            == Recorded(start, m, lo, hi, now)[Offset(start, hi) := Entry(hi, MessagePayload(hi), now)]
  {
  }

  lemma TransmittedStep(start: int, lo: nat, hi: nat, dropped: set<nat>)
    requires lo <= hi
    ensures Transmitted(start, lo, hi + 1, dropped)
            == Transmitted(start, lo, hi, dropped)
               + (if hi in dropped then [] else [DataPacket(Offset(start, hi), MessagePayload(hi))])
  {
  }

  /** The removal loop of a cumulative ACK: delete every key below ack, one at a time. */
  method RemoveConfirmed(m: map<int, Entry>, ack: int) returns (r: map<int, Entry>, numConfirmed: nat)
    ensures r == Unacked(m, ack)
    ensures numConfirmed == |Confirmed(m, ack)|
  {
    var confirmed := set k | k in m && k < ack;
    numConfirmed := |confirmed|;
    r := m;
    var rest := confirmed;
    while rest != {}
      invariant rest <= confirmed
      invariant r.Keys == m.Keys - (confirmed - rest)
      invariant forall k :: k in r ==> r[k] == m[k]
      decreases |rest|
    {
      HasMember(rest);
      var s :| s in rest;
      r := r - {s};
      rest := rest - {s};
    }
    forall k ensures k in r <==> k in Unacked(m, ack) {
      assert k in confirmed <==> k in m && k < ack;
    }
    assert r.Keys == Unacked(m, ack).Keys;
  }

  class SenderEngine {
    const startSeq: int
    const totalMsgs: nat
    var cc: CongState
    var nextMsg: nat
    var baseSeq: int
    var currentSeq: int
    var inFlight: map<int, Entry>
    var retransmissions: nat
    var lastRwnd: int

    ghost predicate Valid()
      reads this
    {
      && CongInv(cc)
      && nextMsg <= totalMsgs
      && currentSeq == Offset(startSeq, nextMsg)
      && TableOk(startSeq, inFlight, nextMsg)
    }

    constructor (startSeq: int, totalMsgs: nat)
      ensures Valid()
      ensures this.startSeq == startSeq && this.totalMsgs == totalMsgs
      ensures cc == Initial && nextMsg == 0 && baseSeq == startSeq && currentSeq == startSeq
      ensures inFlight == map[] && retransmissions == 0 && lastRwnd == DefaultRwnd
    {
      this.startSeq := startSeq;
      this.totalMsgs := totalMsgs;
      cc := Initial;
      nextMsg := 0;
      baseSeq := startSeq;
      currentSeq := startSeq;
      inFlight := map[];
      retransmissions := 0;
      lastRwnd := DefaultRwnd;
    }

    /** The transmit loop's condition: unacknowledged data or unsent messages remain. */
    function Running(): bool
      reads this
    {
      baseSeq < currentSeq || nextMsg < totalMsgs
    }

    /** Once the transmit loop has stopped, the statistics as the source prints them report an
        efficiency of 100 even after retransmissions. */
    lemma AsWrittenAtLoopExit()
      requires Valid() && !Running() && totalMsgs > 0 && retransmissions > 0
      ensures nextMsg == totalMsgs
      ensures EfficiencyAsWritten(totalMsgs, nextMsg) == 100.0
      ensures Efficiency(nextMsg, retransmissions) < 100.0
    {
      EfficiencyAsWrittenIsConstant(totalMsgs, nextMsg, retransmissions);
    }

    /** Send new messages while the table is smaller than min(cwnd, rwnd). Every new message is
        recorded in flight with timestamp now, also when the loss hook drops it (its index is in
        dropped) and it never reaches the channel. */
    method FillWindow(now: real, dropped: set<nat>) returns (sent: seq<Packet>)
      requires Valid()
      modifies this
      ensures Valid()
      ensures cc == old(cc) && baseSeq == old(baseSeq) && lastRwnd == old(lastRwnd)
      ensures retransmissions == old(retransmissions)
      ensures old(nextMsg) <= nextMsg
      ensures inFlight == Recorded(startSeq, old(inFlight), old(nextMsg), nextMsg, now)
      ensures |inFlight| == |old(inFlight)| + (nextMsg - old(nextMsg))
      ensures nextMsg == totalMsgs || |inFlight| as real >= Window(cc.cwnd, lastRwnd)
      ensures nextMsg > old(nextMsg) ==> ((|inFlight| - 1) as real) < Window(cc.cwnd, lastRwnd)
      ensures sent == Transmitted(startSeq, old(nextMsg), nextMsg, dropped)
    {
      var m, cur, next;
      m, cur, next, sent := Fill(startSeq, totalMsgs, Window(cc.cwnd, lastRwnd), inFlight, currentSeq, nextMsg, now, dropped);
      inFlight, currentSeq, nextMsg := m, cur, next;
    }

    /** One ACK from the receiver, carrying cumulative ack and advertised window rwnd. */
    method OnAck(ack: int, rwnd: int, now: real) returns (sent: seq<Packet>)
      requires Valid()
      modifies this
      ensures Valid()
      ensures lastRwnd == rwnd
      ensures nextMsg == old(nextMsg) && currentSeq == old(currentSeq)
      // a new cumulative ACK
      ensures ack > old(baseSeq) ==>
        && baseSeq == ack
        && inFlight == Unacked(old(inFlight), ack)
        && cc == NewAck(old(cc), |Confirmed(old(inFlight), ack)|)
        && retransmissions == old(retransmissions) && sent == []
      // a duplicate ACK while data is in flight
      ensures ack == old(baseSeq) && old(inFlight) != map[] ==>
        && baseSeq == old(baseSeq) && cc == DupAck(old(cc)).0
        && (!DupAck(old(cc)).1 ==>
              sent == [] && inFlight == old(inFlight) && retransmissions == old(retransmissions))
        && (DupAck(old(cc)).1 ==>
              && |sent| == 1
              && IsLowest(old(inFlight).Keys, sent[0].seqNum)
              && sent[0] == DataPacket(sent[0].seqNum, old(inFlight)[sent[0].seqNum].payload)
              && inFlight == old(inFlight)[sent[0].seqNum := old(inFlight)[sent[0].seqNum].(timestamp := now)]
              && retransmissions == old(retransmissions) + 1)
      // a stale ACK, or a repeated one with nothing in flight
      ensures ack < old(baseSeq) || (ack == old(baseSeq) && old(inFlight) == map[]) ==>
        && baseSeq == old(baseSeq) && cc == old(cc) && inFlight == old(inFlight)
        && retransmissions == old(retransmissions) && sent == []
    {
      lastRwnd := rwnd;
      sent := [];
      if ack > baseSeq {
        var m, numConfirmed := RemoveConfirmed(inFlight, ack);
        inFlight := m;
        cc := NewAck(cc, numConfirmed);
        baseSeq := ack;
      } else if ack == baseSeq && inFlight != map[] {
        var shouldRetransmit;
        cc, shouldRetransmit := DupAck(cc).0, DupAck(cc).1;
        if shouldRetransmit && inFlight != map[] {
          var k := LowestKey(inFlight.Keys);
          var e := inFlight[k];
          sent := [DataPacket(k, e.payload)];
          inFlight := inFlight[k := e.(timestamp := now)];
          retransmissions := retransmissions + 1;
        }
      }
    }

    /** The poll timed out with no ACK at time now: resend the first expired entry, if any. */
    method OnPollTimeout(now: real) returns (sent: seq<Packet>)
      requires Valid()
      modifies this
      ensures Valid()
      ensures baseSeq == old(baseSeq) && nextMsg == old(nextMsg) && currentSeq == old(currentSeq)
      ensures lastRwnd == old(lastRwnd)
      ensures |sent| <= 1
      ensures sent == [] <==> NoneExpired(old(inFlight), now)
      ensures sent == [] ==>
        inFlight == old(inFlight) && cc == old(cc) && retransmissions == old(retransmissions)
      ensures sent != [] ==>
        && FirstExpiredAt(old(inFlight), now, sent[0].seqNum)
        && sent[0] == DataPacket(sent[0].seqNum, old(inFlight)[sent[0].seqNum].payload)
        && inFlight == old(inFlight)[sent[0].seqNum := old(inFlight)[sent[0].seqNum].(timestamp := now)]
        && cc == Timeout(old(cc))
        && retransmissions == old(retransmissions) + 1
    {
      var found, k := FirstExpired(inFlight, now);
      sent := [];
      if found {
        var e := inFlight[k];
        cc := Timeout(cc);
        sent := [DataPacket(k, e.payload)];
        inFlight := inFlight[k := e.(timestamp := now)];
        retransmissions := retransmissions + 1;
      }
    }

    /** One iteration of the transmit loop: fill the window, then handle what the receive call
        returned. fillNow is the clock reading that stamps the new messages; recvNow is the one
        taken after the receive call returned, which stamps a fast retransmission or drives the
        timeout scan. A receive error other than a timeout is not handled by the loop and ends
        the transfer. */
    method Step(fillNow: real, recvNow: real, dropped: set<nat>, ev: RecvEvent) returns (sent: seq<Packet>, aborted: bool)
      requires Valid()
      modifies this
      ensures Valid()
      ensures aborted <==> ev.Failed?
      ensures old(nextMsg) <= nextMsg
      ensures old(retransmissions) <= retransmissions <= old(retransmissions) + 1
      ensures ev.Received? ==> lastRwnd == ev.packet.rwnd
    {
      sent := FillWindow(fillNow, dropped);
      aborted := false;
      match ev {
        case Received(p) =>
          var more := OnAck(p.ackNum, p.rwnd, recvNow);
          sent := sent + more;
        case TimedOut =>
          var more := OnPollTimeout(recvNow);
          sent := sent + more;
        case Failed =>
          aborted := true;
      }
    }

    /** The statistics returned at the end of the transfer, with retransmissions counted as sends. */
    method Summary() returns (s: Stats)
      ensures s.totalMsgs == totalMsgs && s.retransmissions == retransmissions
      ensures s.totalSent == nextMsg + retransmissions
      ensures s.efficiency == Efficiency(nextMsg, retransmissions)
    {
      s := Stats(totalMsgs, nextMsg + retransmissions, retransmissions,
                 Efficiency(nextMsg, retransmissions));
    }
  }
}
