/**
  The congestion controller: four pure transitions over
  (cwnd, ssthresh, duplicate ACK count, fast-recovery flag). cwnd is an exact
  real number; the source keeps it in a floating-point variable.
  The transitions loosely follow slow start, congestion avoidance and fast
  retransmit/fast recovery of RFC 5681 (sections 3.1 and 3.2), but they are
  modelled as the code states them: in particular a fast retransmit halves
  cwnd and leaves ssthresh as it is.
 */
module Congestion {

  const InitialCwnd: real := 1.0
  const InitialSsthresh: int := 64
  const MaxCwnd: int := 100
  const DupAckThreshold: nat := 3

  datatype CongState = CongState(cwnd: real, ssthresh: int, dupAcks: nat, inFastRecovery: bool)

  const Initial: CongState := CongState(InitialCwnd, InitialSsthresh, 0, false)

  function MinReal(a: real, b: real): (m: real) { if a <= b then a else b }
  function MaxReal(a: real, b: real): (m: real) { if a >= b then a else b }
  function MaxInt(a: int, b: int): (m: int) { if a >= b then a else b }

  /** Python's int() on a real: truncation toward zero. */
  function Trunc(x: real): (t: int)
    ensures x >= 0.0 ==> t as real <= x < t as real + 1.0
    ensures x < 0.0 ==> t as real - 1.0 < x <= t as real
  {
    if x >= 0.0 then x.Floor else -((-x).Floor)
  }

  /** The bounds every reachable controller state respects. */
  ghost predicate CongInv(s: CongState)
  {
    && 1.0 <= s.cwnd <= MaxCwnd as real
    && 2 <= s.ssthresh <= InitialSsthresh
    && (!s.inFastRecovery ==> s.dupAcks < DupAckThreshold)
  }

  lemma InitialSatisfiesInv()
    ensures CongInv(Initial)
  {
  }

  /** get_window_size: the usable window is the smaller of cwnd and the peer's advertised window. */
  function Window(cwnd: real, rwnd: int): (w: real)
    ensures w <= cwnd && w <= rwnd as real
    ensures w == cwnd || w == rwnd as real
  {
    MinReal(cwnd, rwnd as real)
  }

  /** handle_new_ack: `confirmed` in-flight entries were acknowledged by a cumulative ACK. */
  function NewAck(s: CongState, confirmed: nat): (r: CongState)
    requires !s.inFastRecovery && s.cwnd >= s.ssthresh as real ==> s.cwnd != 0.0
    ensures r.ssthresh == s.ssthresh && r.dupAcks == 0 && !r.inFastRecovery
    ensures s.inFastRecovery ==> r.cwnd == s.ssthresh as real
    ensures !s.inFastRecovery && s.cwnd < s.ssthresh as real
            ==> r.cwnd == MinReal(s.cwnd + confirmed as real, MaxCwnd as real)
    ensures !s.inFastRecovery && s.cwnd >= s.ssthresh as real
            ==> r.cwnd == MinReal(s.cwnd + (confirmed as real) / s.cwnd, MaxCwnd as real)
    ensures CongInv(s) ==> CongInv(r)
    ensures CongInv(s) && !s.inFastRecovery ==> r.cwnd >= s.cwnd
  {
    if s.inFastRecovery then
      CongState(s.ssthresh as real, s.ssthresh, 0, false)
    else if s.cwnd < s.ssthresh as real then
      CongState(MinReal(s.cwnd + confirmed as real, MaxCwnd as real), s.ssthresh, 0, false)
    else
      CongState(MinReal(s.cwnd + (confirmed as real) / s.cwnd, MaxCwnd as real), s.ssthresh, 0, false)
  }

  /** handle_duplicate_ack: the new state and whether the lowest in-flight entry must be resent now. */
  function DupAck(s: CongState): (r: (CongState, bool))
    ensures r.0.dupAcks == s.dupAcks + 1 && r.0.ssthresh == s.ssthresh
    ensures r.1 <==> (s.dupAcks + 1 == DupAckThreshold && !s.inFastRecovery)
    ensures r.1 ==> r.0.inFastRecovery && r.0.cwnd == MaxReal(s.cwnd / 2.0, 2.0)
    ensures s.inFastRecovery ==> r.0.inFastRecovery && r.0.cwnd == MinReal(s.cwnd + 1.0, MaxCwnd as real)
    ensures !r.1 && !s.inFastRecovery ==> r.0.cwnd == s.cwnd && !r.0.inFastRecovery
    ensures CongInv(s) ==> CongInv(r.0)
  {
    var dup := s.dupAcks + 1;
    if dup == DupAckThreshold && !s.inFastRecovery then
      (CongState(MaxReal(s.cwnd / 2.0, 2.0), s.ssthresh, dup, true), true)
    else if s.inFastRecovery then
      (CongState(MinReal(s.cwnd + 1.0, MaxCwnd as real), s.ssthresh, dup, true), false)
    else
      (CongState(s.cwnd, s.ssthresh, dup, false), false)
  }

  /** handle_timeout: collapse to the initial window, halve the threshold (at least 2). */
  function Timeout(s: CongState): (r: CongState)
    ensures r.cwnd == InitialCwnd && r.dupAcks == 0 && !r.inFastRecovery
    ensures s.cwnd >= 0.0 ==> r.ssthresh == MaxInt((s.cwnd / 2.0).Floor, 2)
    ensures r.ssthresh >= 2
    ensures CongInv(s) ==> CongInv(r)
  {
    CongState(InitialCwnd, MaxInt(Trunc(s.cwnd / 2.0), 2), 0, false)
  }

  /** From the initial state, one ACK confirming 1 packet and then one confirming 2 doubles cwnd twice. */
  lemma SlowStartDoubling()
    ensures NewAck(Initial, 1).cwnd == 2.0
    ensures NewAck(NewAck(Initial, 1), 2).cwnd == 4.0
  {
  }

  /** In slow start, a window of w confirmed at once doubles cwnd (up to the cap). */
  lemma SlowStartDoublesPerRound(s: CongState)
    requires CongInv(s) && !s.inFastRecovery && s.cwnd < s.ssthresh as real
    requires s.cwnd == s.cwnd.Floor as real
    ensures NewAck(s, s.cwnd.Floor).cwnd == MinReal(2.0 * s.cwnd, MaxCwnd as real)
  {
  }

  /** Once cwnd has reached ssthresh, one acknowledged packet adds 1/cwnd. */
  lemma CongestionAvoidanceStep()
    ensures NewAck(CongState(64.0, 64, 0, false), 1).cwnd == 64.0 + 1.0 / 64.0
  {
  }

  /** Three duplicate ACKs in a row outside fast recovery: the first two change only the count,
      the third halves cwnd (at least 2), enters fast recovery and asks for exactly one resend;
      a fourth inflates cwnd by one and asks for none. */
  lemma {:induction false} ThreeDuplicatesTriggerOneRetransmit(s: CongState)
    requires CongInv(s) && s.dupAcks == 0 && !s.inFastRecovery
    ensures var (s1, r1) := DupAck(s);
            var (s2, r2) := DupAck(s1);
            var (s3, r3) := DupAck(s2);
            var (s4, r4) := DupAck(s3);
            && !r1 && !r2 && r3 && !r4
            && s2.cwnd == s.cwnd && !s2.inFastRecovery
            && s3.cwnd == MaxReal(s.cwnd / 2.0, 2.0) && s3.inFastRecovery && s3.ssthresh == s.ssthresh
            && s4.cwnd == MinReal(s3.cwnd + 1.0, MaxCwnd as real)
  {
    var (s1, r1) := DupAck(s);
    var (s2, r2) := DupAck(s1);
    var (s3, r3) := DupAck(s2);
    assert s3.dupAcks == 3;
  }

  /** Example of NewAck's first branch, spelled out as a whole state: a new ACK during fast
      recovery restores cwnd to ssthresh and ends the recovery. */
  lemma FastRecoveryExit(s: CongState, n: nat)
    requires CongInv(s) && s.inFastRecovery
    ensures NewAck(s, n) == CongState(s.ssthresh as real, s.ssthresh, 0, false)
  {
  }

  /** Trunc agrees with Floor on the non-negative values cwnd takes. */
  lemma TimeoutHalvesWindow(s: CongState)
    requires CongInv(s)
    ensures Timeout(s).ssthresh == MaxInt((s.cwnd / 2.0).Floor, 2)
    ensures Timeout(s).ssthresh <= MaxCwnd / 2
  {
  }
}
