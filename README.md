# TCP over UDP: a Dafny model of the transport core

The system is a small reliable transport built on UDP datagrams. It has two peers.

The **server** (`server_final.py`) is the sending peer:
- It accepts a three-way handshake.
- It streams numbered text messages under a congestion controller. The controller has slow start, congestion avoidance, fast retransmit with fast recovery, and a retransmission timeout.
- It closes the connection with a FIN exchange of at most five attempts.

The **client** (`client_final.py`) is the receiving peer:
- It opens the connection.
- It reassembles the byte stream with an out-of-order buffer. Its acknowledgements are cumulative: every ACK carries the next expected offset and clears the count of unacknowledged packets. An in-order packet is therefore acknowledged by the next ACK the receiver sends. That ACK comes after a poll timeout while packets are waiting, at once for an out-of-order or duplicate packet, or in the flush before the FIN-ACK.
- It answers the FIN.

Every non-empty payload is shifted by a Caesar cipher on the way to the wire and shifted back on the way in. Sequence numbers advance by the UTF-8 byte length of the enciphered payload.

Each module of the model corresponds to one part of the program:

- `Packets` (packets.dfy). The packet record and the event a bounded receive returns (a packet, a timeout or an error). It also holds the Caesar transform with its inverse, the UTF-8 length and the wire size of a payload.
- `Congestion` (congestion.dfy). The four pure transitions of the congestion controller, over an exact `real` cwnd.
- `Sender` (sender.dfy). The class `SenderEngine` keeps the in-flight table as a `map` field. Its step methods fill the window, handle one ACK, handle one poll timeout, and compute the final statistics. The loops of the source are module-level methods, each proved against a specification function:
  - the fill loop;
  - the removal of confirmed entries;
  - `min(keys)`;
  - the ascending timeout scan.
- `Receiver` (receiver.dfy). The class `ReceiverEngine` holds the expected offset, the out-of-order buffer and the delayed-ACK counter. A ghost log of accepted segments lets the invariant say that they tile the stream from the initial offset up to the expected one. The drain loop is proved against the recursive function `Drain`.
- `Handshake` (handshake.dfy). The SYN, SYN-ACK and third packet, and the server's retry loop over a sequence of receive events.
- `Teardown` (teardown.dfy). The initiator's FIN, its receive attempts as a loop over receive events, and the final ACK. The loop stops after five attempts, so events past the fifth are never consumed. The responder's FIN-ACK and close wait are in `Receiver`, and `Teardown` proves what the two halves send each other.

Sockets, the clock and the random loss hook are parameters:
- A receive is a `RecvEvent`.
- A clock reading is a `real` parameter. `Sender.SenderEngine.Step` takes two: `fillNow` stamps the new messages, and `recvNow`, read after the receive returns, stamps a retransmission.
- The loss hook is `dropped: set<nat>`, the set of message indices it discards.
- A step returns the packets it puts on the wire, before the cipher is applied; `Packets.EncodeForWire` is that transform.

## Model

| member | source | states |
|---|---|---|
| Packets.DataPacket | server_final.py:222-223 | a data packet is the template with the given seq and payload, flags cleared |
| Packets.ShiftChar | server_final.py:41-46 | a lower-case letter stays lower-case, an upper-case letter stays upper-case, every other character is unchanged |
| Packets.Caesar | client_final.py:30-39 | the transform keeps the length and shifts each character independently |
| Packets.ShiftCharInverse | server_final.py:41-44 | shifting a character by k and then by -k gives it back |
| Packets.CaesarInverse | server_final.py:38-50 | deciphering with the negated shift undoes enciphering, for every shift |
| Packets.Cipher | client_final.py:30-39 | with the default shift 3 the length is kept, each letter stays a letter of its own case, and every other character passes unchanged |
| Packets.Decipher | client_final.py:41-42 | the inverse shift keeps the length and the same character classes, and passes non-letters unchanged |
| Packets.CipherRoundTrip | client_final.py:30-42 | decipher(cipher(t)) == t and cipher(decipher(t)) == t, and both keep the length |
| Packets.Utf8CharLen | server_final.py:220 | every character takes 1 to 4 bytes, and exactly 1 iff it is ASCII |
| Packets.Utf8LenAtLeast | client_final.py:166 | a text takes at least one byte per character, so a non-empty payload has a positive size |
| Packets.AsciiUtf8Len | server_final.py:219-220 | an ASCII text takes exactly one byte per character |
| Packets.CaesarKeepsUtf8Len | server_final.py:220 | the cipher does not change the UTF-8 length |
| Packets.WireSize | client_final.py:166 | a payload's size is 0 exactly when the payload is empty, and otherwise at least one byte per character |
| Packets.WireSizeIsCipheredLength | client_final.py:166 | the size both peers compute, the UTF-8 length of the enciphered payload or 0 for an empty one, is WireSize |
| Packets.EncodeForWire | server_final.py:52-56 | the send helper changes only the payload, keeps its length, and enciphers exactly the non-empty payloads |
| Packets.DecodeFromWire | server_final.py:58-63 | the receive helper changes only the payload, keeps its length, and deciphers exactly the non-empty payloads |
| Packets.WireRoundTrip | client_final.py:48-59 | a packet survives encode then decode unchanged, and its measured size is the same at both ends |
| Congestion.Trunc | server_final.py:169 | int() truncates toward zero |
| Congestion.InitialSatisfiesInv | server_final.py:181 | the initial controller state is within the bounds on cwnd and ssthresh |
| Congestion.Window | server_final.py:114-115 | the usable window is min(cwnd, rwnd) |
| Congestion.NewAck | server_final.py:117-148 | exiting fast recovery sets cwnd to ssthresh; slow start adds n; congestion avoidance adds n/cwnd; both are capped at max_cwnd; ssthresh is unchanged, the duplicate count is reset, the bounds are kept, and cwnd does not shrink outside recovery |
| Congestion.DupAck | server_final.py:150-166 | the duplicate count always rises; a retransmit is signalled iff it reaches 3 outside recovery, which halves cwnd (at least 2) and enters recovery; inside recovery cwnd grows by 1 (capped); ssthresh is unchanged |
| Congestion.Timeout | server_final.py:168-174 | cwnd returns to 1, ssthresh becomes max(floor(cwnd/2), 2), recovery ends and the count is reset |
| Congestion.SlowStartDoubling | server_final.py:130-138 | from the initial state, ACKs confirming 1 and then 2 packets take cwnd 1 to 2 to 4 |
| Congestion.SlowStartDoublesPerRound | server_final.py:130-138 | in slow start, confirming a whole window doubles cwnd, up to the cap |
| Congestion.CongestionAvoidanceStep | server_final.py:140-148 | at cwnd = ssthresh = 64, one confirmed packet adds 1/64 |
| Congestion.ThreeDuplicatesTriggerOneRetransmit | server_final.py:150-166 | of four duplicate ACKs in a row only the third asks for a resend; the first two leave cwnd alone; the fourth inflates it by one |
| Congestion.FastRecoveryExit | server_final.py:124-128 | example of NewAck's first branch as a whole state: a new ACK during recovery gives (ssthresh, ssthresh, 0, not in recovery) |
| Congestion.TimeoutHalvesWindow | server_final.py:168-174 | for reachable states the truncation equals floor, and the new ssthresh is at most max_cwnd/2 |
| Sender.Decimal | server_final.py:219 | a message index prints as one or more decimal digits |
| Sender.PayloadSize | server_final.py:220 | every message takes at least 17 bytes of sequence space |
| Sender.PayloadSizeIsWireSize | server_final.py:219-220 | the size the sender advances by is the wire size of the message payload that the receiver measures |
| Sender.SpanLenGrows | server_final.py:232 | offsets of later messages are at least 17 bytes per message further on, so offsets strictly increase and keys stay distinct |
| Sender.AckPartitions | server_final.py:255-261 | a cumulative ACK splits the table into confirmed and remaining keys, disjoint, covering every key, with sizes that add up |
| Sender.LowestKey | server_final.py:281 | returns the smallest key of a non-empty set |
| Sender.FirstExpired | server_final.py:301-304 | scanning keys in ascending order, returns the first entry older than the timeout, or reports that none is |
| Sender.EfficiencyAsWritten | server_final.py:324-325 | the efficiency as the code computes it, from next_msg alone: 100 exactly when total_msgs equals the count it divides by, 0 when that count is 0 |
| Sender.EfficiencyAsWrittenIsConstant | server_final.py:205-325 | once next_msg has reached total_msgs, as it has when the loop stops, the figure as written is 100, while with any retransmission the corrected figure is below 100 |
| Sender.SenderEngine.AsWrittenAtLoopExit | server_final.py:205-325 | when the transmit loop's condition fails on a valid engine, next_msg = total_msgs, and after a retransmission the printed efficiency is 100 while the corrected one is below 100 |
| Sender.Efficiency | server_final.py:324-325 | the corrected figure lies in (0, 100], and it is 100 iff there were no retransmissions |
| Sender.SlotsAdmit | server_final.py:218 | a whole count is below the real window exactly when it is below Slots(window), so the fill loop's integer guard is the source's comparison |
| Sender.Fill | server_final.py:218-236 | the fill loop records each new message under its offset, also when the loss hook drops it; it sends the undropped ones in order and stops at min(cwnd, rwnd) entries or when no message is left |
| Sender.FillOne | server_final.py:225-233 | one round of the fill loop records message n under its own offset, advances the offset past it and appends its packet unless dropped, so every loop invariant for n messages holds again for n + 1, with one more table entry |
| Sender.TableKeysBelow | server_final.py:231-232 | every in-flight key is below the next offset |
| Sender.TableExtend | server_final.py:231-232 | recording the next message adds a fresh key and keeps the table well formed |
| Sender.RemoveConfirmed | server_final.py:255-261 | deletes exactly the keys below the ACK, keeps the others unchanged, and counts the deleted ones |
| Sender.SenderEngine.constructor | server_final.py:181-183 | initial controller state, empty table, base = current = start, rwnd 1024 |
| Sender.SenderEngine.FillWindow | server_final.py:206-236 | the table grows by exactly the newly sent messages up to min(cwnd, rwnd), and current_seq keeps pace; nothing else changes |
| Sender.SenderEngine.OnAck | server_final.py:248-296 | conditions on the ACK value: (1) above base, it removes exactly the keys below it, applies NewAck with their count and moves base; (2) equal to base with data in flight, it applies DupAck, and on a signal resends the lowest key, refreshing only its timestamp and counting one retransmission; (3) below base, it changes nothing but rwnd |
| Sender.SenderEngine.OnPollTimeout | server_final.py:298-318 | resends at most one packet, exactly when some entry has expired: the first expired one in key order; it refreshes that timestamp, applies Timeout and counts one retransmission |
| Sender.SenderEngine.Step | server_final.py:205-318 | one loop iteration, with the fill's clock reading and the one taken after the receive, keeps the invariant, never takes back a message, adds at most one retransmission, adopts the received rwnd, and aborts exactly on a receive error |
| Sender.SenderEngine.Summary | server_final.py:324-350 | the corrected statistics: total sent = unique messages + retransmissions, with Efficiency over them |
| Receiver.ContiguousAppend | client_final.py:170-178 | two tilings laid end to end form one tiling of the stream |
| Receiver.ContiguousBounds | client_final.py:170-178 | an accepted segment lies between the initial and the expected offset |
| Receiver.ContiguousIncreasing | client_final.py:170-178 | accepted non-empty segments have strictly increasing offsets |
| Receiver.Drain | client_final.py:141-152 | the drain stops at an offset that is not buffered, and leaves only buffered entries, unchanged |
| Receiver.DrainContiguous | client_final.py:144-151 | each drained segment starts where the previous one ended, from the old expected offset to the new one |
| Receiver.DrainPartition | client_final.py:144-146 | every buffered entry is drained or left, never both, and nothing unbuffered is drained |
| Receiver.DrainCount | client_final.py:144-148 | the buffer shrinks by exactly the number of drained segments |
| Receiver.DrainLoop | client_final.py:144-152 | the while loop over the buffer computes Drain |
| Receiver.DrainSizesOk | client_final.py:145-151 | the sizes used to advance are the wire sizes of the drained payloads |
| Receiver.AckPacket | client_final.py:129-131 | an ACK carries ack = expected_seq and seq = last_ack, with no flags and no payload |
| Receiver.ResponderFinAck | client_final.py:229-233 | the FIN-ACK carries ack = fin.seq + 1, seq = last_ack and FIN set |
| Receiver.ResponderCloseWait | client_final.py:241-252 | the single 2-second wait after the FIN-ACK: any arrival draws exactly one more copy of the same FIN-ACK; a timeout or an error draws nothing and ends the wait |
| Receiver.ReceiverEngine.constructor | client_final.py:115-123 | everything starts at zero and the expected offset is the initial ACK |
| Receiver.ReceiverEngine.SendAck | client_final.py:127-139 | emits AckPacket(expected_seq, last_ack), resets pcts_since_ack and adds one to ack_sent_count |
| Receiver.ReceiverEngine.ProcessBufferedPackets | client_final.py:141-152 | the buffer, the expected offset and both counters move exactly as Drain prescribes |
| Receiver.ReceiverEngine.AcceptInOrder | client_final.py:170-178 | an in-order packet advances expected_seq by its size and then drains; the tiling invariant is kept |
| Receiver.ReceiverEngine.OnPacket | client_final.py:156-197 | expected_seq never decreases; the four cases in full (old expected_seq = E): (1) FIN: flush a pending ACK, reply with the FIN-ACK, close; (2) seq = E: accept, drain, no ACK; (3) seq > E: buffer only the first copy, one ACK for E; (4) seq < E: nothing changes, one ACK for E |
| Receiver.ReceiverEngine.OnPollTimeout | client_final.py:199-201 | a timeout sends one ACK iff packets are waiting for one |
| Receiver.ReceiverEngine.OnEvent | client_final.py:154-205 | a receive error ends the loop with no reply and the loop closes only on an error or a FIN; a timeout sends one ACK for expected_seq iff packets were waiting and resets the count; for a packet, the reply, the expected offset and the buffer are as in OnPacket's four cases |
| Receiver.SizesOkAppend | client_final.py:166-184 | logs whose sizes are all wire sizes stay so when laid end to end |
| Receiver.OpenGap | client_final.py:170-192 | on a fresh engine, the first segment is accepted and delivered and the third is buffered under 2n, drawing one duplicate ACK for n |
| Receiver.ReassemblyScenario | client_final.py:170-192 | segments arriving as first, third, second produce one duplicate ACK for n, then a drain to 3n and an empty buffer; the delivered log is the three segments in stream order at 0, n and 2n |
| Handshake.ClientSyn | client_final.py:73-75 | the first packet is a SYN carrying the client's ISN |
| Handshake.ServerSynAck | server_final.py:87-89 | the SYN-ACK carries ack = syn.seq + 1 and seq = the server's ISN |
| Handshake.ClientAck | client_final.py:89-107 | the third packet has seq = SYN-ACK.ack, ack = SYN-ACK.seq + 1 and SYN cleared, every other field copied; the client returns now_ack = SYN-ACK.seq + 1 and last_ack = SYN-ACK.ack |
| Handshake.ServerRun | server_final.py:84-106 | the server is established only by a reply whose seq is the SYN-ACK's ack, and takes now_ack from it; it aborts only on an error; it stays pending only when all events are used up |
| Handshake.ServerRunResends | server_final.py:84-106 | every earlier event was a timeout or a non-matching reply, each followed by a resend |
| Handshake.ServerRunPending | server_final.py:84-106 | the server is still waiting after the last event iff every event was a timeout or a non-matching reply |
| Handshake.ServerHandshake | server_final.py:84-108 | the loop sends one SYN-ACK per consumed event and ends with the outcome of ServerRun |
| Handshake.HandshakeAgreement | server_final.py:87-103 | after any number of lost replies, the server accepts the client's third packet; the offset the server sends from is the one the client expects, server ISN + 1; the client's last_ack is client ISN + 1 |
| Teardown.FinPacket | server_final.py:357-358 | the FIN carries seq = now_ack, FIN set, empty payload |
| Teardown.FinalAck | server_final.py:373-375 | the last ACK carries ack = FIN-ACK.seq + 1 |
| Teardown.InitiatorRun | server_final.py:366-385 | the attempts send at most one packet per event and per attempt, so never more than the attempts allowed |
| Teardown.InitiatorRunShape | server_final.py:366-385 | the initiator sends only resent FINs, ended by the last ACK exactly when it closes cleanly, and it closes cleanly only after an acknowledging FIN-ACK |
| Teardown.FinishConnection | server_final.py:356-388 | the loop, bounded by five attempts and by the events, sends the FIN and then exactly what InitiatorRun prescribes for five attempts, and reports a clean close as it does |
| Teardown.ClosesAfter | server_final.py:366-378 | with more than k attempts allowed, after k timeouts an accepted FIN-ACK yields k resent FINs and the last ACK, whatever follows |
| Teardown.ClosesDespiteLostReplies | server_final.py:366-378 | if the first k < 5 attempts time out and a FIN-ACK then arrives, the close is clean, and the last ACK acknowledges last_ack + 1; since the responder sends at most two FIN-ACKs (Teardown.ResponderAnswersInKind), next to any number of lost FINs at most one lost FIN-ACK can be made up for |
| Teardown.TimeoutsUseUpAttempts | server_final.py:366-382 | while only timeouts arrive, each allowed attempt resends the FIN, and nothing after the last attempt is looked at |
| Teardown.GivesUpAfterAllTimeouts | server_final.py:366-382 | if the first five attempts time out, exactly six FINs go out, all the same, the close is not clean, and a FIN-ACK arriving later is ignored |
| Teardown.ResponderAnswersInKind | client_final.py:222-254 | the responder's FIN-ACK is one the initiator accepts; during its bounded wait it answers whatever arrives, even the initiator's last ACK, with that FIN-ACK again, so it sends one or two copies of it, two exactly when something arrived |

## Left out

- Sockets, `sendto`/`recvfrom`, `settimeout` and `close` are not modelled. A bounded receive is a `RecvEvent`, and what a step sends is its result.
- JSON encoding and decoding are not modelled. The packet is a record whose `rwnd` field is always present, so the `ack_msg.get('rwnd', 1024)` default never applies.
- `time.time()` and `random.random()` are parameters: clock readings and `dropped`. One clock reading serves a whole fill, where the source reads the clock once per packet.
- Logging, the round counters, the throughput, cwnd and retransmission records for the charts, CSV writing, plotting and the `__main__` blocks are not modelled. Apart from the retransmission percentage in the summary, described in the next line, they affect no protocol state.
- Sender.SenderEngine.Summary: does not model the printed retransmission percentage. server_final.py:332 divides by total_sent without the guard the efficiency line has, so a transfer of zero messages raises ZeroDivisionError there, and finishConnection at server_final.py:569 is never reached. The model's Summary returns an efficiency of 0 for that case. The shipped program sends 10000 messages (server_final.py:17), so the crash does not arise in it.
- cwnd is an exact `real`. IEEE floating-point rounding is not modelled.
- Liveness of the unbounded handshake, transfer and receive loops is not modelled. The handshake runs over a finite event sequence and ends `Pending` when the events run out. The transfer and receive loops are modelled one step at a time.
- Teardown.FinishConnection: consumes at most five events, as the source makes at most five attempts. A sequence shorter than the attempts still needed ends the run without a clean close. It stands for a receive whose outcome the model is not given, not for a behaviour of the source.
- The server's first SYN receive and the client's SYN-ACK receive have no timeout handling in the source. The model takes those packets as given.
- The server handshake loop: an error other than a timeout propagates out of the source's function. `Handshake.ServerRun` models it as an `Aborted` outcome.
- Sender.SenderEngine.Step: states only what holds across the whole iteration. It keeps the invariant, never goes back on a message, adds at most one retransmission, adopts the received rwnd, and aborts exactly on a receive error. The per-case effects are the contracts of FillWindow, OnAck and OnPollTimeout, which it calls in sequence.
- Sender.SenderEngine.OnAck: a stale ACK leaves every field unchanged except `lastRwnd`, because the source stores the advertised window before it classifies the ACK.
- A payload holding a lone surrogate cannot be represented, because a Dafny `char` is never a surrogate. In the source such a payload can come from a JSON `\udXXX` escape. `.encode('utf-8')` at client_final.py:166 then raises, and the `except` at client_final.py:203-205 ends the receive loop.
- Receiver.ReceiverEngine.OnEvent: for a data packet, the counters `receivedCount`, `ackSentCount` and `bufferedCount` and the ghost log are stated only by OnPacket's contract, which OnEvent calls.
- The receiver's `discarded_count` is never updated in the source and is not modelled.

## Findings

| source | as written | input that shows it | evidently intended | confidence | as-written member | corrected member |
|---|---|---|---|---|---|---|
| server_final.py:324-325 | `total_sent = next_msg`, so at loop exit `efficiency = total_msgs / next_msg * 100` is always 100 | any transfer in which at least one retransmission happens, e.g. one fast retransmit over 10 messages still reports 100% | total sent counts retransmissions: `total_sent = next_msg + retransmissions`, so efficiency = unique / total | not executed | Sender.EfficiencyAsWrittenIsConstant | Sender.SenderEngine.Summary |
