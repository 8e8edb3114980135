/**
  The wire packet shared by both peers, the receive events a poll can
  produce, and the substitutive payload transform (a Caesar shift) that is
  applied to every non-empty payload on its way to and from the wire.
  Sequence numbers advance by the UTF-8 byte length of the transformed
  payload, so that length is defined here once for both peers.
 */
module Packets {

  /** One datagram: the record both peers serialise. */
  datatype Packet = Packet(seqNum: int, ackNum: int, rwnd: int, syn: bool, fin: bool, payload: string)

  /** The template every packet is copied from: all zero, rwnd 1024, no flags, no payload. */
  const DefaultRwnd: int := 1024
  const PctZero: Packet := Packet(0, 0, DefaultRwnd, false, false, "")

  /** A data packet: the template with a sequence number and a payload. */
  function DataPacket(seqNum: int, payload: string): (p: Packet)
    ensures p.seqNum == seqNum && p.payload == payload && !p.syn && !p.fin
  {
    PctZero.(seqNum := seqNum, payload := payload)
  }

  /** What one bounded receive call returns. */
  datatype RecvEvent = Received(packet: Packet) | TimedOut | Failed

  /** n copies of p. */
  function Repeat<T>(p: T, n: nat): (s: seq<T>)
    ensures |s| == n && forall i :: 0 <= i < n ==> s[i] == p
  {
    if n == 0 then [] else Repeat(p, n - 1) + [p]
  }

  /** The shift both peers use by default. */
  const Shift: int := 3

  predicate IsLower(c: char) { 'a' <= c <= 'z' }
  predicate IsUpper(c: char) { 'A' <= c <= 'Z' }

  /** Rotates a letter by `shift` places inside its own case; any other character is kept. */
  function ShiftChar(c: char, shift: int): (r: char)
    ensures IsLower(c) <==> IsLower(r)
    ensures IsUpper(c) <==> IsUpper(r)
    ensures !IsLower(c) && !IsUpper(c) ==> r == c
  {
    if IsLower(c) then ((c as int - 'a' as int + shift) % 26 + 'a' as int) as char
    else if IsUpper(c) then ((c as int - 'A' as int + shift) % 26 + 'A' as int) as char
    else c
  }

  /** The transform applied character by character (caesar_cipher with an explicit shift). */
  function Caesar(text: string, shift: int): (r: string)
    ensures |r| == |text|
    ensures forall i :: 0 <= i < |text| ==> r[i] == ShiftChar(text[i], shift)
  {
    if text == [] then [] else [ShiftChar(text[0], shift)] + Caesar(text[1..], shift)
  }

  /** caesar_cipher with its default shift: letters stay letters of their own case, and every
      other character passes unchanged. */
  function Cipher(text: string): (r: string)
    ensures |r| == |text|
    ensures forall i :: 0 <= i < |text| ==>
      && (IsLower(r[i]) <==> IsLower(text[i])) && (IsUpper(r[i]) <==> IsUpper(text[i]))
      && (!IsLower(text[i]) && !IsUpper(text[i]) ==> r[i] == text[i])
  {
    Caesar(text, Shift)
  }

  /** caesar_decipher: caesar_cipher with the default shift negated; it keeps the same classes. */
  function Decipher(text: string): (r: string)
    ensures |r| == |text|
    ensures forall i :: 0 <= i < |text| ==>
      && (IsLower(r[i]) <==> IsLower(text[i])) && (IsUpper(r[i]) <==> IsUpper(text[i]))
      && (!IsLower(text[i]) && !IsUpper(text[i]) ==> r[i] == text[i])
  {
    Caesar(text, -Shift)
  }

  lemma ShiftCharInverse(c: char, k: int)
    ensures ShiftChar(ShiftChar(c, k), -k) == c
  {
    if IsLower(c) {
      var x := c as int - 'a' as int;
      var y := (x + k) % 26;
      assert ShiftChar(c, k) as int - 'a' as int == y;
      ModShiftBack(x, k);
    } else if IsUpper(c) {
      var x := c as int - 'A' as int;
      var y := (x + k) % 26;
      assert ShiftChar(c, k) as int - 'A' as int == y;
      ModShiftBack(x, k);
    }
  }

  lemma ModShiftBack(x: int, k: int)
    requires 0 <= x < 26
    ensures ((x + k) % 26 - k) % 26 == x
  {
    var q := (x + k) / 26;
    assert (x + k) % 26 == x + k - 26 * q;
    assert (x + k) % 26 - k == x + 26 * (-q);
    ModMultiple(x, -q);
  }

  lemma ModMultiple(x: int, q: int)
    requires 0 <= x < 26
    ensures (x + 26 * q) % 26 == x
  {
  }

  /** Shifting back by the same amount undoes the transform, for every shift. */
  lemma {:induction false} CaesarInverse(text: string, k: int)
    ensures Caesar(Caesar(text, k), -k) == text
  {
    var once := Caesar(text, k);
    var twice := Caesar(once, -k);
    forall i | 0 <= i < |text| ensures twice[i] == text[i] {
      ShiftCharInverse(text[i], k);
    }
  }

  /** What the receiving peer deciphers is what the sending peer enciphered, and the other way round. */
  lemma CipherRoundTrip(text: string)
    ensures Decipher(Cipher(text)) == text
    ensures Cipher(Decipher(text)) == text
    ensures |Cipher(text)| == |text| && |Decipher(text)| == |text|
  {
    CaesarInverse(text, Shift);
    CaesarInverse(text, -Shift);
  }

  /** Number of bytes UTF-8 uses for one Unicode scalar value. */
  function Utf8CharLen(c: char): (n: nat)
    ensures 1 <= n <= 4
    ensures (c as int < 0x80) <==> n == 1
  {
    if c as int < 0x80 then 1
    else if c as int < 0x800 then 2
    else if c as int < 0x10000 then 3
    else 4
  }

  /** len(text.encode('utf-8')). */
  function Utf8Len(text: string): (n: nat)
  {
    if text == [] then 0 else Utf8CharLen(text[0]) + Utf8Len(text[1..])
  }

  /** Every character takes at least one byte. */
  lemma {:induction false} Utf8LenAtLeast(text: string)
    ensures Utf8Len(text) >= |text|
    ensures text != [] ==> Utf8Len(text) > 0
  {
    if text != [] {
      Utf8LenAtLeast(text[1..]);
    }
  }

  /** A text made of ASCII characters takes one UTF-8 byte per character. */
  lemma {:induction false} AsciiUtf8Len(text: string)
    requires forall k :: 0 <= k < |text| ==> text[k] as int < 0x80
    ensures Utf8Len(text) == |text|
  {
    if text != [] {
      AsciiUtf8Len(text[1..]);
    }
  }

  /** Letters stay ASCII letters and all else is untouched, so the byte length is preserved. */
  lemma {:induction false} CaesarKeepsUtf8Len(text: string, k: int)
    ensures Utf8Len(Caesar(text, k)) == Utf8Len(text)
  {
    if text != [] {
      var r := Caesar(text, k);
      assert r[1..] == Caesar(text[1..], k);
      assert Utf8CharLen(r[0]) == Utf8CharLen(text[0]);
      CaesarKeepsUtf8Len(text[1..], k);
    }
  }

  /** Bytes a payload occupies in the sequence space: its UTF-8 length. The peers measure the
      enciphered payload (and give 0 for an empty one); WireSizeIsCipheredLength shows that
      this is the same number. */
  function WireSize(payload: string): (n: nat)
    ensures n == 0 <==> payload == []
    ensures n >= |payload|
  {
    Utf8LenAtLeast(payload);
    Utf8Len(payload)
  }

  /** The size as both peers compute it, len(cipher(payload) in UTF-8) or 0 for an empty
      payload, is WireSize. */
  lemma WireSizeIsCipheredLength(payload: string)
    ensures WireSize(payload) == (if payload == [] then 0 else Utf8Len(Cipher(payload)))
  {
    CaesarKeepsUtf8Len(payload, Shift);
  }

  /** The payload transform of the send helper: only a non-empty payload is enciphered. */
  function EncodeForWire(p: Packet): (w: Packet)
    ensures w.(payload := p.payload) == p
    ensures |w.payload| == |p.payload|
    ensures w.payload == (if p.payload != [] then Cipher(p.payload) else [])
  {
    if p.payload != [] then p.(payload := Cipher(p.payload)) else p
  }

  /** The payload transform of the receive helper: only a non-empty payload is deciphered. */
  function DecodeFromWire(w: Packet): (p: Packet)
    ensures p.(payload := w.payload) == w
    ensures |p.payload| == |w.payload|
    ensures p.payload == (if w.payload != [] then Decipher(w.payload) else [])
  {
    if w.payload != [] then w.(payload := Decipher(w.payload)) else w
  }

  /** A packet survives the two helpers unchanged, and the receiver measures
      its payload with the sender's length function. */
  lemma WireRoundTrip(p: Packet)
    ensures DecodeFromWire(EncodeForWire(p)) == p
    ensures WireSize(DecodeFromWire(EncodeForWire(p)).payload)
            == (if p.payload == [] then 0 else Utf8Len(Cipher(p.payload)))
  {
    CipherRoundTrip(p.payload);
    WireSizeIsCipheredLength(p.payload);
  }
}
