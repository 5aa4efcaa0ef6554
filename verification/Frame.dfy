/** Packets of the three-wire UART transport: header layout and checksum (Bluetooth Core
    Specification v4.0, Volume 4, Part D, section 4), the optional data integrity check
    (section 5), and a reference decoder for the byte string between two delimiters.
 */
module Frame {
  import Crc
  import Octets
  import Slip

  // Packet types.
  const ACK: bv8 := 0x00
  const COMMAND: bv8 := 0x01
  const ACL: bv8 := 0x02
  const SCO: bv8 := 0x03
  const EVENT: bv8 := 0x04
  const VENDOR: bv8 := 0x0e
  const LINK_CTL: bv8 := 0x0f

  const MAX_PAYLOAD := 4095

  // The types h5_prepare_pkt accepts; any other is refused.
  predicate Sendable(ptype: bv8) {
    SentReliably(ptype) || ptype == ACK || ptype == VENDOR || ptype == LINK_CTL
  }

  predicate SentReliably(ptype: bv8) {
    ptype == ACL || ptype == COMMAND || ptype == EVENT
  }

  // ---------- header fields ----------

  predicate HasCrc(h0: bv8) { h0 & 0x40 != 0 }
  predicate Reliable(h0: bv8) { h0 & 0x80 != 0 }
  function Seq(h0: bv8): bv8 { h0 & 0x07 }
  function AckNo(h0: bv8): bv8 { (h0 >> 3) & 0x07 }
  function Type(h1: bv8): bv8 { h1 & 0x0f }
  function PayloadLen(h1: bv8, h2: bv8): (n: nat)
    ensures n <= MAX_PAYLOAD
  {
    LenBound(h1);
    (h1 >> 4) as nat + h2 as nat * 16
  }

  lemma LenBound(h: bv8)
    ensures (h >> 4) as nat < 16
  {}

  // Addition of bytes.
  function Plus(a: bv8, b: bv8): bv8 { a + b }

  function Checksum(h0: bv8, h1: bv8, h2: bv8): bv8 { !Plus(Plus(h0, h1), h2) }

  function NextSeq(n: bv8): bv8 { (n + 1) % 8 }

  // ---------- building a packet ----------

  // h0: acknowledgement number, sequence number and reliable bit, integrity-check bit.
  function Header0(ack: bv8, seqno: bv8, useCrc: bool, ptype: bv8): bv8 {
    (ack << 3)
    | (if SentReliably(ptype) then 0x80 + seqno else 0)
    | (if useCrc then 0x40 else 0)
  }

  function LenLow(len: nat): bv8 { ((len % 16) as bv8) << 4 }
  function LenHigh(len: nat): bv8 { (len / 16 % 256) as bv8 }

  function Header(ack: bv8, seqno: bv8, useCrc: bool, ptype: bv8, len: nat): (h: seq<bv8>)
    ensures |h| == 4
  {
    var h0 := Header0(ack, seqno, useCrc, ptype);
    var h1 := LenLow(len) | ptype;
    var h2 := LenHigh(len);
    [h0, h1, h2, Checksum(h0, h1, h2)]
  }

  // The bytes of a packet before SLIP: header, payload, integrity check.
  function Bytes(ack: bv8, seqno: bv8, useCrc: bool, ptype: bv8, payload: seq<bv8>): seq<bv8> {
    var body := Header(ack, seqno, useCrc, ptype, |payload|) + payload;
    if useCrc then body + Crc.Bytes(Crc.BitRev16(Crc.Run(Crc.INIT, body))) else body
  }

  // What goes on the wire: delimiter, escaped bytes, delimiter.
  function Wire(ack: bv8, seqno: bv8, useCrc: bool, ptype: bv8, payload: seq<bv8>): seq<bv8> {
    [Slip.DELIM] + Slip.Encode(Bytes(ack, seqno, useCrc, ptype, payload)) + [Slip.DELIM]
  }

  lemma LenRoundTrip(len: nat, ptype: bv8)
    requires len <= MAX_PAYLOAD && ptype < 16
    ensures PayloadLen(LenLow(len) | ptype, LenHigh(len)) == len
    ensures Type(LenLow(len) | ptype) == ptype
  {
    var lo, hi := len % 16, len / 16;
    NibbleRoundTrip(lo);
    Octets.ByteRoundTrip(hi);
    NibbleJoin(lo as bv8, ptype);
  }

  lemma NibbleRoundTrip(n: nat)
    requires n < 16
    ensures n as bv8 as nat == n && n as bv8 < 16
  {
    assert n % 0x100 == n;
  }

  lemma NibbleJoin(x: bv8, t: bv8)
    requires x < 16 && t < 16
    ensures ((x << 4) | t) >> 4 == x && ((x << 4) | t) & 0x0f == t
  {}

  lemma Header0Fields(ack: bv8, seqno: bv8, useCrc: bool, ptype: bv8)
    requires ack < 8 && seqno < 8
    ensures var h0 := Header0(ack, seqno, useCrc, ptype);
            AckNo(h0) == ack && HasCrc(h0) == useCrc && Reliable(h0) == SentReliably(ptype)
            && (SentReliably(ptype) ==> Seq(h0) == seqno)
  {}

  // ---------- reference decoder ----------

  // A completed packet: header, payload and integrity check as received, and the
  // sequence number expected next once it has been accepted.
  datatype Packet = Packet(hdr: seq<bv8>, payload: seq<bv8>, dic: seq<bv8>, next: bv8)

  datatype Outcome = Outcome(packets: seq<Packet>, expected: bv8)

  // The integrity check fits the header and payload before it.
  predicate CheckFits(body: seq<bv8>, dic: seq<bv8>)
    requires |dic| == 2
  {
    Crc.BitRev16(Crc.Run(Crc.INIT, body)) == Crc.Value(dic[0], dic[1])
  }

  // What one delimited byte string f means to a receiver expecting sequence number
  // `expected`.  Bytes after the packet are ignored; `resync` adopts the sequence
  // number of a packet refused as out of order.
  function Decode(f: seq<bv8>, expected: bv8, resync: bool): Outcome {
    var none := Outcome([], expected);
    if |f| < 4 || Checksum(f[0], f[1], f[2]) != f[3] then none
    else if Reliable(f[0]) && Seq(f[0]) != expected then
      if resync then Outcome([], Seq(f[0])) else none
    else
      var end := 4 + PayloadLen(f[1], f[2]);
      if HasCrc(f[0]) then
        if |f| < end + 2 || !CheckFits(f[..end], f[end..end + 2]) then none
        else Accept(f[..4], f[4..end], f[end..end + 2], expected)
      else if |f| < end then none
      else Accept(f[..4], f[4..end], [], expected)
  }

  function Accept(hdr: seq<bv8>, payload: seq<bv8>, dic: seq<bv8>, expected: bv8): Outcome
    requires |hdr| == 4
  {
    var next := if Reliable(hdr[0]) then NextSeq(Seq(hdr[0])) else expected;
    Outcome([Packet(hdr, payload, dic, next)], next)
  }

  // A header as sent carries its fields and its checksum.
  lemma HeaderFields(ack: bv8, seqno: bv8, useCrc: bool, ptype: bv8, len: nat)
    requires ack < 8 && seqno < 8 && len <= MAX_PAYLOAD && Sendable(ptype)
    ensures var h := Header(ack, seqno, useCrc, ptype, len);
            && Checksum(h[0], h[1], h[2]) == h[3]
            && AckNo(h[0]) == ack && HasCrc(h[0]) == useCrc && Reliable(h[0]) == SentReliably(ptype)
            && (SentReliably(ptype) ==> Seq(h[0]) == seqno)
            && PayloadLen(h[1], h[2]) == len && Type(h[1]) == ptype
  {
    LenRoundTrip(len, ptype);
    Header0Fields(ack, seqno, useCrc, ptype);
  }

  // A packet as sent decodes to itself: header fields and payload.
  lemma DecodeBytes(ack: bv8, seqno: bv8, useCrc: bool, ptype: bv8, payload: seq<bv8>, expected: bv8, resync: bool)
    requires ack < 8 && seqno < 8 && |payload| <= MAX_PAYLOAD && Sendable(ptype)
    requires SentReliably(ptype) ==> seqno == expected
    ensures var o := Decode(Bytes(ack, seqno, useCrc, ptype, payload), expected, resync);
            && |o.packets| == 1 && o.expected == o.packets[0].next
            && o.packets[0].payload == payload
            && o.packets[0].hdr == Header(ack, seqno, useCrc, ptype, |payload|)
            && o.packets[0].next == if SentReliably(ptype) then NextSeq(seqno) else expected
  {
    var hdr := Header(ack, seqno, useCrc, ptype, |payload|);
    HeaderFields(ack, seqno, useCrc, ptype, |payload|);
    if useCrc {
      Crc.BytesValue(Crc.BitRev16(Crc.Run(Crc.INIT, hdr + payload)));
      DecodeWithCheck(hdr, payload, Crc.Bytes(Crc.BitRev16(Crc.Run(Crc.INIT, hdr + payload))), expected, resync);
    } else {
      DecodeWithoutCheck(hdr, payload, expected, resync);
    }
  }

  predicate Expected(hdr: seq<bv8>, len: nat, expected: bv8)
    requires |hdr| == 4
  {
    && Checksum(hdr[0], hdr[1], hdr[2]) == hdr[3]
    && (Reliable(hdr[0]) ==> Seq(hdr[0]) == expected)
    && PayloadLen(hdr[1], hdr[2]) == len
  }

  lemma DecodeWithoutCheck(hdr: seq<bv8>, payload: seq<bv8>, expected: bv8, resync: bool)
    requires |hdr| == 4 && Expected(hdr, |payload|, expected) && !HasCrc(hdr[0])
    ensures Decode(hdr + payload, expected, resync) == Accept(hdr, payload, [], expected)
  {
    hide Checksum, Reliable, Seq, HasCrc, PayloadLen, NextSeq, CheckFits;
    var f := hdr + payload;
    assert f[..4] == hdr && f[4..4 + |payload|] == payload;
  }

  lemma DecodeWithCheck(hdr: seq<bv8>, payload: seq<bv8>, dic: seq<bv8>, expected: bv8, resync: bool)
    requires |hdr| == 4 && Expected(hdr, |payload|, expected) && HasCrc(hdr[0]) && |dic| == 2
    ensures Decode(hdr + payload + dic, expected, resync)
         == if CheckFits(hdr + payload, dic) then Accept(hdr, payload, dic, expected) else Outcome([], expected)
  {
    hide Checksum, Reliable, Seq, HasCrc, PayloadLen, NextSeq, CheckFits;
    Slices(hdr, payload, dic);
  }

  lemma Slices(hdr: seq<bv8>, payload: seq<bv8>, dic: seq<bv8>)
    requires |hdr| == 4
    ensures var f, end := hdr + payload + dic, 4 + |payload|;
            f[..4] == hdr && f[4..end] == payload && f[end..end + |dic|] == dic && f[..end] == hdr + payload
            && f[0] == hdr[0] && f[1] == hdr[1] && f[2] == hdr[2] && f[3] == hdr[3]
  {
    var f, end := hdr + payload + dic, 4 + |payload|;
    assert f[..4] == hdr;
    assert f[4..end] == payload;
    assert f[end..end + |dic|] == dic;
    assert f[..end] == hdr + payload;
  }

  // A checked packet damaged in transit within two adjacent payload bytes (so also in
  // exactly one) is refused, whatever the receiver expects.
  lemma DamageRefused(ack: bv8, seqno: bv8, ptype: bv8, payload: seq<bv8>, damaged: seq<bv8>, k: nat,
                      expected: bv8, resync: bool)
    requires ack < 8 && seqno < 8 && |payload| <= MAX_PAYLOAD && Sendable(ptype)
    requires |damaged| == |payload| && damaged != payload
    requires forall i :: 0 <= i < |payload| && i != k && i != k + 1 ==> damaged[i] == payload[i]
    ensures var hdr := Header(ack, seqno, true, ptype, |payload|);
            var dic := Bytes(ack, seqno, true, ptype, payload)[4 + |payload|..];
            Decode(hdr + damaged + dic, expected, resync).packets == []
  {
    var hdr := Header(ack, seqno, true, ptype, |payload|);
    var dic := Crc.Bytes(Crc.BitRev16(Crc.Run(Crc.INIT, hdr + payload)));
    HeaderFields(ack, seqno, true, ptype, |payload|);
    assert Bytes(ack, seqno, true, ptype, payload)[4 + |payload|..] == dic;
    if !Reliable(hdr[0]) || Seq(hdr[0]) == expected {
      DecodeWithCheck(hdr, damaged, dic, expected, resync);
      DamageMisfits(hdr, payload, damaged, k);
    } else {
      assert (hdr + damaged + dic)[..4] == hdr;
    }
  }

  lemma DamageMisfits(hdr: seq<bv8>, payload: seq<bv8>, damaged: seq<bv8>, k: nat)
    requires |hdr| == 4 && |damaged| == |payload| && damaged != payload
    requires forall i :: 0 <= i < |payload| && i != k && i != k + 1 ==> damaged[i] == payload[i]
    ensures !CheckFits(hdr + damaged, Crc.Bytes(Crc.BitRev16(Crc.Run(Crc.INIT, hdr + payload))))
  {
    var good, bad := hdr + payload, hdr + damaged;
    var j := Window(hdr, payload, damaged, k);
    Crc.WrongMessageRejected(good[..j], good[j], good[j + 1], bad[j], bad[j + 1], good[j + 2..]);
  }

  // Two messages with one header that differ only at payload bytes k and k + 1 differ
  // in a window of two message bytes; it starts one byte earlier at the very end.
  lemma Window(hdr: seq<bv8>, payload: seq<bv8>, damaged: seq<bv8>, k: nat) returns (j: nat)
    requires |hdr| == 4 && |damaged| == |payload| && damaged != payload
    requires forall i :: 0 <= i < |payload| && i != k && i != k + 1 ==> damaged[i] == payload[i]
    ensures var good, bad := hdr + payload, hdr + damaged;
            && j + 1 < |good| == |bad|
            && good == good[..j] + [good[j], good[j + 1]] + good[j + 2..]
            && bad == good[..j] + [bad[j], bad[j + 1]] + good[j + 2..]
            && (good[j] != bad[j] || good[j + 1] != bad[j + 1])
  {
    assert exists i :: 0 <= i < |payload| && damaged[i] != payload[i];
    j := if k + 1 < |payload| then 4 + k else 3 + k;
  }

  // What is written fits the buffer the encoder allocates, holds delimiters only at its
  // two ends and no flow-control character at all.
  lemma WireClean(ack: bv8, seqno: bv8, useCrc: bool, ptype: bv8, payload: seq<bv8>)
    ensures var w := Wire(ack, seqno, useCrc, ptype, payload);
            && 2 <= |w| <= (|payload| + 6) * 2 + 2
            && (forall i :: 0 <= i < |w| ==> (w[i] == Slip.DELIM <==> i == 0 || i == |w| - 1))
            && Slip.XON !in w && Slip.XOFF !in w
  {
    hide Slip.Encode, Header, Crc.Run, Crc.BitRev16, Crc.Bytes;
    Slip.EncodeClean(Bytes(ack, seqno, useCrc, ptype, payload));
  }

  // ---------- packets bit by bit ----------

  // The four bytes of a header add up to all ones.
  predicate Sums(h0: bv8, h1: bv8, h2: bv8, h3: bv8) {
    Plus(Plus(Plus(h0, h1), h2), h3) == 0xff
  }

  lemma SumsIs(h0: bv8, h1: bv8, h2: bv8, h3: bv8)
    ensures Checksum(h0, h1, h2) == h3 <==> Sums(h0, h1, h2, h3)
  {
    hide Plus;
    Complement(Plus(Plus(h0, h1), h2), h3);
  }

  lemma Complement(s: bv8, c: bv8)
    ensures !s == c <==> Plus(s, c) == 0xff
  {}

  lemma Cancel(x: bv8, y: bv8, r: bv8)
    ensures Plus(x, r) == Plus(y, r) <==> x == y
    ensures Plus(r, x) == Plus(r, y) <==> x == y
  {}

  // Changing any one byte of a header breaks the sum.
  lemma OneByteOff(h: seq<bv8>, g: seq<bv8>, i: nat)
    requires |h| == |g| == 4 && i < 4 && h[i] != g[i] && forall j :: 0 <= j < 4 && j != i ==> h[j] == g[j]
    ensures !(Sums(h[0], h[1], h[2], h[3]) && Sums(g[0], g[1], g[2], g[3]))
  {
    hide Plus;
    var two, two' := Plus(h[0], h[1]), Plus(g[0], g[1]);
    if i < 2 {
      Cancel(h[0], g[0], h[1]);
      Cancel(h[1], g[1], h[0]);
    }
    Cancel(two, two', h[2]);
    Cancel(h[2], g[2], two);
    Cancel(Plus(two, h[2]), Plus(two', g[2]), h[3]);
    Cancel(h[3], g[3], Plus(two, h[2]));
  }

  // A header as built: bit 7 of the first byte for a type that is acknowledged, bit 6 for
  // the integrity check, then the two numbers; type and length in the next two.
  predicate Announces(h: seq<bv8>, ack: bv8, seqno: bv8, useCrc: bool, ptype: bv8, len: nat) {
    && |h| >= 4 && Sums(h[0], h[1], h[2], h[3])
    && (h[0] & 0x80 != 0 <==> ptype in [0x01, 0x02, 0x04]) && (h[0] & 0x40 != 0 <==> useCrc)
    && (h[0] >> 3) & 7 == ack && h[0] & 7 == (if ptype in [0x01, 0x02, 0x04] then seqno else 0)
    && h[1] & 0x0f == ptype && (h[1] >> 4) as nat + 16 * h[2] as nat == len
  }

  // The types that are sent at all.
  lemma TypesSent(ptype: bv8)
    ensures Sendable(ptype) <==> ptype in [0x00, 0x01, 0x02, 0x04, 0x0e, 0x0f]
    ensures SentReliably(ptype) <==> ptype in [0x01, 0x02, 0x04]
  {}

  lemma HeaderAnnounces(ack: bv8, seqno: bv8, useCrc: bool, ptype: bv8, len: nat)
    requires ack < 8 && seqno < 8 && len <= MAX_PAYLOAD && Sendable(ptype)
    ensures Announces(Header(ack, seqno, useCrc, ptype, len), ack, seqno, useCrc, ptype, len)
  {
    hide Checksum, Sums, Header0, LenLow, LenHigh;
    var h := Header(ack, seqno, useCrc, ptype, len);
    SumsIs(h[0], h[1], h[2], h[3]);
    FirstByte(ack, seqno, useCrc, ptype);
    LenRoundTrip(len, ptype);
  }

  lemma FirstByte(ack: bv8, seqno: bv8, useCrc: bool, ptype: bv8)
    requires ack < 8 && seqno < 8
    ensures var h0 := Header0(ack, seqno, useCrc, ptype);
            && (h0 & 0x80 != 0 <==> SentReliably(ptype)) && (h0 & 0x40 != 0 <==> useCrc)
            && (h0 >> 3) & 7 == ack && h0 & 7 == (if SentReliably(ptype) then seqno else 0)
  {}

  // The outcome of a byte string from what its header says: whether it is reliable and under
  // which number, whether it is checked, how long it is.
  function Told(f: seq<bv8>, expected: bv8, resync: bool, reliable: bool, seqno: bv8, checked: bool, len: nat): Outcome
    requires |f| >= 4
  {
    var none, end := Outcome([], expected), 4 + len;
    var next := if reliable then (seqno + 1) % 8 else expected;
    if reliable && seqno != expected then Outcome([], if resync then seqno else expected)
    else if checked then
      if |f| < end + 2 || !Crc.Mirrors(f[..end], f[end], f[end + 1]) then none
      else Outcome([Packet(f[..4], f[4..end], f[end..end + 2], next)], next)
    else if |f| < end then none
    else Outcome([Packet(f[..4], f[4..end], [], next)], next)
  }

  // The reference decoder in the bits of its input: refused unless the header adds up, and
  // otherwise as the header says.
  lemma DecodeBits(f: seq<bv8>, expected: bv8, resync: bool)
    ensures Decode(f, expected, resync)
         == if |f| < 4 || !Sums(f[0], f[1], f[2], f[3]) then Outcome([], expected)
            else Told(f, expected, resync, f[0] & 0x80 != 0, f[0] & 7, f[0] & 0x40 != 0,
                      (f[1] >> 4) as nat + 16 * f[2] as nat)
  {
    hide Checksum, Sums, Told, HasCrc, Reliable, Seq, PayloadLen;
    if |f| >= 4 {
      SumsIs(f[0], f[1], f[2], f[3]);
      BitsOf(f[0], f[1], f[2]);
      if Sums(f[0], f[1], f[2], f[3]) {
        DecodeTold(f, expected, resync);
      }
    }
  }

  lemma DecodeTold(f: seq<bv8>, expected: bv8, resync: bool)
    requires |f| >= 4 && Checksum(f[0], f[1], f[2]) == f[3]
    ensures Decode(f, expected, resync)
         == Told(f, expected, resync, Reliable(f[0]), Seq(f[0]), HasCrc(f[0]), PayloadLen(f[1], f[2]))
  {
    hide Checksum, Crc.Mirrors, CheckFits, HasCrc, Reliable, Seq, PayloadLen;
    var end := 4 + PayloadLen(f[1], f[2]);
    if |f| >= end + 2 {
      FitsMirrors(f[..end], f[end..end + 2]);
    }
  }

  lemma BitsOf(h0: bv8, h1: bv8, h2: bv8)
    ensures HasCrc(h0) <==> h0 & 0x40 != 0
    ensures Reliable(h0) <==> h0 & 0x80 != 0
    ensures Seq(h0) == h0 & 7
    ensures PayloadLen(h1, h2) == (h1 >> 4) as nat + 16 * h2 as nat
  {}

  lemma FitsMirrors(body: seq<bv8>, dic: seq<bv8>)
    requires |dic| == 2
    ensures CheckFits(body, dic) <==> Crc.Mirrors(body, dic[0], dic[1])
  {
    hide Crc.Mirrors, Crc.Run, Crc.Value, Crc.BitRev16;
    Crc.CheckMirrors(body, dic[0], dic[1]);
  }

  // A packet with one header byte changed, whatever else is in it, is refused.
  lemma HeaderDamageRefused(f: seq<bv8>, g: seq<bv8>, i: nat, expected: bv8, resync: bool)
    requires |f| >= 4 && |g| >= 4 && i < 4 && f[i] != g[i] && forall j :: 0 <= j < 4 && j != i ==> f[j] == g[j]
    requires Sums(f[0], f[1], f[2], f[3])
    ensures Decode(g, expected, resync) == Outcome([], expected)
  {
    hide Checksum, Sums;
    OneByteOff(f[..4], g[..4], i);
    SumsIs(g[0], g[1], g[2], g[3]);
  }
}
