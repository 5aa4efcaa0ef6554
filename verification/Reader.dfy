/** Reading back what was written to the serial port, piece by piece, with the reference
    decoder: the type, the two numbers and the payload of each packet.
 */
module Readers {
  import Frame
  import Slip

  datatype Got = Nothing | Got(ptype: bv8, ack: bv8, reliable: bool, seqno: bv8, payload: seq<bv8>)

  function Read(w: seq<bv8>): Got {
    if |w| < 2 || w[0] != 0xc0 || w[|w| - 1] != 0xc0 then Nothing else Unframed(Slip.Decode(false, w[1..|w| - 1]))
  }

  // The packet that a receiver expecting its number makes of the bytes.
  function Unframed(f: seq<bv8>): Got {
    if |f| < 4 then Nothing
    else
      var o := Frame.Decode(f, f[0] & 7, false);
      if |o.packets| != 1 then Nothing
      else Got(f[1] & 0x0f, (f[0] >> 3) & 7, f[0] & 0x80 != 0, f[0] & 7, o.packets[0].payload)
  }

  function ReadAll(ws: seq<seq<bv8>>): (gs: seq<Got>)
    ensures |gs| == |ws| && forall i :: 0 <= i < |gs| ==> gs[i] == Read(ws[i])
  {
    seq(|ws|, i requires 0 <= i < |ws| => Read(ws[i]))
  }

  // Whatever is sent reads back as it was given.
  lemma ReadWire(ack: bv8, seqno: bv8, useCrc: bool, ptype: bv8, payload: seq<bv8>)
    requires ack < 8 && seqno < 8 && |payload| <= 4095 && Frame.Sendable(ptype)
    ensures Read(Frame.Wire(ack, seqno, useCrc, ptype, payload))
         == if ptype in [0x01, 0x02, 0x04] then Got(ptype, ack, true, seqno, payload)
            else Got(ptype, ack, false, 0, payload)
  {
    hide Frame.Bytes, Frame.Decode, Frame.Header, Frame.NextSeq;
    var f := Frame.Bytes(ack, seqno, useCrc, ptype, payload);
    ReadEncoded(f);
    Starts(ack, seqno, useCrc, ptype, payload);
    Frame.TypesSent(ptype);
    Frame.HeaderAnnounces(ack, seqno, useCrc, ptype, |payload|);
    Frame.DecodeBytes(ack, seqno, useCrc, ptype, payload, f[0] & 7, false);
  }

  lemma ReadEncoded(f: seq<bv8>)
    ensures Read([Slip.DELIM] + Slip.Encode(f) + [Slip.DELIM]) == Unframed(f)
  {
    hide Unframed, Slip.Encode, Slip.Decode;
    var w := [Slip.DELIM] + Slip.Encode(f) + [Slip.DELIM];
    assert w[1..|w| - 1] == Slip.Encode(f);
    Slip.DecodeOfEncode(f);
  }

  lemma Starts(ack: bv8, seqno: bv8, useCrc: bool, ptype: bv8, payload: seq<bv8>)
    ensures var f := Frame.Bytes(ack, seqno, useCrc, ptype, payload);
            var h := Frame.Header(ack, seqno, useCrc, ptype, |payload|);
            |f| >= 4 && f[0] == h[0] && f[1] == h[1] && f[2] == h[2] && f[3] == h[3]
  {
    hide Frame.Header;
  }

  // ---------- commands ----------

  datatype Sent = Sent(seqno: bv8, payload: seq<bv8>)

  // The commands among what was written, under their numbers.
  function Commands(ws: seq<seq<bv8>>): seq<Sent> {
    if ws == [] then []
    else
      var g := Read(ws[|ws| - 1]);
      Commands(ws[..|ws| - 1]) + (if g.Got? && g.ptype == 0x01 then [Sent(g.seqno, g.payload)] else [])
  }

  lemma {:induction false} CommandsAppend(a: seq<seq<bv8>>, b: seq<seq<bv8>>)
    ensures Commands(a + b) == Commands(a) + Commands(b)
  {
    hide Read;
    if b == [] {
      assert a + b == a;
    } else {
      assert (a + b)[..|a + b| - 1] == a + b[..|b| - 1];
      CommandsAppend(a, b[..|b| - 1]);
    }
  }

  // A packet of another type is no command, whatever its numbers.
  lemma NoCommand(ack: bv8, seqno: bv8, useCrc: bool, ptype: bv8, payload: seq<bv8>)
    requires ptype < 16 && ptype != 0x01
    ensures Commands([Frame.Wire(ack, seqno, useCrc, ptype, payload)]) == []
  {
    hide Frame.Bytes, Frame.Decode, Frame.Header;
    ReadEncoded(Frame.Bytes(ack, seqno, useCrc, ptype, payload));
    Starts(ack, seqno, useCrc, ptype, payload);
    TypeKept(ack, seqno, useCrc, ptype, |payload|);
    OneWritten(Frame.Wire(ack, seqno, useCrc, ptype, payload));
  }

  lemma TypeKept(ack: bv8, seqno: bv8, useCrc: bool, ptype: bv8, len: nat)
    requires ptype < 16
    ensures Frame.Header(ack, seqno, useCrc, ptype, len)[1] & 0x0f == ptype
  {
    hide Frame.Header0, Frame.LenHigh, Frame.Checksum;
    LowBits((len % 16) as bv8, ptype);
  }

  lemma LowBits(x: bv8, t: bv8)
    requires t < 16
    ensures ((x << 4) | t) & 0x0f == t
  {}

  lemma OneWritten(w: seq<bv8>)
    ensures Commands([w])
         == if Read(w).Got? && Read(w).ptype == 0x01 then [Sent(Read(w).seqno, Read(w).payload)] else []
  {
    hide Read;
    assert [w][..0] == [];
  }

  lemma OneCommand(ack: bv8, seqno: bv8, useCrc: bool, payload: seq<bv8>)
    requires ack < 8 && seqno < 8 && |payload| <= 4095
    ensures Commands([Frame.Wire(ack, seqno, useCrc, 0x01, payload)]) == [Sent(seqno, payload)]
  {
    hide Frame.Wire, Read;
    ReadWire(ack, seqno, useCrc, 0x01, payload);
    OneWritten(Frame.Wire(ack, seqno, useCrc, 0x01, payload));
  }
}
