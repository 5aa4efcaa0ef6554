/** The three-wire UART engine as the driver runs it: one record updated in place.
    `View` is the record seen as a receiving machine, `HostView` as the layer above it.
 */
module Engines {
  import opened Frame
  import opened Hosts
  import opened SkBuffs
  import Crc
  import Readers
  import Receiver
  import Slip

  datatype RxState = W4PktDelimiter | W4PktStart | W4Hdr | W4Data | W4Crc
  datatype EscState = NoEsc | Esc

  class Engine {
    // transport
    var rxseqTxack: bv8      // expected receive sequence number
    var msgqTxseq: bv8       // next sequence number to send
    const useCrc: bool
    var messageCrc: bv16
    var rxCount: nat         // bytes still expected
    var rxState: RxState
    var rxEscState: EscState
    var rxSkb: SkBuff?
    // layer above
    var linkEstabState: LinkState
    var rxIndex: int
    var numOfCmdSent: u16
    var versionSeen: bool
    var romSeen: bool
    var chipSeen: bool
    var txIndex: int
    var totalNum: int
    var written: seq<seq<bv8>>
    // every packet completed so far
    ghost var done: seq<Packet>

    predicate Live() reads this { rxState.W4Hdr? || rxState.W4Data? || rxState.W4Crc? }

    ghost predicate Buffered()
      reads this, rxSkb
    {
      Live() ==> rxSkb != null && rxSkb.Valid() && rxSkb.maxLen == BUFFER_SIZE
    }

    // The receive buffer's allocation.
    ghost function Buffer(): set<object>
      reads this
    {
      if rxSkb == null then {} else {rxSkb.data}
    }

    function Phase(): Receiver.Phase
      reads this
    {
      if rxState.W4Crc? then Receiver.Check else if rxState.W4Data? then Receiver.Data else Receiver.Hdr
    }

    ghost function View(): Receiver.Machine
      requires Buffered()
      reads this, rxSkb, Buffer()
    {
      Receiver.Machine(
        if rxState.W4PktDelimiter? then Receiver.Hunt
        else if rxState.W4PktStart? then Receiver.Open
        else Receiver.Body(Phase(), rxEscState.Esc?, rxCount, rxSkb.Contents()),
        rxseqTxack, done)
    }

    ghost function HostView(): Host
      reads this
    {
      Host(linkEstabState, rxIndex, numOfCmdSent, versionSeen, romSeen, chipSeen, written)
    }

    ghost predicate Valid()
      reads this, rxSkb, Buffer()
    {
      && Buffered() && msgqTxseq < 8 && Receiver.Valid(View())
      && (!Live() ==> rxCount == 0)
      && (Live() ==> rxSkb.ClearTail() && Tracked(rxState.W4Crc?, rxSkb.Contents(), messageCrc))
    }

    predicate Resync() reads this { txIndex == totalNum }

    constructor (crc: bool)
      ensures Valid() && rxSkb == null && useCrc == crc
      ensures View() == Receiver.Machine(Receiver.Hunt, 0, [])
      ensures HostView() == Host(Sync, 0, 0, false, false, false, [])
      ensures msgqTxseq == 0 && txIndex == 0 && totalNum == 0
    {
      rxseqTxack, msgqTxseq, useCrc, messageCrc, rxCount := 0, 0, crc, 0, 0;
      rxState, rxEscState, rxSkb := W4PktDelimiter, NoEsc, null;
      linkEstabState, rxIndex, numOfCmdSent := Sync, 0, 0;
      versionSeen, romSeen, chipSeen := false, false, false;
      txIndex, totalNum, written, done := 0, 0, [], [];
    }

    // ---------- sending ----------

    static method SlipOneByte(skb: SkBuff, c: bv8)
      requires skb.Valid() && skb.dataLen + 2 <= skb.maxLen
      modifies skb`dataLen, skb.data
      ensures skb.Valid() && skb.Contents() == old(skb.Contents()) + Slip.EncodeByte(c)
    {
      var ok;
      if c == 0xc0 {
        ok := skb.Put(0xdb);
        ok := skb.Put(0xdc);
      } else if c == 0xdb {
        ok := skb.Put(0xdb);
        ok := skb.Put(0xdd);
      } else if c == 0x11 {
        ok := skb.Put(0xdb);
        ok := skb.Put(0xde);
      } else if c == 0x13 {
        ok := skb.Put(0xdb);
        ok := skb.Put(0xdf);
      } else {
        ok := skb.Put(c);
      }
    }

    // Escapes bytes[..] after what the buffer holds and runs the check value over them.
    static method SlipBytes(skb: SkBuff, bytes: seq<bv8>, crc: bv16) returns (reg: bv16)
      requires skb.Valid() && skb.dataLen + 2 * |bytes| <= skb.maxLen
      modifies skb`dataLen, skb.data
      ensures skb.Valid() && skb.Contents() == old(skb.Contents()) + Slip.Encode(bytes)
      ensures skb.dataLen <= old(skb.dataLen) + 2 * |bytes|
      ensures reg == Crc.Run(crc, bytes)
    {
      hide Crc.Update, Slip.EncodeByte;
      reg := crc;
      ghost var before := skb.Contents();
      assert bytes[..0] == [] && before + [] == before;
      for i := 0 to |bytes|
        invariant skb.Valid() && skb.Contents() == before + Slip.Encode(bytes[..i])
        invariant skb.dataLen <= old(skb.dataLen) + 2 * i
        invariant reg == Crc.Run(crc, bytes[..i])
      {
        SlipOneByte(skb, bytes[i]);
        assert Crc.Run(crc, bytes[..i + 1]) == Crc.Update(Crc.Run(crc, bytes[..i]), bytes[i]) by {
          assert bytes[..i + 1][..i] == bytes[..i];
        }
        reg := Crc.Update(reg, bytes[i]);
        assert bytes[..i + 1][..i] == bytes[..i];
        assert (before + Slip.Encode(bytes[..i])) + Slip.EncodeByte(bytes[i])
            == before + (Slip.Encode(bytes[..i]) + Slip.EncodeByte(bytes[i]));
      }
      assert bytes[..|bytes|] == bytes;
    }

    // Unknown types are refused; otherwise the packet is encoded and a reliable one
    // takes the next sequence number.
    method PreparePkt(bytes: seq<bv8>, ptype: bv8) returns (nskb: SkBuff?)
      requires msgqTxseq < 8
      modifies `msgqTxseq
      ensures !Sendable(ptype) ==> nskb == null
      ensures Sendable(ptype) ==>
                && nskb != null && fresh(nskb) && fresh(nskb.data) && nskb.Valid()
                && nskb.Contents() == Wire(rxseqTxack, old(msgqTxseq), useCrc, ptype, bytes)
                && (rxseqTxack < 8 && |bytes| <= 4095 ==>
                      AsSent(nskb.Contents(), rxseqTxack, old(msgqTxseq), useCrc, ptype, bytes))
      ensures msgqTxseq == if SentReliably(ptype) then NextSeq(old(msgqTxseq)) else old(msgqTxseq)
    {
      if !Sendable(ptype) {
        return null;
      }
      hide Header, Slip.Encode, Crc.Run, Crc.BitRev16, Crc.Bytes, NextSeq, AsSent, Wire, Sendable, SentReliably;
      WireIs(rxseqTxack, msgqTxseq, useCrc, ptype, bytes);
      if rxseqTxack < 8 && |bytes| <= 4095 {
        WireAsSent(rxseqTxack, msgqTxseq, useCrc, ptype, bytes);
      }
      var hdr := Header(rxseqTxack, msgqTxseq, useCrc, ptype, |bytes|);
      if SentReliably(ptype) {
        TakeNumber();
      }
      nskb := BuildPkt(hdr, bytes);
    }

    method TakeNumber()
      modifies `msgqTxseq
      ensures msgqTxseq == NextSeq(old(msgqTxseq))
    {
      SameNext(msgqTxseq);
      msgqTxseq := (msgqTxseq + 1) & 0x07;
    }

    // Delimiter, escaped header and payload, integrity check if present, delimiter.
    method BuildPkt(hdr: seq<bv8>, bytes: seq<bv8>) returns (skb: SkBuff)
      requires |hdr| == 4
      ensures fresh(skb) && fresh(skb.data) && skb.Valid()
      ensures var body := hdr + bytes;
              var all := if useCrc then body + Crc.Bytes(Crc.BitRev16(Crc.Run(Crc.INIT, body))) else body;
              skb.Contents() == [Slip.DELIM] + Slip.Encode(all) + [Slip.DELIM]
    {
      hide Slip.Encode, Crc.Run, Crc.BitRev16, Crc.Bytes;
      // worst case: every byte of header, payload and check escaped, and two delimiters
      skb := new SkBuff((|bytes| + 6) * 2 + 2);
      var ok := skb.Put(Slip.DELIM);
      assert ok;
      ghost var start := skb.Contents();
      assert start == [Slip.DELIM];
      var crc := SlipBoth(skb, hdr, bytes);
      if useCrc {
        var tail := Crc.Bytes(Crc.BitRev16(crc));
        crc := SlipBytes(skb, tail, crc);
        EncodedBehind(start, hdr + bytes, tail);
      }
      ok := skb.Put(Slip.DELIM);
      assert ok;
    }

    // Header and payload.
    static method SlipBoth(skb: SkBuff, hdr: seq<bv8>, bytes: seq<bv8>) returns (crc: bv16)
      requires skb.Valid() && skb.dataLen + 2 * |hdr| + 2 * |bytes| <= skb.maxLen
      modifies skb`dataLen, skb.data
      ensures skb.Valid() && skb.Contents() == old(skb.Contents()) + Slip.Encode(hdr + bytes)
      ensures skb.dataLen <= old(skb.dataLen) + 2 * |hdr| + 2 * |bytes|
      ensures crc == Crc.Run(Crc.INIT, hdr + bytes)
    {
      hide Slip.Encode, Crc.Run;
      ghost var start := skb.Contents();
      crc := SlipBytes(skb, hdr, Crc.INIT);
      crc := SlipBytes(skb, bytes, crc);
      Crc.RunAppend(Crc.INIT, hdr, bytes);
      EncodedBehind(start, hdr, bytes);
    }

    // Encodes a command and writes it out.
    method SendCommand(bytes: seq<bv8>)
      requires Valid()
      modifies `msgqTxseq, `written
      ensures Valid() && msgqTxseq == NextSeq(old(msgqTxseq))
      ensures HostView() == Written(old(HostView()), Wire(rxseqTxack, old(msgqTxseq), useCrc, COMMAND, bytes))
    {
      hide Wire, Receiver.Valid, Tracked;
      NextIsSmall(msgqTxseq);
      var nskb := PreparePkt(bytes, COMMAND);
      written := written + [nskb.data[..nskb.dataLen]];
    }

    method StartPatch()
      requires Valid()
      modifies `linkEstabState, `rxIndex
      ensures Valid() && rxIndex == -1 && linkEstabState == Patch
      ensures View() == old(View()) && HostView() == old(HostView()).(link := Patch, rxIndex := -1)
    {
      linkEstabState, rxIndex := Patch, -1;
    }

    method SetTotal(total: int)
      requires Valid()
      modifies `totalNum
      ensures Valid() && totalNum == total && View() == old(View()) && HostView() == old(HostView())
    {
      totalNum := total;
    }

    method SendPureAckDown()
      requires msgqTxseq < 8
      modifies `msgqTxseq, `written
      ensures msgqTxseq == old(msgqTxseq)
      ensures written == old(written) + [PureAck(useCrc, rxseqTxack)]
    {
      hide Wire;
      UnnumberedAck(useCrc, rxseqTxack, msgqTxseq);
      var nskb := PreparePkt([], Frame.ACK);
      written := written + [nskb.data[..nskb.dataLen]];
    }

    // The acknowledgement that ends a download.
    method LastAck()
      requires Valid()
      modifies `msgqTxseq, `written
      ensures Valid() && msgqTxseq == old(msgqTxseq) && View() == old(View())
      ensures HostView() == Written(old(HostView()), PureAck(useCrc, rxseqTxack))
    {
      hide PureAck, Receiver.Valid, Tracked;
      SendPureAckDown();
    }

    // ---------- the layer above ----------

    method HciEventCmdComplete(skb: SkBuff)
      requires skb.Valid() && skb.maxLen >= 7
      modifies skb`dataLen, skb.data
      modifies `linkEstabState, `numOfCmdSent, `versionSeen, `romSeen, `chipSeen
      ensures HostView() == if old(skb.dataLen) >= 5
                            then CommandComplete(old(HostView()), old(skb.data[3]), old(skb.data[4]))
                            else old(HostView())
    {
      if skb.dataLen < 5 {
        return;
      }
      ghost var lo, hi := skb.data[3], skb.data[4];
      skb.Pull(2);
      assert skb.data[..][1] == lo && skb.data[..][2] == hi;
      var opLo, opHi := skb.data[1], skb.data[2];
      skb.Pull(3);
      if opHi == 0xfc && opLo == 0x17 {
        linkEstabState := Patch;
      } else if opHi == 0x10 && opLo == 0x09 {
      } else if opHi == 0x10 && opLo == 0x01 {
        versionSeen := true;
      } else if opHi == 0xfc && opLo == 0x6d {
        romSeen := true;
      } else if opHi == 0xfc && opLo == 0x61 {
        chipSeen := true;
      } else {
        return;
      }
      numOfCmdSent := (numOfCmdSent + 1) % 0x1_0000;
    }

    method RecvInSync(b0: bv8, b1: bv8)
      modifies `linkEstabState, `written
      ensures HostView() == InSync(old(HostView()), b0, b1)
    {
      if b0 == 0x01 && b1 == 0x7e {
        written := written + [SYNC_RESPONSE];
      } else if b0 == 0x02 && b1 == 0x7d {
        linkEstabState := Config;
      }
    }

    method RecvInConfig(b0: bv8, b1: bv8)
      requires msgqTxseq < 8
      modifies `linkEstabState, `written, `msgqTxseq
      ensures msgqTxseq == old(msgqTxseq)
      ensures HostView() == InConfig(old(HostView()), b0, b1, PureAck(useCrc, rxseqTxack))
    {
      hide PureAck;
      if b0 == 0x01 && b1 == 0x7e {
        written := written + [SYNC_RESPONSE];
      } else if b0 == 0x03 && b1 == 0xfc {
        written := written + [CONFIG_RESPONSE];
      } else if b0 == 0x04 && b1 == 0x7b {
        linkEstabState := Init;
      } else {
        SendPureAckDown();
      }
    }

    method RecvInInit(skb: SkBuff)
      requires skb.Valid() && skb.maxLen >= 7 && msgqTxseq < 8
      modifies skb`dataLen, skb.data, `msgqTxseq
      modifies `linkEstabState, `numOfCmdSent, `versionSeen, `romSeen, `chipSeen, `written
      ensures msgqTxseq == old(msgqTxseq)
      ensures HostView() == InInit(old(HostView()), old(skb.data[..]), old(skb.dataLen), PureAck(useCrc, rxseqTxack))
    {
      hide PureAck, CommandComplete;
      if skb.data[0] == CMD_COMPLETE {
        HciEventCmdComplete(skb);
      }
      SendPureAckDown();
      SendPureAckDown();
      SendPureAckDown();
    }

    method RecvInPatch(b0: bv8, b6: bv8)
      requires msgqTxseq < 8
      modifies `linkEstabState, `rxIndex, `written, `msgqTxseq
      ensures msgqTxseq == old(msgqTxseq)
      ensures HostView() == InPatch(old(HostView()), b0, b6, PureAck(useCrc, rxseqTxack))
    {
      hide PureAck, AckedIndex, IsLast;
      if b0 != CMD_COMPLETE {
        SendPureAckDown();
        return;
      }
      rxIndex := AckedIndex(b6);
      if IsLast(b6) {
        linkEstabState := Active;
      }
    }

    method HciRecvFrame(skb: SkBuff)
      requires skb.Valid() && skb.maxLen >= 7 && msgqTxseq < 8
      modifies skb`dataLen, skb.data, `msgqTxseq
      modifies `linkEstabState, `rxIndex, `numOfCmdSent, `versionSeen, `romSeen, `chipSeen, `written
      ensures msgqTxseq == old(msgqTxseq)
      ensures HostView() == ReceiveFrame(useCrc, old(HostView()), old(skb.data[..]), old(skb.dataLen), rxseqTxack)
    {
      hide PureAck, InSync, InConfig, InInit, InPatch;
      match linkEstabState
      case Sync => RecvInSync(skb.data[0], skb.data[1]);
      case Config => RecvInConfig(skb.data[0], skb.data[1]);
      case Init => RecvInInit(skb);
      case Patch => RecvInPatch(skb.data[0], skb.data[6]);
      case Active =>
    }

    // A packet of a type meant for the layer above loses its header and goes up.
    method PassUpPkt(ghost p: Packet)
      requires rxSkb != null && rxSkb.Valid() && rxSkb.maxLen == BUFFER_SIZE && msgqTxseq < 8
      requires |p.hdr| == 4 && rxSkb.Contents() == p.hdr + p.payload && p.next == rxseqTxack
      requires rxSkb.dataLen + |p.dic| <= BUFFER_SIZE
      requires rxSkb.data[..] == rxSkb.Contents() + p.dic + seq(BUFFER_SIZE - rxSkb.dataLen - |p.dic|, i => 0)
      modifies rxSkb`dataLen, rxSkb.data, `msgqTxseq
      modifies `linkEstabState, `rxIndex, `numOfCmdSent, `versionSeen, `romSeen, `chipSeen, `written
      ensures msgqTxseq == old(msgqTxseq)
      ensures HostView() == Receive(useCrc, old(HostView()), p)
    {
      hide Image, ReceiveFrame, Type, PassUp;
      PulledIsImage(rxSkb.data[..], rxSkb.Contents(), p.dic, p);
      assert rxSkb.data[1] == rxSkb.Contents()[1];
      if PassUp(Type(rxSkb.data[1])) {
        rxSkb.Pull(4);
        HciRecvFrame(rxSkb);
      }
    }

    // The finished packet in rxSkb: adopt its sequence number, hand it up, wait for a delimiter.
    method CompleteRxPkt(ghost dic: seq<bv8>)
      requires rxSkb != null && rxSkb.Valid() && rxSkb.maxLen == BUFFER_SIZE && msgqTxseq < 8
      requires 4 <= rxSkb.dataLen && rxSkb.dataLen == Receiver.End(rxSkb.Contents())
      requires rxSkb.dataLen + |dic| <= BUFFER_SIZE
      requires rxSkb.data[..] == rxSkb.Contents() + dic + seq(BUFFER_SIZE - rxSkb.dataLen - |dic|, i => 0)
      modifies this, rxSkb, rxSkb.data
      ensures rxState == W4PktDelimiter && rxSkb == null && rxCount == old(rxCount)
      ensures msgqTxseq == old(msgqTxseq) && txIndex == old(txIndex) && totalNum == old(totalNum)
      ensures var skb := old(rxSkb.Contents());
              var p := Packet(skb[..4], skb[4..], dic, rxseqTxack);
              && rxseqTxack == (if Reliable(skb[0]) then NextSeq(Seq(skb[0])) else old(rxseqTxack))
              && done == old(done) + [p]
              && HostView() == Receive(useCrc, old(HostView()), p)
    {
      hide PayloadLen, Seq, Reliable, NextSeq, Receive, HasCrc, Checksum;
      ghost var all := rxSkb.Contents();
      AdoptSeq();
      ghost var p := Packet(all[..4], all[4..], dic, rxseqTxack);
      assert p.hdr + p.payload == all;
      PassUpPkt(p);
      rxState := W4PktDelimiter;
      rxSkb := null;
      done := done + [p];
    }

    method AdoptSeq()
      requires rxSkb != null && rxSkb.Valid() && rxSkb.dataLen >= 4
      modifies `rxseqTxack
      ensures rxseqTxack == if Reliable(rxSkb.Contents()[0]) then NextSeq(Seq(rxSkb.Contents()[0]))
                            else old(rxseqTxack)
    {
      hide Seq, Reliable, NextSeq;
      assert rxSkb.Contents()[0] == rxSkb.data[0];
      if Reliable(rxSkb.data[0]) {
        rxseqTxack := NextSeq(Seq(rxSkb.data[0]));
      }
    }

    // ---------- receiving ----------

    // Stores one decoded byte, running the check value over everything but the check itself.
    method Store(c: bv8)
      requires Valid() && Live() && rxCount > 0
      modifies `messageCrc, `rxCount, `rxEscState, rxSkb`dataLen, rxSkb.data
      ensures Valid() && View() == Receiver.Put(old(View()), c)
    {
      hide PayloadLen, Reliable, Seq, Checksum, Crc.Update, HasCrc, Tracked;
      ghost var before := rxSkb.Contents();
      var ok := rxSkb.Put(c);
      assert ok && rxSkb.Contents() == before + [c];
      assert rxSkb.data[0] == rxSkb.Contents()[0];
      if HasCrc(rxSkb.data[0]) && !rxState.W4Crc? {
        messageCrc := Crc.Update(messageCrc, c);
      }
      rxEscState := NoEsc;
      rxCount := rxCount - 1;
      StoreTracked(rxState.W4Crc?, before, c, old(messageCrc));
    }

    // One wire byte that is no delimiter, while bytes are expected.
    method UnslipOneByte(b: bv8)
      requires Valid() && Live() && rxCount > 0 && b != Slip.DELIM
      modifies this, rxSkb, rxSkb.data
      ensures Valid() && View() == Receiver.Eat(old(View()), b)
      ensures HostView() == old(HostView()) && msgqTxseq == old(msgqTxseq)
      ensures txIndex == old(txIndex) && totalNum == old(totalNum)
      ensures rxSkb == null || rxSkb == old(rxSkb)
    {
      hide PayloadLen, Reliable, Seq, Checksum, HasCrc, Tracked, Receiver.Valid, Receiver.Put, CheckFits;
      if rxEscState.NoEsc? {
        if b == 0xdb {
          rxEscState := Esc;
          assert View() == Receiver.Eat(old(View()), b);
        } else {
          Store(b);
        }
      } else if b == 0xdc {
        Store(0xc0);
      } else if b == 0xdd {
        Store(0xdb);
      } else if b == 0xde {
        Store(0x11);
      } else if b == 0xdf {
        Store(0x13);
      } else {
        rxSkb := null;
        rxState := W4PktDelimiter;
        rxCount := 0;
        assert View() == Receiver.Eat(old(View()), b);
      }
    }

    // Every packet completed since `before` has been handed to the layer above, in order.
    ghost predicate HandedUp(before: seq<Packet>, h: Host)
      reads this
    {
      before <= done && HostView() == ReceiveAll(useCrc, h, done[|before|..])
    }

    // Drops the packet being received and waits for a delimiter.
    method DropPkt()
      modifies `rxSkb, `rxState, `rxCount
      ensures rxSkb == null && rxState == W4PktDelimiter && rxCount == 0
    {
      rxSkb, rxState, rxCount := null, W4PktDelimiter, 0;
    }

    // The four header bytes are in: checksum, order, then the payload.
    method HeaderDone(ghost b: bv8)
      requires Valid() && rxState.W4Hdr? && rxCount == 0
      modifies `rxSkb, `rxState, `rxCount, `rxseqTxack
      ensures Valid() && View() == Receiver.Tick(old(View()), b, old(Resync()))
      ensures rxSkb == null || rxSkb == old(rxSkb)
      ensures Judged(old(rxSkb.Contents()), old(rxseqTxack), old(Resync()), rxState.W4Data?, rxseqTxack, rxCount)
      ensures rxState.W4Data? || (rxState.W4PktDelimiter? && rxSkb == null)
    {
      hide PayloadLen, Seq, Reliable, Checksum, HasCrc, Crc.Run, Tracked, CheckFits, NextSeq, Judged;
      hide Receiver.Tick, Receiver.Valid;
      Receiver.HeaderTick(View(), b, Resync());
      var skb := rxSkb;
      assert forall i :: 0 <= i < 4 ==> skb.data[i] == skb.Contents()[i];
      JudgedBy(skb.Contents(), rxseqTxack, Resync());
      if Checksum(skb.data[0], skb.data[1], skb.data[2]) != skb.data[3] {
        DropPkt();
      } else if Reliable(skb.data[0]) && Seq(skb.data[0]) != rxseqTxack {
        DropPkt();
        if txIndex == totalNum {
          rxseqTxack := Seq(skb.data[0]);
        }
      } else {
        rxState := W4Data;
        rxCount := PayloadLen(skb.data[1], skb.data[2]);
      }
    }

    // The payload is in: wait for the check, or complete.
    method PayloadDone(ghost b: bv8)
      requires Valid() && rxState.W4Data? && rxCount == 0
      modifies this, rxSkb, rxSkb.data
      ensures Valid() && View() == Receiver.Tick(old(View()), b, old(Resync()))
      ensures HandedUp(old(done), old(HostView()))
      ensures msgqTxseq == old(msgqTxseq) && txIndex == old(txIndex) && totalNum == old(totalNum)
      ensures rxSkb == null || rxSkb == old(rxSkb)
    {
      hide PayloadLen, Seq, Reliable, NextSeq, Checksum, HasCrc, Crc.Run, Receive;
      ghost var all := rxSkb.Contents();
      assert rxSkb.data[0] == all[0];
      if HasCrc(rxSkb.data[0]) {
        rxState := W4Crc;
        rxCount := 2;
        assert all[..Receiver.End(all)] == all;
      } else {
        ghost var none: seq<bv8> := [];
        assert rxSkb.data[..] == all + none + seq(BUFFER_SIZE - |all| - |none|, i => 0);
        Receiver.SeqIsSmall(all[0]);
        CompleteRxPkt([]);
        OneHandedUp(useCrc, old(HostView()), old(done), done);
      }
    }

    // The check is in: compare, cut it off and complete.
    method CheckDone(ghost b: bv8)
      requires Valid() && rxState.W4Crc? && rxCount == 0
      modifies this, rxSkb, rxSkb.data
      ensures Valid() && View() == Receiver.Tick(old(View()), b, old(Resync()))
      ensures HandedUp(old(done), old(HostView()))
      ensures msgqTxseq == old(msgqTxseq) && txIndex == old(txIndex) && totalNum == old(totalNum)
      ensures rxSkb == null || rxSkb == old(rxSkb)
    {
      hide PayloadLen, Seq, Reliable, NextSeq, Checksum, HasCrc, Crc.Run, Receive, Crc.Value;
      ghost var all := rxSkb.Contents();
      ghost var end := Receiver.End(all);
      var n := rxSkb.dataLen;
      assert all[end..][0] == rxSkb.data[n - 2] && all[end..][1] == rxSkb.data[n - 1];
      assert messageCrc == Crc.Run(Crc.INIT, all[..end]);
      if Crc.BitRev16(messageCrc) != Crc.Value(rxSkb.data[n - 2], rxSkb.data[n - 1]) {
        DropPkt();
      } else {
        rxSkb.Trim(n - 2);
        assert rxSkb.Contents() == all[..end];
        SameLength(all, end);
        assert rxSkb.data[..] == all[..end] + all[end..] + seq(BUFFER_SIZE - end - 2, i => 0);
        Receiver.SeqIsSmall(all[0]);
        CompleteRxPkt(all[end..]);
        OneHandedUp(useCrc, old(HostView()), old(done), done);
      }
    }

    // A first byte after a delimiter: start a packet, without consuming the byte.
    method StartPkt(ghost b: bv8)
      requires Valid() && rxState.W4PktStart? && b != Slip.DELIM
      modifies `rxSkb, `rxState, `rxCount, `rxEscState, `messageCrc
      ensures Valid() && View() == Receiver.Tick(old(View()), b, old(Resync()))
      ensures rxSkb != null && fresh(rxSkb) && fresh(rxSkb.data)
    {
      rxState := W4Hdr;
      rxCount := 4;
      rxEscState := NoEsc;
      messageCrc := Crc.INIT;
      rxSkb := new SkBuff(BUFFER_SIZE);
    }

    // One turn of the receive loop on the byte at hand; says whether the byte is used up.
    method Turn(b: bv8) returns (consumed: bool)
      requires Valid()
      modifies this, rxSkb, Buffer()
      ensures Valid() && consumed == Receiver.Ready(old(View()), b)
      ensures View() == if consumed then Receiver.Eat(old(View()), b)
                        else Receiver.Tick(old(View()), b, old(Resync()))
      ensures HandedUp(old(done), old(HostView()))
      ensures msgqTxseq == old(msgqTxseq) && txIndex == old(txIndex) && totalNum == old(totalNum)
      ensures rxSkb == null || rxSkb == old(rxSkb) || (fresh(rxSkb) && fresh(rxSkb.data))
    {
      hide Receiver.Tick, PayloadLen, Seq, Reliable, Checksum, HasCrc, Tracked, Receiver.Valid, CheckFits;
      if rxCount > 0 {
        if b == 0xc0 {
          rxSkb := null;
          rxState := W4PktStart;
          rxCount := 0;
          assert View() == Receiver.Eat(old(View()), b);
        } else {
          UnslipOneByte(b);
        }
        return true;
      }
      match rxState
      case W4Hdr => HeaderDone(b); return false;
      case W4Data => PayloadDone(b); return false;
      case W4Crc => CheckDone(b); return false;
      case W4PktDelimiter =>
        if b == 0xc0 {
          rxState := W4PktStart;
        }
        assert View() == Receiver.Eat(old(View()), b);
        return true;
      case W4PktStart =>
        if b == 0xc0 {
          return true;
        }
        StartPkt(b);
        return false;
    }

    // The receive loop.  A turn that consumes nothing lowers the rank of the state.
    method Recv(input: seq<bv8>)
      requires Valid()
      modifies this, rxSkb, Buffer()
      ensures Valid() && View() == Receiver.Run(old(View()), input, old(Resync()))
      ensures HandedUp(old(done), old(HostView()))
      ensures Answers(old(HostView()), HostView(), AllReplies(old(linkEstabState), done[|old(done)|..]))
      ensures msgqTxseq == old(msgqTxseq) && txIndex == old(txIndex) && totalNum == old(totalNum)
      ensures rxSkb == null || rxSkb == old(rxSkb) || (fresh(rxSkb) && fresh(rxSkb.data))
    {
      hide Receiver.Tick, Receiver.Eat, Receiver.Run, Receiver.Step, Receiver.Valid, Tracked, AllReplies, Answers;
      ghost var resync := Resync();
      ghost var m0, done0, host0 := View(), done, HostView();
      var i := 0;
      NothingHandedUp(useCrc, host0, done);
      while i < |input|
        invariant 0 <= i <= |input| && Valid()
        invariant Receiver.Run(View(), input[i..], resync) == Receiver.Run(m0, input, resync)
        invariant HandedUp(done0, host0)
        invariant msgqTxseq == old(msgqTxseq) && txIndex == old(txIndex) && totalNum == old(totalNum)
        invariant rxSkb == null || rxSkb == old(rxSkb) || (fresh(rxSkb) && fresh(rxSkb.data))
        decreases |input| - i, Receiver.Rank(View().rx)
      {
        ghost var m, done1 := View(), done;
        ghost var rest := input[i..];
        OneTurn(m, rest, resync);
        var consumed := Turn(input[i]);
        HandedUpTwice(useCrc, host0, done0, done1, done);
        if consumed {
          assert rest[1..] == input[i + 1..];
          i := i + 1;
        }
      }
      Receiver.RunNothing(View(), resync);
      Receiver.RunAdds(m0, input, resync);
      AllAnswered(useCrc, host0, done[|done0|..]);
    }
  }

  // What becomes of a header, in its bits: taken exactly when it adds up and is not out of
  // order; its number adopted when it is and resynchronisation is on; the payload counted.
  ghost predicate Judged(h: seq<bv8>, expected: bv8, resync: bool, taken: bool, expected': bv8, count: nat) {
    && |h| == 4
    && (taken <==> Sums(h[0], h[1], h[2], h[3]) && (h[0] & 0x80 == 0 || h[0] & 7 == expected))
    && expected' == (if !taken && Sums(h[0], h[1], h[2], h[3]) && resync then h[0] & 7 else expected)
    && (taken ==> count == (h[1] >> 4) as nat + 16 * h[2] as nat)
  }

  lemma JudgedBy(h: seq<bv8>, expected: bv8, resync: bool)
    requires |h| == 4
    ensures var fits := Checksum(h[0], h[1], h[2]) == h[3];
            var ordered := !Reliable(h[0]) || Seq(h[0]) == expected;
            && (!fits ==> Judged(h, expected, resync, false, expected, 0))
            && (fits && !ordered ==> Judged(h, expected, resync, false, if resync then Seq(h[0]) else expected, 0))
            && (fits && ordered ==> Judged(h, expected, resync, true, expected, PayloadLen(h[1], h[2])))
  {
    hide Checksum, Reliable, Seq, PayloadLen, Sums;
    SumsIs(h[0], h[1], h[2], h[3]);
    BitsOf(h[0], h[1], h[2]);
  }

  // A packet on the wire, unescaped, starts with a header that adds up and announces it, and
  // reads back as what was given.
  ghost predicate AsSent(w: seq<bv8>, ack: bv8, seqno: bv8, useCrc: bool, ptype: bv8, payload: seq<bv8>) {
    && |w| >= 2 && Announces(Slip.Decode(false, w[1..|w| - 1]), ack, seqno, useCrc, ptype, |payload|)
    && Readers.Read(w) == if ptype in [0x01, 0x02, 0x04] then Readers.Got(ptype, ack, true, seqno, payload)
                          else Readers.Got(ptype, ack, false, 0, payload)
  }

  lemma EncodedBehind(start: seq<bv8>, a: seq<bv8>, b: seq<bv8>)
    ensures (start + Slip.Encode(a)) + Slip.Encode(b) == start + Slip.Encode(a + b)
  {
    hide Slip.Encode;
    Slip.EncodeAppend(a, b);
  }

  lemma WireIs(ack: bv8, seqno: bv8, useCrc: bool, ptype: bv8, payload: seq<bv8>)
    ensures var body := Header(ack, seqno, useCrc, ptype, |payload|) + payload;
            var all := if useCrc then body + Crc.Bytes(Crc.BitRev16(Crc.Run(Crc.INIT, body))) else body;
            Wire(ack, seqno, useCrc, ptype, payload) == [Slip.DELIM] + Slip.Encode(all) + [Slip.DELIM]
  {
    hide Header, Slip.Encode, Crc.Run, Crc.BitRev16, Crc.Bytes;
  }

  lemma WireAsSent(ack: bv8, seqno: bv8, useCrc: bool, ptype: bv8, payload: seq<bv8>)
    requires ack < 8 && seqno < 8 && |payload| <= 4095 && Sendable(ptype)
    ensures AsSent(Wire(ack, seqno, useCrc, ptype, payload), ack, seqno, useCrc, ptype, payload)
  {
    hide Header, Slip.Encode, Slip.Decode, Readers.Read, Sums, Frame.Bytes, Sendable;
    var f, w := Frame.Bytes(ack, seqno, useCrc, ptype, payload), Wire(ack, seqno, useCrc, ptype, payload);
    assert w[1..|w| - 1] == Slip.Encode(f);
    Slip.DecodeOfEncode(f);
    Readers.Starts(ack, seqno, useCrc, ptype, payload);
    HeaderAnnounces(ack, seqno, useCrc, ptype, |payload|);
    Readers.ReadWire(ack, seqno, useCrc, ptype, payload);
  }

  // A turn of the loop leaves the outcome of the remaining bytes unchanged.
  lemma OneTurn(m: Receiver.Machine, rest: seq<bv8>, resync: bool)
    requires Receiver.Valid(m) && rest != []
    ensures Receiver.Ready(m, rest[0]) ==>
              Receiver.Run(m, rest, resync) == Receiver.Run(Receiver.Eat(m, rest[0]), rest[1..], resync)
    ensures !Receiver.Ready(m, rest[0]) ==>
              && Receiver.Run(m, rest, resync) == Receiver.Run(Receiver.Tick(m, rest[0], resync), rest, resync)
              && Receiver.Rank(Receiver.Tick(m, rest[0], resync).rx) < Receiver.Rank(m.rx)
  {
    hide Receiver.Tick, Receiver.Eat, Receiver.Run, Receiver.Valid;
    Receiver.RunCons(m, rest, resync);
    if !Receiver.Ready(m, rest[0]) {
      Receiver.RunCons(Receiver.Tick(m, rest[0], resync), rest, resync);
    }
  }

  lemma NothingHandedUp(useCrc: bool, h: Host, ps: seq<Packet>)
    ensures ReceiveAll(useCrc, h, ps[|ps|..]) == h
  {}

  lemma HandedUpTwice(useCrc: bool, h: Host, a: seq<Packet>, b: seq<Packet>, c: seq<Packet>)
    requires a <= b <= c
    ensures a <= c
    ensures ReceiveAll(useCrc, ReceiveAll(useCrc, h, b[|a|..]), c[|b|..]) == ReceiveAll(useCrc, h, c[|a|..])
  {
    assert c[|a|..] == b[|a|..] + c[|b|..];
    ReceiveAllAppend(useCrc, h, b[|a|..], c[|b|..]);
  }

  lemma SameLength(skb: seq<bv8>, n: nat)
    requires 4 <= n <= |skb|
    ensures Receiver.End(skb[..n]) == Receiver.End(skb) && skb[..n][..4] == skb[..4] && skb[..n][4..] == skb[4..n]
    ensures skb[..n][0] == skb[0]
  {}

  lemma OneHandedUp(useCrc: bool, h: Host, before: seq<Packet>, after: seq<Packet>)
    requires |after| == |before| + 1 && after[..|before|] == before
    ensures before <= after
    ensures ReceiveAll(useCrc, h, after[|before|..]) == Receive(useCrc, h, after[|before|])
  {
    assert after[|before|..] == [after[|before|]];
    assert after[|before|..][..0] == [];
  }

  // The running check value covers the bytes stored so far, the check itself excluded.
  ghost predicate Tracked(inCheck: bool, skb: seq<bv8>, reg: bv16) {
    reg ==
      if skb == [] || !HasCrc(skb[0]) then Crc.INIT
      else if inCheck && |skb| >= 4 && |skb| >= Receiver.End(skb) then Crc.Run(Crc.INIT, skb[..Receiver.End(skb)])
      else Crc.Run(Crc.INIT, skb)
  }

  lemma StoreTracked(inCheck: bool, skb: seq<bv8>, c: bv8, reg: bv16)
    requires Tracked(inCheck, skb, reg)
    requires inCheck ==> |skb| >= 4 && |skb| >= Receiver.End(skb)
    ensures Tracked(inCheck, skb + [c], if HasCrc((skb + [c])[0]) && !inCheck then Crc.Update(reg, c) else reg)
  {
    hide PayloadLen, HasCrc, Crc.Update;
    var more := skb + [c];
    assert more[..|more| - 1] == skb;
    if skb == [] {
      assert Crc.Run(Crc.INIT, more) == Crc.Update(Crc.Run(Crc.INIT, []), c);
    } else if inCheck {
      assert more[1] == skb[1] && more[2] == skb[2];
      assert more[..Receiver.End(skb)] == skb[..Receiver.End(skb)];
    }
  }

  lemma PulledIsImage(buffer: seq<bv8>, all: seq<bv8>, dic: seq<bv8>, p: Packet)
    requires 4 <= |all| && |all| + |dic| <= BUFFER_SIZE
    requires buffer == all + dic + seq(BUFFER_SIZE - |all| - |dic|, i => 0)
    requires p.hdr == all[..4] && p.payload == all[4..] && p.dic == dic
    ensures buffer[4..|all|] + buffer[|all| - 4..] == Image(p)
    ensures |Image(p)| == BUFFER_SIZE
  {
    assert p.hdr + p.payload == all;
    assert all[4..] + (all + dic)[|all| - 4..] == buffer[4..|all|] + buffer[|all| - 4..|all| + |dic|];
    assert |all + dic| == |all| + |dic| <= BUFFER_SIZE;
  }

  // An acknowledgement carries no sequence number.
  lemma UnnumberedAck(useCrc: bool, ack: bv8, seqno: bv8)
    ensures Wire(ack, seqno, useCrc, Frame.ACK, []) == PureAck(useCrc, ack)
  {
    assert Header(ack, seqno, useCrc, Frame.ACK, 0) == Header(ack, 0, useCrc, Frame.ACK, 0);
  }

  lemma NextIsSmall(n: bv8)
    ensures NextSeq(n) < 8
  {}

  lemma SameNext(n: bv8)
    ensures (n + 1) & 0x07 == NextSeq(n)
  {}
}
