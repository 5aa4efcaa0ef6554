/** The receiving half of the three-wire UART engine as a machine over wire bytes,
    and what it does on whole streams.

    One loop iteration of the driver either consumes a byte (Eat) or only moves between
    states (Tick); a frame is settled by Ticks when the byte after it arrives.
 */
module Receiver {
  import opened Frame
  import Slip

  datatype Phase = Hdr | Data | Check

  /** Hunt: waiting for a delimiter.  Open: a delimiter has been read.  Body: `count` more
      bytes are to be stored after `skb`; `esc` after an escape byte. */
  datatype Rx =
    | Hunt
    | Open
    | Body(phase: Phase, esc: bool, count: nat, skb: seq<bv8>)

  datatype Machine = Machine(rx: Rx, expected: bv8, done: seq<Packet>)

  const MAX_FRAME := 0x1005

  function End(skb: seq<bv8>): nat
    requires |skb| >= 4
  {
    4 + PayloadLen(skb[1], skb[2])
  }

  predicate HeaderAccepted(skb: seq<bv8>, expected: bv8)
    requires |skb| >= 4
  {
    && Checksum(skb[0], skb[1], skb[2]) == skb[3]
    && (Reliable(skb[0]) ==> Seq(skb[0]) == expected)
  }

  // Bytes stored and bytes still expected always add up to the block being read.
  predicate Valid(m: Machine) {
    && m.expected < 8
    && (m.rx.Body? ==>
          var skb := m.rx.skb;
          && (m.rx.esc ==> m.rx.count > 0)
          && match m.rx.phase
             case Hdr => |skb| + m.rx.count == 4
             case Data => |skb| >= 4 && HeaderAccepted(skb, m.expected) && |skb| + m.rx.count == End(skb)
             case Check => |skb| >= 4 && HeaderAccepted(skb, m.expected) && HasCrc(skb[0])
                           && |skb| >= End(skb) && |skb| + m.rx.count == End(skb) + 2)
  }

  // In every reachable state the packet being received fits the buffer allocated for it.
  lemma BufferFits(m: Machine)
    requires Valid(m) && m.rx.Body?
    ensures |m.rx.skb| + m.rx.count
         == match m.rx.phase
            case Hdr => 4
            case Data => End(m.rx.skb)
            case Check => End(m.rx.skb) + 2
    ensures |m.rx.skb| + m.rx.count <= MAX_FRAME
  {}

  // ---------- one loop iteration ----------

  predicate Ready(m: Machine, b: bv8) {
    m.rx.Hunt? || (m.rx.Open? && b == Slip.DELIM) || (m.rx.Body? && m.rx.count > 0)
  }

  function Complete(m: Machine, dic: seq<bv8>): Machine
    requires Valid(m) && m.rx.Body? && |m.rx.skb| >= 4 && |m.rx.skb| >= End(m.rx.skb)
  {
    var skb, end := m.rx.skb, End(m.rx.skb);
    var o := Accept(skb[..4], skb[4..end], dic, m.expected);
    Machine(Hunt, o.expected, m.done + o.packets)
  }

  // The header is in.
  function HeaderIn(m: Machine, resync: bool): (r: Machine)
    requires Valid(m) && m.rx.Body? && m.rx.phase.Hdr? && m.rx.count == 0
    ensures Valid(r) && !r.rx.Open? && Rank(r.rx) < Rank(m.rx)
  {
    var skb := m.rx.skb;
    SeqIsSmall(skb[0]);
    if Checksum(skb[0], skb[1], skb[2]) != skb[3] then m.(rx := Hunt)
    else if Reliable(skb[0]) && Seq(skb[0]) != m.expected then
      Machine(Hunt, if resync then Seq(skb[0]) else m.expected, m.done)
    else m.(rx := Body(Data, false, PayloadLen(skb[1], skb[2]), skb))
  }

  // The payload is in.
  function PayloadIn(m: Machine): (r: Machine)
    requires Valid(m) && m.rx.Body? && m.rx.phase.Data? && m.rx.count == 0
    ensures Valid(r) && !r.rx.Open? && Rank(r.rx) < Rank(m.rx)
  {
    var skb := m.rx.skb;
    SeqIsSmall(skb[0]);
    if HasCrc(skb[0]) then m.(rx := Body(Check, false, 2, skb)) else Complete(m, [])
  }

  // The check is in.
  function CheckIn(m: Machine): (r: Machine)
    requires Valid(m) && m.rx.Body? && m.rx.phase.Check? && m.rx.count == 0
    ensures Valid(r) && !r.rx.Open? && Rank(r.rx) < Rank(m.rx)
  {
    var skb, end := m.rx.skb, End(m.rx.skb);
    SeqIsSmall(skb[0]);
    if !CheckFits(skb[..end], skb[end..]) then m.(rx := Hunt) else Complete(m, skb[end..])
  }

  // The state changes that consume nothing.
  function Tick(m: Machine, b: bv8, resync: bool): (r: Machine)
    requires Valid(m) && !Ready(m, b)
    ensures Valid(r) && !r.rx.Open? && Rank(r.rx) < Rank(m.rx)
  {
    if m.rx.Open? then m.(rx := Body(Hdr, false, 4, []))
    else
      match m.rx.phase
      case Hdr => HeaderIn(m, resync)
      case Data => PayloadIn(m)
      case Check => CheckIn(m)
  }

  lemma HeaderTick(m: Machine, b: bv8, resync: bool)
    requires Valid(m) && m.rx.Body? && m.rx.phase.Hdr? && m.rx.count == 0
    ensures var skb := m.rx.skb;
            && |skb| == 4 && !m.rx.esc
            && Tick(m, b, resync)
               == if Checksum(skb[0], skb[1], skb[2]) != skb[3] then m.(rx := Hunt)
                  else if Reliable(skb[0]) && Seq(skb[0]) != m.expected then
                    Machine(Hunt, if resync then Seq(skb[0]) else m.expected, m.done)
                  else m.(rx := Body(Data, false, PayloadLen(skb[1], skb[2]), skb))
  {
    hide Checksum, Reliable, Seq, PayloadLen;
  }

  // How far a state is from rest without further input.
  function Rank(rx: Rx): nat {
    match rx
    case Hunt => 0
    case Open => 7
    case Body(Check, _, count, _) => if count > 0 then 2 else 1
    case Body(Data, _, count, _) => if count > 0 then 4 else 3
    case Body(Hdr, _, count, _) => if count > 0 then 6 else 5
  }

  lemma SeqIsSmall(h0: bv8)
    ensures Seq(h0) < 8 && NextSeq(Seq(h0)) < 8 && NextSeq(Seq(h0)) != Seq(h0)
  {}

  function Put(m: Machine, c: bv8): Machine
    requires m.rx.Body? && m.rx.count > 0
  {
    m.(rx := Body(m.rx.phase, false, m.rx.count - 1, m.rx.skb + [c]))
  }

  // The state changes that consume byte b.
  function Eat(m: Machine, b: bv8): (r: Machine)
    requires Valid(m) && Ready(m, b)
    ensures Valid(r) && r.done == m.done && r.expected == m.expected
    ensures b == Slip.DELIM ==> r.rx == Open
  {
    match m.rx
    case Hunt => if b == Slip.DELIM then m.(rx := Open) else m
    case Open => m
    case Body(phase, esc, count, skb) =>
      if b == Slip.DELIM then m.(rx := Open)
      else if !esc then
        if b == Slip.ESC then m.(rx := Body(phase, true, count, skb)) else Put(m, b)
      else if Slip.IsEscaped(b) then Put(m, Slip.Unescape(b))
      else m.(rx := Hunt)
  }

  // ---------- one byte, and a stream of bytes ----------

  function Settle(m: Machine, b: bv8, resync: bool): (r: Machine)
    requires Valid(m)
    ensures Valid(r) && Ready(r, b)
    decreases Rank(m.rx)
  {
    if Ready(m, b) then m else Settle(Tick(m, b, resync), b, resync)
  }

  function Step(m: Machine, b: bv8, resync: bool): (r: Machine)
    requires Valid(m)
    ensures Valid(r)
  {
    Eat(Settle(m, b, resync), b)
  }

  function Run(m: Machine, w: seq<bv8>, resync: bool): (r: Machine)
    requires Valid(m)
    ensures Valid(r)
  {
    if w == [] then m else Step(Run(m, w[..|w| - 1], resync), w[|w| - 1], resync)
  }

  // Receiving in one piece or in several is the same, wherever the pieces are cut.
  lemma {:induction false} RunAppend(m: Machine, a: seq<bv8>, b: seq<bv8>, resync: bool)
    requires Valid(m)
    ensures Run(m, a + b, resync) == Run(Run(m, a, resync), b, resync)
  {
    if b == [] {
      assert a + b == a;
    } else {
      assert (a + b)[..|a + b| - 1] == a + b[..|b| - 1];
      RunAppend(m, a, b[..|b| - 1], resync);
    }
  }

  lemma RunCons(m: Machine, w: seq<bv8>, resync: bool)
    requires Valid(m) && w != []
    ensures Run(m, w, resync) == Run(Step(m, w[0], resync), w[1..], resync)
  {
    assert w == [w[0]] + w[1..];
    assert [w[0]][..0] == [];
    RunAppend(m, [w[0]], w[1..], resync);
  }

  // What has been completed stays, and every packet added carries a number to acknowledge it by.
  predicate Adds(a: Machine, b: Machine) {
    a.done <= b.done && forall i :: |a.done| <= i < |b.done| ==> b.done[i].next < 8
  }

  lemma TickAdds(m: Machine, b: bv8, resync: bool)
    requires Valid(m) && !Ready(m, b)
    ensures Adds(m, Tick(m, b, resync))
  {
    hide PayloadLen, Checksum, CheckFits, Seq, Reliable, NextSeq, HasCrc;
    if m.rx.Body? && |m.rx.skb| >= 4 {
      SeqIsSmall(m.rx.skb[0]);
    }
  }

  lemma {:induction false} SettleAdds(m: Machine, b: bv8, resync: bool)
    requires Valid(m)
    ensures Adds(m, Settle(m, b, resync))
    decreases Rank(m.rx)
  {
    hide Tick;
    if !Ready(m, b) {
      TickAdds(m, b, resync);
      SettleAdds(Tick(m, b, resync), b, resync);
    }
  }

  lemma {:induction false} RunAdds(m: Machine, w: seq<bv8>, resync: bool)
    requires Valid(m)
    ensures Adds(m, Run(m, w, resync))
  {
    hide Settle, Eat;
    if w != [] {
      var init := Run(m, w[..|w| - 1], resync);
      RunAdds(m, w[..|w| - 1], resync);
      SettleAdds(init, w[|w| - 1], resync);
    }
  }

  lemma RunNothing(m: Machine, resync: bool)
    requires Valid(m)
    ensures Run(m, [], resync) == m
  {}

  // ---------- delimited stretches ----------

  // The machine after the payload-level bytes f and a delimiter, read block by block.
  function Finish(m: Machine, f: seq<bv8>, resync: bool): (r: Machine)
    requires Valid(m)
    ensures Valid(r) && r.rx == Open
    decreases Rank(m.rx)
  {
    match m.rx
    case Hunt => m.(rx := Open)
    case Open => Finish(m.(rx := Body(Hdr, false, 4, [])), f, resync)
    case Body(phase, _, count, skb) =>
      if count == 0 then Finish(Tick(m, Slip.DELIM, resync), f, resync)
      else if |f| < count then m.(rx := Open)
      else
        KeepsHeader(skb, f[..count]);
        Finish(m.(rx := Body(phase, false, 0, skb + f[..count])), f[count..], resync)
  }

  lemma KeepsHeader(skb: seq<bv8>, more: seq<bv8>)
    ensures |skb| >= 4 ==> forall i :: 0 <= i < 4 ==> (skb + more)[i] == skb[i]
  {}

  predicate Escaping(m: Machine) { m.rx.Body? && m.rx.esc }

  lemma FinishAfterPut(m: Machine, c: bv8, f: seq<bv8>, resync: bool)
    requires Valid(m) && m.rx.Body? && m.rx.count > 0 && Valid(Put(m, c))
    ensures Finish(m, [c] + f, resync) == Finish(Put(m, c), f, resync)
  {
    var count, skb := m.rx.count, m.rx.skb;
    if |f| + 1 >= count {
      assert ([c] + f)[..count] == [c] + f[..count - 1];
      assert ([c] + f)[count..] == f[count - 1..];
      assert skb + ([c] + f)[..count] == (skb + [c]) + f[..count - 1];
      if count == 1 {
        assert f[0..] == f && (skb + [c]) + f[..0] == skb + [c];
      }
    }
  }

  lemma FinishIgnoresEscape(m: Machine, esc: bool, f: seq<bv8>, resync: bool)
    requires Valid(m) && m.rx.Body? && m.rx.count > 0
    ensures Finish(m, f, resync) == Finish(m.(rx := m.rx.(esc := esc)), f, resync)
  {}

  // The byte loop on a stretch w that ends with its first delimiter, from any reachable
  // state, is the block reader on the bytes w carries.
  lemma {:induction false} Segment(m: Machine, w: seq<bv8>, resync: bool)
    requires Valid(m) && Slip.DELIM !in w
    ensures Run(m, w + [Slip.DELIM], resync) == Finish(m, Slip.Decode(Escaping(m), w), resync)
    decreases |w|, Rank(m.rx)
  {
    var s := w + [Slip.DELIM];
    RunCons(m, s, resync);
    if !Ready(m, s[0]) {
      var t := Tick(m, s[0], resync);
      RunCons(t, s, resync);
      Segment(t, w, resync);
      TickAnyByte(m, s[0], resync);
    } else if w == [] {
      assert s[1..] == [];
    } else {
      assert s[1..] == w[1..] + [Slip.DELIM];
      var e := Eat(m, w[0]);
      Segment(e, w[1..], resync);
      EatThenFinish(m, w, resync);
    }
  }

  lemma TickAnyByte(m: Machine, b: bv8, resync: bool)
    requires Valid(m) && !Ready(m, b)
    ensures m.rx.Body? ==> Tick(m, b, resync) == Tick(m, Slip.DELIM, resync)
    ensures !Escaping(m) && !Escaping(Tick(m, b, resync))
  {}

  lemma EatThenFinish(m: Machine, w: seq<bv8>, resync: bool)
    requires Valid(m) && w != [] && Slip.DELIM !in w && Ready(m, w[0])
    ensures Finish(Eat(m, w[0]), Slip.Decode(Escaping(Eat(m, w[0])), w[1..]), resync)
         == Finish(m, Slip.Decode(Escaping(m), w), resync)
  {
    var b, e := w[0], Eat(m, w[0]);
    if m.rx.Body? {
      if !m.rx.esc {
        if b == Slip.ESC {
          FinishIgnoresEscape(m, true, Slip.Decode(true, w[1..]), resync);
        } else {
          FinishAfterPut(m, b, Slip.Decode(false, w[1..]), resync);
        }
      } else if Slip.IsEscaped(b) {
        FinishAfterPut(m, Slip.Unescape(b), Slip.Decode(false, w[1..]), resync);
      }
    }
  }

  // An open machine after the packets of an outcome.
  function Delivered(m: Machine, o: Outcome): Machine {
    Machine(Open, o.expected, m.done + o.packets)
  }

  // From an open state the block reader is the reference decoder.
  lemma FinishIsDecode(m: Machine, f: seq<bv8>, resync: bool)
    requires Valid(m) && m.rx.Open?
    ensures Finish(m, f, resync) == Delivered(m, Decode(f, m.expected, resync))
  {
    hide PayloadLen;
    assert m.done + [] == m.done;
    var h := m.(rx := Body(Hdr, false, 4, []));
    assert Finish(m, f, resync) == Finish(h, f, resync);
    if |f| >= 4 {
      var skb := f[..4];
      assert [] + f[..4] == skb;
      var h0 := m.(rx := Body(Hdr, false, 0, skb));
      assert Finish(h, f, resync) == Finish(h0, f[4..], resync);
      if HeaderAccepted(skb, m.expected) {
        var d := m.(rx := Body(Data, false, PayloadLen(f[1], f[2]), skb));
        assert Finish(h0, f[4..], resync) == Finish(d, f[4..], resync);
        DataIsDecode(m, f, resync);
      }
    }
  }

  lemma DataIsDecode(m: Machine, f: seq<bv8>, resync: bool)
    requires Valid(m) && m.rx.Open? && |f| >= 4 && HeaderAccepted(f[..4], m.expected)
    ensures Finish(m.(rx := Body(Data, false, End(f) - 4, f[..4])), f[4..], resync)
         == Delivered(m, Decode(f, m.expected, resync))
  {
    hide PayloadLen;
    var end := End(f);
    if |f| < end {
      assert m.done + [] == m.done;
    } else {
      SamePrefix(f, 4, end);
      assert Finish(m.(rx := Body(Data, false, end - 4, f[..4])), f[4..], resync)
          == Finish(m.(rx := Body(Data, false, 0, f[..end])), f[end..], resync);
      if HasCrc(f[0]) {
        assert Finish(m.(rx := Body(Data, false, 0, f[..end])), f[end..], resync)
            == Finish(m.(rx := Body(Check, false, 2, f[..end])), f[end..], resync);
        CheckIsDecode(m, f, resync);
      } else {
        PlainDone(m, f, resync);
      }
    }
  }

  lemma PlainDone(m: Machine, f: seq<bv8>, resync: bool)
    requires Valid(m) && m.rx.Open? && |f| >= 4 && HeaderAccepted(f[..4], m.expected) && !HasCrc(f[0])
    requires |f| >= End(f)
    ensures Finish(m.(rx := Body(Data, false, 0, f[..End(f)])), f[End(f)..], resync)
         == Delivered(m, Decode(f, m.expected, resync))
  {
    hide PayloadLen;
    var end := End(f);
    SamePrefix(f, 4, end);
    var d := m.(rx := Body(Data, false, 0, f[..end]));
    FinishComplete(d, f[end..], [], resync);
    CompleteIsAccept(m, d, f[..4], f[4..end], []);
  }

  lemma CheckIsDecode(m: Machine, f: seq<bv8>, resync: bool)
    requires Valid(m) && m.rx.Open? && |f| >= 4 && HeaderAccepted(f[..4], m.expected) && HasCrc(f[0])
    requires |f| >= End(f)
    ensures Finish(m.(rx := Body(Check, false, 2, f[..End(f)])), f[End(f)..], resync)
         == Delivered(m, Decode(f, m.expected, resync))
  {
    hide PayloadLen;
    var end := End(f);
    assert m.done + [] == m.done;
    if |f| >= end + 2 {
      SamePrefix(f, end, end + 2);
      assert Finish(m.(rx := Body(Check, false, 2, f[..end])), f[end..], resync)
          == Finish(m.(rx := Body(Check, false, 0, f[..end + 2])), f[end + 2..], resync);
      CheckedDone(m, f, resync);
    }
  }

  lemma CheckedDone(m: Machine, f: seq<bv8>, resync: bool)
    requires Valid(m) && m.rx.Open? && |f| >= 4 && HeaderAccepted(f[..4], m.expected) && HasCrc(f[0])
    requires |f| >= End(f) + 2
    ensures Finish(m.(rx := Body(Check, false, 0, f[..End(f) + 2])), f[End(f) + 2..], resync)
         == Delivered(m, Decode(f, m.expected, resync))
  {
    hide PayloadLen;
    var end := End(f);
    SamePrefix(f, end, end + 2);
    SamePrefix(f, 4, end);
    var c := m.(rx := Body(Check, false, 0, f[..end + 2]));
    FinishComplete(c, f[end + 2..], f[end..end + 2], resync);
    CompleteIsAccept(m, c, f[..4], f[4..end], f[end..end + 2]);
    assert m.done + [] == m.done;
  }

  lemma FinishComplete(c: Machine, f: seq<bv8>, dic: seq<bv8>, resync: bool)
    requires Valid(c) && c.rx.Body? && c.rx.count == 0 && !c.rx.phase.Hdr?
    requires c.rx.phase.Data? ==> !HasCrc(c.rx.skb[0]) && dic == []
    requires c.rx.phase.Check? ==> dic == c.rx.skb[End(c.rx.skb)..]
    ensures Finish(c, f, resync)
         == if c.rx.phase.Check? && !CheckFits(c.rx.skb[..End(c.rx.skb)], dic) then c.(rx := Open)
            else Complete(c, dic).(rx := Open)
  {
    var t := Tick(c, Slip.DELIM, resync);
    assert Finish(c, f, resync) == Finish(t, f, resync);
    assert t.rx.Hunt?;
  }

  lemma SamePrefix(f: seq<bv8>, a: nat, b: nat)
    requires 4 <= a <= b <= |f|
    ensures f[..a] + f[a..][..b - a] == f[..b] && f[a..][b - a..] == f[b..]
    ensures f[..b][..4] == f[..4] && f[..b][4..a] == f[4..a] && f[..b][..a] == f[..a] && f[..b][a..] == f[a..b]
    ensures f[..b][4..] == f[4..b]
    ensures forall i :: 0 <= i < 4 ==> f[..b][i] == f[i]
  {}

  lemma CompleteIsAccept(m: Machine, c: Machine, hdr: seq<bv8>, payload: seq<bv8>, dic: seq<bv8>)
    requires Valid(c) && c.rx.Body? && c.rx.count == 0 && !c.rx.phase.Hdr?
    requires c.done == m.done && c.expected == m.expected
    requires c.rx.skb[..4] == hdr && c.rx.skb[4..End(c.rx.skb)] == payload
    ensures Complete(c, dic) == Delivered(m, Accept(hdr, payload, dic, m.expected)).(rx := Hunt)
  {}
}
