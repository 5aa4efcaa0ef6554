/** What the receiver delivers on whole streams: it splits at delimiters and decodes each
    stretch; it recovers every packet a sender encodes; it keeps reliable packets in order.
 */
module Stream {
  import opened Frame
  import opened Receiver
  import Slip

  // ---------- splitting at delimiters ----------

  // Stretches of wire bytes, each ended by a delimiter.
  function Join(segs: seq<seq<bv8>>): seq<bv8> {
    if segs == [] then [] else Join(segs[..|segs| - 1]) + (segs[|segs| - 1] + [Slip.DELIM])
  }

  // The packets the stretches mean, one after the other.
  function Meaning(segs: seq<seq<bv8>>, expected: bv8, resync: bool): Outcome {
    if segs == [] then Outcome([], expected)
    else
      var before := Meaning(segs[..|segs| - 1], expected, resync);
      var last := Decode(Slip.Decode(false, segs[|segs| - 1]), before.expected, resync);
      Outcome(before.packets + last.packets, last.expected)
  }

  lemma OpenSegment(m: Machine, w: seq<bv8>, resync: bool)
    requires Valid(m) && m.rx.Open? && Slip.DELIM !in w
    ensures Run(m, w + [Slip.DELIM], resync) == Delivered(m, Decode(Slip.Decode(false, w), m.expected, resync))
  {
    Segment(m, w, resync);
    FinishIsDecode(m, Slip.Decode(false, w), resync);
  }

  // Every byte stream up to its last delimiter: the driver's loop computes the
  // packet-by-packet meaning, nothing more and nothing less.
  lemma {:induction false} StreamMeaning(m: Machine, segs: seq<seq<bv8>>, resync: bool)
    requires Valid(m) && m.rx.Open?
    requires forall w :: w in segs ==> Slip.DELIM !in w
    ensures Run(m, Join(segs), resync) == Delivered(m, Meaning(segs, m.expected, resync))
  {
    hide Run, Decode, Slip.Decode, Valid;
    RunNothing(m, resync);
    if segs == [] {
      assert m.done + [] == m.done;
    } else {
      var init, w := segs[..|segs| - 1], segs[|segs| - 1];
      assert forall v :: v in init ==> v in segs;
      StreamMeaning(m, init, resync);
      RunAppend(m, Join(init), w + [Slip.DELIM], resync);
      OpenSegment(Run(m, Join(init), resync), w, resync);
      var o := Meaning(init, m.expected, resync);
      var last := Decode(Slip.Decode(false, w), o.expected, resync);
      assert (m.done + o.packets) + last.packets == m.done + (o.packets + last.packets);
    }
  }

  // ---------- synchronisation ----------

  // What one delimiter leaves: anything pending is completed or dropped.
  function Flush(m: Machine, resync: bool): Machine
    requires Valid(m)
  {
    Finish(m, [], resync)
  }

  // From every reachable state (mid-escape, mid-check, frame pending) one delimiter
  // brings the receiver to the open state.
  lemma DelimiterSynchronises(m: Machine, resync: bool)
    requires Valid(m)
    ensures Run(m, [Slip.DELIM], resync) == Flush(m, resync)
    ensures Flush(m, resync).rx == Open && Valid(Flush(m, resync))
  {
    Segment(m, [], resync);
    assert [] + [Slip.DELIM] == [Slip.DELIM];
  }

  // ---------- recovering what was sent ----------

  // One packet as a sender hands it over, with the sequence and acknowledgement
  // numbers it is sent under.
  datatype Item = Item(ptype: bv8, payload: seq<bv8>, ack: bv8, seqno: bv8, useCrc: bool)

  predicate Legal(it: Item) {
    Sendable(it.ptype) && |it.payload| <= MAX_PAYLOAD && it.ack < 8 && it.seqno < 8
  }

  function WireOf(it: Item): seq<bv8> {
    Wire(it.ack, it.seqno, it.useCrc, it.ptype, it.payload)
  }

  function WireAll(items: seq<Item>): seq<bv8> {
    if items == [] then [] else WireAll(items[..|items| - 1]) + WireOf(items[|items| - 1])
  }

  function After(it: Item, expected: bv8): bv8 {
    if SentReliably(it.ptype) then NextSeq(it.seqno) else expected
  }

  // The sequence number expected after the items, and that each reliable one carries
  // the number expected when it arrives.
  function ExpectedAfter(items: seq<Item>, expected: bv8): bv8 {
    if items == [] then expected
    else After(items[|items| - 1], ExpectedAfter(items[..|items| - 1], expected))
  }

  predicate Numbered(items: seq<Item>, expected: bv8) {
    forall i :: 0 <= i < |items| && SentReliably(items[i].ptype) ==>
                  items[i].seqno == ExpectedAfter(items[..i], expected)
  }

  // Packet p is what item `it` was sent as.
  predicate Carries(p: Packet, it: Item) {
    p.payload == it.payload && p.hdr == Header(it.ack, it.seqno, it.useCrc, it.ptype, |it.payload|)
  }

  // From f to r exactly the items have been completed, in order, and r is open again.
  predicate Recovered(f: Machine, r: Machine, items: seq<Item>) {
    && r.rx == Open && |r.done| == |f.done| + |items| && r.done[..|f.done|] == f.done
    && (forall i :: 0 <= i < |items| ==> Carries(r.done[|f.done| + i], items[i]))
    && r.expected == ExpectedAfter(items, f.expected)
  }

  // Whatever was pending is flushed; then the framed bytes mean what they decode to.
  lemma Framed(m: Machine, raw: seq<bv8>, resync: bool)
    requires Valid(m)
    ensures var f := Flush(m, resync);
            && f.rx == Open && Valid(f)
            && Run(m, [Slip.DELIM] + Slip.Encode(raw) + [Slip.DELIM], resync)
               == Delivered(f, Decode(raw, f.expected, resync))
  {
    hide Flush, Decode, Run, Valid, Slip.Encode;
    var enc := Slip.Encode(raw);
    DelimiterSynchronises(m, resync);
    assert [Slip.DELIM] + enc + [Slip.DELIM] == [Slip.DELIM] + (enc + [Slip.DELIM]);
    RunAppend(m, [Slip.DELIM], enc + [Slip.DELIM], resync);
    Slip.EncodeClean(raw);
    Slip.DecodeOfEncode(raw);
    OpenSegment(Flush(m, resync), enc, resync);
  }

  lemma WireRecovered(m: Machine, it: Item, resync: bool)
    requires Valid(m) && Legal(it)
    requires SentReliably(it.ptype) ==> it.seqno == Flush(m, resync).expected
    ensures Recovered(Flush(m, resync), Run(m, WireOf(it), resync), [it])
  {
    hide PayloadLen, Decode, Frame.Bytes, Header, Slip.Encode, Slip.Decode, NextSeq, Flush, Run, Valid;
    var f := Flush(m, resync);
    var raw := Bytes(it.ack, it.seqno, it.useCrc, it.ptype, it.payload);
    Framed(m, raw, resync);
    DecodeBytes(it.ack, it.seqno, it.useCrc, it.ptype, it.payload, f.expected, resync);
    assert ExpectedAfter([it][..0], f.expected) == f.expected;
  }

  lemma RecoveredOneMore(f: Machine, q: Machine, r: Machine, items: seq<Item>)
    requires items != [] && Recovered(f, q, items[..|items| - 1]) && Recovered(q, r, [items[|items| - 1]])
    ensures Recovered(f, r, items)
  {
    var it := items[|items| - 1];
    assert [it][..0] == [];
    assert ExpectedAfter([it], q.expected) == After(it, q.expected);
    forall i | 0 <= i < |items| ensures Carries(r.done[|f.done| + i], items[i]) {
      if i < |items| - 1 {
        assert r.done[..|q.done|][|f.done| + i] == q.done[|f.done| + i];
        assert items[..|items| - 1][i] == items[i];
      }
    }
    assert r.done[..|f.done|] == r.done[..|q.done|][..|f.done|];
  }

  // Round trip from every reachable state: whatever was pending is finished first, then
  // exactly the packets sent are completed, in order, with their headers and payloads.
  lemma {:induction false} PacketsRecovered(m: Machine, items: seq<Item>, resync: bool)
    requires Valid(m) && items != []
    requires forall it :: it in items ==> Legal(it)
    requires Numbered(items, Flush(m, resync).expected)
    ensures Recovered(Flush(m, resync), Run(m, WireAll(items), resync), items)
  {
    hide PayloadLen, Header, NextSeq, Carries, WireOf;
    var init, it := items[..|items| - 1], items[|items| - 1];
    var f := Flush(m, resync);
    assert it in items;
    if init == [] {
      assert WireAll(init) == [];
      assert WireAll(items) == WireOf(it) && items == [it];
      assert ExpectedAfter([], f.expected) == f.expected;
      WireRecovered(m, it, resync);
    } else {
      RunAppend(m, WireAll(init), WireOf(it), resync);
      NumberedPrefix(items, f.expected);
      PacketsRecovered(m, init, resync);
      var q := Run(m, WireAll(init), resync);
      FlushOpen(q, resync);
      WireRecovered(q, it, resync);
      RecoveredOneMore(f, q, Run(m, WireAll(items), resync), items);
    }
  }

  lemma NumberedPrefix(items: seq<Item>, expected: bv8)
    requires items != [] && Numbered(items, expected)
    requires forall it :: it in items ==> Legal(it)
    ensures Numbered(items[..|items| - 1], expected)
    ensures forall it :: it in items[..|items| - 1] ==> Legal(it)
  {
    var init := items[..|items| - 1];
    assert forall v :: v in init ==> v in items;
    assert forall i :: 0 <= i < |init| ==> init[..i] == items[..i];
  }

  lemma FlushOpen(m: Machine, resync: bool)
    requires Valid(m) && m.rx.Open?
    ensures Flush(m, resync) == m
  {
    FinishIsDecode(m, [], resync);
    assert m.done + [] == m.done;
  }

  // No garbage can stop the next well-formed unreliable packet.
  lemma GarbageHarmless(m: Machine, garbage: seq<bv8>, it: Item, resync: bool)
    requires Valid(m) && Legal(it) && !SentReliably(it.ptype)
    ensures var r := Run(m, garbage + WireOf(it), resync);
            r.rx == Open && r.done != [] && Carries(r.done[|r.done| - 1], it)
  {
    RunAppend(m, garbage, WireOf(it), resync);
    var q := Run(m, garbage, resync);
    WireRecovered(q, it, resync);
    assert Carries(Run(q, WireOf(it), resync).done[|Flush(q, resync).done| + 0], it);
  }

  // A checked packet whose payload was damaged within two adjacent bytes is never
  // completed, from any reachable state.
  lemma DamageNotDelivered(m: Machine, it: Item, damaged: seq<bv8>, k: nat, resync: bool)
    requires Valid(m) && Legal(it) && it.useCrc
    requires |damaged| == |it.payload| && damaged != it.payload
    requires forall i :: 0 <= i < |damaged| && i != k && i != k + 1 ==> damaged[i] == it.payload[i]
    ensures var hdr := Header(it.ack, it.seqno, true, it.ptype, |damaged|);
            var dic := Bytes(it.ack, it.seqno, true, it.ptype, it.payload)[4 + |damaged|..];
            var wire := [Slip.DELIM] + Slip.Encode(hdr + damaged + dic) + [Slip.DELIM];
            Run(m, wire, resync).done == Flush(m, resync).done
  {
    var hdr := Header(it.ack, it.seqno, true, it.ptype, |damaged|);
    var dic := Bytes(it.ack, it.seqno, true, it.ptype, it.payload)[4 + |damaged|..];
    var f, raw := Flush(m, resync), hdr + damaged + dic;
    hide Flush, Decode, Frame.Bytes, Header, Slip.Encode, Run, Valid;
    Framed(m, raw, resync);
    DamageRefused(it.ack, it.seqno, it.ptype, it.payload, damaged, k, f.expected, resync);
  }

  // ---------- reliable delivery ----------

  // Sequence numbers of the reliable packets, in order.
  function ReliableSeqs(ps: seq<Packet>): seq<bv8>
    requires WellShaped(ps)
  {
    if ps == [] then []
    else
      var p := ps[|ps| - 1];
      ReliableSeqs(ps[..|ps| - 1]) + (if Reliable(p.hdr[0]) then [Seq(p.hdr[0])] else [])
  }

  predicate WellShaped(ps: seq<Packet>) {
    forall p :: p in ps ==> |p.hdr| == 4
  }

  // n numbers counting up modulo 8 from start, and the one after them.
  function CountUp(start: bv8, n: nat): (s: seq<bv8>)
    ensures |s| == n
  {
    if n == 0 then [] else CountUp(start, n - 1) + [Advance(start, n - 1)]
  }

  function Advance(start: bv8, n: nat): bv8 {
    if n == 0 then start else NextSeq(Advance(start, n - 1))
  }

  // The packets completed since m0 are numbered consecutively from what m0 expected.
  predicate InOrderSince(m0: Machine, m: Machine) {
    && |m0.done| <= |m.done| && m.done[..|m0.done|] == m0.done && WellShaped(m.done[|m0.done|..])
    && var seqs := ReliableSeqs(m.done[|m0.done|..]);
       seqs == CountUp(m0.expected, |seqs|) && m.expected == Advance(m0.expected, |seqs|)
  }

  lemma InOrderAtOnce(m: Machine)
    ensures InOrderSince(m, m)
  {
    assert m.done[|m.done|..] == [];
  }

  lemma OneMoreInOrder(m0: Machine, m: Machine, r: Machine, p: Packet)
    requires InOrderSince(m0, m)
    requires r.done == m.done + [p] && |p.hdr| == 4
    requires Reliable(p.hdr[0]) ==> Seq(p.hdr[0]) == m.expected && r.expected == NextSeq(m.expected)
    requires !Reliable(p.hdr[0]) ==> r.expected == m.expected
    ensures InOrderSince(m0, r)
  {
    hide NextSeq, Seq, Reliable;
    var n := |m0.done|;
    assert r.done[..n] == m.done[..n];
    assert r.done[n..] == m.done[n..] + [p];
    assert r.done[n..][..|r.done[n..]| - 1] == m.done[n..];
    assert r.done[n..][|r.done[n..]| - 1] == p;
  }

  lemma TickInOrder(m0: Machine, m: Machine, b: bv8)
    requires Valid(m) && !Ready(m, b) && InOrderSince(m0, m)
    ensures InOrderSince(m0, Tick(m, b, false))
  {
    var t := Tick(m, b, false);
    TickCompletes(m, b);
    if t.done != m.done {
      OneMoreInOrder(m0, m, t, t.done[|m.done|]);
    }
  }

  // A state change completes at most one packet, and only the one expected.
  lemma TickCompletes(m: Machine, b: bv8)
    requires Valid(m) && !Ready(m, b)
    ensures var t := Tick(m, b, false);
            || (t.done == m.done && t.expected == m.expected)
            || (|t.done| == |m.done| + 1 &&
                var p := t.done[|m.done|];
                && t.done == m.done + [p] && |p.hdr| == 4
                && if Reliable(p.hdr[0]) then Seq(p.hdr[0]) == m.expected && t.expected == NextSeq(m.expected)
                   else t.expected == m.expected)
  {
    hide PayloadLen, Checksum, CheckFits, Seq, Reliable, NextSeq;
  }

  lemma {:induction false} SettleInOrder(m0: Machine, m: Machine, b: bv8)
    requires Valid(m) && InOrderSince(m0, m)
    ensures InOrderSince(m0, Settle(m, b, false))
    decreases Rank(m.rx)
  {
    if !Ready(m, b) {
      TickInOrder(m0, m, b);
      SettleInOrder(m0, Tick(m, b, false), b);
    }
  }

  lemma {:induction false} StaysInOrder(m0: Machine, m: Machine, w: seq<bv8>)
    requires Valid(m) && InOrderSince(m0, m)
    ensures InOrderSince(m0, Run(m, w, false))
  {
    if w != [] {
      var init := w[..|w| - 1];
      StaysInOrder(m0, m, init);
      SettleInOrder(m0, Run(m, init, false), w[|w| - 1]);
    }
  }

  // While resynchronisation is off, over any input whatsoever the reliable packets
  // completed carry consecutive sequence numbers from the one expected at the start.
  lemma ReliableInOrder(m: Machine, w: seq<bv8>)
    requires Valid(m)
    ensures InOrderSince(m, Run(m, w, false))
  {
    InOrderAtOnce(m);
    StaysInOrder(m, m, w);
  }

  // What the decoder makes of a reliable packet as sent: the packet when its number is the
  // one expected; otherwise nothing, and the number is adopted if resynchronisation is on.
  lemma ReliableDecode(it: Item, expected: bv8, resync: bool)
    requires Legal(it) && SentReliably(it.ptype)
    ensures var o := Decode(Bytes(it.ack, it.seqno, it.useCrc, it.ptype, it.payload), expected, resync);
            if it.seqno == expected then |o.packets| == 1 && o.expected == NextSeq(it.seqno)
            else o == Outcome([], if resync then it.seqno else expected)
  {
    hide Frame.Bytes, Header, NextSeq, CheckFits, Checksum, PayloadLen;
    if it.seqno == expected {
      DecodeBytes(it.ack, it.seqno, it.useCrc, it.ptype, it.payload, expected, resync);
    } else {
      HeaderFields(it.ack, it.seqno, it.useCrc, it.ptype, |it.payload|);
      HeaderInFront(it);
    }
  }

  lemma HeaderInFront(it: Item)
    ensures var raw := Bytes(it.ack, it.seqno, it.useCrc, it.ptype, it.payload);
            var hdr := Header(it.ack, it.seqno, it.useCrc, it.ptype, |it.payload|);
            |raw| >= 4 && forall i :: 0 <= i < 4 ==> raw[i] == hdr[i]
  {
    hide Header;
  }

  // An open receiver and one more copy of a reliable packet.
  lemma OneMoreCopy(r: Machine, it: Item, resync: bool)
    requires Valid(r) && r.rx.Open? && Legal(it) && SentReliably(it.ptype)
    ensures var q := Run(r, WireOf(it), resync);
            && q.rx.Open?
            && (r.expected == it.seqno ==> |q.done| == |r.done| + 1 && q.expected == NextSeq(it.seqno)
                                           && q.done[..|r.done|] == r.done && Carries(q.done[|r.done|], it))
            && (r.expected != it.seqno ==> q.done == r.done
                                           && q.expected == if resync then it.seqno else r.expected)
  {
    hide Flush, Decode, Run, Valid, Frame.Bytes, Slip.Encode, NextSeq;
    var raw := Bytes(it.ack, it.seqno, it.useCrc, it.ptype, it.payload);
    Framed(r, raw, resync);
    FlushOpen(r, resync);
    ReliableDecode(it, r.expected, resync);
    assert r.done + [] == r.done;
    if r.expected == it.seqno {
      OneRecovered(r, it, resync);
    }
  }

  lemma OneRecovered(m: Machine, it: Item, resync: bool)
    requires Valid(m) && Legal(it) && SentReliably(it.ptype) && it.seqno == Flush(m, resync).expected
    ensures var f, r := Flush(m, resync), Run(m, WireOf(it), resync);
            |r.done| == |f.done| + 1 && r.done[..|f.done|] == f.done && Carries(r.done[|f.done|], it)
  {
    hide Flush, Run, Valid, WireOf, Carries;
    WireRecovered(m, it, resync);
    var f, r := Flush(m, resync), Run(m, WireOf(it), resync);
    assert Carries(r.done[|f.done| + 0], [it][0]);
  }

  function Copies(w: seq<bv8>, n: nat): seq<bv8> {
    if n == 0 then [] else Copies(w, n - 1) + w
  }

  // The number expected after n copies, e being the one expected before.
  function ExpectedAfterCopies(e: bv8, seqno: bv8, n: nat, resync: bool): bv8 {
    if !resync then if e == seqno then NextSeq(seqno) else e
    else if (e == seqno) == (n % 2 == 1) then NextSeq(seqno) else seqno
  }

  // How many of n copies are completed: every second one with resynchronisation, only a
  // first one that was expected without.
  function CompletedCopies(expected: bool, n: nat, resync: bool): nat {
    if resync then (if expected then (n + 1) / 2 else n / 2) else if expected then 1 else 0
  }

  lemma OneMoreCounted(e: bv8, seqno: bv8, n: nat, resync: bool)
    requires n > 0 && seqno < 8
    ensures var x := ExpectedAfterCopies(e, seqno, n, resync);
            && CompletedCopies(e == seqno, n + 1, resync)
               == CompletedCopies(e == seqno, n, resync) + (if x == seqno then 1 else 0)
            && ExpectedAfterCopies(e, seqno, n + 1, resync)
               == if x == seqno then NextSeq(seqno) else if resync then seqno else x
  {
    NextDiffers(seqno);
    hide NextSeq;
  }

  // A reliable packet that arrives any number of times in a row, from any reachable state:
  // exactly so many copies are completed after what was pending, each carrying the packet.
  lemma {:induction false} CopiesCompleted(m: Machine, it: Item, n: nat, resync: bool)
    requires Valid(m) && Legal(it) && SentReliably(it.ptype) && n > 0
    ensures var f, r := Flush(m, resync), Run(m, Copies(WireOf(it), n), resync);
            && r.rx.Open? && r.expected == ExpectedAfterCopies(f.expected, it.seqno, n, resync)
            && |r.done| == |f.done| + CompletedCopies(f.expected == it.seqno, n, resync)
            && r.done[..|f.done|] == f.done
            && forall i :: |f.done| <= i < |r.done| ==> Carries(r.done[i], it)
  {
    hide Flush, Run, Valid, WireOf, NextSeq, Carries, ExpectedAfterCopies, CompletedCopies;
    var w := WireOf(it);
    if n == 1 {
      assert Copies(w, 1) == w;
      FirstCopy(m, it, resync);
      FirstCounted(Flush(m, resync).expected, it.seqno, resync);
    } else {
      var q := Run(m, Copies(w, n - 1), resync);
      CopiesCompleted(m, it, n - 1, resync);
      RunAppend(m, Copies(w, n - 1), w, resync);
      OneMoreCopy(q, it, resync);
      OneMoreCounted(Flush(m, resync).expected, it.seqno, n - 1, resync);
      ExtraCarries(Flush(m, resync).done, q.done, Run(q, w, resync).done, it);
    }
  }

  lemma FirstCounted(e: bv8, seqno: bv8, resync: bool)
    ensures CompletedCopies(e == seqno, 1, resync) == if e == seqno then 1 else 0
    ensures ExpectedAfterCopies(e, seqno, 1, resync)
         == if e == seqno then NextSeq(seqno) else if resync then seqno else e
  {
    hide NextSeq;
  }

  lemma ExtraCarries(f: seq<Packet>, q: seq<Packet>, r: seq<Packet>, it: Item)
    requires |f| <= |q| <= |r| <= |q| + 1 && q[..|f|] == f && r[..|q|] == q
    requires forall i :: |f| <= i < |q| ==> Carries(q[i], it)
    requires |r| > |q| ==> Carries(r[|q|], it)
    ensures r[..|f|] == f && forall i :: |f| <= i < |r| ==> Carries(r[i], it)
  {
    hide Carries;
    assert r[..|f|] == r[..|q|][..|f|];
    forall i | |f| <= i < |r| ensures Carries(r[i], it) {
      if i < |q| {
        assert r[i] == r[..|q|][i];
      }
    }
  }

  // A reliable packet that arrives three times in a row, from any reachable state.  Without
  // resynchronisation the copies complete nothing.  With it every second copy is completed:
  // the first and the third when the packet was the one expected, else the second.
  lemma RetransmissionCompleted(m: Machine, it: Item, resync: bool)
    requires Valid(m) && Legal(it) && SentReliably(it.ptype)
    ensures var w := WireOf(it);
            var r1, r2, r3 := Run(m, w, resync), Run(m, w + w, resync), Run(m, w + w + w, resync);
            && (!resync ==> r3.done == r2.done == r1.done)
            && (resync && it.seqno == Flush(m, resync).expected ==>
                  r2.done == r1.done && |r3.done| == |r1.done| + 1)
            && (resync && it.seqno != Flush(m, resync).expected ==>
                  |r2.done| == |r1.done| + 1 && r3.done == r2.done)
  {
    hide Flush, Decode, Run, Valid, WireOf, NextSeq;
    var w := WireOf(it);
    FirstCopy(m, it, resync);
    var r1 := Run(m, w, resync);
    RunAppend(m, w, w, resync);
    RunAppend(m, w + w, w, resync);
    NextDiffers(it.seqno);
    OneMoreCopy(r1, it, resync);
    OneMoreCopy(Run(r1, w, resync), it, resync);
  }

  lemma FirstCopy(m: Machine, it: Item, resync: bool)
    requires Valid(m) && Legal(it) && SentReliably(it.ptype)
    ensures var q := Run(m, WireOf(it), resync); var e := Flush(m, resync).expected;
            && q.rx.Open? && Valid(q)
            && q.expected == (if e == it.seqno then NextSeq(it.seqno) else if resync then it.seqno else e)
            && var f := Flush(m, resync);
               && |q.done| == |f.done| + (if e == it.seqno then 1 else 0) && q.done[..|f.done|] == f.done
               && (e == it.seqno ==> Carries(q.done[|f.done|], it))
  {
    hide Flush, Decode, Run, Valid, Frame.Bytes, Slip.Encode, NextSeq, Carries;
    var raw := Bytes(it.ack, it.seqno, it.useCrc, it.ptype, it.payload);
    Framed(m, raw, resync);
    ReliableDecode(it, Flush(m, resync).expected, resync);
    if it.seqno == Flush(m, resync).expected {
      OneRecovered(m, it, resync);
    }
  }

  lemma NextDiffers(n: bv8)
    requires n < 8
    ensures NextSeq(n) != n
  {}
}
