/** What the driver does with a completed packet: link establishment (Bluetooth Core
    Specification v4.0, Volume 4, Part D, section 8), command completions and download
    acknowledgements.
 */
module Hosts {
  import opened Frame
  import Readers
  import Slip

  datatype LinkState = Sync | Config | Init | Patch | Active

  type u16 = n: int | 0 <= n < 0x1_0000

  /** The state the packets drive: link state, acknowledged download index (-1 before the
      first), counted command completions (16 bits), the three command replies waited for,
      and what has been written to the serial port. */
  datatype Host = Host(link: LinkState, rxIndex: int, cmdsDone: u16,
                       versionSeen: bool, romSeen: bool, chipSeen: bool, written: seq<seq<bv8>>)

  const BUFFER_SIZE := 0x1005

  // Packet types handed to the layer above.
  predicate PassUp(ptype: bv8) {
    ptype == ACL || ptype == EVENT || ptype == SCO || ptype == COMMAND || ptype == LINK_CTL
  }

  // The receive buffer when the layer above sees it: header pulled off the front, the
  // bytes behind the payload still as they were received or cleared.
  function Image(p: Packet): (b: seq<bv8>)
    ensures |b| >= BUFFER_SIZE && |b| >= |p.payload|
    ensures forall i :: 0 <= i < |p.payload| ==> b[i] == p.payload[i]
  {
    var raw := p.hdr + p.payload + p.dic;
    p.payload + (if |p.payload| <= |raw| then raw[|p.payload|..] else [])
    + seq(if |raw| <= BUFFER_SIZE then BUFFER_SIZE - |raw| else 0, i => 0)
  }

  const SYNC_RESPONSE: seq<bv8> := [0xc0, 0x00, 0x2f, 0x00, 0xd0, 0x02, 0x7d, 0xc0]
  const CONFIG_RESPONSE: seq<bv8> := [0xc0, 0x00, 0x2f, 0x00, 0xd0, 0x04, 0x7b, 0xc0]

  const CMD_COMPLETE: bv8 := 0x0e

  function PureAck(useCrc: bool, ack: bv8): seq<bv8> { Wire(ack, 0, useCrc, Frame.ACK, []) }

  function Written(h: Host, bytes: seq<bv8>): Host { h.(written := h.written + [bytes]) }

  // A command-complete event during initialisation: opcode in bytes 3 and 4.
  function CommandComplete(h: Host, lo: bv8, hi: bv8): Host {
    var counted := h.(cmdsDone := (h.cmdsDone + 1) % 0x1_0000);
    if hi == 0xfc && lo == 0x17 then counted.(link := Patch)
    else if hi == 0x10 && lo == 0x09 then counted
    else if hi == 0x10 && lo == 0x01 then counted.(versionSeen := true)
    else if hi == 0xfc && lo == 0x6d then counted.(romSeen := true)
    else if hi == 0xfc && lo == 0x61 then counted.(chipSeen := true)
    else h
  }

  // A download acknowledgement: index in the low seven bits, the top bit marks the last.
  function AckedIndex(b: bv8): nat { (b & 0x7f) as nat }
  predicate IsLast(b: bv8) { b & 0x80 != 0 }

  function InSync(h: Host, b0: bv8, b1: bv8): Host {
    if b0 == 0x01 && b1 == 0x7e then Written(h, SYNC_RESPONSE)
    else if b0 == 0x02 && b1 == 0x7d then h.(link := Config)
    else h
  }

  function InConfig(h: Host, b0: bv8, b1: bv8, pureAck: seq<bv8>): Host {
    if b0 == 0x01 && b1 == 0x7e then Written(h, SYNC_RESPONSE)
    else if b0 == 0x03 && b1 == 0xfc then Written(h, CONFIG_RESPONSE)
    else if b0 == 0x04 && b1 == 0x7b then h.(link := Init)
    else Written(h, pureAck)
  }

  function InInit(h: Host, b: seq<bv8>, len: nat, pureAck: seq<bv8>): Host
    requires |b| >= 7
  {
    var h' := if b[0] == CMD_COMPLETE && len >= 5 then CommandComplete(h, b[3], b[4]) else h;
    Written(Written(Written(h', pureAck), pureAck), pureAck)
  }

  function InPatch(h: Host, b0: bv8, b6: bv8, pureAck: seq<bv8>): Host {
    if b0 != CMD_COMPLETE then Written(h, pureAck)
    else h.(rxIndex := AckedIndex(b6), link := if IsLast(b6) then Active else h.link)
  }

  // The layer above on the buffer image b of a payload of `len` bytes.
  function ReceiveFrame(useCrc: bool, h: Host, b: seq<bv8>, len: nat, ack: bv8): Host
    requires |b| >= 7
  {
    match h.link
    case Sync => InSync(h, b[0], b[1])
    case Config => InConfig(h, b[0], b[1], PureAck(useCrc, ack))
    case Init => InInit(h, b, len, PureAck(useCrc, ack))
    case Patch => InPatch(h, b[0], b[6], PureAck(useCrc, ack))
    case Active => h
  }

  function Receive(useCrc: bool, h: Host, p: Packet): Host {
    if |p.hdr| == 4 && PassUp(Type(p.hdr[1])) then
      ReceiveFrame(useCrc, h, Image(p), |p.payload|, p.next)
    else h
  }

  function ReceiveAll(useCrc: bool, h: Host, ps: seq<Packet>): Host {
    if ps == [] then h
    else Receive(useCrc, ReceiveAll(useCrc, h, ps[..|ps| - 1]), ps[|ps| - 1])
  }

  lemma {:induction false} ReceiveAllAppend(useCrc: bool, h: Host, a: seq<Packet>, b: seq<Packet>)
    ensures ReceiveAll(useCrc, h, a + b) == ReceiveAll(useCrc, ReceiveAll(useCrc, h, a), b)
  {
    hide Receive;
    if b == [] {
      assert a + b == a;
    } else {
      assert (a + b)[..|a + b| - 1] == a + b[..|b| - 1];
      ReceiveAllAppend(useCrc, h, a, b[..|b| - 1]);
    }
  }

  // ---------- counted completions ----------

  // Types 1 to 4 and link control go up.
  predicate HandedOn(p: Packet) {
    |p.hdr| == 4 && p.hdr[1] & 0x0f in [0x01, 0x02, 0x03, 0x04, 0x0f]
  }

  lemma HandedOnIs(p: Packet)
    ensures HandedOn(p) <==> |p.hdr| == 4 && PassUp(Type(p.hdr[1]))
  {}

  // A completion the driver counts: of one of the five commands it knows, and only while
  // initialising.
  predicate Counts(link: LinkState, p: Packet) {
    && link.Init? && HandedOn(p) && Image(p)[0] == 0x0e && |p.payload| >= 5
    && Known(Image(p)[3], Image(p)[4])
  }

  // What skb_pull leaves of a buffer's 32-bit length.
  function LengthLeft(len: nat, n: nat): nat {
    (len - n) % 0x1_0000_0000
  }

  // A completion while initialising that ends before its opcode does.
  predicate CutShort(link: LinkState, p: Packet) {
    link.Init? && HandedOn(p) && Image(p)[0] == CMD_COMPLETE && |p.payload| < 5
  }

  // On such a one, and on no other completion, the length the driver has left after pulling
  // both event headers has wrapped; here it is answered like any packet and changes nothing.
  lemma LengthWraps(useCrc: bool, h: Host, p: Packet)
    requires h.link.Init? && HandedOn(p) && Image(p)[0] == CMD_COMPLETE && |p.payload| < 0x1000
    ensures LengthLeft(LengthLeft(|p.payload|, 2), 3) > |p.payload| <==> CutShort(h.link, p)
    ensures var a := PureAck(useCrc, p.next);
            CutShort(h.link, p) ==> Receive(useCrc, h, p) == h.(written := h.written + [a] + [a] + [a])
  {
    hide Image, PureAck, PassUp, HandedOn;
    ShorterWraps(|p.payload|);
    if CutShort(h.link, p) {
      CutShortAnswered(useCrc, h, p);
    }
  }

  lemma ShorterWraps(n: nat)
    requires n < 0x1000
    ensures LengthLeft(LengthLeft(n, 2), 3) > n <==> n < 5
  {}

  lemma CutShortAnswered(useCrc: bool, h: Host, p: Packet)
    requires CutShort(h.link, p)
    ensures var a := PureAck(useCrc, p.next);
            Receive(useCrc, h, p) == h.(written := h.written + [a] + [a] + [a])
  {
    hide Image, PureAck, CommandComplete, PassUp, LengthLeft, Type;
    HandedOnIs(p);
  }

  // An event of two bytes.
  lemma TwoByteCompletion()
    ensures var p := Packet([0x00, 0x24, 0x00, 0xdb], [0x0e, 0x00], [], 0);
            CutShort(Init, p) && LengthLeft(LengthLeft(|p.payload|, 2), 3) == 0xffff_fffd
  {
    hide Image;
    var p := Packet([0x00, 0x24, 0x00, 0xdb], [0x0e, 0x00], [], 0);
  }

  predicate Known(lo: bv8, hi: bv8) {
    (hi == 0xfc && (lo == 0x17 || lo == 0x6d || lo == 0x61)) || (hi == 0x10 && (lo == 0x09 || lo == 0x01))
  }

  // Link establishment, whatever else the driver remembers.
  function NextLink(link: LinkState, p: Packet): LinkState {
    if !HandedOn(p) then link
    else
      var b := Image(p);
      match link
      case Sync => if b[0] == 0x02 && b[1] == 0x7d then Config else Sync
      case Config => if b[0] == 0x04 && b[1] == 0x7b then Init else Config
      case Init => if Counts(Init, p) && b[3] == 0x17 && b[4] == 0xfc then Patch else Init
      case Patch => if b[0] == 0x0e && b[6] >= 0x80 then Active else Patch
      case Active => Active
  }

  function LinkAfter(link: LinkState, ps: seq<Packet>): LinkState {
    if ps == [] then link else NextLink(LinkAfter(link, ps[..|ps| - 1]), ps[|ps| - 1])
  }

  // How many of the packets are counted, starting in a link state.
  function Completions(link: LinkState, ps: seq<Packet>): nat {
    if ps == [] then 0
    else
      var init := ps[..|ps| - 1];
      Completions(link, init) + (if Counts(LinkAfter(link, init), ps[|ps| - 1]) then 1 else 0)
  }

  lemma OneCounted(useCrc: bool, h: Host, p: Packet)
    ensures Receive(useCrc, h, p).link == NextLink(h.link, p)
    ensures Receive(useCrc, h, p).cmdsDone == (h.cmdsDone + if Counts(h.link, p) then 1 else 0) % 0x1_0000
  {
    hide Image, PureAck, PassUp, AckedIndex, IsLast, CommandComplete, Known, HandedOn, Type, InSync, InConfig, InPatch;
    HandedOnIs(p);
    var b, a := Image(p), PureAck(useCrc, p.next);
    StateKept(h, b, a);
    match h.link
    case Init => CompletionCounted(h, b[3], b[4]);
    case Patch => PatchLink(h, b[0], b[6], a);
    case Sync => SyncLink(h, b[0], b[1]);
    case Config => ConfigLink(h, b[0], b[1], a);
    case Active =>
  }

  lemma SyncLink(h: Host, b0: bv8, b1: bv8)
    requires h.link.Sync?
    ensures InSync(h, b0, b1).link == if b0 == 0x02 && b1 == 0x7d then Config else Sync
  {}

  lemma ConfigLink(h: Host, b0: bv8, b1: bv8, a: seq<bv8>)
    requires h.link.Config?
    ensures InConfig(h, b0, b1, a).link == if b0 == 0x04 && b1 == 0x7b then Init else Config
  {}

  lemma PatchLink(h: Host, b0: bv8, b6: bv8, a: seq<bv8>)
    requires h.link.Patch?
    ensures InPatch(h, b0, b6, a).link == if b0 == 0x0e && b6 >= 0x80 then Active else Patch
  {}

  // What the other states leave alone.
  lemma StateKept(h: Host, b: seq<bv8>, a: seq<bv8>)
    requires |b| >= 7
    ensures forall r :: r in [InSync(h, b[0], b[1]), InConfig(h, b[0], b[1], a), InPatch(h, b[0], b[6], a)] ==>
              && r.cmdsDone == h.cmdsDone && r.versionSeen == h.versionSeen && r.romSeen == h.romSeen
              && r.chipSeen == h.chipSeen
    ensures InSync(h, b[0], b[1]).rxIndex == InConfig(h, b[0], b[1], a).rxIndex == h.rxIndex
  {}

  lemma LastBit(b: bv8)
    ensures IsLast(b) <==> b >= 0x80
    ensures AckedIndex(b) == (b & 0x7f) as nat
  {}

  lemma CompletionCounted(h: Host, lo: bv8, hi: bv8)
    ensures CommandComplete(h, lo, hi).link == if lo == 0x17 && hi == 0xfc then Patch else h.link
    ensures CommandComplete(h, lo, hi).cmdsDone == (h.cmdsDone + if Known(lo, hi) then 1 else 0) % 0x1_0000
    ensures lo == 0x17 && hi == 0xfc ==> Known(lo, hi)
  {}

  // The counter is the number of completions counted, in sixteen bits.
  lemma {:induction false} AllCounted(useCrc: bool, h: Host, ps: seq<Packet>)
    ensures ReceiveAll(useCrc, h, ps).link == LinkAfter(h.link, ps)
    ensures ReceiveAll(useCrc, h, ps).cmdsDone == (h.cmdsDone + Completions(h.link, ps)) % 0x1_0000
  {
    hide Receive, NextLink, Counts;
    if ps != [] {
      var init := ps[..|ps| - 1];
      AllCounted(useCrc, h, init);
      OneCounted(useCrc, ReceiveAll(useCrc, h, init), ps[|ps| - 1]);
    }
  }

  lemma {:induction false} CompletionsAppend(link: LinkState, a: seq<Packet>, b: seq<Packet>)
    ensures LinkAfter(link, a + b) == LinkAfter(LinkAfter(link, a), b)
    ensures Completions(link, a + b) == Completions(link, a) + Completions(LinkAfter(link, a), b)
  {
    hide NextLink, Counts;
    if b == [] {
      assert a + b == a;
    } else {
      assert (a + b)[..|a + b| - 1] == a + b[..|b| - 1];
      CompletionsAppend(link, a, b[..|b| - 1]);
    }
  }

  // The canned link-control replies are what the encoder makes of their payloads.
  lemma CannedReplies()
    ensures SYNC_RESPONSE == Wire(0, 0, false, LINK_CTL, [0x02, 0x7d])
    ensures CONFIG_RESPONSE == Wire(0, 0, false, LINK_CTL, [0x04, 0x7b])
  {
    LinkControl(0x02, 0x7d);
    LinkControl(0x04, 0x7b);
  }

  // Two payload bytes that need no escape.
  lemma LinkControl(a: bv8, b: bv8)
    requires Slip.EncodeByte(a) == [a] && Slip.EncodeByte(b) == [b]
    ensures Wire(0, 0, false, LINK_CTL, [a, b]) == [0xc0, 0x00, 0x2f, 0x00, 0xd0, a, b, 0xc0]
  {
    hide Header, Slip.EncodeByte, Slip.Encode;
    LinkControlHeader();
    var raw := Frame.Bytes(0, 0, false, LINK_CTL, [a, b]);
    assert raw == [0x00, 0x2f, 0x00, 0xd0, a, b];
    Plain();
    Slip.EncodePlain(raw);
  }

  lemma LinkControlHeader()
    ensures Header(0, 0, false, LINK_CTL, 2) == [0x00, 0x2f, 0x00, 0xd0]
  {
    assert LenLow(2) == 0x20 && LenHigh(2) == 0;
  }

  lemma Plain()
    ensures forall c | c in [0x00, 0x2f, 0xd0 as bv8] :: Slip.EncodeByte(c) == [c]
  {}

  // A completed packet that acknowledges download index n.
  predicate Acknowledges(p: Packet, n: int) {
    HandedOn(p) && Image(p)[0] == 0x0e && (Image(p)[6] & 0x7f) as nat == n
  }

  // The acknowledged index changes only by an acknowledgement received in patch state.
  lemma {:induction false} IndexFromAcknowledgement(useCrc: bool, h: Host, ps: seq<Packet>)
    requires ReceiveAll(useCrc, h, ps).rxIndex != h.rxIndex
    ensures exists j :: && 0 <= j < |ps|
                        && ReceiveAll(useCrc, h, ps[..j]).link == Patch
                        && Acknowledges(ps[j], ReceiveAll(useCrc, h, ps).rxIndex)
  {
    hide Receive, Acknowledges;
    var init, p := ps[..|ps| - 1], ps[|ps| - 1];
    var h' := ReceiveAll(useCrc, h, init);
    var n := ReceiveAll(useCrc, h, ps).rxIndex;
    if n == h'.rxIndex {
      IndexFromAcknowledgement(useCrc, h, init);
      var j :| 0 <= j < |init| && ReceiveAll(useCrc, h, init[..j]).link == Patch && Acknowledges(init[j], n);
      assert init[..j] == ps[..j] && init[j] == ps[j];
    } else {
      IndexChange(useCrc, h', p);
    }
  }

  lemma IndexChange(useCrc: bool, h: Host, p: Packet)
    requires Receive(useCrc, h, p).rxIndex != h.rxIndex
    ensures h.link == Patch && Acknowledges(p, Receive(useCrc, h, p).rxIndex)
  {
    hide Receive, Image, HandedOn, Completes;
    OneSeen(useCrc, h, p);
  }

  // ---------- what is answered ----------

  function Reply(a: bv8, b: bv8): Readers.Got { Readers.Got(0x0f, 0, false, 0, [a, b]) }
  function Acked(n: bv8): Readers.Got { Readers.Got(0x00, n, false, 0, []) }

  // The packets written in answer to one, as they read back.
  function Replies(link: LinkState, p: Packet): seq<Readers.Got> {
    if !HandedOn(p) then []
    else
      var b := Image(p);
      match link
      case Sync => if b[0] == 0x01 && b[1] == 0x7e then [Reply(0x02, 0x7d)] else []
      case Config =>
        if b[0] == 0x01 && b[1] == 0x7e then [Reply(0x02, 0x7d)]
        else if b[0] == 0x03 && b[1] == 0xfc then [Reply(0x04, 0x7b)]
        else if b[0] == 0x04 && b[1] == 0x7b then []
        else [Acked(p.next)]
      case Init => [Acked(p.next), Acked(p.next), Acked(p.next)]
      case Patch => if b[0] != 0x0e then [Acked(p.next)] else []
      case Active => []
  }

  function AllReplies(link: LinkState, ps: seq<Packet>): seq<Readers.Got> {
    if ps == [] then []
    else AllReplies(link, ps[..|ps| - 1]) + Replies(LinkAfter(link, ps[..|ps| - 1]), ps[|ps| - 1])
  }

  // What a host has written since another.
  predicate Answers(a: Host, b: Host, gs: seq<Readers.Got>) {
    a.written <= b.written && Readers.ReadAll(b.written[|a.written|..]) == gs
  }

  lemma AnswersTwice(a: Host, b: Host, c: Host, gs: seq<Readers.Got>, hs: seq<Readers.Got>)
    requires Answers(a, b, gs) && Answers(b, c, hs)
    ensures Answers(a, c, gs + hs)
  {
    hide Readers.Read;
    assert c.written[|a.written|..] == b.written[|a.written|..] + c.written[|b.written|..];
  }

  lemma AckReads(useCrc: bool, n: bv8)
    requires n < 8
    ensures Readers.Read(PureAck(useCrc, n)) == Acked(n)
  {
    hide Wire, Readers.Read;
    Readers.ReadWire(n, 0, useCrc, Frame.ACK, []);
  }

  lemma RepliesRead()
    ensures Readers.Read(SYNC_RESPONSE) == Reply(0x02, 0x7d)
    ensures Readers.Read(CONFIG_RESPONSE) == Reply(0x04, 0x7b)
  {
    CannedReplies();
    hide Wire, Readers.Read;
    Readers.ReadWire(0, 0, false, LINK_CTL, [0x02, 0x7d]);
    Readers.ReadWire(0, 0, false, LINK_CTL, [0x04, 0x7b]);
  }

  lemma OneAnswered(useCrc: bool, h: Host, p: Packet)
    requires p.next < 8
    ensures Answers(h, Receive(useCrc, h, p), Replies(h.link, p))
  {
    hide Image, PassUp, Type, HandedOn, Answers, Reply, Acked, InSync, InConfig, InInit, InPatch, PureAck;
    HandedOnIs(p);
    var a, b := PureAck(useCrc, p.next), Image(p);
    AnswersNone(h, h);
    if HandedOn(p) {
      match h.link
      case Sync => SyncAnswered(h, p);
      case Config => ConfigAnswered(useCrc, h, p);
      case Init => InitAnswered(useCrc, h, p);
      case Patch => PatchAnswered(useCrc, h, p);
      case Active =>
    }
  }

  lemma SyncAnswered(h: Host, p: Packet)
    requires h.link.Sync? && HandedOn(p)
    ensures Answers(h, InSync(h, Image(p)[0], Image(p)[1]), Replies(Sync, p))
  {
    hide Image, HandedOn, Readers.Read, Reply, Answers, InSync;
    RepliesRead();
    var b := Image(p);
    var r := InSync(h, b[0], b[1]);
    SyncWrites(h, b[0], b[1]);
    AnswersNone(h, r);
    AnswersOne(h, r);
  }

  lemma ConfigAnswered(useCrc: bool, h: Host, p: Packet)
    requires h.link.Config? && HandedOn(p) && p.next < 8
    ensures Answers(h, InConfig(h, Image(p)[0], Image(p)[1], PureAck(useCrc, p.next)), Replies(Config, p))
  {
    hide Image, HandedOn, Readers.Read, Reply, Acked, Answers, InConfig, PureAck;
    RepliesRead();
    AckReads(useCrc, p.next);
    var b, a := Image(p), PureAck(useCrc, p.next);
    var r := InConfig(h, b[0], b[1], a);
    ConfigWrites(h, b[0], b[1], a);
    AnswersNone(h, r);
    AnswersOne(h, r);
  }

  lemma InitAnswered(useCrc: bool, h: Host, p: Packet)
    requires HandedOn(p) && p.next < 8
    ensures Answers(h, InInit(h, Image(p), |p.payload|, PureAck(useCrc, p.next)), Replies(Init, p))
  {
    hide Image, HandedOn, Readers.Read, Acked, Answers, CommandComplete, PureAck;
    AckReads(useCrc, p.next);
    var b, a := Image(p), PureAck(useCrc, p.next);
    CompleteWritesNothing(h, b[3], b[4]);
    AnswersThree(h, InInit(h, b, |p.payload|, a), a);
  }

  lemma PatchAnswered(useCrc: bool, h: Host, p: Packet)
    requires HandedOn(p) && p.next < 8
    ensures Answers(h, InPatch(h, Image(p)[0], Image(p)[6], PureAck(useCrc, p.next)), Replies(Patch, p))
  {
    hide Image, HandedOn, Readers.Read, Acked, Answers, InPatch, PureAck;
    AckReads(useCrc, p.next);
    var b, a := Image(p), PureAck(useCrc, p.next);
    var r := InPatch(h, b[0], b[6], a);
    PatchWrites(h, b[0], b[6], a);
    AnswersNone(h, r);
    AnswersOne(h, r);
  }

  lemma AnswersNone(h: Host, r: Host)
    ensures r.written == h.written ==> Answers(h, r, [])
  {}

  lemma AnswersOne(h: Host, r: Host)
    ensures |r.written| == |h.written| + 1 && r.written[..|h.written|] == h.written ==>
              Answers(h, r, [Readers.Read(r.written[|h.written|])])
  {
    hide Readers.Read;
  }

  lemma AnswersThree(h: Host, r: Host, a: seq<bv8>)
    ensures r.written == h.written + [a] + [a] + [a] ==>
              Answers(h, r, [Readers.Read(a), Readers.Read(a), Readers.Read(a)])
  {
    hide Readers.Read;
  }

  lemma SyncWrites(h: Host, b0: bv8, b1: bv8)
    ensures InSync(h, b0, b1).written
         == if b0 == 0x01 && b1 == 0x7e then h.written + [SYNC_RESPONSE] else h.written
  {}

  lemma ConfigWrites(h: Host, b0: bv8, b1: bv8, a: seq<bv8>)
    ensures InConfig(h, b0, b1, a).written
         == if b0 == 0x01 && b1 == 0x7e then h.written + [SYNC_RESPONSE]
            else if b0 == 0x03 && b1 == 0xfc then h.written + [CONFIG_RESPONSE]
            else if b0 == 0x04 && b1 == 0x7b then h.written else h.written + [a]
  {}

  lemma PatchWrites(h: Host, b0: bv8, b6: bv8, a: seq<bv8>)
    ensures InPatch(h, b0, b6, a).written == if b0 != 0x0e then h.written + [a] else h.written
    ensures InPatch(h, b0, b6, a).rxIndex == if b0 == 0x0e then (b6 & 0x7f) as nat else h.rxIndex
  {}

  lemma CompleteWritesNothing(h: Host, lo: bv8, hi: bv8)
    ensures CommandComplete(h, lo, hi).written == h.written
  {}

  // Over any packets, what is written reads back as exactly the answers to them, in order.
  lemma {:induction false} AllAnswered(useCrc: bool, h: Host, ps: seq<Packet>)
    requires forall p :: p in ps ==> p.next < 8
    ensures Answers(h, ReceiveAll(useCrc, h, ps), AllReplies(h.link, ps))
  {
    hide Receive, Replies, NextLink, Counts, Readers.Read;
    if ps != [] {
      var init := ps[..|ps| - 1];
      AllAnswered(useCrc, h, init);
      AllCounted(useCrc, h, init);
      OneAnswered(useCrc, ReceiveAll(useCrc, h, init), ps[|ps| - 1]);
      AnswersTwice(h, ReceiveAll(useCrc, h, init), ReceiveAll(useCrc, h, ps),
                   AllReplies(h.link, init), Replies(LinkAfter(h.link, init), ps[|ps| - 1]));
    }
  }

  // ---------- which replies are seen, and which index ----------

  // A completion of the command with the opcode hi:lo, while initialising.
  predicate Completes(link: LinkState, p: Packet, lo: bv8, hi: bv8) {
    Counts(link, p) && Image(p)[3] == lo && Image(p)[4] == hi
  }

  predicate Completed(link: LinkState, ps: seq<Packet>, lo: bv8, hi: bv8) {
    exists j :: 0 <= j < |ps| && Completes(LinkAfter(link, ps[..j]), ps[j], lo, hi)
  }

  lemma OneMoreCompleted(link: LinkState, ps: seq<Packet>, lo: bv8, hi: bv8)
    requires ps != []
    ensures var n := |ps| - 1;
            Completed(link, ps, lo, hi) <==>
              Completed(link, ps[..n], lo, hi) || Completes(LinkAfter(link, ps[..n]), ps[n], lo, hi)
  {
    hide Completes, LinkAfter;
    var n := |ps| - 1;
    var init := ps[..n];
    if Completed(link, init, lo, hi) {
      var j :| 0 <= j < n && Completes(LinkAfter(link, init[..j]), init[j], lo, hi);
      assert init[..j] == ps[..j];
    }
    if Completed(link, ps, lo, hi) {
      var j :| 0 <= j <= n && Completes(LinkAfter(link, ps[..j]), ps[j], lo, hi);
      if j < n {
        assert init[..j] == ps[..j];
      }
    }
  }

  // The index of the last acknowledgement received in patch state, or the one before.
  function IndexAfter(link: LinkState, index: int, ps: seq<Packet>): int {
    if ps == [] then index
    else
      var n := |ps| - 1;
      if LinkAfter(link, ps[..n]) == Patch && HandedOn(ps[n]) && Image(ps[n])[0] == 0x0e
      then (Image(ps[n])[6] & 0x7f) as nat
      else IndexAfter(link, index, ps[..n])
  }

  lemma OneSeen(useCrc: bool, h: Host, p: Packet)
    ensures var r := Receive(useCrc, h, p);
            && (r.versionSeen <==> h.versionSeen || Completes(h.link, p, 0x01, 0x10))
            && (r.romSeen <==> h.romSeen || Completes(h.link, p, 0x6d, 0xfc))
            && (r.chipSeen <==> h.chipSeen || Completes(h.link, p, 0x61, 0xfc))
    ensures Receive(useCrc, h, p).rxIndex
         == if h.link == Patch && HandedOn(p) && Image(p)[0] == 0x0e then (Image(p)[6] & 0x7f) as nat else h.rxIndex
  {
    hide Image, PureAck, PassUp, AckedIndex, IsLast, HandedOn, Type, InSync, InConfig, InPatch, InInit, Completes;
    HandedOnIs(p);
    var b, a := Image(p), PureAck(useCrc, p.next);
    StateKept(h, b, a);
    if h.link.Init? && HandedOn(p) {
      InitSeen(h, p, a);
    } else {
      NotCompleted(h.link, p);
    }
    PatchWrites(h, b[0], b[6], a);
  }

  lemma NotCompleted(link: LinkState, p: Packet)
    requires !link.Init? || !HandedOn(p)
    ensures forall lo, hi :: !Completes(link, p, lo, hi)
  {
    hide Image, HandedOn;
  }

  lemma InitSeen(h: Host, p: Packet, a: seq<bv8>)
    requires h.link.Init? && HandedOn(p)
    ensures var r := InInit(h, Image(p), |p.payload|, a);
            && (r.versionSeen <==> h.versionSeen || Completes(h.link, p, 0x01, 0x10))
            && (r.romSeen <==> h.romSeen || Completes(h.link, p, 0x6d, 0xfc))
            && (r.chipSeen <==> h.chipSeen || Completes(h.link, p, 0x61, 0xfc))
            && r.rxIndex == h.rxIndex
  {
    hide Image, HandedOn, CommandComplete, Known;
    CompletionSeen(h, Image(p)[3], Image(p)[4]);
  }

  lemma CompletionSeen(h: Host, lo: bv8, hi: bv8)
    ensures var r := CommandComplete(h, lo, hi);
            && (r.versionSeen <==> h.versionSeen || (lo == 0x01 && hi == 0x10))
            && (r.romSeen <==> h.romSeen || (lo == 0x6d && hi == 0xfc))
            && (r.chipSeen <==> h.chipSeen || (lo == 0x61 && hi == 0xfc))
            && r.rxIndex == h.rxIndex
    ensures (lo == 0x01 && hi == 0x10) || (lo == 0x6d && hi == 0xfc) || (lo == 0x61 && hi == 0xfc) ==> Known(lo, hi)
  {}

  // Over any packets: version, ROM version and chip type are seen exactly when they were or
  // a completion with their opcode has come, and the index is that last acknowledged.
  lemma {:induction false} AllSeen(useCrc: bool, h: Host, ps: seq<Packet>)
    ensures var r := ReceiveAll(useCrc, h, ps);
            && (r.versionSeen <==> h.versionSeen || Completed(h.link, ps, 0x01, 0x10))
            && (r.romSeen <==> h.romSeen || Completed(h.link, ps, 0x6d, 0xfc))
            && (r.chipSeen <==> h.chipSeen || Completed(h.link, ps, 0x61, 0xfc))
            && r.rxIndex == IndexAfter(h.link, h.rxIndex, ps)
  {
    hide Receive, Completed, Completes, NextLink, HandedOn, Image;
    if ps == [] {
      NoneCompleted(h.link);
    } else {
      var init := ps[..|ps| - 1];
      AllSeen(useCrc, h, init);
      AllCounted(useCrc, h, init);
      OneSeen(useCrc, ReceiveAll(useCrc, h, init), ps[|ps| - 1]);
      OneMoreCompleted(h.link, ps, 0x01, 0x10);
      OneMoreCompleted(h.link, ps, 0x6d, 0xfc);
      OneMoreCompleted(h.link, ps, 0x61, 0xfc);
    }
  }

  lemma NoneCompleted(link: LinkState)
    ensures forall lo, hi :: !Completed(link, [], lo, hi)
  {}
}
