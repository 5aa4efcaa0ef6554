/** The stop-and-wait firmware download on top of the engine: how an image is cut into
    numbered packets, the loop that sends them, and what a whole initialisation does to
    the transmit sequence number.
 */
module Downloads {
  import opened Frame
  import opened Hosts
  import opened Engines
  import opened Stream
  import opened Transcripts
  import Readers
  import Receiver

  const FIELD_SIZE := 252
  const MAX_IMAGE := 40 * 1024

  // ---------- the plan ----------

  function EndIndex(image: seq<bv8>): nat
    requires 1 <= |image|
  {
    (|image| - 1) / FIELD_SIZE
  }

  // Empty packets that bring commands and download packets to a multiple of eight.
  function Padding(image: seq<bv8>, cmds: nat): nat
    requires 1 <= |image|
  {
    var n := (EndIndex(image) + 1 + cmds) % 8;
    if n != 0 then 8 - n else 0
  }

  function TotalIndex(image: seq<bv8>, cmds: nat): nat
    requires 1 <= |image|
  {
    EndIndex(image) + Padding(image, cmds)
  }

  // Packet numbers roll over from 127 to 1.
  function TxNo(i: nat): nat {
    if i > 0x7f then i % 0x80 + 1 else i
  }

  datatype Chunk = Chunk(index: nat, data: seq<bv8>)

  function Planned(image: seq<bv8>, cmds: nat, i: nat): Chunk
    requires 1 <= |image|
  {
    Chunk(if i == TotalIndex(image, cmds) then TxNo(i) + 0x80 else TxNo(i),
          if i <= EndIndex(image) then Field(image, i) else [])
  }

  function Field(image: seq<bv8>, i: nat): (f: seq<bv8>)
    requires 1 <= |image| && i <= EndIndex(image)
    ensures 1 <= |f| <= FIELD_SIZE
  {
    if i < EndIndex(image) then image[FIELD_SIZE * i..FIELD_SIZE * i + FIELD_SIZE]
    else image[FIELD_SIZE * i..]
  }

  function Plan(image: seq<bv8>, cmds: nat): (p: seq<Chunk>)
    requires 1 <= |image|
    ensures |p| == TotalIndex(image, cmds) + 1
  {
    seq(TotalIndex(image, cmds) + 1, i requires i >= 0 => Planned(image, cmds, i))
  }

  function Data(cs: seq<Chunk>): seq<bv8> {
    if cs == [] then [] else Data(cs[..|cs| - 1]) + cs[|cs| - 1].data
  }

  lemma {:induction false} DataUpTo(image: seq<bv8>, cmds: nat, n: nat)
    requires 1 <= |image| && n <= TotalIndex(image, cmds) + 1
    ensures Data(Plan(image, cmds)[..n])
         == if n <= EndIndex(image) then image[..FIELD_SIZE * n] else image
  {
    var p := Plan(image, cmds);
    if n > 0 {
      DataUpTo(image, cmds, n - 1);
      assert p[..n][..n - 1] == p[..n - 1];
      if n - 1 <= EndIndex(image) {
        assert image == image[..FIELD_SIZE * (n - 1)] + image[FIELD_SIZE * (n - 1)..];
      }
    }
  }

  // For every image and every count of commands already sent: the fields of the packets
  // are the image, none above 252 bytes; packets after the image are empty; exactly the
  // last is marked; neighbours are numbered differently; the total fills groups of eight.
  lemma PlanIsSound(image: seq<bv8>, cmds: nat)
    requires 1 <= |image| <= MAX_IMAGE
    ensures var p := Plan(image, cmds);
            && Data(p) == image
            && (forall i :: 0 <= i < |p| ==> |p[i].data| <= FIELD_SIZE && p[i].index < 0x100)
            && (forall i :: 0 <= i < (|image| - 1) / 252 ==> |p[i].data| == 252)
            && (forall i :: (|image| - 1) / 252 < i < |p| ==> p[i].data == [])
            && (forall i :: 0 <= i < |p| ==> (p[i].index >= 0x80 <==> i == |p| - 1))
            && (forall i :: 0 <= i < |p| ==> p[i].index % 0x80 == if i < 0x80 then i else i - 0x7f)
            && (forall i :: 0 <= i < |p| - 1 ==> p[i].index % 0x80 != p[i + 1].index % 0x80)
            && (|p| + cmds) % 8 == 0 && |p| <= 170 && |p| < (|image| - 1) / 252 + 9
  {
    var p := Plan(image, cmds);
    hide Plan, TxNo;
    DataUpTo(image, cmds, |p|);
    assert p[..|p|] == p;
    PlanFits(image, cmds);
    forall i | 0 <= i < |p| ensures Fits(image, cmds, i, p[i]) && TxNo(i) == if i < 0x80 then i else i - 0x7f {
      ChunkFits(image, cmds, i);
      TxNoFits(i);
    }
    forall i | 0 <= i < |p| - 1 ensures p[i].index % 0x80 != p[i + 1].index % 0x80 {
      assert Fits(image, cmds, i, p[i]) && Fits(image, cmds, i + 1, p[i + 1]);
      TxNoFits(i);
    }
  }

  predicate Fits(image: seq<bv8>, cmds: nat, i: nat, c: Chunk)
    requires 1 <= |image|
  {
    && |c.data| <= FIELD_SIZE && c.index < 0x100 && c.index % 0x80 == TxNo(i)
    && (i < EndIndex(image) ==> |c.data| == FIELD_SIZE)
    && (i > EndIndex(image) ==> c.data == [])
    && (c.index >= 0x80 <==> i == TotalIndex(image, cmds))
  }

  lemma ChunkFits(image: seq<bv8>, cmds: nat, i: nat)
    requires 1 <= |image| <= MAX_IMAGE && i <= TotalIndex(image, cmds)
    ensures Fits(image, cmds, i, Plan(image, cmds)[i])
  {
    hide TxNo, TotalIndex;
    PlanFits(image, cmds);
    PlanAt(image, cmds, i);
    TxNoFits(i);
  }

  lemma PlanAt(image: seq<bv8>, cmds: nat, i: nat)
    requires 1 <= |image| && i <= TotalIndex(image, cmds)
    ensures Plan(image, cmds)[i] == Planned(image, cmds, i)
  {}

  lemma PlanFits(image: seq<bv8>, cmds: nat)
    requires 1 <= |image| <= MAX_IMAGE
    ensures TotalIndex(image, cmds) <= 169 && (TotalIndex(image, cmds) + 1 + cmds) % 8 == 0
    ensures TotalIndex(image, cmds) < (|image| - 1) / 252 + 8
  {}

  lemma TxNoFits(i: nat)
    requires i <= 169
    ensures TxNo(i) < 0x80 && TxNo(i) != TxNo(i + 1) && TxNo(i) == if i < 0x80 then i else i - 0x7f
  {}

  // The receiver may resynchronise (index equal to the total) only while the last packet
  // is outstanding, and never for an image that needs more than 128 packets.  This is about
  // the download: before it index and total are both zero and resynchronisation is on.
  lemma ResyncOnlyAtTheEnd(image: seq<bv8>, cmds: nat, i: nat)
    requires 1 <= |image| <= MAX_IMAGE && i <= TotalIndex(image, cmds)
    ensures TxNo(i) == TotalIndex(image, cmds) <==> i == TotalIndex(image, cmds) && i <= 0x7f
  {
    assert EndIndex(image) <= 162;
  }

  // ---------- sending one packet and waiting for its acknowledgement ----------

  // What the serial port will deliver is a parameter: one element a read, and a failed
  // read once they run out.

  // Receiver and layer above as they stand.
  ghost function Now(h: Engine): (st: State)
    requires h.Valid()
    reads h, h.rxSkb, h.Buffer()
    ensures Receiver.Valid(st.m)
  {
    State(h.View(), h.HostView())
  }

  // `rest` is what is left of the script, and from `m` the receiver has read the others.
  ghost predicate HasRead(h: Engine, m: Receiver.Machine, script: seq<seq<bv8>>, rest: seq<seq<bv8>>, resync: bool)
    requires h.Valid() && Receiver.Valid(m)
    reads h, h.rxSkb, h.Buffer()
  {
    && |rest| <= |script| && rest == script[|script| - |rest|..]
    && h.View() == Receiver.Run(m, Flat(script[..|script| - |rest|]), resync)
  }

  lemma ReadNothing(m: Receiver.Machine, script: seq<seq<bv8>>, resync: bool)
    requires Receiver.Valid(m)
    ensures script == script[0..] && Receiver.Run(m, Flat(script[..0]), resync) == m
  {}

  lemma ReadOneMore(m: Receiver.Machine, script: seq<seq<bv8>>, rest: seq<seq<bv8>>, resync: bool)
    requires Receiver.Valid(m) && rest != [] && |rest| <= |script| && rest == script[|script| - |rest|..]
    ensures var n := |script| - |rest|;
            && rest[1..] == script[n + 1..]
            && Receiver.Run(m, Flat(script[..n + 1]), resync)
               == Receiver.Run(Receiver.Run(m, Flat(script[..n]), resync), rest[0], resync)
  {
    hide Receiver.Run, Receiver.Valid;
    var n := |script| - |rest|;
    assert script[..n + 1][..n] == script[..n] && script[..n + 1][n] == rest[0];
    Receiver.RunAppend(m, Flat(script[..n]), rest[0], resync);
  }

  lemma HeardIs(h: Engine, m: Receiver.Machine, host: Host, script: seq<seq<bv8>>, rest: seq<seq<bv8>>, resync: bool)
    requires h.Valid() && Receiver.Valid(m) && HasRead(h, m, script, rest, resync) && h.HandedUp(m.done, host)
    ensures Now(h) == Heard(h.useCrc, m, host, script[..|script| - |rest|], resync)
    ensures script == script[..|script| - |rest|] + rest
  {
    hide Receiver.Run, Receiver.Valid, Flat, ReceiveAll;
  }

  // A packet as sent: number and field, sequence number, how many packets had been
  // completed by then, the layer above just after, and what was read for it.
  datatype Sent = Sent(chunk: Chunk, seqno: bv8, at: nat, host: Host, reads': seq<seq<bv8>>)

  // Length and number go out as single bytes.
  function PatchCommand(c: Chunk): seq<bv8> {
    [0x20, 0xfc, ((|c.data| + 1) % 0x100) as bv8, (c.index % 0x100) as bv8] + c.data
  }

  function Of(s: Sent, total: int): Exchange {
    Exchange(PatchCommand(s.chunk), Keep, s.seqno, s.reads', s.chunk.index % 0x80 == total)
  }

  function Exchanges(sent: seq<Sent>, total: int): (xs: seq<Exchange>)
    ensures |xs| == |sent| && forall k :: 0 <= k < |xs| ==> xs[k] == Of(sent[k], total)
  {
    seq(|sent|, k requires 0 <= k < |sent| => Of(sent[k], total))
  }

  // What the driver reads for: a download packet acknowledged, or a command answered.
  datatype Goal = Ack(index: int) | Answer(command: Command)

  predicate Met(host: Host, goal: Goal) {
    match goal
    case Ack(index) => host.rxIndex == index
    case Answer(ReadVersion) => host.versionSeen
    case Answer(ReadRom) => host.romSeen
    case Answer(ReadChip) => host.chipSeen
    case Answer(ChangeRate(_)) => host.link != Init
  }

  // No fewer reads would have been enough.
  ghost predicate Prompt(useCrc: bool, m: Receiver.Machine, host: Host, reads': seq<seq<bv8>>, resync: bool, goal: Goal)
    requires Receiver.Valid(m)
  {
    forall j :: 0 <= j < |reads'| ==> !Met(Heard(useCrc, m, host, reads'[..j], resync).host, goal)
  }

  // Place and layer above noted with each packet are those of the replay up to it, and
  // nothing was read beyond its acknowledgement.
  ghost predicate Noted(useCrc: bool, st: State, sent: seq<Sent>, total: int)
    requires Receiver.Valid(st.m)
  {
    forall k :: 0 <= k < |sent| ==>
      var before := Replay(useCrc, st, Exchanges(sent, total)[..k]);
      && sent[k].at == |before.m.done| && sent[k].host == Asked(useCrc, before, Of(sent[k], total))
      && ReadPromptly(useCrc, before.m, sent[k], total)
  }

  ghost predicate ReadPromptly(useCrc: bool, m: Receiver.Machine, s: Sent, total: int)
    requires Receiver.Valid(m)
  {
    Prompt(useCrc, m, s.host, s.reads', s.chunk.index % 0x80 == total, Ack(s.chunk.index % 0x80))
  }

  // The packets sent since `st`, replayed, leave the driver as it is; they and `rest` used
  // up the script.
  ghost predicate Recorded(h: Engine, st: State, sent: seq<Sent>, script: seq<seq<bv8>>, rest: seq<seq<bv8>>)
    requires h.Valid() && Receiver.Valid(st.m)
    reads h, h.rxSkb, h.Buffer()
  {
    && Now(h) == Replay(h.useCrc, st, Exchanges(sent, h.totalNum))
    && Noted(h.useCrc, st, sent, h.totalNum) && script == AllReads(Exchanges(sent, h.totalNum)) + rest
  }

  lemma NothingRecorded(h: Engine, script: seq<seq<bv8>>)
    requires h.Valid()
    ensures Recorded(h, Now(h), [], script, script)
  {
    assert [] + script == script;
  }

  // Up to the sending of the last packet, and beyond if the total is over 127, the reliable
  // packets completed have come in order.
  ghost predicate InTurn(useCrc: bool, st: State, xs: seq<Exchange>, total: nat)
    requires Receiver.Valid(st.m)
  {
    forall k :: 0 <= k <= |xs| && (k <= total || total > 0x7f) ==> InOrderSince(st.m, Replay(useCrc, st, xs[..k]).m)
  }

  lemma ReceivedInTurn(useCrc: bool, st: State, image: seq<bv8>, cmds: nat, sent: seq<Sent>)
    requires Receiver.Valid(st.m) && 1 <= |image| <= MAX_IMAGE && Chunks(sent) <= Plan(image, cmds)
    ensures InTurn(useCrc, st, Exchanges(sent, TotalIndex(image, cmds)), TotalIndex(image, cmds))
  {
    hide Replay, Exchanges, Plan, TotalIndex, InOrderSince;
    var total := TotalIndex(image, cmds);
    var xs := Exchanges(sent, total);
    forall k | 0 <= k <= |xs| && (k <= total || total > 0x7f)
      ensures InOrderSince(st.m, Replay(useCrc, st, xs[..k]).m)
    {
      forall i | 0 <= i < k ensures !xs[i].resync {
        NoResync(image, cmds, sent, i);
      }
      StayInTurn(useCrc, st, xs, k);
    }
  }

  lemma NoResync(image: seq<bv8>, cmds: nat, sent: seq<Sent>, i: nat)
    requires 1 <= |image| <= MAX_IMAGE && Chunks(sent) <= Plan(image, cmds) && i < |sent|
    requires i < TotalIndex(image, cmds) || TotalIndex(image, cmds) > 0x7f
    ensures sent[i].chunk.index % 0x80 != TotalIndex(image, cmds)
  {
    hide Plan, TotalIndex, TxNo;
    assert sent[i].chunk == Chunks(sent)[i] == Plan(image, cmds)[i];
    ChunkFits(image, cmds, i);
    ResyncOnlyAtTheEnd(image, cmds, i);
  }

  lemma {:induction false} StayInTurn(useCrc: bool, st: State, xs: seq<Exchange>, k: nat)
    requires Receiver.Valid(st.m) && k <= |xs| && forall i :: 0 <= i < k ==> !xs[i].resync
    ensures InOrderSince(st.m, Replay(useCrc, st, xs[..k]).m)
  {
    hide InOrderSince, Asked;
    if k == 0 {
      InOrderAtOnce(st.m);
    } else {
      StayInTurn(useCrc, st, xs, k - 1);
      assert xs[..k][..k - 1] == xs[..k - 1];
      StaysInOrder(st.m, Replay(useCrc, st, xs[..k - 1]).m, Flat(xs[k - 1].reads'));
    }
  }

  lemma OneMoreNoted(useCrc: bool, st: State, sent: seq<Sent>, one: Sent, total: int)
    requires Receiver.Valid(st.m) && Noted(useCrc, st, sent, total)
    requires var before := Replay(useCrc, st, Exchanges(sent, total));
             && one.at == |before.m.done| && one.host == Asked(useCrc, before, Of(one, total))
             && ReadPromptly(useCrc, before.m, one, total)
    ensures Noted(useCrc, st, sent + [one], total)
    ensures Exchanges(sent + [one], total) == Exchanges(sent, total) + [Of(one, total)]
  {
    hide Replay, Asked, Of, ReadPromptly;
    var xs, ys := Exchanges(sent, total), Exchanges(sent + [one], total);
    assert ys == xs + [Of(one, total)];
    forall k | 0 <= k <= |sent| ensures ys[..k] == xs[..k] {}
    assert xs[..|sent|] == xs;
  }

  lemma OneMoreRecorded(h: Engine, st: State, sent: seq<Sent>, one: Sent, before: State,
                        script: seq<seq<bv8>>, mid: seq<seq<bv8>>, rest: seq<seq<bv8>>)
    requires h.Valid() && Receiver.Valid(st.m) && Receiver.Valid(before.m)
    requires before == Replay(h.useCrc, st, Exchanges(sent, h.totalNum))
    requires Noted(h.useCrc, st, sent, h.totalNum) && script == AllReads(Exchanges(sent, h.totalNum)) + mid
    requires Now(h) == Exchanged(h.useCrc, before, Of(one, h.totalNum)) && mid == one.reads' + rest
    requires one.at == |before.m.done| && one.host == Asked(h.useCrc, before, Of(one, h.totalNum))
    requires ReadPromptly(h.useCrc, before.m, one, h.totalNum)
    ensures Recorded(h, st, sent + [one], script, rest)
  {
    hide Replay, Asked, Exchanged, Noted, Exchanges, AllReads, Now, ReadPromptly;
    var xs := Exchanges(sent, h.totalNum);
    OneMoreNoted(h.useCrc, st, sent, one, h.totalNum);
    OneMore(h.useCrc, st, xs, Of(one, h.totalNum));
    assert AllReads(xs) + (one.reads' + rest) == (AllReads(xs) + one.reads') + rest;
  }

  // Between sending s and the point `to`, an event received in patch state acknowledged s.
  ghost predicate Acked(useCrc: bool, s: Sent, done: seq<Packet>, to: nat) {
    exists j :: && s.at <= j < to <= |done|
                && ReceiveAll(useCrc, s.host, done[s.at..j]).link == Patch
                && Acknowledges(done[j], s.chunk.index % 0x80)
  }

  lemma AckedStays(useCrc: bool, s: Sent, done: seq<Packet>, to: nat, later: seq<Packet>)
    requires Acked(useCrc, s, done, to) && done <= later
    ensures Acked(useCrc, s, later, to)
  {
    var j :| && s.at <= j < to <= |done|
             && ReceiveAll(useCrc, s.host, done[s.at..j]).link == Patch
             && Acknowledges(done[j], s.chunk.index % 0x80);
    hide ReceiveAll, Acknowledges;
    assert later[s.at..j] == done[s.at..j] && later[j] == done[j];
  }

  method HciDownloadPatch(h: Engine, script: seq<seq<bv8>>, c: Chunk)
    returns (ok: bool, rest: seq<seq<bv8>>, ghost sent: Sent)
    requires h.Valid() && c.index < 0x100 && |c.data| <= FIELD_SIZE
    modifies h, h.rxSkb, h.Buffer()
    ensures h.Valid() && h.msgqTxseq == NextSeq(old(h.msgqTxseq)) && h.totalNum == old(h.totalNum)
    ensures h.rxSkb == null || h.rxSkb == old(h.rxSkb) || (fresh(h.rxSkb) && fresh(h.rxSkb.data))
    ensures old(h.done) <= h.done
    ensures sent.chunk == c && sent.seqno == old(h.msgqTxseq) && sent.at == |old(h.done)|
    ensures sent.host == Written(old(h.HostView()),
                                 Wire(old(h.rxseqTxack), sent.seqno, h.useCrc, COMMAND, PatchCommand(c)))
    ensures WritesLoad(old(h.HostView()), sent.host, old(h.rxseqTxack), sent.seqno, c)
    ensures h.HandedUp(old(h.done), sent.host)
    ensures h.txIndex == c.index % 0x80
    ensures ok == (h.rxIndex == c.index % 0x80) && (!ok ==> rest == [])
    ensures HasRead(h, old(h.View()), script, rest, c.index % 0x80 == h.totalNum)
    ensures script == sent.reads' + rest && sent.host == Asked(h.useCrc, old(Now(h)), Of(sent, h.totalNum))
    ensures Now(h) == Exchanged(h.useCrc, old(Now(h)), Of(sent, h.totalNum))
    ensures ReadPromptly(h.useCrc, old(h.View()), sent, h.totalNum)
    ensures ok && old(h.rxIndex) != c.index % 0x80 ==> Acked(h.useCrc, sent, h.done, |h.done|)
  {
    hide PatchCommand, Wire, NextSeq, ReceiveAll, Engine.Valid, Receiver.Run, Flat, Heard, Prompt, WritesLoad;
    ViewIsValid(h);
    SmallNumbers(h);
    LoadWritten(h.HostView(), h.useCrc, h.rxseqTxack, h.msgqTxseq, c);
    ghost var seqno, done0, index0, m := h.msgqTxseq, h.done, h.rxIndex, h.View();
    ghost var resync := c.index % 0x80 == h.totalNum;
    SendPatch(h, c);
    ghost var host := h.HostView();
    ok, rest := AwaitAck(h, script);
    HeardIs(h, m, host, script, rest, resync);
    sent := Sent(c, seqno, |done0|, host, script[..|script| - |rest|]);
    if ok && index0 != c.index % 0x80 {
      ChangedMeansAcked(h.useCrc, sent, h.done, c.index % 0x80);
    }
  }

  // One packet more, which reads back as a download command with the number and the field.
  ghost predicate WritesLoad(a: Host, b: Host, ack: bv8, seqno: bv8, c: Chunk) {
    && |b.written| == |a.written| + 1 && a.written <= b.written
    && var g := Readers.Read(b.written[|a.written|]);
       && g.Got? && g == Readers.Got(0x01, ack, true, seqno, g.payload) && IsLoad(g.payload)
       && g.payload[3] as nat == c.index && g.payload[4..] == c.data
  }

  lemma LoadWritten(a: Host, useCrc: bool, ack: bv8, seqno: bv8, c: Chunk)
    requires ack < 8 && seqno < 8 && c.index < 0x100 && |c.data| <= FIELD_SIZE
    ensures WritesLoad(a, Written(a, Wire(ack, seqno, useCrc, COMMAND, PatchCommand(c))), ack, seqno, c)
  {
    hide Wire, Readers.Read, PatchCommand, IsLoad;
    LoadReads(c);
    Readers.ReadWire(ack, seqno, useCrc, COMMAND, PatchCommand(c));
  }

  lemma SmallNumbers(h: Engine)
    requires h.Valid()
    ensures h.rxseqTxack < 8 && h.msgqTxseq < 8
  {}

  // Receives until the packet out is acknowledged or reading fails.
  method AwaitAck(h: Engine, script: seq<seq<bv8>>) returns (ok: bool, rest: seq<seq<bv8>>)
    requires h.Valid()
    modifies h, h.rxSkb, h.Buffer()
    ensures h.Valid() && h.msgqTxseq == old(h.msgqTxseq) && h.totalNum == old(h.totalNum) && h.txIndex == old(h.txIndex)
    ensures h.rxSkb == null || h.rxSkb == old(h.rxSkb) || (fresh(h.rxSkb) && fresh(h.rxSkb.data))
    ensures h.HandedUp(old(h.done), old(h.HostView()))
    ensures ok == (h.rxIndex == h.txIndex) && (!ok ==> rest == [])
    ensures HasRead(h, old(h.View()), script, rest, old(h.Resync()))
    ensures Prompt(h.useCrc, old(h.View()), old(h.HostView()), script[..|script| - |rest|], old(h.Resync()),
                   Ack(h.txIndex))
  {
    hide ReceiveAll, Engine.Valid, Receiver.Run, Flat, Heard, Answers, AllReplies, Receiver.Valid;
    ViewIsValid(h);
    ghost var done0, host, m, resync := h.done, h.HostView(), h.View(), h.Resync();
    ReadNothing(m, script, resync);
    NothingHandedUp(h.useCrc, host, done0);
    ok, rest := true, script;
    while h.rxIndex != h.txIndex
      invariant h.Valid() && h.msgqTxseq == old(h.msgqTxseq)
      invariant h.totalNum == old(h.totalNum) && h.txIndex == old(h.txIndex)
      invariant h.rxSkb == null || h.rxSkb == old(h.rxSkb) || (fresh(h.rxSkb) && fresh(h.rxSkb.data))
      invariant h.HandedUp(done0, host) && HasRead(h, m, script, rest, resync)
      invariant Prompt(h.useCrc, m, host, script[..|script| - |rest|], resync, Ack(h.txIndex))
      decreases |rest|
    {
      if rest == [] {
        ok := false;
        break;
      }
      ghost var done1 := h.done;
      HeardIs(h, m, host, script, rest, resync);
      StillPrompt(h.useCrc, m, host, script, |script| - |rest|, resync, Ack(h.txIndex));
      ReadOneMore(m, script, rest, resync);
      h.Recv(rest[0]);
      rest := rest[1..];
      HandedUpTwice(h.useCrc, host, done0, done1, h.done);
    }
  }

  lemma StillPrompt(useCrc: bool, m: Receiver.Machine, host: Host, script: seq<seq<bv8>>, n: nat, resync: bool,
                    goal: Goal)
    requires Receiver.Valid(m) && n < |script| && Prompt(useCrc, m, host, script[..n], resync, goal)
    requires !Met(Heard(useCrc, m, host, script[..n], resync).host, goal)
    ensures Prompt(useCrc, m, host, script[..n + 1], resync, goal)
  {
    hide Heard, Met;
    var more := script[..n + 1];
    forall j | 0 <= j < |more| ensures !Met(Heard(useCrc, m, host, more[..j], resync).host, goal) {
      assert more[..j] == script[..j];
      if j < n {
        assert script[..n][..j] == script[..j];
      }
    }
  }

  lemma ViewIsValid(h: Engine)
    requires h.Valid()
    ensures h.Buffered() && Receiver.Valid(h.View())
  {}

  method SendPatch(h: Engine, c: Chunk)
    requires h.Valid() && c.index < 0x100 && |c.data| <= FIELD_SIZE
    modifies h`txIndex, h`msgqTxseq, h`written
    ensures h.Valid() && h.msgqTxseq == NextSeq(old(h.msgqTxseq)) && h.txIndex == c.index % 0x80
    ensures h.HostView() == Written(old(h.HostView()),
                                    Wire(h.rxseqTxack, old(h.msgqTxseq), h.useCrc, COMMAND, PatchCommand(c)))
    ensures h.View() == old(h.View())
  {
    hide PatchCommand, Wire, NextSeq, Receiver.Valid, Tracked;
    h.txIndex := if c.index >= 0x80 then c.index % 0x80 else c.index;
    h.SendCommand(PatchCommand(c));
  }

  lemma ChangedMeansAcked(useCrc: bool, s: Sent, done: seq<Packet>, n: nat)
    requires s.at <= |done| && s.chunk.index % 0x80 == n
    requires s.host.rxIndex != n && ReceiveAll(useCrc, s.host, done[s.at..]).rxIndex == n
    ensures Acked(useCrc, s, done, |done|)
  {
    hide ReceiveAll, Acknowledges;
    var ps := done[s.at..];
    IndexFromAcknowledgement(useCrc, s.host, ps);
    var j :| 0 <= j < |ps| && ReceiveAll(useCrc, s.host, ps[..j]).link == Patch && Acknowledges(ps[j], n);
    assert ps[..j] == done[s.at..s.at + j] && ps[j] == done[s.at + j];
  }

  // ---------- the download loop ----------

  const NULL := -1

  // Every packet but the last sent was acknowledged before the next one went out.
  ghost predicate StopAndWait(useCrc: bool, sent: seq<Sent>, done: seq<Packet>) {
    forall k :: 0 <= k < |sent| - 1 ==> Acked(useCrc, sent[k], done, sent[k + 1].at)
  }

  function Chunks(sent: seq<Sent>): (cs: seq<Chunk>)
    ensures |cs| == |sent|
  {
    seq(|sent|, i requires 0 <= i < |sent| => sent[i].chunk)
  }

  // Each packet took the next sequence number.
  predicate Sequenced(sent: seq<Sent>, first: bv8) {
    forall k :: 0 <= k < |sent| ==> sent[k].seqno == Advance(first, k)
  }

  // The first i packets of the plan have been sent one at a time, in sequence.
  ghost predicate SentSoFar(h: Engine, plan: seq<Chunk>, sent: seq<Sent>, first: bv8)
    reads h
  {
    && Chunks(sent) <= plan
    && Sequenced(sent, first) && h.msgqTxseq == Advance(first, |sent|)
    && StopAndWait(h.useCrc, sent, h.done)
  }

  ghost predicate LastAcked(h: Engine, sent: seq<Sent>)
    reads h
  {
    if sent == [] then h.rxIndex == -1
    else && h.rxIndex == sent[|sent| - 1].chunk.index % 0x80
         && Acked(h.useCrc, sent[|sent| - 1], h.done, |h.done|)
  }

  // Reading failed while the last packet sent was still unacknowledged.
  ghost predicate Unanswered(h: Engine, sent: seq<Sent>, rest: seq<seq<bv8>>)
    reads h
  {
    rest == [] && sent != [] && h.rxIndex != sent[|sent| - 1].chunk.index % 0x80
  }

  // Sends the next packet of the plan and waits for its acknowledgement.
  method SendNext(h: Engine, script: seq<seq<bv8>>, c: Chunk, ghost plan: seq<Chunk>, ghost sent: seq<Sent>,
                  ghost first: bv8, ghost st: State, ghost all: seq<seq<bv8>>)
    returns (ok: bool, rest: seq<seq<bv8>>, ghost sent': seq<Sent>)
    requires h.Valid() && Receiver.Valid(st.m) && Recorded(h, st, sent, all, script)
    requires SentSoFar(h, plan, sent, first) && LastAcked(h, sent)
    requires |sent| < |plan| && plan[|sent|] == c && c.index < 0x100 && |c.data| <= FIELD_SIZE
    requires sent != [] ==> sent[|sent| - 1].chunk.index % 0x80 != c.index % 0x80
    modifies h, h.rxSkb, h.Buffer()
    ensures h.Valid() && old(h.done) <= h.done && h.totalNum == old(h.totalNum)
    ensures h.rxSkb == null || h.rxSkb == old(h.rxSkb) || (fresh(h.rxSkb) && fresh(h.rxSkb.data))
    ensures Recorded(h, st, sent', all, rest)
    ensures SentSoFar(h, plan, sent', first) && |sent'| == |sent| + 1
    ensures sent'[..|sent|] == sent && sent'[|sent|].at == |old(h.done)| && sent'[|sent|].chunk == c
    ensures if ok then LastAcked(h, sent') else rest == [] && h.rxIndex != c.index % 0x80
  {
    hide NextSeq, ReceiveAll, Engine.Valid, Acked, Asked, Exchanged, Exchanges, Replay, AllReads, Noted, Of;
    hide ReadPromptly, Receiver.Valid, Receiver.Run, Wire, PatchCommand, Written, WritesLoad;
    ghost var done1, before := h.done, Now(h);
    ghost var one;
    ok, rest, one := HciDownloadPatch(h, script, c);
    sent' := sent + [one];
    SentOneMore(h.useCrc, sent, one, done1, h.done);
    OneMoreRecorded(h, st, sent, one, before, all, script, rest);
  }

  // Number and field of packet i, and the field pointer: cleared past the image.
  function NextChunk(buf: seq<bv8>, ghost cmds: nat, i: nat, endIndex: nat, totalIndex: nat, lastLen: nat, ptr: int)
    : (r: (Chunk, int))
    requires 1 <= |buf| <= MAX_IMAGE && endIndex == EndIndex(buf) && totalIndex == TotalIndex(buf, cmds)
    requires i <= totalIndex && (i <= endIndex ==> ptr == FIELD_SIZE * i)
    requires lastLen == |buf| - FIELD_SIZE * endIndex
    ensures r.0 == Planned(buf, cmds, i)
    ensures i <= endIndex ==> r.1 == ptr
    ensures i < endIndex ==> r.0.index < endIndex
  {
    PlanFits(buf, cmds);
    var j := if i > 0x7f then i % 0x80 + 1 else i;
    var last := if i == totalIndex then j + 0x80 else j;
    if i < endIndex then (Chunk(j, buf[ptr..ptr + FIELD_SIZE]), ptr)
    else if i == endIndex then (Chunk(last, buf[ptr..ptr + lastLen]), ptr)
    else (Chunk(last, []), NULL)
  }

  // The packet loop.
  method SendAll(h: Engine, script: seq<seq<bv8>>, buf: seq<bv8>, ghost cmds: nat,
                 endIndex: nat, totalIndex: nat, lastLen: nat)
    returns (ok: bool, rest: seq<seq<bv8>>, ghost sent: seq<Sent>)
    requires h.Valid() && 1 <= |buf| <= MAX_IMAGE && h.rxIndex == -1
    requires endIndex == EndIndex(buf) && totalIndex == TotalIndex(buf, cmds)
    requires lastLen == |buf| - FIELD_SIZE * endIndex
    modifies h, h.rxSkb, h.Buffer()
    ensures h.Valid() && old(h.done) <= h.done && h.totalNum == old(h.totalNum)
    ensures h.rxSkb == null || h.rxSkb == old(h.rxSkb) || (fresh(h.rxSkb) && fresh(h.rxSkb.data))
    ensures SentSoFar(h, Plan(buf, cmds), sent, old(h.msgqTxseq)) && Recorded(h, old(Now(h)), sent, script, rest)
    ensures if ok then LastAcked(h, sent) && |sent| == totalIndex + 1 else Unanswered(h, sent, rest)
    ensures sent != [] ==> sent[0].at == |old(h.done)|
  {
    hide Plan, Planned, NextSeq, Engine.Valid, SentSoFar, LastAcked, EndIndex, Recorded, Receiver.Valid;
    ghost var plan, first, st := Plan(buf, cmds), h.msgqTxseq, Now(h);
    sent, ok, rest := [], true, script;
    NothingSent(h, plan, first);
    NothingRecorded(h, script);
    var bufpatch: int := 0;
    var i := 0;
    while i <= totalIndex
      invariant 0 <= i <= totalIndex + 1 && |sent| == i
      invariant h.Valid() && old(h.done) <= h.done
      invariant h.rxSkb == null || h.rxSkb == old(h.rxSkb) || (fresh(h.rxSkb) && fresh(h.rxSkb.data))
      invariant if i == 0 then h.done == old(h.done) else sent[0].at == |old(h.done)|
      invariant i <= endIndex ==> bufpatch == FIELD_SIZE * i
      invariant SentSoFar(h, plan, sent, first) && LastAcked(h, sent)
      invariant Recorded(h, st, sent, script, rest) && h.totalNum == old(h.totalNum)
    {
      var (c, ptr) := NextChunk(buf, cmds, i, endIndex, totalIndex, lastLen, bufpatch);
      Sendable(h, buf, cmds, sent, first);
      ok, rest, sent := SendNext(h, rest, c, plan, sent, first, st, script);
      if !ok {
        return;
      }
      bufpatch := if c.index < endIndex then ptr + FIELD_SIZE else ptr;
      i := i + 1;
    }
  }

  lemma Sendable(h: Engine, buf: seq<bv8>, cmds: nat, sent: seq<Sent>, first: bv8)
    requires 1 <= |buf| <= MAX_IMAGE && |sent| <= TotalIndex(buf, cmds)
    requires SentSoFar(h, Plan(buf, cmds), sent, first)
    ensures var i, c := |sent|, Planned(buf, cmds, |sent|);
            && Plan(buf, cmds)[i] == c && c.index < 0x100 && |c.data| <= FIELD_SIZE
            && (i > 0 ==> sent[i - 1].chunk.index % 0x80 != c.index % 0x80)
  {
    hide Plan, Planned, TotalIndex, Sequenced, StopAndWait, TxNo;
    var i := |sent|;
    PlanAt(buf, cmds, i);
    ChunkFits(buf, cmds, i);
    if i > 0 {
      assert sent[i - 1].chunk == Chunks(sent)[i - 1];
      ChunkFits(buf, cmds, i - 1);
      PlanFits(buf, cmds);
      TxNoFits(i - 1);
    }
  }

  // The last acknowledgement written.
  function Thanked(useCrc: bool, st: State): State {
    State(st.m, Written(st.host, PureAck(useCrc, st.m.expected)))
  }

  // ---------- the image read back ----------

  // A download command: its opcode, the length of what follows, a number, a field.
  predicate IsLoad(p: seq<bv8>) {
    |p| >= 4 && p[0] == 0x20 && p[1] == 0xfc && p[2] as nat == |p| - 3
  }

  // The fields of download commands, one after the other.
  function Fields(cs: seq<Readers.Sent>): seq<bv8> {
    if cs == [] then []
    else
      var p := cs[|cs| - 1].payload;
      Fields(cs[..|cs| - 1]) + (if |p| >= 4 then p[4..] else [])
  }

  // The number on download command k: counted to 127 and on from 1, with bit 7 on the last.
  function Number(k: nat, total: nat): nat {
    (if k < 0x80 then k else k - 0x7f) + (if k == total then 0x80 else 0)
  }

  predicate InSequence(cs: seq<Readers.Sent>, first: nat, total: nat) {
    forall k :: 0 <= k < |cs| ==>
      && cs[k].seqno == ((first + k) % 8) as bv8 && IsLoad(cs[k].payload)
      && cs[k].payload[3] as nat == Number(k, total)
  }

  // What commands written make of an image: download commands in sequence, whose fields are
  // its beginning, all of it on success.
  predicate Loaded(cs: seq<Readers.Sent>, image: seq<bv8>, first: nat, total: nat, ok: bool) {
    && InSequence(cs, first, total) && |cs| <= total + 1 && Fields(cs) <= image
    && (ok ==> |cs| == total + 1 && Fields(cs) == image)
  }

  lemma LoadReads(c: Chunk)
    requires c.index < 0x100 && |c.data| <= FIELD_SIZE
    ensures var p := PatchCommand(c); IsLoad(p) && p[3] as nat == c.index && p[4..] == c.data && |p| <= 256
  {
    ByteOf(|c.data| + 1);
    ByteOf(c.index);
    assert PatchCommand(c)[4..] == c.data;
  }

  lemma ByteOf(n: nat)
    requires n < 0x100
    ensures n % 0x100 == n && (n % 0x100) as bv8 as nat == n
  {
    assert n % 0x100 == n;
  }

  lemma {:induction false} FieldsAreData(sent: seq<Sent>, total: int, cs: seq<Readers.Sent>)
    requires cs == Issues(Exchanges(sent, total))
    requires forall k :: 0 <= k < |sent| ==> sent[k].chunk.index < 0x100 && |sent[k].chunk.data| <= FIELD_SIZE
    ensures Fields(cs) == Data(Chunks(sent))
  {
    hide PatchCommand;
    if sent != [] {
      var n := |sent| - 1;
      FieldsAreData(sent[..n], total, cs[..n]);
      LoadReads(sent[n].chunk);
      assert Chunks(sent)[..n] == Chunks(sent[..n]);
    }
  }

  lemma AdvanceFrom(first: nat, k: nat)
    requires first < 8
    ensures Advance((first % 8) as bv8, k) == ((first + k) % 8) as bv8
    decreases k
  {
    hide NextSeq;
    if k > 0 {
      AdvanceFrom(first, k - 1);
      NextIsMod(first + k - 1);
    }
  }

  // The commands of a download, read back.
  lemma SentCarries(image: seq<bv8>, cmds: nat, sent: seq<Sent>, first: nat, ok: bool)
    requires 1 <= |image| <= MAX_IMAGE && Chunks(sent) <= Plan(image, cmds) && first < 8
    requires Sequenced(sent, (first % 8) as bv8) && (ok ==> Chunks(sent) == Plan(image, cmds))
    ensures var total := TotalIndex(image, cmds);
            Loaded(Issues(Exchanges(sent, total)), image, first, total, ok)
    ensures forall k :: 0 <= k < |sent| ==> sent[k].seqno < 8 && |PatchCommand(sent[k].chunk)| <= MAX_PAYLOAD
  {
    hide Plan, PatchCommand, TotalIndex, Fields, InSequence, Sequenced, Chunks, Data;
    var total := TotalIndex(image, cmds);
    forall k | 0 <= k < |sent| ensures OneInSequence(sent[k], k, first, total) {
      OneCarried(image, cmds, sent, first, k);
    }
    AllInSequence(sent, first, total);
    FieldsAreData(sent, total, Issues(Exchanges(sent, total)));
    PartOfImage(image, cmds, Chunks(sent));
  }

  predicate OneInSequence(s: Sent, k: nat, first: nat, total: nat) {
    var p := PatchCommand(s.chunk);
    && s.chunk.index < 0x100 && |s.chunk.data| <= FIELD_SIZE && s.seqno < 8 && |p| <= 256
    && s.seqno == ((first + k) % 8) as bv8 && IsLoad(p) && p[3] as nat == Number(k, total)
  }

  lemma AllInSequence(sent: seq<Sent>, first: nat, total: nat)
    requires forall k :: 0 <= k < |sent| ==> OneInSequence(sent[k], k, first, total)
    ensures InSequence(Issues(Exchanges(sent, total)), first, total)
  {
    hide PatchCommand, IsLoad, Number;
  }

  lemma OneCarried(image: seq<bv8>, cmds: nat, sent: seq<Sent>, first: nat, k: nat)
    requires 1 <= |image| <= MAX_IMAGE && Chunks(sent) <= Plan(image, cmds) && first < 8 && k < |sent|
    requires Sequenced(sent, (first % 8) as bv8)
    ensures OneInSequence(sent[k], k, first, TotalIndex(image, cmds))
  {
    hide Plan, PatchCommand, TotalIndex, EndIndex, NextSeq, Advance, IsLoad, Number;
    assert sent[k].chunk == Chunks(sent)[k] == Plan(image, cmds)[k];
    ChunkFits(image, cmds, k);
    NumberIs(image, cmds, k);
    LoadReads(sent[k].chunk);
    AdvanceFrom(first, k);
    SmallNumber((first + k) % 8);
  }

  lemma PartOfImage(image: seq<bv8>, cmds: nat, cs: seq<Chunk>)
    requires 1 <= |image| && cs <= Plan(image, cmds)
    ensures Data(cs) <= image && (cs == Plan(image, cmds) ==> Data(cs) == image)
    ensures |cs| <= TotalIndex(image, cmds) + 1
    ensures cs == Plan(image, cmds) ==> |cs| == TotalIndex(image, cmds) + 1
  {
    hide Data, TotalIndex;
    var plan := Plan(image, cmds);
    DataUpTo(image, cmds, |cs|);
    DataUpTo(image, cmds, |plan|);
    assert plan[..|cs|] == cs && plan[..|plan|] == plan;
    PastTheEnd(image, cmds);
  }

  lemma PastTheEnd(image: seq<bv8>, cmds: nat)
    requires 1 <= |image|
    ensures EndIndex(image) < TotalIndex(image, cmds) + 1
  {}

  lemma SmallNumber(n: nat)
    requires n < 8
    ensures n as bv8 < 8
  {
    ByteOf(n);
  }

  lemma NumberIs(image: seq<bv8>, cmds: nat, k: nat)
    requires 1 <= |image| <= MAX_IMAGE && k <= TotalIndex(image, cmds)
    ensures Plan(image, cmds)[k].index == Number(k, TotalIndex(image, cmds))
  {
    hide TotalIndex;
    PlanFits(image, cmds);
    PlanAt(image, cmds, k);
    TxNoFits(k);
  }

  // A download of the image from `st`, the number of commands counted by then included: what
  // was sent is a prefix of the plan, one acknowledged packet at a time, and its replay leaves
  // the driver as it is; all of the plan when it succeeded.
  ghost predicate Downloaded(h: Engine, st: State, image: seq<bv8>, script: seq<seq<bv8>>,
                             ok: bool, rest: seq<seq<bv8>>, sent: seq<Sent>)
    requires h.Valid() && Receiver.Valid(st.m) && 1 <= |image|
    reads h, h.rxSkb, h.Buffer()
  {
    var plan := Plan(image, st.host.cmdsDone);
    var xs := Exchanges(sent, h.totalNum);
    var end := Replay(h.useCrc, st, xs);
    && h.totalNum == TotalIndex(image, st.host.cmdsDone)
    && Chunks(sent) <= plan && StopAndWait(h.useCrc, sent, h.done)
    && script == AllReads(xs) + rest
    && Noted(h.useCrc, st, sent, h.totalNum) && InTurn(h.useCrc, st, xs, h.totalNum)
    && Now(h) == (if ok then Thanked(h.useCrc, end) else end)
    && if ok then Chunks(sent) == plan && sent != [] && LastAcked(h, sent) else Unanswered(h, sent, rest)
  }

  // Downloads an image on a link that has answered numOfCmdSent commands: what is sent
  // is a prefix of the plan, all of it on success, always one acknowledged packet at a time.
  method DownloadFwConfig(h: Engine, script: seq<seq<bv8>>, buf: seq<bv8>)
    returns (ok: bool, rest: seq<seq<bv8>>, ghost sent: seq<Sent>)
    requires h.Valid() && 1 <= |buf| <= MAX_IMAGE && h.rxIndex == -1
    modifies h, h.rxSkb, h.Buffer()
    ensures h.Valid() && old(h.done) <= h.done
    ensures h.rxSkb == null || h.rxSkb == old(h.rxSkb) || (fresh(h.rxSkb) && fresh(h.rxSkb.data))
    ensures Downloaded(h, old(Now(h)), buf, script, ok, rest, sent)
    ensures Sequenced(sent, old(h.msgqTxseq)) && h.msgqTxseq == Advance(old(h.msgqTxseq), |sent|)
    ensures h.totalNum >= 0 && old(h.written) <= h.written
            && Loaded(Readers.Commands(h.written[|old(h.written)|..]), buf, old(h.msgqTxseq) as nat, h.totalNum, ok)
    ensures sent != [] ==> sent[0].at == |old(h.done)|
  {
    hide Plan, InTurn, NextSeq, Engine.Valid, Acked, StopAndWait, Sequenced, Replay, Exchanges, AllReads, Noted;
    hide PureAck, Receiver.Valid, EndIndex, TotalIndex, PaddedTotal, Loaded;
    ghost var cmds := h.numOfCmdSent;
    var endIndex := (|buf| - 1) / FIELD_SIZE;
    var lastLen := |buf| % FIELD_SIZE;
    var totalIndex := PaddedTotal(endIndex, h.numOfCmdSent % 0x100);
    SameTotal(buf, cmds);
    h.SetTotal(totalIndex);
    if lastLen == 0 {
      lastLen := FIELD_SIZE;
    }
    ok, rest, sent := SendAll(h, script, buf, cmds, endIndex, totalIndex, lastLen);
    ReceivedInTurn(h.useCrc, old(Now(h)), buf, cmds, sent);
    if ok {
      h.LastAck();
    }
    WrittenLoads(h, old(Now(h)), buf, script, ok, rest, sent, old(h.msgqTxseq));
  }

  // On the serial port a download is the image.
  lemma WrittenLoads(h: Engine, st: State, image: seq<bv8>, script: seq<seq<bv8>>, ok: bool, rest: seq<seq<bv8>>,
                     sent: seq<Sent>, first: bv8)
    requires h.Valid() && Receiver.Valid(st.m) && 1 <= |image| <= MAX_IMAGE && first < 8
    requires Downloaded(h, st, image, script, ok, rest, sent) && Sequenced(sent, first)
    ensures st.host.written <= h.written
    ensures Loaded(Readers.Commands(h.written[|st.host.written|..]), image, first as nat, h.totalNum, ok)
  {
    hide Plan, TotalIndex, StopAndWait, AllReads, Noted, InTurn, LastAcked, Unanswered, Loaded, Sequenced, Replay;
    hide Issues, Exchanges, Chunks, Engine.Valid, Receiver.Valid, PureAck, Readers.Commands, PatchCommand;
    var xs := Exchanges(sent, h.totalNum);
    var end := Replay(h.useCrc, st, xs);
    BackToBits(first);
    SentCarries(image, st.host.cmdsDone, sent, first as nat, ok);
    ReplayIssues(h.useCrc, st, xs);
    if ok {
      AckIssues(h.useCrc, end.host, end.m.expected);
      WritesTwice(st.host, end.host, h.HostView(), Issues(xs), []);
      assert Issues(xs) + [] == Issues(xs);
    }
  }

  lemma BackToBits(b: bv8)
    requires b < 8
    ensures (b as nat % 8) as bv8 == b && b as nat < 8
  {
    SmallNat(b);
    assert b as nat % 8 == b as nat;
  }

  lemma SmallNat(b: bv8)
    requires b < 8
    ensures b as nat < 8
  {}

  lemma NothingSent(h: Engine, plan: seq<Chunk>, first: bv8)
    requires h.msgqTxseq == first && h.rxIndex == -1
    ensures SentSoFar(h, plan, [], first) && LastAcked(h, [])
  {}

  // The driver keeps the number of commands in one byte.
  function PaddedTotal(endIndex: nat, cmdSent: nat): nat {
    var over := (endIndex + 1 + cmdSent) % 8;
    (if over != 0 then 8 - over else 0) + endIndex
  }

  lemma SameTotal(buf: seq<bv8>, cmds: nat)
    requires 1 <= |buf|
    ensures (|buf| - 1) / FIELD_SIZE == EndIndex(buf)
    ensures PaddedTotal(EndIndex(buf), cmds % 0x100) == TotalIndex(buf, cmds)
    ensures (if |buf| % FIELD_SIZE == 0 then FIELD_SIZE else |buf| % FIELD_SIZE) == |buf| - FIELD_SIZE * EndIndex(buf)
  {}

  lemma SentOneMore(useCrc: bool, sent: seq<Sent>, one: Sent, done: seq<Packet>, later: seq<Packet>)
    requires StopAndWait(useCrc, sent, done) && done <= later && one.at == |done|
    requires sent != [] ==> Acked(useCrc, sent[|sent| - 1], done, |done|)
    ensures StopAndWait(useCrc, sent + [one], later)
  {
    forall k | 0 <= k < |sent| ensures Acked(useCrc, (sent + [one])[k], later, (sent + [one])[k + 1].at) {
      AckedStays(useCrc, sent[k], done, (sent + [one])[k + 1].at, later);
    }
  }

  // ---------- a whole initialisation ----------

  datatype Command = ReadVersion | ReadRom | ReadChip | ChangeRate(rate: seq<bv8>)

  function CommandBytes(c: Command): seq<bv8> {
    match c
    case ReadVersion => [0x01, 0x10, 0x00]
    case ReadRom => [0x6d, 0xfc, 0x00]
    case ReadChip => [0x61, 0xfc, 0x05, 0x00, 0x94, 0xa0, 0x00, 0xb0]
    case ChangeRate(rate) => [0x17, 0xfc, 0x04] + rate
  }

  predicate Answered(h: Engine, c: Command)
    reads h
  {
    match c
    case ReadVersion => h.versionSeen
    case ReadRom => h.romSeen
    case ReadChip => h.chipSeen
    case ChangeRate(_) => h.linkEstabState != Init
  }

  // The commands of an initialisation as they go out.
  function Opening(chip: bool, rate: seq<bv8>): seq<seq<bv8>> {
    [[0x01, 0x10, 0x00], [0x6d, 0xfc, 0x00]]
    + (if chip then [[0x61, 0xfc, 0x05, 0x00, 0x94, 0xa0, 0x00, 0xb0]] else [])
    + (if rate != [] then [[0x17, 0xfc, 0x04] + rate] else [])
  }

  // A command is answered by the completion that carries its opcode, and by no other.
  lemma AnswerHasOpcode(useCrc: bool, h: Host, p: Packet, c: Command)
    requires h.link.Init? && !Met(h, Answer(c))
    ensures Met(Receive(useCrc, h, p), Answer(c)) <==> Completes(Init, p, CommandBytes(c)[0], CommandBytes(c)[1])
  {
    hide Receive, Image, HandedOn;
    OneSeen(useCrc, h, p);
    OneCounted(useCrc, h, p);
  }

  function ClearOf(c: Command): Clear {
    match c
    case ReadVersion => Version
    case ReadRom => Rom
    case ReadChip => Keep
    case ChangeRate(_) => Keep
  }

  // A version command is answered exactly by a completion that comes after it; the chip type
  // also by one that came before.
  lemma FreshAnswer(useCrc: bool, before: State, x: Exchange, c: Command)
    requires Receiver.Valid(before.m) && x.clear == ClearOf(c)
    ensures var r := Exchanged(useCrc, before, x);
            var ps, link := Since(before.m.done, r.m.done), before.host.link;
            && (c.ReadVersion? ==> (Met(r.host, Answer(c)) <==> Completed(link, ps, 0x01, 0x10)))
            && (c.ReadRom? ==> (Met(r.host, Answer(c)) <==> Completed(link, ps, 0x6d, 0xfc)))
            && (c.ReadChip? ==> (Met(r.host, Answer(c)) <==> before.host.chipSeen || Completed(link, ps, 0x61, 0xfc)))
  {
    hide Completed, Receiver.Run, Receiver.Valid, ReceiveAll, Wire;
    var asked := Asked(useCrc, before, x);
    AllSeen(useCrc, asked, Since(before.m.done, Exchanged(useCrc, before, x).m.done));
  }

  method SendAndMark(h: Engine, c: Command)
    requires h.Valid()
    modifies h`msgqTxseq, h`written, h`versionSeen, h`romSeen
    ensures h.Valid() && h.View() == old(h.View()) && h.msgqTxseq == NextSeq(old(h.msgqTxseq))
    ensures h.HostView() ==
              Cleared(Written(old(h.HostView()),
                              Wire(h.rxseqTxack, old(h.msgqTxseq), h.useCrc, COMMAND, CommandBytes(c))), ClearOf(c))
  {
    hide Receiver.Valid, Tracked, Wire, CommandBytes, NextSeq;
    h.SendCommand(CommandBytes(c));
    if c.ReadVersion? {
      h.versionSeen := false;
    } else if c.ReadRom? {
      h.romSeen := false;
    }
  }

  // Since `before`, in link state `link` with `n` completions counted, the link state is
  // what the packets make of it and each of their completions has been counted.
  ghost predicate Counted(h: Engine, before: seq<Packet>, link: LinkState, n: u16)
    reads h
  {
    && before <= h.done && h.linkEstabState == LinkAfter(link, h.done[|before|..])
    && h.numOfCmdSent == (n + Completions(link, h.done[|before|..])) % 0x1_0000
  }

  lemma NothingCounted(h: Engine)
    ensures Counted(h, h.done, h.linkEstabState, h.numOfCmdSent)
  {}

  lemma CountedUp(h: Engine, before: seq<Packet>, host: Host)
    requires h.HandedUp(before, host)
    ensures Counted(h, before, host.link, host.cmdsDone)
  {
    hide ReceiveAll;
    AllCounted(h.useCrc, host, h.done[|before|..]);
  }

  lemma CountedTwice(h: Engine, a: seq<Packet>, link: LinkState, n: u16, b: seq<Packet>, link': LinkState, n': u16)
    requires a <= b && link' == LinkAfter(link, b[|a|..]) && n' == (n + Completions(link, b[|a|..])) % 0x1_0000
    requires Counted(h, b, link', n')
    ensures Counted(h, a, link, n)
  {
    hide LinkAfter, Completions;
    assert h.done[|a|..] == b[|a|..] + h.done[|b|..];
    CompletionsAppend(link, b[|a|..], h.done[|b|..]);
  }

  // Sends a command and receives until it is answered or reading fails.
  method RunCommand(h: Engine, script: seq<seq<bv8>>, c: Command)
    returns (ok: bool, rest: seq<seq<bv8>>, ghost one: Exchange)
    requires h.Valid()
    modifies h, h.rxSkb, h.Buffer()
    ensures h.Valid() && h.msgqTxseq == NextSeq(old(h.msgqTxseq))
    ensures h.rxSkb == null || h.rxSkb == old(h.rxSkb) || (fresh(h.rxSkb) && fresh(h.rxSkb.data))
    ensures ok == Answered(h, c) && (!ok ==> rest == [])
    ensures HasRead(h, old(h.View()), script, rest, old(h.Resync()))
    ensures one == Exchange(CommandBytes(c), ClearOf(c), old(h.msgqTxseq), one.reads', old(h.Resync()))
    ensures script == one.reads' + rest && Now(h) == Exchanged(h.useCrc, old(Now(h)), one)
    ensures Awaited(h.useCrc, old(Now(h)), one, c)
    ensures h.Resync() == old(h.Resync())
    ensures h.HandedUp(old(h.done), Asked(h.useCrc, old(Now(h)), one))
    ensures Counted(h, old(h.done), old(h.linkEstabState), old(h.numOfCmdSent))
  {
    hide Engine.Valid, NextSeq, Wire, ReceiveAll, LinkAfter, Completions, Receiver.Run, Flat, CommandBytes, Heard;
    ViewIsValid(h);
    ghost var done0, m, resync := h.done, h.View(), h.Resync();
    SendAndMark(h, c);
    ghost var host := h.HostView();
    ok, rest := AwaitAnswer(h, script, c);
    CountedUp(h, done0, host);
    HeardIs(h, m, host, script, rest, resync);
    one := Exchange(CommandBytes(c), ClearOf(c), old(h.msgqTxseq), script[..|script| - |rest|], resync);
  }

  // What was read for the command was read no further than its answer.
  ghost predicate Awaited(useCrc: bool, st: State, x: Exchange, c: Command)
    requires Receiver.Valid(st.m)
  {
    Prompt(useCrc, st.m, Asked(useCrc, st, x), x.reads', x.resync, Answer(c))
  }

  method AwaitAnswer(h: Engine, script: seq<seq<bv8>>, c: Command) returns (ok: bool, rest: seq<seq<bv8>>)
    requires h.Valid()
    modifies h, h.rxSkb, h.Buffer()
    ensures h.Valid() && h.msgqTxseq == old(h.msgqTxseq) && h.Resync() == old(h.Resync())
    ensures h.rxSkb == null || h.rxSkb == old(h.rxSkb) || (fresh(h.rxSkb) && fresh(h.rxSkb.data))
    ensures h.HandedUp(old(h.done), old(h.HostView()))
    ensures ok == Answered(h, c) && (!ok ==> rest == [])
    ensures HasRead(h, old(h.View()), script, rest, old(h.Resync()))
    ensures Prompt(h.useCrc, old(h.View()), old(h.HostView()), script[..|script| - |rest|], old(h.Resync()), Answer(c))
  {
    hide Engine.Valid, ReceiveAll, Receiver.Run, Flat, Heard, Answers, AllReplies, Receiver.Valid;
    ViewIsValid(h);
    ghost var done0, host, m, resync := h.done, h.HostView(), h.View(), h.Resync();
    ReadNothing(m, script, resync);
    NothingHandedUp(h.useCrc, host, done0);
    ok, rest := true, script;
    while !Answered(h, c)
      invariant h.Valid() && h.msgqTxseq == old(h.msgqTxseq) && h.Resync() == resync
      invariant h.rxSkb == null || h.rxSkb == old(h.rxSkb) || (fresh(h.rxSkb) && fresh(h.rxSkb.data))
      invariant h.HandedUp(done0, host) && HasRead(h, m, script, rest, resync)
      invariant Prompt(h.useCrc, m, host, script[..|script| - |rest|], resync, Answer(c))
      decreases |rest|
    {
      if rest == [] {
        ok := false;
        break;
      }
      ghost var done1 := h.done;
      HeardIs(h, m, host, script, rest, resync);
      StillPrompt(h.useCrc, m, host, script, |script| - |rest|, resync, Answer(c));
      ReadOneMore(m, script, rest, resync);
      h.Recv(rest[0]);
      rest := rest[1..];
      HandedUpTwice(h.useCrc, host, done0, done1, h.done);
    }
  }

  lemma {:induction false} AdvanceTwice(start: bv8, a: nat, b: nat)
    ensures Advance(Advance(start, a), b) == Advance(start, a + b)
  {
    if b > 0 {
      AdvanceTwice(start, a, b - 1);
    }
  }

  lemma {:induction false} AdvanceIsMod(n: nat)
    ensures Advance(0, n) == (n % 8) as bv8
  {
    if n > 0 {
      AdvanceIsMod(n - 1);
      NextIsMod(n - 1);
    }
  }

  lemma NextIsMod(n: nat)
    ensures NextSeq((n % 8) as bv8) == ((n + 1) % 8) as bv8
  {}

  lemma ZeroIsMod(n: nat)
    ensures Advance(0, n) == 0 <==> n % 8 == 0
  {
    AdvanceIsMod(n);
    SmallIsZero(n % 8);
  }

  lemma SmallIsZero(k: nat)
    requires k < 8
    ensures k as bv8 == 0 <==> k == 0
  {}

  // After a complete download the sequence number is back at zero exactly when the
  // completions counted and the commands sent agree modulo eight.
  lemma Restored(image: seq<bv8>, commands: nat, counted: nat)
    requires 1 <= |image|
    ensures Advance(0, commands + |Plan(image, counted)|) == 0 <==> counted % 8 == commands % 8
  {
    hide EndIndex;
    var n := EndIndex(image) + 1;
    Filled(n + counted);
    SameResidue(n + Padding(image, counted), counted, commands);
    ZeroIsMod(commands + |Plan(image, counted)|);
  }

  lemma Filled(n: nat)
    ensures (n + (if n % 8 != 0 then 8 - n % 8 else 0)) % 8 == 0
  {}

  lemma SameResidue(n: nat, a: nat, b: nat)
    requires (n + a) % 8 == 0
    ensures (b + n) % 8 == 0 <==> a % 8 == b % 8
  {}

  function Commands(chip: bool, rate: seq<bv8>): (cs: seq<Command>)
    ensures |cs| == 2 + (if chip then 1 else 0) + (if rate != [] then 1 else 0)
  {
    [ReadVersion, ReadRom] + (if chip then [ReadChip] else []) + (if rate != [] then [ChangeRate(rate)] else [])
  }

  // Exchange k is command k, under sequence number k, read for just until it was answered
  // unless the script ran out.
  ghost predicate Issued(useCrc: bool, st: State, xs: seq<Exchange>, cs: seq<Command>, resync: bool,
                         script: seq<seq<bv8>>)
    requires Receiver.Valid(st.m)
  {
    && |xs| == |cs|
    && forall k :: 0 <= k < |xs| ==> IssuedAt(useCrc, st, xs, k, cs[k], resync, script)
  }

  ghost predicate IssuedAt(useCrc: bool, st: State, xs: seq<Exchange>, k: nat, c: Command, resync: bool,
                           script: seq<seq<bv8>>)
    requires Receiver.Valid(st.m) && k < |xs|
  {
    var before := Replay(useCrc, st, xs[..k]);
    && xs[k] == Exchange(CommandBytes(c), ClearOf(c), Advance(0, k), xs[k].reads', resync)
    && Awaited(useCrc, before, xs[k], c)
    && (Met(Exchanged(useCrc, before, xs[k]).host, Answer(c)) || AllReads(xs[..k + 1]) == script)
  }

  // There is one way to issue the commands: the script decides which reads each one gets.
  lemma {:induction false} IssuedOnce(useCrc: bool, st: State, xs: seq<Exchange>, ys: seq<Exchange>,
                                      cs: seq<Command>, resync: bool, script: seq<seq<bv8>>, n: nat)
    requires Receiver.Valid(st.m) && n <= |cs|
    requires Issued(useCrc, st, xs, cs, resync, script) && AllReads(xs) <= script
    requires Issued(useCrc, st, ys, cs, resync, script) && AllReads(ys) <= script
    ensures xs[..n] == ys[..n]
  {
    hide Replay, AllReads, IssuedAt, Issued, Receiver.Valid;
    if n > 0 {
      var k := n - 1;
      IssuedHas(useCrc, st, xs, cs, resync, script, k);
      IssuedHas(useCrc, st, ys, cs, resync, script, k);
      IssuedOnce(useCrc, st, xs, ys, cs, resync, script, k);
      SameNext(useCrc, st, xs, ys, k, cs[k], resync, script);
      assert xs[..n] == xs[..k] + [xs[k]] && ys[..n] == ys[..k] + [ys[k]];
    }
  }

  lemma IssuedHas(useCrc: bool, st: State, xs: seq<Exchange>, cs: seq<Command>, resync: bool,
                  script: seq<seq<bv8>>, k: nat)
    requires Receiver.Valid(st.m) && Issued(useCrc, st, xs, cs, resync, script) && k < |cs|
    ensures |xs| == |cs| && IssuedAt(useCrc, st, xs, k, cs[k], resync, script)
  {
    hide IssuedAt, Receiver.Valid;
  }

  lemma SameNext(useCrc: bool, st: State, xs: seq<Exchange>, ys: seq<Exchange>, k: nat, c: Command, resync: bool,
                 script: seq<seq<bv8>>)
    requires Receiver.Valid(st.m) && k < |xs| && k < |ys| && xs[..k] == ys[..k]
    requires IssuedAt(useCrc, st, xs, k, c, resync, script) && AllReads(xs) <= script
    requires IssuedAt(useCrc, st, ys, k, c, resync, script) && AllReads(ys) <= script
    ensures xs[k] == ys[k]
  {
    hide Replay, AllReads, IssuedAt;
    ReadsUpTo(xs, k);
    ReadsUpTo(ys, k);
    NoFewerReads(useCrc, st, xs, ys, k, c, resync, script);
    NoFewerReads(useCrc, st, ys, xs, k, c, resync, script);
    SameReads(AllReads(xs[..k]), xs[k].reads', ys[k].reads', script);
    SameExchange(useCrc, st, xs, ys, k, c, resync, script);
  }

  lemma {:induction false} ReadsUpTo(xs: seq<Exchange>, k: nat)
    requires k < |xs|
    ensures AllReads(xs[..k + 1]) == AllReads(xs[..k]) + xs[k].reads' && AllReads(xs[..k + 1]) <= AllReads(xs)
    decreases |xs|
  {
    assert xs[..k + 1][..k] == xs[..k];
    if k + 1 < |xs| {
      var init := xs[..|xs| - 1];
      ReadsUpTo(init, k);
      assert init[..k + 1] == xs[..k + 1] && init[..k] == xs[..k];
    } else {
      assert xs[..k + 1] == xs;
    }
  }

  // With fewer reads than y, x would be neither answered nor at the end of the script.
  lemma NoFewerReads(useCrc: bool, st: State, xs: seq<Exchange>, ys: seq<Exchange>, k: nat, c: Command, resync: bool,
                     script: seq<seq<bv8>>)
    requires Receiver.Valid(st.m) && k < |xs| && k < |ys| && xs[..k] == ys[..k]
    requires IssuedAt(useCrc, st, xs, k, c, resync, script) && IssuedAt(useCrc, st, ys, k, c, resync, script)
    requires AllReads(xs[..k + 1]) == AllReads(xs[..k]) + xs[k].reads' <= script
    requires AllReads(ys[..k + 1]) == AllReads(ys[..k]) + ys[k].reads' <= script
    ensures |xs[k].reads'| >= |ys[k].reads'|
  {
    hide Replay, AllReads, CommandBytes, Met, Exchanged, Awaited;
    var before, x, y := Replay(useCrc, st, xs[..k]), xs[k].reads', ys[k].reads';
    if |x| < |y| {
      FewerReads(AllReads(xs[..k]), x, y, script);
      StillWaiting(useCrc, before, xs[k], y, c);
    }
  }

  lemma FewerReads(done: seq<seq<bv8>>, x: seq<seq<bv8>>, y: seq<seq<bv8>>, script: seq<seq<bv8>>)
    requires done + x <= script && done + y <= script && |x| < |y|
    ensures x == y[..|x|] && done + x != script
  {
    assert x == script[|done|..|done| + |x|] == y[..|x|];
  }

  lemma StillWaiting(useCrc: bool, before: State, x: Exchange, more: seq<seq<bv8>>, c: Command)
    requires Receiver.Valid(before.m) && Awaited(useCrc, before, x.(reads' := more), c)
    requires |x.reads'| < |more| && x.reads' == more[..|x.reads'|]
    ensures !Met(Exchanged(useCrc, before, x).host, Answer(c))
  {
    hide Met, Heard, Receiver.Valid;
    assert Asked(useCrc, before, x) == Asked(useCrc, before, x.(reads' := more));
  }

  lemma SameReads(done: seq<seq<bv8>>, x: seq<seq<bv8>>, y: seq<seq<bv8>>, script: seq<seq<bv8>>)
    requires done + x <= script && done + y <= script && |x| == |y|
    ensures x == y
  {
    assert x == script[|done|..|done| + |x|] == y;
  }

  lemma SameExchange(useCrc: bool, st: State, xs: seq<Exchange>, ys: seq<Exchange>, k: nat, c: Command, resync: bool,
                     script: seq<seq<bv8>>)
    requires Receiver.Valid(st.m) && k < |xs| && k < |ys| && xs[k].reads' == ys[k].reads'
    requires IssuedAt(useCrc, st, xs, k, c, resync, script) && IssuedAt(useCrc, st, ys, k, c, resync, script)
    ensures xs[k] == ys[k]
  {
    hide Replay, AllReads, CommandBytes, Awaited, Met, Exchanged;
  }

  // Ready for the download: patch state, nothing acknowledged.
  function Entered(st: State): State {
    State(st.m, st.host.(link := Patch, rxIndex := -1))
  }

  // The first commands written are those of an initialisation, numbered from zero.
  predicate Opens(cs: seq<Readers.Sent>, opening: seq<seq<bv8>>) {
    && |cs| >= |opening|
    && forall k :: 0 <= k < |opening| ==> cs[k] == Readers.Sent((k % 8) as bv8, opening[k])
  }

  // The commands written from one state to a later one, read back: the opening, then the image.
  predicate OnThePort(a: Host, b: Host, opening: seq<seq<bv8>>, image: seq<bv8>, total: int, ok: bool) {
    && a.written <= b.written
    && var cs, n := Readers.Commands(b.written[|a.written|..]), |opening|;
       && Opens(cs, opening)
       && if image == [] then |cs| == n else total >= 0 && Loaded(cs[n..], image, n % 8, total, ok)
  }

  lemma OpenedThenLoaded(a: Host, mid: Host, b: Host, opening: seq<seq<bv8>>, cs: seq<Readers.Sent>, image: seq<bv8>,
                         first: bv8, total: nat, ok: bool)
    requires Writes(a, mid, cs) && Opens(cs, opening) && |cs| == |opening| && image != []
    requires mid.written <= b.written && first == (|opening| % 8) as bv8
    requires Loaded(Readers.Commands(b.written[|mid.written|..]), image, first as nat, total, ok)
    ensures OnThePort(a, b, opening, image, total, ok)
  {
    hide Loaded, Readers.Commands;
    var more := Readers.Commands(b.written[|mid.written|..]);
    WritesTwice(a, mid, b, cs, more);
    assert (cs + more)[|opening|..] == more;
    ByteOf(|opening| % 8);
  }

  lemma IssuedOpens(useCrc: bool, st: State, xs: seq<Exchange>, chip: bool, rate: seq<bv8>, resync: bool,
                    script: seq<seq<bv8>>)
    requires Receiver.Valid(st.m) && Issued(useCrc, st, xs, Commands(chip, rate), resync, script) && |rate| <= 4
    ensures Opens(Issues(xs), Opening(chip, rate)) && |xs| == |Opening(chip, rate)|
    ensures Writes(st.host, Replay(useCrc, st, xs).host, Issues(xs))
  {
    hide Replay, AllReads, Awaited, Met, Exchanged, NextSeq, CommandBytes;
    forall k | 0 <= k < |xs|
      ensures xs[k].seqno == (k % 8) as bv8 && xs[k].seqno < 8
      ensures xs[k].command == Opening(chip, rate)[k] && |xs[k].command| <= MAX_PAYLOAD
    {
      assert IssuedAt(useCrc, st, xs, k, Commands(chip, rate)[k], resync, script);
      AdvanceIsMod(k);
      SmallNumber(k % 8);
      OpeningIs(chip, rate, k);
    }
    ReplayIssues(useCrc, st, xs);
  }

  lemma OpeningIs(chip: bool, rate: seq<bv8>, k: nat)
    requires k < |Commands(chip, rate)|
    ensures |Commands(chip, rate)| == |Opening(chip, rate)|
    ensures CommandBytes(Commands(chip, rate)[k]) == Opening(chip, rate)[k]
    ensures |Opening(chip, rate)[k]| <= 8 + |rate|
  {}

  // Commands, then the download.  The commands issued, replayed from the start, and then the
  // packets sent, replayed from patch state, leave the driver exactly as it is: so every
  // byte written and read is accounted for, and the script decides where the commands end
  // (`IssuedOnce`).  What is sent is the plan for the completions counted during the
  // commands, all of it on success; the transmit number then ends at zero exactly when those
  // completions and the commands agree modulo eight, in particular when each command had one.
  method Configure(h: Engine, script: seq<seq<bv8>>, chip: bool, rate: seq<bv8>, image: seq<bv8>)
    returns (ok: bool, rest: seq<seq<bv8>>, ghost issued: seq<Exchange>, ghost sent: seq<Sent>)
    requires h.Valid() && h.msgqTxseq == 0 && |image| <= MAX_IMAGE
    modifies h, h.rxSkb, h.Buffer()
    ensures h.Valid() && old(h.done) <= h.done
    ensures Issued(h.useCrc, old(Now(h)), issued, Commands(chip, rate), old(h.Resync()), script)
    ensures image == [] ==>
              && ok && sent == [] && script == AllReads(issued) + rest
              && Now(h) == Replay(h.useCrc, old(Now(h)), issued)
    ensures image != [] ==>
              var n := |AllReads(issued)|;
              && n <= |script| && script[..n] == AllReads(issued)
              && Downloaded(h, Entered(Replay(h.useCrc, old(Now(h)), issued)), image, script[n..], ok, rest, sent)
              && Sequenced(sent, Advance(0, |issued|))
    ensures |rate| <= 4 ==>
              OnThePort(old(h.HostView()), h.HostView(), Opening(chip, rate), image, h.totalNum, ok)
    ensures ok && image != [] ==>
              var m := Replay(h.useCrc, old(Now(h)), issued).m;
              var n := old(h.numOfCmdSent) + Completions(old(h.linkEstabState), Since(old(h.done), m.done));
              && Replay(h.useCrc, old(Now(h)), issued).host.cmdsDone == n % 0x1_0000
              && (h.msgqTxseq == 0 <==> n % 8 == |issued| % 8)
              && (n == |issued| ==> h.msgqTxseq == 0)
  {
    hide Engine.Valid, NextSeq, Plan, Completions, LinkAfter, Sequenced, Downloaded, Loaded, Opening, OnThePort;
    hide Replay, AllReads, Receiver.Valid, Issued, Commands, Opens, Writes;
    ghost var n, st := h.numOfCmdSent, Now(h);
    ghost var done0, link, resync := h.done, h.linkEstabState, h.Resync();
    rest, issued := SendCommands(h, script, chip, rate);
    n := n + Completions(link, Since(done0, h.done));
    ok, sent := true, [];
    ghost var mid, middle, first := rest, h.HostView(), h.msgqTxseq;
    if image != [] {
      ghost var counted := h.numOfCmdSent;
      ok, rest, sent := LoadImage(h, rest, image);
      assert script[..|AllReads(issued)|] == AllReads(issued) && script[|AllReads(issued)|..] == mid;
      if ok {
        AllSent(h, Entered(Replay(h.useCrc, old(Now(h)), issued)), image, mid, rest, sent);
        NumberAtEnd(|issued|, image, counted, n);
      }
    }
    if |rate| <= 4 {
      IssuedOpens(h.useCrc, st, issued, chip, rate, resync, script);
      PortHolds(st.host, middle, h.HostView(), issued, Opening(chip, rate), image, first, h.totalNum, ok);
    }
  }

  // Into patch state, then the download.
  method LoadImage(h: Engine, script: seq<seq<bv8>>, image: seq<bv8>)
    returns (ok: bool, rest: seq<seq<bv8>>, ghost sent: seq<Sent>)
    requires h.Valid() && 1 <= |image| <= MAX_IMAGE
    modifies h, h.rxSkb, h.Buffer()
    ensures h.Valid() && old(h.done) <= h.done
    ensures Downloaded(h, Entered(old(Now(h))), image, script, ok, rest, sent)
    ensures Sequenced(sent, old(h.msgqTxseq)) && h.msgqTxseq == Advance(old(h.msgqTxseq), |sent|)
    ensures h.totalNum >= 0 && old(h.written) <= h.written
            && Loaded(Readers.Commands(h.written[|old(h.written)|..]), image, old(h.msgqTxseq) as nat, h.totalNum, ok)
  {
    hide Engine.Valid, NextSeq, Sequenced, Downloaded, Loaded, Receiver.Valid;
    h.StartPatch();
    ok, rest, sent := DownloadFwConfig(h, script, image);
  }

  lemma PortHolds(a: Host, mid: Host, b: Host, issued: seq<Exchange>, opening: seq<seq<bv8>>, image: seq<bv8>,
                  first: bv8, total: int, ok: bool)
    requires Writes(a, mid, Issues(issued)) && Opens(Issues(issued), opening) && |issued| == |opening|
    requires first == Advance(0, |issued|)
    requires if image == [] then mid.written == b.written
             else && mid.written <= b.written && total >= 0
                  && Loaded(Readers.Commands(b.written[|mid.written|..]), image, first as nat, total, ok)
    ensures OnThePort(a, b, opening, image, total, ok)
  {
    hide Loaded, Readers.Commands, NextSeq;
    AdvanceIsMod(|issued|);
    if image != [] {
      OpenedThenLoaded(a, mid, b, opening, Issues(issued), image, first, total, ok);
    }
  }

  lemma AllSent(h: Engine, st: State, image: seq<bv8>, script: seq<seq<bv8>>, rest: seq<seq<bv8>>, sent: seq<Sent>)
    requires h.Valid() && Receiver.Valid(st.m) && 1 <= |image|
    requires Downloaded(h, st, image, script, true, rest, sent)
    ensures |sent| == |Plan(image, st.host.cmdsDone)|
  {
    hide Plan, Engine.Valid, Receiver.Valid, StopAndWait, Replay, Exchanges, AllReads, Noted, InTurn;
  }

  lemma NumberAtEnd(commands: nat, image: seq<bv8>, counted: nat, n: nat)
    requires 1 <= |image| && counted == n % 0x1_0000
    ensures Advance(Advance(0, commands), |Plan(image, counted)|) == 0 <==> n % 8 == commands % 8
  {
    hide Plan, NextSeq;
    AdvanceTwice(0, commands, |Plan(image, counted)|);
    Restored(image, commands, counted);
    SixteenBits(n);
  }

  lemma SixteenBits(n: nat)
    ensures n % 0x1_0000 % 8 == n % 8
  {}

  // After some commands: what was issued, replayed, is where the driver is.
  ghost predicate CommandsDone(h: Engine, st: State, xs: seq<Exchange>, cs: seq<Command>, resync: bool,
                               script: seq<seq<bv8>>, rest: seq<seq<bv8>>)
    requires h.Valid() && Receiver.Valid(st.m)
    reads h, h.rxSkb, h.Buffer()
  {
    && h.msgqTxseq == Advance(0, |xs|) && h.Resync() == resync
    && Issued(h.useCrc, st, xs, cs, resync, script)
    && Now(h) == Replay(h.useCrc, st, xs) && script == AllReads(xs) + rest
    && Counted(h, st.m.done, st.host.link, st.host.cmdsDone)
  }

  lemma NoCommands(h: Engine, script: seq<seq<bv8>>)
    requires h.Valid() && h.msgqTxseq == 0
    ensures CommandsDone(h, Now(h), [], [], h.Resync(), script, script)
  {
    NothingCounted(h);
    assert [] + script == script;
  }

  method SendReads(h: Engine, script: seq<seq<bv8>>) returns (rest: seq<seq<bv8>>, ghost xs: seq<Exchange>)
    requires h.Valid() && h.msgqTxseq == 0
    modifies h, h.rxSkb, h.Buffer()
    ensures h.Valid() && CommandsDone(h, old(Now(h)), xs, [ReadVersion, ReadRom], old(h.Resync()), script, rest)
    ensures h.rxSkb == null || h.rxSkb == old(h.rxSkb) || (fresh(h.rxSkb) && fresh(h.rxSkb.data))
  {
    hide Engine.Valid, NextSeq, CommandsDone, Receiver.Valid, Now;
    ghost var st, resync := Now(h), h.Resync();
    NoCommands(h, script);
    rest, xs := NextCommand(h, script, ReadVersion, st, [], [], resync, script);
    rest, xs := NextCommand(h, rest, ReadRom, st, xs, [] + [ReadVersion], resync, script);
    assert [] + [ReadVersion] + [ReadRom] == [ReadVersion, ReadRom];
  }

  // The commands before the download: local version and ROM version, then what the
  // chip and the configured baud rate call for.
  method SendCommands(h: Engine, script: seq<seq<bv8>>, chip: bool, rate: seq<bv8>)
    returns (rest: seq<seq<bv8>>, ghost xs: seq<Exchange>)
    requires h.Valid() && h.msgqTxseq == 0
    modifies h, h.rxSkb, h.Buffer()
    ensures h.Valid() && CommandsDone(h, old(Now(h)), xs, Commands(chip, rate), old(h.Resync()), script, rest)
    ensures h.rxSkb == null || h.rxSkb == old(h.rxSkb) || (fresh(h.rxSkb) && fresh(h.rxSkb.data))
  {
    hide Engine.Valid, NextSeq, CommandsDone, Receiver.Valid, Now;
    ghost var st, resync, cs := Now(h), h.Resync(), [ReadVersion, ReadRom];
    rest, xs := SendReads(h, script);
    if chip {
      rest, xs := NextCommand(h, rest, ReadChip, st, xs, cs, resync, script);
      cs := cs + [ReadChip];
    }
    if rate != [] {
      rest, xs := NextCommand(h, rest, ChangeRate(rate), st, xs, cs, resync, script);
      cs := cs + [ChangeRate(rate)];
    }
    assert cs == Commands(chip, rate);
  }

  // One more command of a sequence; the driver goes on whether or not it was answered.
  method NextCommand(h: Engine, script: seq<seq<bv8>>, c: Command, ghost st: State, ghost xs: seq<Exchange>,
                     ghost cs: seq<Command>, ghost resync: bool, ghost all: seq<seq<bv8>>)
    returns (rest: seq<seq<bv8>>, ghost xs': seq<Exchange>)
    requires h.Valid() && Receiver.Valid(st.m) && CommandsDone(h, st, xs, cs, resync, all, script)
    modifies h, h.rxSkb, h.Buffer()
    ensures h.Valid() && CommandsDone(h, st, xs', cs + [c], resync, all, rest)
    ensures h.rxSkb == null || h.rxSkb == old(h.rxSkb) || (fresh(h.rxSkb) && fresh(h.rxSkb.data))
  {
    hide Engine.Valid, NextSeq, Completions, LinkAfter, Replay, AllReads, Exchanged, Asked, CommandBytes,
         Receiver.Valid, Awaited;
    ghost var done1, link1, n1 := h.done, h.linkEstabState, h.numOfCmdSent;
    var ok;
    ghost var one;
    ok, rest, one := RunCommand(h, script, c);
    xs' := xs + [one];
    CountedTwice(h, st.m.done, st.host.link, st.host.cmdsDone, done1, link1, n1);
    OneMore(h.useCrc, st, xs, one);
    assert AllReads(xs) + (one.reads' + rest) == (AllReads(xs) + one.reads') + rest;
    OneMoreIssued(h.useCrc, st, xs, one, cs, c, resync, all);
  }

  lemma OneMoreIssued(useCrc: bool, st: State, xs: seq<Exchange>, one: Exchange, cs: seq<Command>, c: Command,
                      resync: bool, script: seq<seq<bv8>>)
    requires Receiver.Valid(st.m) && Issued(useCrc, st, xs, cs, resync, script)
    requires one == Exchange(CommandBytes(c), ClearOf(c), Advance(0, |xs|), one.reads', resync)
    requires Awaited(useCrc, Replay(useCrc, st, xs), one, c)
    requires || Met(Exchanged(useCrc, Replay(useCrc, st, xs), one).host, Answer(c))
             || AllReads(xs + [one]) == script
    ensures Issued(useCrc, st, xs + [one], cs + [c], resync, script)
  {
    hide CommandBytes, NextSeq, Awaited, Met, Exchanged, Replay, AllReads;
    var ys := xs + [one];
    assert ys[..|xs|] == xs && ys[..|xs| + 1] == ys;
    forall k | 0 <= k < |ys| ensures IssuedAt(useCrc, st, ys, k, (cs + [c])[k], resync, script) {
      if k < |xs| {
        assert ys[..k] == xs[..k] && ys[..k + 1] == xs[..k + 1];
        assert IssuedAt(useCrc, st, xs, k, cs[k], resync, script);
      }
    }
  }

  // Right after initialisation index and total are both zero, so resynchronisation is on:
  // of three copies of one event two are completed.
  method ThirdCopyAfterStart() returns (h: Engine)
    ensures h.Valid() && h.txIndex == h.totalNum == 0 && |h.done| == 2
  {
    hide Receiver.Valid, Receiver.Run, Tracked, WireOf, Flush;
    ghost var it := Item(EVENT, [], 0, 0, false);
    h := new Engine(false);
    FirstOfThree(h.View(), it);
    var w := WireOf(Item(EVENT, [], 0, 0, false));
    h.Recv(w + w + w);
  }

  lemma FirstOfThree(m: Receiver.Machine, it: Item)
    requires m == Receiver.Machine(Receiver.Hunt, 0, []) && it == Item(EVENT, [], 0, 0, false)
    ensures Receiver.Valid(m)
    ensures var w := WireOf(it); |Receiver.Run(m, w + w + w, true).done| == 2
  {
    hide Receiver.Run, WireOf, NextSeq;
    assert Flush(m, true) == Receiver.Machine(Receiver.Open, 0, []);
    RetransmissionCompleted(m, it, true);
    WireRecovered(m, it, true);
  }
}
