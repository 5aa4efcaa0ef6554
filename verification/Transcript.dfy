/** What the driver says and hears during initialisation, as values: replaying a list of
    exchanges gives the receiver and the layer above exactly as the driver leaves them.
 */
module Transcripts {
  import opened Frame
  import opened Hosts
  import Readers
  import Receiver

  datatype State = State(m: Receiver.Machine, host: Host)

  // Which reply a command waits for anew.
  datatype Clear = Keep | Version | Rom

  // A command written under a sequence number, and what was read until it was answered or
  // reading failed, with or without resynchronisation.
  datatype Exchange = Exchange(command: seq<bv8>, clear: Clear, seqno: bv8, reads': seq<seq<bv8>>, resync: bool)

  function Flat(reads': seq<seq<bv8>>): seq<bv8> {
    if reads' == [] then [] else Flat(reads'[..|reads'| - 1]) + reads'[|reads'| - 1]
  }

  function Since(before: seq<Packet>, after: seq<Packet>): seq<Packet> {
    if |before| <= |after| then after[|before|..] else []
  }

  function Cleared(h: Host, clear: Clear): Host {
    match clear
    case Keep => h
    case Version => h.(versionSeen := false)
    case Rom => h.(romSeen := false)
  }

  // The layer above with the command just written, acknowledging what has been received.
  function Asked(useCrc: bool, st: State, x: Exchange): Host {
    Cleared(Written(st.host, Wire(st.m.expected, x.seqno, useCrc, COMMAND, x.command)), x.clear)
  }

  // The reads received, and the packets they complete handed up.
  function Heard(useCrc: bool, m: Receiver.Machine, host: Host, reads': seq<seq<bv8>>, resync: bool): (r: State)
    requires Receiver.Valid(m)
    ensures Receiver.Valid(r.m)
  {
    var m' := Receiver.Run(m, Flat(reads'), resync);
    State(m', ReceiveAll(useCrc, host, Since(m.done, m'.done)))
  }

  function Exchanged(useCrc: bool, st: State, x: Exchange): (r: State)
    requires Receiver.Valid(st.m)
    ensures Receiver.Valid(r.m)
  {
    Heard(useCrc, st.m, Asked(useCrc, st, x), x.reads', x.resync)
  }

  function Replay(useCrc: bool, st: State, xs: seq<Exchange>): (r: State)
    requires Receiver.Valid(st.m)
    ensures Receiver.Valid(r.m)
  {
    if xs == [] then st else Exchanged(useCrc, Replay(useCrc, st, xs[..|xs| - 1]), xs[|xs| - 1])
  }

  function AllReads(xs: seq<Exchange>): seq<seq<bv8>> {
    if xs == [] then [] else AllReads(xs[..|xs| - 1]) + xs[|xs| - 1].reads'
  }

  lemma OneMore(useCrc: bool, st: State, xs: seq<Exchange>, x: Exchange)
    requires Receiver.Valid(st.m)
    ensures Replay(useCrc, st, xs + [x]) == Exchanged(useCrc, Replay(useCrc, st, xs), x)
    ensures AllReads(xs + [x]) == AllReads(xs) + x.reads'
  {
    assert (xs + [x])[..|xs|] == xs;
  }

  // ---------- the commands among what was written ----------

  function Issues(xs: seq<Exchange>): (cs: seq<Readers.Sent>)
    ensures |cs| == |xs| && forall k :: 0 <= k < |cs| ==> cs[k] == Readers.Sent(xs[k].seqno, xs[k].command)
  {
    seq(|xs|, k requires 0 <= k < |xs| => Readers.Sent(xs[k].seqno, xs[k].command))
  }

  // From one host to a later one these commands, and no others, have been written.
  predicate Writes(a: Host, b: Host, cs: seq<Readers.Sent>) {
    a.written <= b.written && Readers.Commands(b.written[|a.written|..]) == cs
  }

  lemma WritesTwice(a: Host, b: Host, c: Host, x: seq<Readers.Sent>, y: seq<Readers.Sent>)
    requires Writes(a, b, x) && Writes(b, c, y)
    ensures Writes(a, c, x + y)
  {
    hide Readers.Commands;
    var u, v := b.written[|a.written|..], c.written[|b.written|..];
    assert c.written[|a.written|..] == u + v;
    Readers.CommandsAppend(u, v);
  }

  lemma {:induction false} NoneIsCommand(ws: seq<seq<bv8>>)
    requires forall i :: 0 <= i < |ws| ==> !(Readers.Read(ws[i]).Got? && Readers.Read(ws[i]).ptype == 0x01)
    ensures Readers.Commands(ws) == []
  {
    hide Readers.Read;
    if ws != [] {
      NoneIsCommand(ws[..|ws| - 1]);
    }
  }

  lemma {:induction false} AnswersAreNone(link: LinkState, ps: seq<Packet>)
    ensures forall g :: g in AllReplies(link, ps) ==> g.Got? && g.ptype != 0x01
  {
    hide LinkAfter, HandedOn, Image;
    if ps != [] {
      AnswersAreNone(link, ps[..|ps| - 1]);
    }
  }

  // Reading writes no command.
  lemma HeardIssues(useCrc: bool, m: Receiver.Machine, host: Host, reads': seq<seq<bv8>>, resync: bool)
    requires Receiver.Valid(m)
    ensures Writes(host, Heard(useCrc, m, host, reads', resync).host, [])
  {
    hide Receiver.Run, ReceiveAll, AllReplies, Readers.Read, Readers.Commands;
    var r := Heard(useCrc, m, host, reads', resync);
    Receiver.RunAdds(m, Flat(reads'), resync);
    var ps := Since(m.done, r.m.done);
    AllAnswered(useCrc, host, ps);
    AnswersAreNone(host.link, ps);
    var ws := r.host.written[|host.written|..];
    forall i | 0 <= i < |ws| ensures !(Readers.Read(ws[i]).Got? && Readers.Read(ws[i]).ptype == 0x01) {
      assert Readers.Read(ws[i]) == AllReplies(host.link, ps)[i];
    }
    NoneIsCommand(ws);
  }

  lemma AskedIssues(useCrc: bool, st: State, x: Exchange)
    requires Receiver.Valid(st.m) && x.seqno < 8 && |x.command| <= MAX_PAYLOAD
    ensures Writes(st.host, Asked(useCrc, st, x), [Readers.Sent(x.seqno, x.command)])
  {
    hide Wire, Readers.Commands;
    Readers.OneCommand(st.m.expected, x.seqno, useCrc, x.command);
    var w := Wire(st.m.expected, x.seqno, useCrc, COMMAND, x.command);
    assert (st.host.written + [w])[|st.host.written|..] == [w];
  }

  // A replay writes exactly its commands, under their numbers, in order.
  lemma {:induction false} ReplayIssues(useCrc: bool, st: State, xs: seq<Exchange>)
    requires Receiver.Valid(st.m)
    requires forall k :: 0 <= k < |xs| ==> xs[k].seqno < 8 && |xs[k].command| <= MAX_PAYLOAD
    ensures Writes(st.host, Replay(useCrc, st, xs).host, Issues(xs))
  {
    hide Readers.Commands, Heard, Asked;
    if xs == [] {
      assert st.host.written[|st.host.written|..] == [];
      NoneIsCommand([]);
    } else {
      var init, x := xs[..|xs| - 1], xs[|xs| - 1];
      ReplayIssues(useCrc, st, init);
      var before := Replay(useCrc, st, init);
      AskedIssues(useCrc, before, x);
      HeardIssues(useCrc, before.m, Asked(useCrc, before, x), x.reads', x.resync);
      var one := [Readers.Sent(x.seqno, x.command)];
      WritesTwice(before.host, Asked(useCrc, before, x), Exchanged(useCrc, before, x).host, one, []);
      assert one + [] == one;
      WritesTwice(st.host, before.host, Replay(useCrc, st, xs).host, Issues(init), one);
      assert Issues(xs) == Issues(init) + one;
    }
  }

  lemma AckIssues(useCrc: bool, h: Host, n: bv8)
    ensures Writes(h, Written(h, PureAck(useCrc, n)), [])
  {
    hide Wire, Readers.Commands;
    Readers.NoCommand(n, 0, useCrc, Frame.ACK, []);
    var w := PureAck(useCrc, n);
    assert (h.written + [w])[|h.written|..] == [w];
  }
}
