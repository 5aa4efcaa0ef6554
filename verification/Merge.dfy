/** Merging the P2P elements of a frame into one, and searching the merged element with the
    length the merge reports (core/rtw_ieee80211.c, core/rtw_mlme_ext.c).
 */
module Merges {
  import opened Octets
  import opened Slices
  import opened Elements
  import opened P2p

  // What one element adds to the merged one, and what all of them do.
  function Part(e: Elem): seq<u8> {
    if Matches(e, VENDOR, OUI) then e.body[4..] else []
  }

  function Payload(es: seq<Elem>): seq<u8> {
    if es == [] then [] else Payload(es[..|es| - 1]) + Part(es[|es| - 1])
  }

  // Every vendor element can be compared, and none with a shorter body than what it is
  // compared with is taken for a P2P element: the length to copy would be negative.
  predicate Mergeable(es: seq<Elem>) {
    && Readable(es, 0, VENDOR, OUI)
    && forall i :: 0 <= i < |es| ==> !Overrun(es, i, [], VENDOR, OUI)
  }

  // What the merged element begins with; nobody fills in the length.
  function Head(): (h: seq<u8>)
    ensures |h| == 6
  {
    [VENDOR, 0] + OUI
  }

  lemma NextPart(es: seq<Elem>, k: nat)
    requires k < |es|
    ensures Payload(es[..k + 1]) == Payload(es[..k]) + Part(es[k])
  {
    assert es[..k + 1][..k] == es[..k];
  }

  lemma NoLonger(es: seq<Elem>, k: nat)
    requires k <= |es|
    ensures |Payload(es[..k])| <= |Payload(es)|
    decreases |es| - k
  {
    if k < |es| {
      NextPart(es, k);
      NoLonger(es, k + 1);
    } else {
      assert es[..k] == es;
    }
  }

  // Element k of the frame body, and the bytes it adds.
  lemma IeInBuffer(s: seq<u8>, es: seq<Elem>, k: nat)
    requires Mergeable(es) && s == Encode(es) && k < |es|
    ensures var i, e := |Encode(es[..k])|, es[k];
            && i + 2 + |e.body| == |Encode(es[..k + 1])| <= |s|
            && s[i] == e.id && s[i + 1] == |e.body|
            && (e.id == VENDOR ==> i + 6 <= |s|)
            && (Matches(e, VENDOR, OUI) <==> e.id == VENDOR && s[i + 2..i + 6] == OUI)
            && (Matches(e, VENDOR, OUI) ==> |e.body| >= 4 && s[i + 6..i + 2 + |e.body|] == Part(e))
  {
    hide Encode, Hit, Overrun, Readable;
    assert s[0..0 + |s|] == s && s[|s|..] == [];
    var i, e := |Encode(es[..k])|, es[k];
    ElementInBuffer(s, 0, |s|, es, k);
    HitInBuffer(s, 0, |s|, es, k, VENDOR, OUI);
    HitIs(es, k, [], VENDOR, OUI);
    if Matches(e, VENDOR, OUI) {
      Slice(s, i + 2, |e.body|, 4, |e.body|);
      assert e.body[4..|e.body|] == e.body[4..];
    }
  }

  // Room the merge needs, counted over the frame body.
  method MergedLen(ies: array<u8>, ghost es: seq<Elem>) returns (n: nat)
    requires Mergeable(es) && ies[..] == Encode(es)
    ensures n == |Payload(es)| + 4
  {
    hide Encode, Mergeable, Matches;
    ghost var s, k := ies[..], 0;
    var len, i := 0, 0;
    AtEnds(es);
    while i < ies.Length
      invariant 0 <= k <= |es| && i == |Encode(es[..k])| <= |s|
      invariant len == |Payload(es[..k])|
      decreases |es| - k
    {
      IeInBuffer(s, es, k);
      NextPart(es, k);
      assert forall j :: i <= j < |s| ==> ies[j] == s[j];
      assert ies[i] == VENDOR ==> ies[i + 2..i + 6] == s[i + 2..i + 6];
      if ies[i] == VENDOR && ies[i + 2..i + 6] == OUI {
        len := len + ies[i + 1] as int - 4;
      }
      i, k := i + ies[i + 1] as int + 2, k + 1;
    }
    AllSeen(es, k);
    return len + 4;
  }

  lemma AtEnds(es: seq<Elem>)
    ensures Encode(es[..0]) == [] && Payload(es[..0]) == [] && es[..|es|] == es
  {}

  lemma AllSeen(es: seq<Elem>, k: nat)
    requires k <= |es| && |Encode(es[..k])| >= |Encode(es)|
    ensures k == |es| && es[..k] == es
  {
    hide Encode;
    if k < |es| {
      EncodeAt(es, k);
    }
  }

  // Writes the merged element, wherever attributes are cut between elements; its length byte
  // stays zero, and the length returned is counted in one byte.
  method MergeIes(ies: array<u8>, out: array<u8>, ghost es: seq<Elem>) returns (r: nat)
    requires Mergeable(es) && ies[..] == Encode(es) && ies != out
    requires 6 + |Payload(es)| <= out.Length
    modifies out
    ensures out[..] == [221, 0, 0x50, 0x6f, 0x9a, 0x09] + Payload(es) + old(out[6 + |Payload(es)|..])
    ensures r == |Payload(es)| % 0x100 + 4
  {
    hide Encode, Mergeable, Head, Payload, Part, Merged;
    ghost var s, o, k := ies[..], out[..], 0;
    AtEnds(es);
    NoLonger(es, 0);
    Begin(out);
    var at, len, i := 6, 0, 0;
    MergedEnds(es, o);
    assert out[..] == Merged(es, 0, 6, o);
    while i < ies.Length
      invariant 0 <= k <= |es| && i == |Encode(es[..k])| <= |s| && ies[..] == s
      invariant at == 6 + |Payload(es[..k])| <= |o| && len == (at - 6) % 0x100
      invariant out[..] == Merged(es, k, at, o)
      decreases |es| - k
    {
      var added := MergeOne(ies, i, out, at, es, k, o);
      Wraps(at - 6, added);
      len := (len + added) % 0x100;
      at := at + added;
      i, k := i + ies[i + 1] as int + 2, k + 1;
    }
    AllSeen(es, k);
    HeadIs();
    return len + 4;
  }

  lemma HeadIs()
    ensures Head() == [221, 0, 0x50, 0x6f, 0x9a, 0x09]
  {}

  method Begin(out: array<u8>)
    requires 6 <= out.Length
    modifies out
    ensures out[..] == Head() + old(out[..])[6..]
  {
    hide Head;
    ghost var o := out[..];
    Write(out, 0, Head());
    assert o[..0] + Head() == Head();
  }

  // The output with k elements of the list merged.
  ghost function Merged(es: seq<Elem>, k: nat, at: nat, o: seq<u8>): seq<u8>
    requires k <= |es| && at <= |o|
  {
    Head() + Payload(es[..k]) + o[at..]
  }

  lemma MergedEnds(es: seq<Elem>, o: seq<u8>)
    requires 6 + |Payload(es)| <= |o|
    ensures Merged(es, 0, 6, o) == Head() + o[6..]
    ensures var at := 6 + |Payload(es)|; Merged(es, |es|, at, o) == Head() + Payload(es) + o[at..]
  {
    hide Head;
    assert es[..|es|] == es && es[..0] == [];
    assert Head() + [] == Head();
  }

  lemma Wraps(n: nat, added: nat)
    ensures (n % 0x100 + added) % 0x100 == (n + added) % 0x100
  {}

  method MergeOne(ies: array<u8>, i: nat, out: array<u8>, at: nat, ghost es: seq<Elem>, ghost k: nat, ghost o: seq<u8>)
      returns (added: nat)
    requires Mergeable(es) && ies[..] == Encode(es) && ies != out && k < |es|
    requires i == |Encode(es[..k])| && at == 6 + |Payload(es[..k])| <= |o|
    requires 6 + |Payload(es)| <= |o| == out.Length && out[..] == Merged(es, k, at, o)
    modifies out
    ensures i + 1 < ies.Length && i + ies[i + 1] as int + 2 == |Encode(es[..k + 1])| <= ies.Length
    ensures at + added == 6 + |Payload(es[..k + 1])| <= |o|
    ensures out[..] == Merged(es, k + 1, at + added, o)
  {
    hide Encode, Mergeable, Head, Payload, Matches, Merged, Part;
    ghost var s := ies[..];
    IeInBuffer(s, es, k);
    NoLonger(es, k + 1);
    MergedNext(es, k, at, o);
    assert ies[i] == s[i] && ies[i + 1] == s[i + 1];
    assert ies[i] == VENDOR ==> ies[i + 2..i + 6] == s[i + 2..i + 6];
    added := 0;
    if ies[i] == VENDOR && ies[i + 2..i + 6] == OUI {
      var bytes := ies[i + 6..i + 2 + ies[i + 1] as int];
      assert bytes == Part(es[k]) by {
        assert bytes == s[i + 6..i + 2 + s[i + 1] as int];
      }
      Append(out, at, bytes, Head(), Payload(es[..k]), o);
      added := ies[i + 1] as int - 4;
    }
  }

  // Element k merged, or skipped when it adds nothing.
  lemma MergedNext(es: seq<Elem>, k: nat, at: nat, o: seq<u8>)
    requires k < |es| && at == 6 + |Payload(es[..k])| && 6 + |Payload(es)| <= |o|
    ensures !Matches(es[k], VENDOR, OUI) ==> Part(es[k]) == []
    ensures var n := |Part(es[k])|;
            && at + n == 6 + |Payload(es[..k + 1])| <= |o|
            && Merged(es, k, at, o) == Head() + Payload(es[..k]) + o[at..]
            && Merged(es, k + 1, at + n, o) == Head() + (Payload(es[..k]) + Part(es[k])) + o[at + n..]
            && (n == 0 ==> Merged(es, k + 1, at, o) == Merged(es, k, at, o))
  {
    hide Head, Payload;
    NextPart(es, k);
    NoLonger(es, k + 1);
    assert Payload(es[..k]) + [] == Payload(es[..k]);
  }

  method Append(out: array<u8>, at: nat, bytes: seq<u8>, ghost h: seq<u8>, ghost e: seq<u8>, ghost o: seq<u8>)
    requires at == |h| + |e| && at + |bytes| <= |o| == out.Length && out[..] == h + e + o[at..]
    modifies out
    ensures out[..] == h + (e + bytes) + o[at + |bytes|..]
  {
    Write(out, at, bytes);
  }

  // ---------- lists with attributes spelled out ----------

  // Every P2P attribute of the list, in order.
  function AllAttrs(list: seq<Ie>): seq<Attr> {
    if list == [] then [] else AllAttrs(list[..|list| - 1]) + AttrsIn(list[|list| - 1])
  }

  function AttrsIn(ie: Ie): seq<Attr> {
    if ie.P2p? then ie.attrs else []
  }

  // Where every element holds whole attributes, the merge is of those.
  lemma {:induction false} WholeAttributes(list: seq<Ie>)
    requires AllLegal(list)
    ensures Mergeable(LowerAll(list)) && Payload(LowerAll(list)) == EncodeAttrs(AllAttrs(list))
  {
    hide EncodeAttrs, Encode;
    OneAttr(Attribute(0, []));
    if list != [] {
      var init, last := list[..|list| - 1], list[|list| - 1];
      WholeAttributes(init);
      assert LowerAll(list)[..|list| - 1] == LowerAll(init);
      PartOf(last);
      EncodeAttrsAppend(AllAttrs(init), AttrsIn(last));
    }
  }

  lemma PartOf(ie: Ie)
    requires Legal(ie)
    ensures Part(Lower(ie)) == EncodeAttrs(AttrsIn(ie))
  {
    OneAttr(Attribute(0, []));
    hide EncodeAttrs;
  }

  // ---------- searching the merged element ----------

  // How many attributes a search limited to ielen bytes reaches.
  ghost function ReachedBy(attrs: seq<Attr>, ielen: nat, from: nat): (n: nat)
    requires from <= |attrs| && ielen <= 6 + |EncodeAttrs(attrs)|
    requires from > 0 ==> 6 + |EncodeAttrs(attrs[..from])| <= ielen
    ensures Reached(attrs, ielen, n)
    decreases |attrs| - from
  {
    if from == |attrs| || ielen < 6 + |EncodeAttrs(attrs[..from + 1])| then from
    else ReachedBy(attrs, ielen, from + 1)
  }

  // The driver searches with the length the merge returned, which is counted in one byte
  // and leaves out the element's two header bytes.  `all` are the attributes of the merged
  // element, in whichever elements their bytes came.
  method SearchMerged(ies: array<u8>, id: u8, ghost es: seq<Elem>, ghost all: seq<Attr>)
    returns (pos: int, attrLen: nat)
    requires Mergeable(es) && ies[..] == Encode(es) && Payload(es) == EncodeAttrs(all)
    ensures var ielen := |EncodeAttrs(all)| % 0x100 + 4;
            var n := ReachedBy(all, ielen, 0);
            var k := FirstAttr(all[..n], id);
            if k == n then pos == -1 && attrLen == 0
            else pos == 6 + |EncodeAttrs(all[..k])| && attrLen == |AttrBytes(all[k])|
  {
    hide Encode, EncodeAttrs, Mergeable, Payload, FirstAttr, ReachedBy, Head;
    var n := MergedLen(ies, es);
    var merged := new u8[n + 2];
    var r := MergeIes(ies, merged, es);
    HeadIs();
    HeadHolds(merged[..], all);
    pos, attrLen := GetP2pAttr(merged, 0, r, id, all, ReachedBy(all, r, 0));
  }

  lemma HeadHolds(s: seq<u8>, attrs: seq<Attr>)
    requires |s| == 6 + |EncodeAttrs(attrs)| && s == Head() + EncodeAttrs(attrs) + []
    ensures HoldsAttrs(s, 0, attrs)
  {
    hide EncodeAttrs;
    assert s[0] == Head()[0] && s[2..6] == OUI;
  }

  lemma AllButLast(attrs: seq<Attr>)
    requires attrs != []
    ensures Reached(attrs, 4 + |EncodeAttrs(attrs)|, |attrs| - 1)
  {
    hide EncodeAttrs, AttrBytes;
    var n := |attrs| - 1;
    AttrsAt(attrs, n);
    assert attrs[..n + 1] == attrs;
    assert |EncodeAttrs(attrs)| == |EncodeAttrs(attrs[..n])| + |attrs[n].data| + 3;
  }

  // Two lengths cannot both be the number reached.
  lemma ReachedOnce(attrs: seq<Attr>, ielen: nat, a: nat, b: nat)
    requires Reached(attrs, ielen, a) && Reached(attrs, ielen, b)
    ensures a == b
  {
    hide EncodeAttrs;
    if a < b {
      Further(attrs, a + 1, b);
    } else if b < a {
      Further(attrs, b + 1, a);
    }
  }

  lemma Further(attrs: seq<Attr>, a: nat, b: nat)
    requires a <= b <= |attrs|
    ensures |EncodeAttrs(attrs[..a])| <= |EncodeAttrs(attrs[..b])|
  {
    hide EncodeAttrs;
    assert attrs[..b] == attrs[..a] + attrs[a..b];
    EncodeAttrsAppend(attrs[..a], attrs[a..b]);
  }

  // The search agrees with one over all attributes exactly when there is nothing to find or
  // the attribute it looks for ends within the length the merge returned.
  lemma FoundWhenReached(attrs: seq<Attr>, id: u8)
    ensures var j := FirstAttr(attrs, id);
            var ielen := |EncodeAttrs(attrs)| % 0x100 + 4;
            var n := ReachedBy(attrs, ielen, 0);
            (FirstAttr(attrs[..n], id) < n <==> j < |attrs|)
            <==> (j == |attrs| || 6 + |EncodeAttrs(attrs[..j + 1])| <= ielen)
  {
    hide FirstAttr, EncodeAttrs, ReachedBy, Reached;
    var ielen := |EncodeAttrs(attrs)| % 0x100 + 4;
    FoundWithin(attrs, id, ielen, ReachedBy(attrs, ielen, 0));
  }

  lemma FoundWithin(attrs: seq<Attr>, id: u8, ielen: nat, n: nat)
    requires Reached(attrs, ielen, n)
    ensures var j := FirstAttr(attrs, id);
            && (FirstAttr(attrs[..n], id) < n <==> j < n)
            && (j < n <==> j < |attrs| && 6 + |EncodeAttrs(attrs[..j + 1])| <= ielen)
  {
    hide FirstAttr, EncodeAttrs;
    var j := FirstAttr(attrs, id);
    FirstAttrIs(attrs[..n], id, if j < n then j else n);
    if j < n {
      Further(attrs, j + 1, n);
    } else if j < |attrs| {
      Further(attrs, n + 1, j + 1);
    }
  }

  // Below 256 bytes of attributes that is every one but the last.
  lemma FoundUnlessLast(attrs: seq<Attr>, id: u8)
    requires attrs != [] && |EncodeAttrs(attrs)| < 0x100
    ensures var n := ReachedBy(attrs, |EncodeAttrs(attrs)| % 0x100 + 4, 0);
            && n == |attrs| - 1
            && ((FirstAttr(attrs[..n], id) < n <==> FirstAttr(attrs, id) < |attrs|) <==> FirstAttr(attrs, id) != n)
  {
    hide FirstAttr, EncodeAttrs, ReachedBy, Reached;
    SmallLength(|EncodeAttrs(attrs)|);
    var n := ReachedBy(attrs, |EncodeAttrs(attrs)| + 4, 0);
    AllButLast(attrs);
    ReachedOnce(attrs, |EncodeAttrs(attrs)| + 4, n, |attrs| - 1);
    var j := FirstAttr(attrs, id);
    FirstAttrIs(attrs[..n], id, if j < n then j else n);
  }

  lemma SmallLength(n: nat)
    requires n < 0x100
    ensures n % 0x100 + 4 == n + 4
  {}

  // A frame with a single attribute: it is never found.
  lemma OnlyAttributeMissed(a: Attr)
    requires |a.data| <= 248
    ensures Legal(P2p([a])) && AllAttrs([P2p([a])]) == [a]
    ensures ReachedBy([a], |EncodeAttrs([a])| % 0x100 + 4, 0) == 0 && FirstAttr([a], a.id) == 0
  {
    OneAttr(a);
    hide EncodeAttrs, ReachedBy, AllAttrs;
    NothingFits(a);
    OneElement(P2p([a]));
  }

  lemma OneElement(ie: Ie)
    ensures AllAttrs([ie]) == AttrsIn(ie)
  {
    assert [ie][..0] == [];
  }

  // A frame with a single attribute too long for one element, which goes on in a second one:
  // the merge puts it together, and it is never found either.
  lemma SplitAttributeMissed(a: Attr)
    requires 248 < |a.data| <= 499
    ensures var b := AttrBytes(a);
            var es := [Element(VENDOR, OUI + b[..251]), Element(VENDOR, OUI + b[251..])];
            && Mergeable(es) && Payload(es) == EncodeAttrs([a])
    ensures ReachedBy([a], |EncodeAttrs([a])| % 0x100 + 4, 0) == 0 && FirstAttr([a], a.id) == 0
  {
    OneAttr(a);
    hide AttrBytes;
    var b := AttrBytes(a);
    var e: Elem, f: Elem := Element(VENDOR, OUI + b[..251]), Element(VENDOR, OUI + b[251..]);
    assert Part(e) == b[..251] && Part(f) == b[251..];
    assert [e, f][..1] == [e] && [e][..0] == [];
    assert Payload([e]) == Part(e);
    assert Payload([e, f]) == b[..251] + b[251..] == b;
    NothingFits(a);
  }

  lemma NothingFits(a: Attr)
    ensures ReachedBy([a], |EncodeAttrs([a])| % 0x100 + 4, 0) == 0 && FirstAttr([a], a.id) == 0
  {
    OneAttr(a);
    hide EncodeAttrs;
    assert [a][..1] == [a];
  }
}
