/** A BSS description: a fixed element buffer and the length in use, with deletion of a
    P2P attribute from every element of the list.
 */
module Bsses {
  import opened Octets
  import opened Slices
  import opened Elements
  import opened P2p

  class Bss {
    const ies: array<u8>
    const fixedOffset: nat   // fixed fields before the elements
    var ieLength: nat

    ghost predicate Valid()
      reads this
    {
      ies.Length == MAX_IE_SZ && fixedOffset <= ieLength <= MAX_IE_SZ
    }

    // The element list.
    ghost function Tlv(): seq<u8>
      requires Valid()
      reads this, ies
    {
      ies[fixedOffset..ieLength]
    }

    // Deletes attribute `id` from every P2P element of the list.
    method DelP2pAttr(id: u8, ghost list: seq<Ie>)
      requires Valid() && AllLegal(list) && Tlv() == Encode(LowerAll(list))
      modifies `ieLength, ies
      ensures Valid() && ieLength <= old(ieLength)
      ensures AllLegal(DeleteAll(list, id)) && Tlv() == Encode(LowerAll(DeleteAll(list, id)))
      ensures Within(old(ies[..]), ies[..], fixedOffset, ieLength - fixedOffset, old(ieLength) - fixedOffset)
    {
      hide Encode, LowerAll, DeleteAll, Within, HoldsP2p, FirstMatch, Progress, Bytes;
      ghost var s0, end, n := ies[..], ieLength - fixedOffset, 0;
      var pos, iesLen := fixedOffset, ieLength - fixedOffset;
      AtStart(s0, fixedOffset, ieLength, list, id);
      while true
        invariant Valid() && pos + iesLen == ieLength && fixedOffset <= pos && 0 <= n <= |list|
        invariant Progress(s0, ies[..], fixedOffset, pos, ieLength, end, list, n, id)
        decreases |list| - n
      {
        ghost var s, rest := ies[..], list[n..];
        ProgressFits(s0, s, fixedOffset, pos, ieLength, end, list, n, id);
        ghost var es := LowerAll(rest);
        LegalIsExact(rest);
        assert ies[pos..pos + iesLen] == s[pos..pos + iesLen];
        var ie, ieLenOri := GetP2pIe(ies, pos, iesLen, es);
        ghost var k := FirstMatch(es, VENDOR, OUI);
        if ie == -1 {
          AtEnd(s0, s, fixedOffset, pos, ieLength, end, list, n, id);
          return;
        }
        FoundP2p(s, pos, ieLength, rest, k);
        var nextOri := ie + ieLenOri;
        var remain := ieLength - nextOri;
        var ieLen := DeleteAt(ies, ie, ieLenOri, ieLength, id, s0, fixedOffset, pos, end, list, n, k);
        ieLength := ieLength - (ieLenOri - ieLen);
        pos, iesLen := ie + ieLen, remain;
        n := n + k + 1;
      }
    }
  }

  // Deletes the attribute from the element at `ie` and closes the gap it leaves.
  method DeleteAt(ies: array<u8>, ie: nat, ieLenOri: nat, len: nat, id: u8, ghost s0: seq<u8>, ghost off: nat,
                  ghost pos: nat, ghost end: nat, ghost list: seq<Ie>, ghost n: nat, ghost k: nat)
      returns (ieLen: nat)
    requires AllLegal(list) && n + k < |list| && Progress(s0, ies[..], off, pos, len, end, list, n, id)
    requires k == FirstMatch(LowerAll(list[n..]), VENDOR, OUI) && list[n + k].P2p?
    requires ie == pos + |Encode(LowerAll(list[n..])[..k])| && ieLenOri == |Bytes(LowerAll(list[n..])[k])|
    requires ie + ieLenOri <= len && HoldsP2p(ies[..], ie, ieLenOri, list[n + k].attrs)
    modifies ies
    ensures ieLen <= ieLenOri
    ensures Progress(s0, ies[..], off, ie + ieLen, len - (ieLenOri - ieLen), end, list, n + k + 1, id)
  {
    hide Encode, LowerAll, Within, HoldsP2p, FirstMatch, Progress, Bytes, WithoutAttr;
    ghost var s := ies[..];
    ProgressFits(s0, s, off, pos, len, end, list, n, id);
    ieLen := P2p.DelP2pAttr(ies, ie, ieLenOri, id, list[n + k].attrs);
    ghost var s1 := ies[..];
    WithinFits(s, s1, ie, ieLen, ieLenOri);
    CloseAnyGap(ies, ie + ieLen, ie + ieLenOri, len);
    OneDone(s0, s, s1, ies[..], off, pos, len, end, list, n, k, ie, ieLen, ieLenOri, id);
  }

  method CloseAnyGap(ies: array<u8>, target: nat, next: nat, len: nat)
    requires target <= next <= len <= ies.Length
    modifies ies
    ensures ies[..] == old(ies[..target]) + old(ies[next..len]) + Zeros(next - target) + old(ies[len..])
  {
    if target != next {
      CloseGap(ies, target, next, len);
    }
  }

  // The first n elements are done, up to pos; the others are untouched, up to len.
  ghost predicate Progress(s0: seq<u8>, s: seq<u8>, off: nat, pos: nat, len: nat, end: nat,
                           list: seq<Ie>, n: nat, id: u8)
    requires AllLegal(list) && n <= |list|
  {
    && off <= pos <= len <= |s| && Within(s0, s, off, len - off, end)
    && AllLegal(DeleteAll(list[..n], id)) && AllLegal(list[n..])
    && s[off..pos] == Encode(LowerAll(DeleteAll(list[..n], id)))
    && s[pos..len] == Encode(LowerAll(list[n..]))
  }

  lemma AtStart(s: seq<u8>, off: nat, len: nat, list: seq<Ie>, id: u8)
    requires AllLegal(list) && off <= len <= |s| && s[off..len] == Encode(LowerAll(list))
    ensures Progress(s, s, off, off, len, len - off, list, 0, id)
  {
    hide Encode;
    EncodeNothing();
    assert DeleteAll(list[..0], id) == [] && LowerAll(DeleteAll(list[..0], id)) == [];
    assert list[0..] == list && s[off..off] == [];
    assert s[off + (len - off)..off + (len - off)] == Zeros(0);
  }

  // A legal list has no body that ends inside the four bytes compared.
  lemma LegalIsExact(list: seq<Ie>)
    requires AllLegal(list)
    ensures FirstHit(LowerAll(list), 0, [], VENDOR, OUI) == FirstMatch(LowerAll(list), VENDOR, OUI)
  {
    hide FirstHit, FirstMatch, Encode;
    SearchIsExact(LowerAll(list), [], VENDOR, OUI);
  }

  lemma WithinFits(s0: seq<u8>, s: seq<u8>, ie: nat, ielen: nat, end: nat)
    requires Within(s0, s, ie, ielen, end)
    ensures |s| == |s0| && ielen <= end && ie + end <= |s|
  {}

  // Nothing left to delete.
  lemma AtEnd(s0: seq<u8>, s: seq<u8>, off: nat, pos: nat, len: nat, end: nat, list: seq<Ie>, n: nat, id: u8)
    requires AllLegal(list) && n <= |list| && Progress(s0, s, off, pos, len, end, list, n, id)
    requires FirstMatch(LowerAll(list[n..]), VENDOR, OUI) == |list| - n
    ensures AllLegal(DeleteAll(list, id)) && s[off..len] == Encode(LowerAll(DeleteAll(list, id)))
    ensures Within(s0, s, off, len - off, end)
  {
    hide Encode, Within;
    var rest := list[n..];
    UpToMatch(rest, |rest|, id);
    assert DeleteAll(rest, id) == rest;
    DeletedSplit(list, n, id);
    Joined(s, off, pos, len, Encode(LowerAll(DeleteAll(list[..n], id))), Encode(LowerAll(rest)));
  }

  lemma OnlyP2pMatches(ie: Ie)
    requires Legal(ie)
    ensures Matches(Lower(ie), VENDOR, OUI) <==> ie.P2p?
  {}

  lemma DeletedSplit(list: seq<Ie>, n: nat, id: u8)
    requires AllLegal(list) && n <= |list| && AllLegal(DeleteAll(list[..n], id)) && AllLegal(DeleteAll(list[n..], id))
    ensures AllLegal(DeleteAll(list, id))
    ensures Encode(LowerAll(DeleteAll(list, id)))
         == Encode(LowerAll(DeleteAll(list[..n], id))) + Encode(LowerAll(DeleteAll(list[n..], id)))
  {
    hide Encode;
    assert DeleteAll(list, id) == DeleteAll(list[..n], id) + DeleteAll(list[n..], id);
    LowerSplit(DeleteAll(list[..n], id), DeleteAll(list[n..], id));
  }

  lemma LowerSplit(a: seq<Ie>, b: seq<Ie>)
    requires AllLegal(a) && AllLegal(b)
    ensures AllLegal(a + b) && LowerAll(a + b) == LowerAll(a) + LowerAll(b)
    ensures Encode(LowerAll(a + b)) == Encode(LowerAll(a)) + Encode(LowerAll(b))
  {
    hide Encode;
    assert LowerAll(a + b) == LowerAll(a) + LowerAll(b);
    EncodeAppend(LowerAll(a), LowerAll(b));
  }

  // The match found is a P2P element, and its bytes are in the buffer.
  lemma FoundP2p(s: seq<u8>, pos: nat, len: nat, rest: seq<Ie>, k: nat)
    requires AllLegal(rest) && pos <= len <= |s| && s[pos..len] == Encode(LowerAll(rest))
    requires k < |rest| && k == FirstMatch(LowerAll(rest), VENDOR, OUI)
    ensures rest[k].P2p?
    ensures var at := pos + |Encode(LowerAll(rest)[..k])|;
            && at + |Bytes(LowerAll(rest)[k])| <= len
            && HoldsP2p(s, at, |Bytes(LowerAll(rest)[k])|, rest[k].attrs)
  {
    hide Encode, HoldsP2p, Bytes, EncodeAttrs;
    OnlyP2pMatches(rest[k]);
    var es := LowerAll(rest);
    EncodeAt(es, k);
    Parts(s, pos, len - pos, Encode(es[..k]), Bytes(es[k]), Encode(es[k + 1..]));
    BytesHold(s, pos + |Encode(es[..k])|, rest[k].attrs);
  }

  lemma BytesHold(s: seq<u8>, at: nat, attrs: seq<Attr>)
    requires Legal(P2p(attrs)) && at + 6 + |EncodeAttrs(attrs)| <= |s|
    ensures HoldsP2p(s, at, 6 + |EncodeAttrs(attrs)|, attrs)
       <==> s[at..at + 6 + |EncodeAttrs(attrs)|] == Bytes(Lower(P2p(attrs)))
    ensures |Bytes(Lower(P2p(attrs)))| == 6 + |EncodeAttrs(attrs)|
  {
    hide EncodeAttrs;
    var b, t := Bytes(Lower(P2p(attrs))), s[at..at + 6 + |EncodeAttrs(attrs)|];
    assert b == [VENDOR, 4 + |EncodeAttrs(attrs)|] + (OUI + EncodeAttrs(attrs));
    var n := |EncodeAttrs(attrs)|;
    assert t == [t[0], t[1]] + (t[2..6] + t[6..]);
    Slice(s, at, 6 + n, 2, 6);
    Slice(s, at, 6 + n, 6, 6 + n);
    assert t[6..6 + n] == t[6..];
    if t == b {
      assert b[2..6] == OUI && b[6..] == EncodeAttrs(attrs);
    }
  }

  // The buffer after the element at `ie` went from ori to new bytes and the rest moved up.
  lemma RestMovedUp(s0: seq<u8>, s: seq<u8>, s1: seq<u8>, s2: seq<u8>, off: nat, ie: nat, new': nat, ori: nat,
                    len: nat, end: nat)
    requires off <= ie && ie + ori <= len <= |s| && off + end <= |s|
    requires Within(s0, s, off, len - off, end) && Within(s, s1, ie, new', ori)
    requires s2 == s1[..ie + new'] + s1[ie + ori..len] + Zeros(ori - new') + s1[len..]
    ensures |s2| == |s| && s2[off..ie] == s[off..ie] && s2[ie..ie + new'] == s1[ie..ie + new']
    ensures s2[ie + new'..len - (ori - new')] == s[ie + ori..len]
    ensures Within(s0, s2, off, len - (ori - new') - off, end)
  {
    hide Within;
    WithinParts(s, s1, ie, new', ori);
    WithinParts(s0, s, off, len - off, end);
    FourParts(s2, s1[..ie + new'], s1[ie + ori..len], Zeros(ori - new'), s1[len..]);
    assert s2[off..ie] == s2[..ie + new'][off..ie] == s1[off..ie] == s1[..ie][off..] == s[..ie][off..] == s[off..ie];
    assert s2[..ie + new'][ie..] == s1[ie..ie + new'];
    var m := len - (ie + ori);
    assert s1[ie + ori..len] == s1[ie + ori..][..m] == s[ie + ori..][..m] == s[ie + ori..len];
    var to := len - (ori - new');
    assert s2[ie + new'..to] == s1[ie + ori..len];
    ClearedUpTo(s0, s, s1, s2, off, ie, new', ori, len, end);
  }

  lemma FourParts(s: seq<u8>, a: seq<u8>, b: seq<u8>, c: seq<u8>, d: seq<u8>)
    requires s == a + b + c + d
    ensures |s| == |a| + |b| + |c| + |d| && s[..|a|] == a && s[|a|..|a| + |b|] == b
  {}

  lemma WithinParts(s0: seq<u8>, s: seq<u8>, ie: nat, ielen: nat, end: nat)
    requires Within(s0, s, ie, ielen, end)
    ensures |s| == |s0| && ielen <= end && ie + end <= |s| && s[..ie] == s0[..ie] && s[ie + end..] == s0[ie + end..]
    ensures forall i :: ie + end <= i < |s| ==> s[i] == s0[i]
  {
    hide Zeros;
    assert forall i :: ie + end <= i < |s| ==> s[i] == s[ie + end..][i - (ie + end)];
  }

  lemma ClearedUpTo(s0: seq<u8>, s: seq<u8>, s1: seq<u8>, s2: seq<u8>, off: nat, ie: nat, new': nat, ori: nat,
                    len: nat, end: nat)
    requires off <= ie && ie + ori <= len <= |s| && off + end <= |s|
    requires Within(s0, s, off, len - off, end) && Within(s, s1, ie, new', ori)
    requires s2 == s1[..ie + new'] + s1[ie + ori..len] + Zeros(ori - new') + s1[len..]
    requires forall i :: ie + ori <= i < |s| ==> s1[i] == s[i]
    ensures Within(s0, s2, off, len - (ori - new') - off, end)
  {
    hide Zeros;
    var from := len - (ori - new');
    forall i | from <= i < off + end ensures s2[i] == 0 {
      if i >= len {
        assert s2[i] == s1[i] && s[i] == s[len..off + end][i - len];
      } else {
        assert s2[i] == Zeros(ori - new')[i - from];
      }
    }
    assert s2[..off] == s1[..ie][..off];
    assert s2[off + end..] == s[off + end..];
    assert s2[from..off + end] == Zeros(off + end - from);
  }

  lemma OneDone(s0: seq<u8>, s: seq<u8>, s1: seq<u8>, s2: seq<u8>, off: nat, pos: nat, len: nat, end: nat,
                list: seq<Ie>, n: nat, k: nat, ie: nat, new': nat, ori: nat, id: u8)
    requires AllLegal(list) && n + k < |list| && Progress(s0, s, off, pos, len, end, list, n, id)
    requires k == FirstMatch(LowerAll(list[n..]), VENDOR, OUI) && list[n + k].P2p?
    requires ie == pos + |Encode(LowerAll(list[n..])[..k])| && ori == |Bytes(LowerAll(list[n..])[k])| && ie + ori <= len
    requires HoldsP2p(s1, ie, new', WithoutAttr(list[n + k].attrs, id)) && Within(s, s1, ie, new', ori)
    requires s2 == s1[..ie + new'] + s1[ie + ori..len] + Zeros(ori - new') + s1[len..]
    ensures Progress(s0, s2, off, ie + new', len - (ori - new'), end, list, n + k + 1, id)
  {
    hide Encode, LowerAll, DeleteAll, Within, HoldsP2p, FirstMatch, Bytes;
    var rest := list[n..];
    ProgressFits(s0, s, off, pos, len, end, list, n, id);
    RestMovedUp(s0, s, s1, s2, off, ie, new', ori, len, end);
    TargetParts(s, pos, len, LowerAll(rest), k);
    Pieces(list, n, k, id);
    DeleteLegal(rest[k], id);
    HoldsSize(s1, ie, new', WithoutAttr(rest[k].attrs, id));
    BytesHold(s1, ie, WithoutAttr(rest[k].attrs, id));
    Joined(s, off, pos, ie, s[off..pos], s[pos..ie]);
    Joined(s2, off, ie, ie + new', s[off..ie], s1[ie..ie + new']);
  }

  lemma HoldsSize(s: seq<u8>, ie: nat, ielen: nat, attrs: seq<Attr>)
    requires HoldsP2p(s, ie, ielen, attrs)
    ensures ielen == 6 + |EncodeAttrs(attrs)| && ie + ielen <= |s|
  {}

  lemma ProgressFits(s0: seq<u8>, s: seq<u8>, off: nat, pos: nat, len: nat, end: nat, list: seq<Ie>, n: nat, id: u8)
    requires AllLegal(list) && n <= |list| && Progress(s0, s, off, pos, len, end, list, n, id)
    ensures off <= pos <= len <= |s| && off + end <= |s| == |s0| && len - off <= end
    ensures AllLegal(list[n..]) && s[pos..len] == Encode(LowerAll(list[n..]))
  {}

  lemma UpToMatch(rest: seq<Ie>, k: nat, id: u8)
    requires AllLegal(rest) && k <= |rest| && k == FirstMatch(LowerAll(rest), VENDOR, OUI)
    ensures forall i :: 0 <= i < k ==> DeleteIn(rest[i], id) == rest[i]
  {
    forall i | 0 <= i < k ensures DeleteIn(rest[i], id) == rest[i] {
      assert !Matches(LowerAll(rest)[i], VENDOR, OUI);
      OnlyP2pMatches(rest[i]);
    }
  }

  // The list up to the match: done, unaffected, the match itself.
  lemma Pieces(list: seq<Ie>, n: nat, k: nat, id: u8)
    requires AllLegal(list) && n + k < |list| && AllLegal(list[n..]) && AllLegal(DeleteAll(list[..n], id))
    requires k == FirstMatch(LowerAll(list[n..]), VENDOR, OUI)
    ensures AllLegal(DeleteAll(list[..n + k + 1], id)) && AllLegal(list[n + k + 1..])
    ensures Legal(DeleteIn(list[n + k], id))
    ensures Encode(LowerAll(DeleteAll(list[..n + k + 1], id)))
         == Encode(LowerAll(DeleteAll(list[..n], id))) + Encode(LowerAll(list[n..])[..k])
            + Bytes(Lower(DeleteIn(list[n + k], id)))
    ensures LowerAll(list[n..])[k + 1..] == LowerAll(list[n + k + 1..])
  {
    hide Encode, Bytes, Lower, Legal, DeleteIn, FirstMatch;
    var rest := list[n..];
    UpToMatch(rest, k, id);
    DeleteLegal(rest[k], id);
    var a, b, c := DeleteAll(list[..n], id), rest[..k], [DeleteIn(rest[k], id)];
    assert DeleteAll(list[..n + k + 1], id) == a + b + c;
    LowerSplit(a, b);
    LowerSplit(a + b, c);
    assert LowerAll(c) == [Lower(DeleteIn(rest[k], id))];
    EncodeOne(Lower(DeleteIn(rest[k], id)));
    LowerParts(rest, k);
    assert rest[k + 1..] == list[n + k + 1..];
  }

  lemma LowerParts(list: seq<Ie>, k: nat)
    requires AllLegal(list) && k < |list|
    ensures AllLegal(list[..k]) && LowerAll(list[..k]) == LowerAll(list)[..k]
    ensures AllLegal(list[k + 1..]) && LowerAll(list[k + 1..]) == LowerAll(list)[k + 1..]
  {
    hide Legal, Lower;
  }
}
