/** Keeping the beacon's element list: insertion in identifier order and removal, in the
    BSS buffer, against the same operations on lists.
 */
module Beacons {
  import opened Octets
  import opened Slices
  import opened Elements
  import opened Bsses
  import P2p

  // ---------- on lists ----------

  // Elements in front with a smaller identifier.
  function Leading(es: seq<Elem>, index: u8): (k: nat)
    ensures k <= |es|
    ensures forall i :: 0 <= i < k ==> es[i].id < index
    ensures k < |es| ==> es[k].id >= index
  {
    if es == [] || es[0].id >= index then 0
    else
      var k := Leading(es[1..], index);
      assert forall i :: 1 <= i < k + 1 ==> es[i] == es[1..][i - 1];
      k + 1
  }

  predicate Present(es: seq<Elem>, index: u8) {
    var k := Leading(es, index);
    k < |es| && es[k].id == index
  }

  // The driver anchors an insertion at the matching element, or else at the one before;
  // the anchor must exist and must not be empty.
  predicate Anchored(es: seq<Elem>, index: u8) {
    var k := Leading(es, index);
    if Present(es, index) then es[k].body != []
    else k > 0 && es[k - 1].body != []
  }

  // Where elements with smaller identifiers end, at k: an element with the identifier there
  // anchors an insertion exactly when it is not empty, and otherwise the one before does.
  lemma AnchoredIs(es: seq<Elem>, index: u8, k: nat)
    requires k <= |es| && (forall i :: 0 <= i < k ==> es[i].id < index) && (k < |es| ==> es[k].id >= index)
    ensures k < |es| && es[k].id == index ==> (Anchored(es, index) <==> es[k].body != [])
    ensures k == |es| || es[k].id != index ==> (Anchored(es, index) <==> k > 0 && es[k - 1].body != [])
  {}

  function Add(es: seq<Elem>, e: Elem): seq<Elem> {
    var k := Leading(es, e.id);
    if !Anchored(es, e.id) then es
    else if Present(es, e.id) then es[..k] + [e] + es[k + 1..]
    else es[..k] + [e] + es[k..]
  }

  function Remove(es: seq<Elem>, index: u8): seq<Elem> {
    var k := FirstMatch(es, index, []);
    if k < |es| && es[k].body != [] then es[..k] + es[k + 1..] else es
  }

  predicate Sorted(es: seq<Elem>) {
    forall i, j :: 0 <= i < j < |es| ==> es[i].id <= es[j].id
  }

  // The elements with an identifier, in order.
  function Only(es: seq<Elem>, index: u8): seq<Elem> {
    if es == [] then []
    else (if es[0].id == index then [es[0]] else []) + Only(es[1..], index)
  }

  lemma {:induction false} OnlyAppend(a: seq<Elem>, b: seq<Elem>, index: u8)
    ensures Only(a + b, index) == Only(a, index) + Only(b, index)
  {
    if a == [] {
      assert a + b == b;
    } else {
      assert (a + b)[1..] == a[1..] + b;
      OnlyAppend(a[1..], b, index);
    }
  }

  lemma {:induction false} OnlyNone(es: seq<Elem>, index: u8)
    requires forall i :: 0 <= i < |es| ==> es[i].id != index
    ensures Only(es, index) == []
  {
    if es != [] {
      OnlyNone(es[1..], index);
    }
  }

  // Insertion keeps the order and all other elements; the first element with the
  // identifier, if any, gives way to the new one.  Without an anchor nothing happens.
  lemma AddIsExact(es: seq<Elem>, e: Elem)
    requires Sorted(es)
    ensures Sorted(Add(es, e))
    ensures Without(Add(es, e), e.id, []) == Without(es, e.id, [])
    ensures Anchored(es, e.id) ==>
              Only(Add(es, e), e.id) == [e] + (if Only(es, e.id) == [] then [] else Only(es, e.id)[1..])
    ensures !Anchored(es, e.id) ==> Add(es, e) == es
    ensures Present(es, e.id) <==> Only(es, e.id) != []
  {
    hide Only, Without;
    if Present(es, e.id) {
      AddPresent(es, e);
    } else {
      AddAbsent(es, e);
    }
  }

  lemma AddPresent(es: seq<Elem>, e: Elem)
    requires Present(es, e.id)
    ensures var k := Leading(es, e.id);
            var r := es[..k] + [e] + es[k + 1..];
            && Only(es, e.id) == [es[k]] + Only(es[k + 1..], e.id) && Only(r, e.id) == [e] + Only(es[k + 1..], e.id)
            && Without(r, e.id, []) == Without(es, e.id, [])
  {
    hide Only, Without;
    var k := Leading(es, e.id);
    assert es == es[..k] + [es[k]] + es[k + 1..];
    Split(es[..k], [es[k]], es[k + 1..], e.id);
    Split(es[..k], [e], es[k + 1..], e.id);
    One(e);
    One(es[k]);
  }

  lemma AddAbsent(es: seq<Elem>, e: Elem)
    requires Sorted(es) && !Present(es, e.id)
    ensures var k := Leading(es, e.id);
            var r := es[..k] + [e] + es[k..];
            && Only(es, e.id) == [] && Only(r, e.id) == [e] && Sorted(r)
            && Without(r, e.id, []) == Without(es, e.id, [])
  {
    hide Only, Without, Sorted, Leading;
    var k := Leading(es, e.id);
    AddSorted(es, e);
    assert es == es[..k] + es[k..];
    OnlyAppend(es[..k], es[k..], e.id);
    WithoutAppend(es[..k], es[k..], e.id, []);
    Split(es[..k], [e], es[k..], e.id);
    One(e);
    OnlyNone(es[..k], e.id);
    OnlyNone(es[k..], e.id);
  }

  lemma AddSorted(es: seq<Elem>, e: Elem)
    requires Sorted(es) && !Present(es, e.id)
    ensures var k := Leading(es, e.id);
            && Sorted(es[..k] + [e] + es[k..]) && (forall i :: k <= i < |es| ==> es[i].id > e.id)
            && forall i :: 0 <= i < k ==> es[i].id < e.id
  {
    hide Leading;
    SortedInsert(es, e, Leading(es, e.id));
  }

  lemma SortedInsert(es: seq<Elem>, e: Elem, k: nat)
    requires Sorted(es) && k <= |es| && forall i :: 0 <= i < k ==> es[i].id < e.id
    requires k < |es| ==> es[k].id > e.id
    ensures Sorted(es[..k] + [e] + es[k..]) && forall i :: k <= i < |es| ==> es[i].id > e.id
  {
    var r := es[..k] + [e] + es[k..];
    forall i, j | 0 <= i < j < |r| ensures r[i].id <= r[j].id {
      InsertedAt(es, e, k, i);
      InsertedAt(es, e, k, j);
    }
  }

  lemma InsertedAt(es: seq<Elem>, e: Elem, k: nat, i: nat)
    requires k <= |es| && i <= |es|
    ensures (es[..k] + [e] + es[k..])[i] == if i < k then es[i] else if i == k then e else es[i - 1]
  {}

  // Removal takes the first element with the identifier unless that is empty, and no other.
  lemma RemoveIsExact(es: seq<Elem>, index: u8)
    ensures Without(Remove(es, index), index, []) == Without(es, index, [])
    ensures var own := Only(es, index);
            Only(Remove(es, index), index) == if own != [] && own[0].body != [] then own[1..] else own
  {
    hide Only, Without, FirstMatch;
    var k := FirstMatch(es, index, []);
    if k < |es| {
      assert es == es[..k] + [es[k]] + es[k + 1..] && es[k].id == index;
      forall i | 0 <= i < k ensures es[i].id != index {
        assert !Matches(es[i], index, []);
      }
      Split(es[..k], [es[k]], es[k + 1..], index);
      Split(es[..k], [], es[k + 1..], index);
      assert es[..k] + [] + es[k + 1..] == es[..k] + es[k + 1..];
      One(es[k]);
      Nothing(index);
    } else {
      assert forall i :: 0 <= i < |es| ==> !Matches(es[i], index, []);
      OnlyNone(es, index);
    }
  }

  lemma Nothing(index: u8)
    ensures Only([], index) == [] && Without([], index, []) == []
  {}

  lemma One(e: Elem)
    ensures Only([e], e.id) == [e] && Without([e], e.id, []) == []
  {
    assert [e][1..] == [];
  }

  lemma Split(front: seq<Elem>, mid: seq<Elem>, back: seq<Elem>, index: u8)
    requires forall i :: 0 <= i < |front| ==> front[i].id != index
    ensures Only(front + mid + back, index) == Only(mid, index) + Only(back, index)
    ensures Without(front + mid + back, index, [])
         == Without(front, index, []) + Without(mid, index, []) + Without(back, index, [])
  {
    hide Only, Without;
    OnlyAppend(front + mid, back, index);
    OnlyAppend(front, mid, index);
    OnlyNone(front, index);
    assert Only(front, index) + Only(mid, index) == Only(mid, index);
    WithoutAppend(front + mid, back, index, []);
    WithoutAppend(front, mid, index, []);
  }

  // Adding an element whose identifier is absent and then removing that identifier
  // restores the list, unless an empty element was really added.
  lemma AddThenRemove(es: seq<Elem>, e: Elem)
    requires FirstMatch(es, e.id, []) == |es|
    ensures Remove(Add(es, e), e.id) == es <==> e.body != [] || !Anchored(es, e.id)
  {
    hide FirstMatch, Leading, Without;
    AbsentByMatch(es, e.id);
    if Anchored(es, e.id) {
      Inserts(es, e, Leading(es, e.id));
    }
  }

  lemma Inserts(es: seq<Elem>, e: Elem, k: nat)
    requires k <= |es| && FirstMatch(es, e.id, []) == |es|
    ensures Remove(es[..k] + [e] + es[k..], e.id) == if e.body != [] then es else es[..k] + [e] + es[k..]
    ensures es[..k] + [e] + es[k..] != es
  {
    hide FirstMatch, Matches;
    var r := es[..k] + [e] + es[k..];
    InsertedParts(es, e, k);
    MatchesItself(e);
    FirstIs(r, e.id, [], k);
  }

  lemma InsertedParts(es: seq<Elem>, e: Elem, k: nat)
    requires k <= |es|
    ensures var r := es[..k] + [e] + es[k..];
            && |r| == |es| + 1 && r[k] == e && r[..k] == es[..k] && r[k + 1..] == es[k..]
            && (forall i :: 0 <= i < k ==> r[i] == es[i]) && es[..k] + es[k..] == es
  {}

  lemma MatchesItself(e: Elem)
    ensures Matches(e, e.id, [])
  {}

  // An empty element, once added, stays.
  lemma EmptyElementStays()
    ensures var es: seq<Elem>, e: Elem := [Element(1, [2])], Element(3, []);
            Add(es, e) == es + [e] && Remove(Add(es, e), 3) == es + [e]
  {
    var es: seq<Elem>, e: Elem := [Element(1, [2])], Element(3, []);
    assert es[1..] == [] && Leading(es, 3) == 1;
    assert Anchored(es, 3) && FirstMatch(es, 3, []) == 1;
    assert es[..1] + [e] + es[1..] == es + [e];
    AddThenRemove(es, e);
    Inserts(es, e, 1);
  }

  lemma AbsentByMatch(es: seq<Elem>, index: u8)
    requires FirstMatch(es, index, []) == |es|
    ensures !Present(es, index)
  {
    var k := Leading(es, index);
    assert k < |es| ==> !Matches(es[k], index, []);
  }

  // ---------- in the buffer ----------

  // Room for the list after the insertion; the driver relies on its callers for it.
  predicate Fits(es: seq<Elem>, e: Elem, off: nat) {
    off + |Encode(Add(es, e))| <= P2p.MAX_IE_SZ
  }

  // Inserts or replaces: everything behind the place is set aside, the element written,
  // the rest copied back.
  method AddBcnIe(bss: Bss, index: u8, data: seq<u8>, ghost es: seq<Elem>)
    requires bss.Valid() && bss.Tlv() == Encode(es) && |data| < 0x100
    requires Fits(es, Element(index, data), bss.fixedOffset)
    modifies bss`ieLength, bss.ies
    ensures bss.Valid() && bss.Tlv() == Encode(Add(es, Element(index, data)))
    ensures bss.ies[..bss.fixedOffset] == old(bss.ies[..bss.fixedOffset])
  {
    hide Encode, Leading, Bytes;
    ghost var e: Elem := Element(index, data);
    ghost var k := Leading(es, index);
    var off, ies := bss.fixedOffset, bss.ies;
    var p, ielen, bmatch := ScanForId(bss, index, es);
    if p == -1 || ielen <= 0 {
      return;
    }
    ielen := ielen + 2;
    var dst := if bmatch then p else p + ielen;
    ghost var s := ies[..];
    Place(s, off, bss.ieLength, es, k, bmatch, p, ielen);
    var remainder := ies[p + ielen..bss.ieLength];
    AddSize(es, e);
    WriteElement(ies, dst, index, data, remainder);
    bss.ieLength := dst + 2 + |data| + |remainder|;
    Inserted(s, ies[..], off, dst, es, e, remainder);
  }

  // Offset, body length and kind of the anchor: the element `index`, else the last one
  // with a smaller identifier, else none.
  method ScanForId(bss: Bss, index: u8, ghost es: seq<Elem>) returns (p: int, ielen: nat, bmatch: bool)
    requires bss.Valid() && bss.Tlv() == Encode(es)
    ensures bmatch == Present(es, index)
    ensures var k, off := Leading(es, index), bss.fixedOffset;
            if Present(es, index) then p == off + |Encode(es[..k])| && ielen == |es[k].body|
            else if k == 0 then p == -1
            else p == off + |Encode(es[..k - 1])| && ielen == |es[k - 1].body|
  {
    hide Encode, Leading;
    p, ielen, bmatch := -1, 0, false;
    var i := bss.fixedOffset;
    ghost var k, s := 0, bss.ies[..];
    EncodeNothing();
    assert es[..0] == [] && es[..|es|] == es;
    assert s[i..bss.ieLength] == bss.Tlv();
    while i < bss.ieLength
      invariant 0 <= k <= |es| && i == bss.fixedOffset + |Encode(es[..k])| <= bss.ieLength
      invariant forall j :: 0 <= j < k ==> es[j].id < index
      invariant !bmatch
      invariant if k == 0 then p == -1
                else p == bss.fixedOffset + |Encode(es[..k - 1])| && ielen == |es[k - 1].body|
      decreases |es| - k
    {
      ElementInBuffer(s, bss.fixedOffset, bss.ieLength - bss.fixedOffset, es, k);
      assert bss.ies[i] == s[i] && bss.ies[i + 1] == s[i + 1];
      if bss.ies[i] > index {
        LeadingIs(es, index, k);
        return;
      } else if bss.ies[i] == index {
        p, ielen, bmatch := i, bss.ies[i + 1], true;
        LeadingIs(es, index, k);
        return;
      }
      p, ielen := i, bss.ies[i + 1];
      i := i + bss.ies[i + 1] as int + 2;
      k := k + 1;
    }
    if k < |es| {
      EncodeAt(es, k);
    }
    LeadingIs(es, index, k);
  }

  lemma LeadingIs(es: seq<Elem>, index: u8, k: nat)
    requires k <= |es| && (forall j :: 0 <= j < k ==> es[j].id < index) && (k < |es| ==> es[k].id >= index)
    ensures Leading(es, index) == k
  {}

  // Writes identifier, length, body and the bytes that follow.
  method WriteElement(ies: array<u8>, dst: nat, index: u8, data: seq<u8>, rest: seq<u8>)
    requires |data| < 0x100 && dst + 2 + |data| + |rest| <= ies.Length
    modifies ies
    ensures ies[..] == old(ies[..dst]) + Bytes(Element(index, data)) + rest + old(ies[dst + 2 + |data| + |rest|..])
  {
    Write(ies, dst, [index, |data|] + data + rest);
    assert [index, |data|] + data + rest == Bytes(Element(index, data)) + rest;
  }

  // The first element `index` within limit bytes, and its body length.
  method GetIe(buf: array<u8>, start: nat, limit: int, index: u8, ghost es: seq<Elem>) returns (p: int, len: nat)
    requires 0 <= limit && start + limit <= buf.Length && buf[start..start + limit] == Encode(es)
    ensures var k := FirstMatch(es, index, []);
            if k == |es| then p == -1 else p == start + |Encode(es[..k])| && len == |es[k].body|
  {
    hide Encode, FirstMatch;
    p, len := -1, 0;
    if limit < 1 {
      EmptyEncoding(es);
      return;
    }
    EncodeNothing();
    ghost var s, k := buf[..], 0;
    assert s[start..start + limit] == buf[start..start + limit];
    assert es[..0] == [] && es[..|es|] == es;
    var i := 0;
    while true
      invariant 0 <= k < |es| && i == |Encode(es[..k])| < limit
      invariant forall j :: 0 <= j < k ==> !Matches(es[j], index, [])
      decreases |es| - k
    {
      ElementInBuffer(s, start, limit, es, k);
      assert buf[start + i] == s[start + i] && buf[start + i + 1] == s[start + i + 1];
      if buf[start + i] == index {
        FirstIs(es, index, [], k);
        return start + i, buf[start + i + 1];
      }
      i := i + buf[start + i + 1] as int + 2;
      k := k + 1;
      if i >= limit {
        break;
      }
    }
    if k < |es| {
      EncodeAt(es, k);
    }
    FirstIs(es, index, [], k);
  }

  // Removes the first element `index` unless it is absent or empty.
  method RemoveBcnIe(bss: Bss, index: u8, ghost es: seq<Elem>)
    requires bss.Valid() && bss.Tlv() == Encode(es)
    modifies bss`ieLength, bss.ies
    ensures bss.Valid() && bss.Tlv() == Encode(Remove(es, index))
    ensures bss.ies[..bss.fixedOffset] == old(bss.ies[..bss.fixedOffset])
  {
    hide Encode, FirstMatch, Bytes;
    var off, ies := bss.fixedOffset, bss.ies;
    var p, ielen := GetIe(ies, off, bss.ieLength - off, index, es);
    if p == -1 || ielen <= 0 {
      return;
    }
    ielen := ielen + 2;
    ghost var s, k := ies[..], FirstMatch(es, index, []);
    assert s[off..bss.ieLength] == ies[off..bss.ieLength];
    TargetParts(s, off, bss.ieLength, es, k);
    var remainder := ies[p + ielen..bss.ieLength];
    Write(ies, p, remainder);
    CutOut(s, ies[..], off, p, ielen, bss.ieLength, es, k);
    bss.ieLength := p + |remainder|;
  }

  // The bytes left when element k, n bytes at p, has been overwritten by what follows it.
  lemma CutOut(s: seq<u8>, r: seq<u8>, off: nat, p: nat, n: nat, len: nat, es: seq<Elem>, k: nat)
    requires off <= len <= |s| && s[off..len] == Encode(es) && k < |es|
    requires p == off + |Encode(es[..k])| && n == |Bytes(es[k])| && p + n <= len
    requires r == s[..p] + s[p + n..len] + s[len - n..]
    ensures |r| == |s| && r[..off] == s[..off] && r[off..len - n] == Encode(es[..k] + es[k + 1..])
  {
    hide Encode, Bytes;
    TargetParts(s, off, len, es, k);
    Closed(s, r, off, p, p + n, len);
    EncodeAppend(es[..k], es[k + 1..]);
    Joined(r, off, p, len - n, Encode(es[..k]), Encode(es[k + 1..]));
  }

  // The list cut at the insertion point.
  function Front(es: seq<Elem>, index: u8): seq<Elem> { es[..Leading(es, index)] }
  function Back(es: seq<Elem>, index: u8): seq<Elem> {
    if Present(es, index) then es[Leading(es, index) + 1..] else es[Leading(es, index)..]
  }

  // Where the anchor leads: the bytes before dst are the front, the remainder is the back.
  lemma Place(s: seq<u8>, off: nat, len: nat, es: seq<Elem>, k: nat, bmatch: bool, p: nat, ielen: nat)
    requires off <= len <= |s| && s[off..len] == Encode(es)
    requires exists index: u8 :: k == Leading(es, index) && bmatch == Present(es, index)
    requires if bmatch then p == off + |Encode(es[..k])| && ielen == |es[k].body| + 2
             else k > 0 && p == off + |Encode(es[..k - 1])| && ielen == |es[k - 1].body| + 2
    ensures off <= p && p + ielen <= len
    ensures var dst := if bmatch then p else p + ielen;
            && s[off..dst] == Encode(es[..k])
            && s[p + ielen..len] == Encode(es[if bmatch then k + 1 else k..])
  {
    hide Encode, Leading, Bytes;
    if bmatch {
      TargetParts(s, off, len, es, k);
    } else {
      EncodeAt(es, k - 1);
      assert es == es[..k] + es[k..];
      EncodeAppend(es[..k], es[k..]);
      TargetParts(s, off, len, es, k - 1);
      var t := off + |Encode(es[..k])|;
      Parts(s, off, len - off, [], Encode(es[..k]), Encode(es[k..]));
    }
  }

  lemma AddSize(es: seq<Elem>, e: Elem)
    requires Anchored(es, e.id)
    ensures Encode(Add(es, e)) == Encode(Front(es, e.id)) + Bytes(e) + Encode(Back(es, e.id))
  {
    hide Encode, Leading, Bytes;
    var front, back := Front(es, e.id), Back(es, e.id);
    assert Add(es, e) == front + [e] + back;
    EncodeAppend(front + [e], back);
    EncodeAppend(front, [e]);
    EncodeOne(e);
  }

  lemma Inserted(s: seq<u8>, r: seq<u8>, off: nat, dst: nat, es: seq<Elem>, e: Elem, rest: seq<u8>)
    requires off <= dst <= |s| && s[off..dst] == Encode(Front(es, e.id)) && rest == Encode(Back(es, e.id))
    requires dst + |Bytes(e)| + |rest| <= |s| && Anchored(es, e.id)
    requires r == s[..dst] + Bytes(e) + rest + s[dst + |Bytes(e)| + |rest|..]
    ensures r[off..dst + |Bytes(e)| + |rest|] == Encode(Add(es, e)) && r[..off] == s[..off]
  {
    hide Encode, Leading, Bytes;
    var front, back := Front(es, e.id), Back(es, e.id);
    AddSize(es, e);
    assert r[off..dst] == s[off..dst];
    assert r[dst..dst + |Bytes(e)|] == Bytes(e);
    assert r[dst + |Bytes(e)|..dst + |Bytes(e)| + |rest|] == rest;
    Joined(r, off, dst, dst + |Bytes(e)|, Encode(front), Bytes(e));
    Joined(r, off, dst + |Bytes(e)|, dst + |Bytes(e)| + |rest|, Encode(front) + Bytes(e), rest);
  }
}
