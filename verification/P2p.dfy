/** Wi-Fi Direct attributes nested in vendor elements: search, and in-place deletion that
    shortens the element around them and the element list around that.
 */
module P2p {
  import opened Octets
  import opened Slices
  import opened Elements

  const VENDOR: u8 := 221
  const OUI: seq<u8> := [0x50, 0x6f, 0x9a, 0x09]
  const MAX_IE_SZ := 768

  // Attribute: identifier, two-byte little-endian length, data.  The driver keeps the length
  // of data and header together in sixteen bits.
  datatype Attribute = Attribute(id: u8, data: seq<u8>)
  type Attr = a: Attribute | |a.data| < 0xfffd witness Attribute(0, [])

  function AttrBytes(a: Attr): (b: seq<u8>)
    ensures |b| == |a.data| + 3
  {
    [a.id, |a.data| % 0x100, |a.data| / 0x100] + a.data
  }

  // On the wire: identifier, length with the low byte first, data.
  lemma AttrLayout(a: Attr)
    ensures var b := AttrBytes(a);
            b[0] == a.id && b[1] as int + 256 * b[2] as int == |a.data| && b[3..] == a.data
  {}

  function EncodeAttrs(attrs: seq<Attr>): seq<u8> {
    if attrs == [] then [] else AttrBytes(attrs[0]) + EncodeAttrs(attrs[1..])
  }

  lemma {:induction false} EncodeAttrsAppend(a: seq<Attr>, b: seq<Attr>)
    ensures EncodeAttrs(a + b) == EncodeAttrs(a) + EncodeAttrs(b)
  {
    hide AttrBytes;
    if a == [] {
      assert a + b == b;
    } else {
      assert (a + b)[1..] == a[1..] + b;
      EncodeAttrsAppend(a[1..], b);
    }
  }

  lemma AttrsAt(attrs: seq<Attr>, k: nat)
    requires k < |attrs|
    ensures EncodeAttrs(attrs) == EncodeAttrs(attrs[..k]) + AttrBytes(attrs[k]) + EncodeAttrs(attrs[k + 1..])
    ensures EncodeAttrs(attrs[..k + 1]) == EncodeAttrs(attrs[..k]) + AttrBytes(attrs[k])
  {
    hide AttrBytes, EncodeAttrs;
    Around(attrs, k);
    EncodeAttrsAppend(attrs[..k], [attrs[k]]);
    OneAttr(attrs[k]);
    EncodeAttrsAppend(attrs[..k + 1], attrs[k + 1..]);
  }

  lemma OneAttr(a: Attr)
    ensures EncodeAttrs([a]) == AttrBytes(a) && EncodeAttrs([]) == []
  {
    assert [a][1..] == [];
  }

  function FirstAttr(attrs: seq<Attr>, id: u8): (k: nat)
    ensures k <= |attrs|
    ensures k < |attrs| ==> attrs[k].id == id
    ensures forall i :: 0 <= i < k ==> attrs[i].id != id
  {
    if attrs == [] || attrs[0].id == id then 0
    else
      var k := FirstAttr(attrs[1..], id);
      assert forall i :: 1 <= i < k + 1 ==> attrs[i] == attrs[1..][i - 1];
      k + 1
  }

  function WithoutAttr(attrs: seq<Attr>, id: u8): seq<Attr> {
    if attrs == [] then []
    else (if attrs[0].id == id then [] else [attrs[0]]) + WithoutAttr(attrs[1..], id)
  }

  // The filter attribute by attribute.
  lemma {:induction false} WithoutAttrIs(a: seq<Attr>, b: seq<Attr>, x: Attr, id: u8)
    ensures WithoutAttr(a + b, id) == WithoutAttr(a, id) + WithoutAttr(b, id)
    ensures WithoutAttr([x], id) == (if x.id == id then [] else [x]) && WithoutAttr([], id) == []
  {
    assert [x][1..] == [];
    if a == [] {
      assert a + b == b;
    } else {
      assert (a + b)[1..] == a[1..] + b;
      WithoutAttrIs(a[1..], b, x, id);
    }
  }

  // Over a list: every P2P element loses the attribute, every occurrence and nothing else.
  lemma DeletedEverywhere(list: seq<Ie>, id: u8)
    ensures var r := DeleteAll(list, id);
            && |r| == |list|
            && forall i :: 0 <= i < |r| ==>
                 if list[i].P2p? then r[i].P2p? && r[i].attrs == WithoutAttr(list[i].attrs, id) else r[i] == list[i]
  {}

  lemma {:induction false} WithoutAttrDrop(attrs: seq<Attr>, id: u8, k: nat)
    requires k < |attrs| && k == FirstAttr(attrs, id)
    ensures WithoutAttr(attrs, id) == WithoutAttr(attrs[..k] + attrs[k + 1..], id)
  {
    var less := attrs[..k] + attrs[k + 1..];
    if k == 0 {
      assert less == attrs[1..];
    } else {
      assert less[1..] == attrs[1..][..k - 1] + attrs[1..][k..];
      WithoutAttrDrop(attrs[1..], id, k - 1);
    }
  }

  lemma {:induction false} WithoutAttrNone(attrs: seq<Attr>, id: u8)
    requires FirstAttr(attrs, id) == |attrs|
    ensures WithoutAttr(attrs, id) == attrs
  {
    if attrs != [] {
      WithoutAttrNone(attrs[1..], id);
    }
  }

  // ---------- element lists with attributes spelled out ----------

  datatype Ie = P2p(attrs: seq<Attr>) | Other(e: Elem)

  predicate Legal(ie: Ie) {
    match ie
    case P2p(attrs) => 4 + |EncodeAttrs(attrs)| < 0x100
    case Other(e) => !Matches(e, VENDOR, OUI) && (e.id == VENDOR ==> 4 <= |e.body|)
  }

  function Lower(ie: Ie): Elem
    requires Legal(ie)
  {
    match ie
    case P2p(attrs) => Element(VENDOR, OUI + EncodeAttrs(attrs))
    case Other(e) => e
  }

  predicate AllLegal(ies: seq<Ie>) {
    forall i :: 0 <= i < |ies| ==> Legal(ies[i])
  }

  function LowerAll(ies: seq<Ie>): (es: seq<Elem>)
    requires AllLegal(ies)
    ensures |es| == |ies| && forall i :: 0 <= i < |es| ==> es[i] == Lower(ies[i])
  {
    seq(|ies|, i requires 0 <= i < |ies| && Legal(ies[i]) => Lower(ies[i]))
  }

  // Deletes attribute `id` from one element, and from every element.
  function DeleteIn(ie: Ie, id: u8): Ie {
    if ie.P2p? then P2p(WithoutAttr(ie.attrs, id)) else ie
  }

  function DeleteAll(ies: seq<Ie>, id: u8): (r: seq<Ie>)
    ensures |r| == |ies| && forall i :: 0 <= i < |r| ==> r[i] == DeleteIn(ies[i], id)
  {
    seq(|ies|, i requires 0 <= i < |ies| => DeleteIn(ies[i], id))
  }

  lemma {:induction false} WithoutAttrShorter(attrs: seq<Attr>, id: u8)
    ensures |EncodeAttrs(WithoutAttr(attrs, id))| <= |EncodeAttrs(attrs)|
  {
    if attrs != [] {
      WithoutAttrShorter(attrs[1..], id);
      if attrs[0].id != id {
        assert WithoutAttr(attrs, id)[1..] == WithoutAttr(attrs[1..], id);
      } else {
        assert WithoutAttr(attrs, id) == WithoutAttr(attrs[1..], id);
      }
    }
  }

  lemma DeleteLegal(ie: Ie, id: u8)
    requires Legal(ie)
    ensures Legal(DeleteIn(ie, id))
  {
    if ie.P2p? {
      WithoutAttrShorter(ie.attrs, id);
    }
  }

  // ---------- buffers ----------

  // The first hit in buf[start..start + len], or -1.  The comparison never leaves the list.
  method GetP2pIe(buf: array<u8>, start: nat, len: nat, ghost es: seq<Elem>) returns (pos: int, ielen: nat)
    requires start + len <= buf.Length && buf[start..start + len] == Encode(es)
    requires len <= MAX_IE_SZ
    ensures var k := FirstHit(es, 0, [], VENDOR, OUI);
            if k == |es| then pos == -1 && ielen == 0
            else pos == start + |Encode(es[..k])| && ielen == |Bytes(es[k])|
  {
    hide Encode, FirstHit, Hit;
    ielen := 0;
    if len <= 0 {
      EmptyEncoding(es);
      return -1, 0;
    }
    EncodeNothing();
    ghost var s := buf[..];
    assert s[start..start + len] == buf[start..start + len];
    var cnt := 0;
    ghost var k := 0;
    assert es[..0] == [] && es[..|es|] == es;
    while cnt + 1 + 4 < len
      invariant 0 <= k <= |es| && cnt == |Encode(es[..k])| <= len
      invariant forall i :: 0 <= i < k ==> !Hit(es, i, [], VENDOR, OUI)
      decreases |es| - k
    {
      ElementInBuffer(s, start, len, es, k);
      HitInList(s, start, len, es, k);
      if cnt + 1 + 4 >= MAX_IE_SZ {
        assert false;
      }
      var at := start + cnt;
      assert forall i :: at <= i < start + len ==> buf[i] == s[i];
      var found := buf[at] == VENDOR;
      if found {
        found := Same(buf, at + 2, OUI);
        assert buf[at + 2..at + 2 + 4] == s[at + 2..at + 2 + 4];
      }
      if found {
        pos, ielen := at, buf[at + 1] as int + 2;
        FirstHitIs(es, [], VENDOR, OUI, k);
        return;
      }
      cnt := cnt + buf[at + 1] as int + 2;
      k := k + 1;
    }
    TooShortToHit(es, k);
    FirstHitIs(es, [], VENDOR, OUI, |es|);
    pos := -1;
  }

  lemma HitInList(s: seq<u8>, start: nat, len: nat, es: seq<Elem>, k: nat)
    requires start + len <= |s| && s[start..start + len] == Encode(es) && k < |es|
    requires |Encode(es[..k])| + 6 <= len
    ensures var at := start + |Encode(es[..k])|;
            Hit(es, k, [], VENDOR, OUI) <==> es[k].id == VENDOR && s[at + 2..at + 6] == OUI
  {
    hide Encode;
    BodyAndBehind(s, start, len, es, k);
    var at := start + |Encode(es[..k])|;
    var seen := es[k].body + Encode(es[k + 1..]);
    assert seen + [] == seen;
    assert s[at + 2..start + len][..4] == s[at + 2..at + 6];
  }

  // Fewer than six bytes left hold no P2P element.
  lemma TooShortToHit(es: seq<Elem>, k: nat)
    requires k <= |es| && |Encode(es)| < |Encode(es[..k])| + 6
    ensures forall i :: k <= i < |es| ==> !Hit(es, i, [], VENDOR, OUI)
  {
    hide Encode;
    forall i | k <= i < |es| ensures !Hit(es, i, [], VENDOR, OUI) {
      EncodeAt(es, i);
      assert es[..i] == es[..k] + es[k..i];
      EncodeAppend(es[..k], es[k..i]);
    }
  }

  lemma AttrInBuffer(s: seq<u8>, at: nat, len: nat, attrs: seq<Attr>, k: nat)
    requires at + len <= |s| && s[at..at + len] == EncodeAttrs(attrs) && k < |attrs|
    ensures var c, a := |EncodeAttrs(attrs[..k])|, attrs[k];
            && c + 3 + |a.data| == |EncodeAttrs(attrs[..k + 1])| <= len
            && s[at + c] == a.id && s[at + c + 1] as int + s[at + c + 2] as int * 0x100 == |a.data|
            && s[at..at + c] == EncodeAttrs(attrs[..k])
            && s[at + c + 3 + |a.data|..at + len] == EncodeAttrs(attrs[k + 1..])
  {
    hide EncodeAttrs;
    var c, a := |EncodeAttrs(attrs[..k])|, attrs[k];
    AttrsAt(attrs, k);
    Parts(s, at, len, EncodeAttrs(attrs[..k]), AttrBytes(a), EncodeAttrs(attrs[k + 1..]));
    Parts(s, at, len, [], EncodeAttrs(attrs[..k]), AttrBytes(a) + EncodeAttrs(attrs[k + 1..]));
    var t := s[at + c..at + c + |AttrBytes(a)|];
    assert t[0] == s[at + c] && t[1] == s[at + c + 1] && t[2] == s[at + c + 2];
  }

  // The bytes of a P2P element at `ie`.
  ghost predicate HoldsP2p(s: seq<u8>, ie: nat, ielen: nat, attrs: seq<Attr>) {
    && 6 <= ielen && ie + ielen <= |s| && ielen < 0x102 && |EncodeAttrs(attrs)| == ielen - 6
    && s[ie] == VENDOR && s[ie + 1] == ielen - 2 && s[ie + 2..ie + 6] == OUI
    && s[ie + 6..ie + ielen] == EncodeAttrs(attrs)
  }

  // The same without a claim about the length byte, which a merged element never gets.
  ghost predicate HoldsAttrs(s: seq<u8>, ie: nat, attrs: seq<Attr>) {
    && ie + 6 + |EncodeAttrs(attrs)| <= |s| && s[ie] == VENDOR && s[ie + 2..ie + 6] == OUI
    && s[ie + 6..ie + 6 + |EncodeAttrs(attrs)|] == EncodeAttrs(attrs)
  }

  // The first n attributes, and no more, lie wholly within the length given.
  ghost predicate Reached(attrs: seq<Attr>, ielen: nat, n: nat) {
    && n <= |attrs| && ielen <= 6 + |EncodeAttrs(attrs)|
    && (n > 0 ==> 6 + |EncodeAttrs(attrs[..n])| <= ielen)
    && (n < |attrs| ==> ielen < 6 + |EncodeAttrs(attrs[..n + 1])|)
  }

  // The first attribute `id` of the P2P element at `ie` that the length given reaches, or -1.
  method GetP2pAttr(buf: array<u8>, ie: nat, ielen: nat, id: u8, ghost attrs: seq<Attr>, ghost n: nat)
    returns (pos: int, attrLen: nat)
    requires HoldsAttrs(buf[..], ie, attrs) && Reached(attrs, ielen, n)
    ensures var k := FirstAttr(attrs[..n], id);
            if k == n then pos == -1 && attrLen == 0
            else pos == ie + 6 + |EncodeAttrs(attrs[..k])| && attrLen == |AttrBytes(attrs[k])|
  {
    hide EncodeAttrs, FirstAttr;
    attrLen := 0;
    ghost var s, total := buf[..], |EncodeAttrs(attrs)|;
    OneAttr(Attribute(0, []));
    assert attrs[..0] == [] && attrs[..|attrs|] == attrs;
    if ielen <= 6 || buf[ie] != VENDOR || buf[ie + 2..ie + 6] != OUI {
      assert buf[ie + 2..ie + 6] == s[ie + 2..ie + 6];
      NoneReached(attrs, ielen, n);
      FirstAttrIs(attrs[..n], id, 0);
      return -1, 0;
    }
    var p := 6;
    ghost var k := 0;
    while p + 3 <= ielen
      invariant 0 <= k <= n && p == 6 + |EncodeAttrs(attrs[..k])| <= ielen
      invariant forall i :: 0 <= i < k ==> attrs[i].id != id
      decreases |attrs| - k
    {
      AttrInBuffer(s, ie + 6, total, attrs, k);
      var at := ie + p;
      assert buf[at] == s[at] && buf[at + 1] == s[at + 1] && buf[at + 2] == s[at + 2];
      var len := (buf[at + 1] as int + buf[at + 2] as int * 0x100 + 3) % 0x1_0000;
      if p + len > ielen {
        break;
      }
      NotLast(attrs, ielen, n, k);
      if buf[at] == id {
        FirstAttrIs(attrs[..n], id, k);
        return at, len;
      }
      p := p + len;
      k := k + 1;
    }
    AllReached(attrs, ielen, n, k);
    FirstAttrIs(attrs[..n], id, n);
    pos := -1;
  }

  lemma NoneReached(attrs: seq<Attr>, ielen: nat, n: nat)
    requires Reached(attrs, ielen, n) && ielen <= 6
    ensures n == 0
  {}

  // An attribute that ends within the length is among those reached.
  lemma NotLast(attrs: seq<Attr>, ielen: nat, n: nat, k: nat)
    requires Reached(attrs, ielen, n) && k <= n && k < |attrs| && 6 + |EncodeAttrs(attrs[..k + 1])| <= ielen
    ensures k < n
  {}

  // When the next attribute does not end within the length, all reached have been seen.
  lemma AllReached(attrs: seq<Attr>, ielen: nat, n: nat, k: nat)
    requires Reached(attrs, ielen, n) && k <= n
    requires k < |attrs| ==> ielen < 6 + |EncodeAttrs(attrs[..k + 1])| || ielen < 6 + |EncodeAttrs(attrs[..k])| + 3
    ensures k == n
  {
    hide EncodeAttrs;
    if k < n {
      AttrsAt(attrs, k);
      assert attrs[..n] == attrs[..k + 1] + attrs[k + 1..n];
      EncodeAttrsAppend(attrs[..k + 1], attrs[k + 1..n]);
    }
  }

  // The element's own length reaches every attribute.
  lemma OwnLength(s: seq<u8>, ie: nat, ielen: nat, attrs: seq<Attr>)
    requires HoldsP2p(s, ie, ielen, attrs)
    ensures HoldsAttrs(s, ie, attrs) && Reached(attrs, ielen, |attrs|) && attrs[..|attrs|] == attrs
  {
    hide EncodeAttrs;
    assert attrs[..|attrs|] == attrs;
  }

  lemma FirstAttrIs(attrs: seq<Attr>, id: u8, k: nat)
    requires k <= |attrs| && (k < |attrs| ==> attrs[k].id == id)
    requires forall i :: 0 <= i < k ==> attrs[i].id != id
    ensures FirstAttr(attrs, id) == k
  {}

  // Moves buf[next..end] down to `target` and clears what it leaves behind.
  method CloseGap(buf: array<u8>, target: nat, next: nat, end: nat)
    requires target <= next <= end <= buf.Length
    modifies buf
    ensures buf[..] == old(buf[..target]) + old(buf[next..end]) + Zeros(next - target) + old(buf[end..])
  {
    var n := end - next;
    MoveDown(buf, target, next, n);
    Clear(buf, target + n, end);
  }

  method Clear(buf: array<u8>, from: nat, to: nat)
    requires from <= to <= buf.Length
    modifies buf
    ensures buf[..] == old(buf[..from]) + Zeros(to - from) + old(buf[to..])
  {
    forall i | from <= i < to {
      buf[i] := 0;
    }
  }

  function Zeros(n: nat): (z: seq<u8>)
    ensures |z| == n && forall i :: 0 <= i < n ==> z[i] == 0
  {
    seq(n, i => 0)
  }

  // Nothing but buf[ie..ie + end] differs from s0, and there the bytes past ielen are clear.
  ghost predicate Within(s0: seq<u8>, s: seq<u8>, ie: nat, ielen: nat, end: nat) {
    && |s| == |s0| && ielen <= end && ie + end <= |s|
    && s[..ie] == s0[..ie] && s[ie + end..] == s0[ie + end..]
    && s[ie + ielen..ie + end] == Zeros(end - ielen)
  }

  // Deletes attribute `id`, every occurrence, from the P2P element at `ie`: the rest moves
  // up, the length byte follows, the tail of the old element is cleared.
  method DelP2pAttr(buf: array<u8>, ie: nat, ielenOri: nat, id: u8, ghost attrs: seq<Attr>) returns (ielen: nat)
    requires HoldsP2p(buf[..], ie, ielenOri, attrs)
    modifies buf
    ensures HoldsP2p(buf[..], ie, ielen, WithoutAttr(attrs, id))
    ensures Within(old(buf[..]), buf[..], ie, ielen, ielenOri)
  {
    hide HoldsP2p, EncodeAttrs, WithoutAttr, FirstAttr, AttrBytes;
    ielen := ielenOri;
    ghost var left, s0 := attrs, buf[..];
    HoldsFits(s0, ie, ielen, attrs);
    while true
      invariant HoldsP2p(buf[..], ie, ielen, left) && Within(s0, buf[..], ie, ielen, ielenOri)
      invariant WithoutAttr(left, id) == WithoutAttr(attrs, id)
      decreases |left|
    {
      OwnLength(buf[..], ie, ielen, left);
      var target, len := GetP2pAttr(buf, ie, ielen, id, left, |left|);
      if target == -1 || len == 0 {
        WithoutAttrNone(left, id);
        return;
      }
      ghost var k := FirstAttr(left, id);
      CutAttr(buf, ie, ielen, target, len, left, k, s0, ielenOri);
      WithoutAttrDrop(left, id, k);
      left := left[..k] + left[k + 1..];
      ielen := ielen - len;
    }
  }

  lemma HoldsFits(s: seq<u8>, ie: nat, ielen: nat, attrs: seq<Attr>)
    requires HoldsP2p(s, ie, ielen, attrs)
    ensures 6 <= ielen && ie + ielen <= |s|
  {}

  // The buffer with s[t..t + len] cut out of the element at ie and its length byte lowered.
  function Cut(s: seq<u8>, ie: nat, ielen: nat, t: nat, len: nat): seq<u8>
    requires ie + 2 <= t && t + len <= ie + ielen <= |s| && len <= s[ie + 1]
  {
    (s[..t] + s[t + len..ie + ielen] + Zeros(len) + s[ie + ielen..])[ie + 1 := s[ie + 1] - len]
  }

  // Closes the gap over one attribute and lowers the length byte.
  method CutAttr(buf: array<u8>, ie: nat, ielen: nat, target: nat, len: nat, ghost attrs: seq<Attr>, ghost k: nat,
                 ghost s0: seq<u8>, ghost end: nat)
    requires HoldsP2p(buf[..], ie, ielen, attrs) && k < |attrs| && Within(s0, buf[..], ie, ielen, end)
    requires target == ie + 6 + |EncodeAttrs(attrs[..k])| && len == |AttrBytes(attrs[k])|
    modifies buf
    ensures len <= ielen && HoldsP2p(buf[..], ie, ielen - len, attrs[..k] + attrs[k + 1..])
    ensures Within(s0, buf[..], ie, ielen - len, end)
  {
    hide EncodeAttrs, AttrBytes, HoldsP2p, Within;
    ghost var s := buf[..];
    CutHolds(s0, s, ie, ielen, end, target, len, attrs, k);
    CloseGap(buf, target, target + len, ie + ielen);
    assert buf[ie + 1] == s[ie + 1];
    buf[ie + 1] := buf[ie + 1] - len;
    assert buf[..] == Cut(s, ie, ielen, target, len);
  }

  lemma CutHolds(s0: seq<u8>, s: seq<u8>, ie: nat, ielen: nat, end: nat, t: nat, len: nat, attrs: seq<Attr>, k: nat)
    requires HoldsP2p(s, ie, ielen, attrs) && k < |attrs| && Within(s0, s, ie, ielen, end)
    requires t == ie + 6 + |EncodeAttrs(attrs[..k])| && len == |AttrBytes(attrs[k])|
    ensures t + len <= ie + ielen <= |s| && len <= s[ie + 1] && len <= ielen
    ensures HoldsP2p(Cut(s, ie, ielen, t, len), ie, ielen - len, attrs[..k] + attrs[k + 1..])
    ensures Within(s0, Cut(s, ie, ielen, t, len), ie, ielen - len, end)
  {
    hide EncodeAttrs, AttrBytes, Cut;
    AttrInBuffer(s, ie + 6, ielen - 6, attrs, k);
    var r := Cut(s, ie, ielen, t, len);
    AroundGap(s, r, ie, ielen, end, t, len);
    EncodeAttrsAppend(attrs[..k], attrs[k + 1..]);
    Joined(r, ie + 6, t, ie + ielen - len, EncodeAttrs(attrs[..k]), EncodeAttrs(attrs[k + 1..]));
  }

  lemma AroundGap(s: seq<u8>, r: seq<u8>, ie: nat, ielen: nat, end: nat, t: nat, len: nat)
    requires 6 <= ielen <= end && ie + end <= |s| && ie + 6 <= t && t + len <= ie + ielen && len <= s[ie + 1]
    requires r == Cut(s, ie, ielen, t, len)
    requires s[ie + ielen..ie + end] == Zeros(end - ielen)
    ensures |r| == |s| && r[ie] == s[ie] && r[ie + 1] == s[ie + 1] - len && r[ie + 2..ie + 6] == s[ie + 2..ie + 6]
    ensures r[ie + 6..t] == s[ie + 6..t] && r[t..ie + ielen - len] == s[t + len..ie + ielen]
    ensures r[..ie] == s[..ie] && r[ie + end..] == s[ie + end..]
    ensures r[ie + ielen - len..ie + end] == Zeros(end - (ielen - len))
  {
    hide Zeros;
    var m := s[..t] + s[t + len..ie + ielen] + Zeros(len) + s[ie + ielen..];
    forall i | ie + ielen - len <= i < ie + end ensures r[i] == 0 {
      if i >= ie + ielen {
        assert m[i] == s[i] && s[i] == s[ie + ielen..ie + end][i - (ie + ielen)];
      } else {
        assert m[i] == Zeros(len)[i - (ie + ielen - len)];
      }
    }
    assert m[t..ie + ielen - len] == s[t + len..ie + ielen];
  }
}
