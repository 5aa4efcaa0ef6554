/** Information elements (section 9.4.2.1 of IEEE 802.11-2016): identifier, length, body;
    lists of them laid end to end in a byte buffer, and the driver's search and in-place
    removal on such buffers.
 */
module Elements {

  import opened Octets
  import opened Slices

  datatype Element = Element(id: u8, body: seq<u8>)
  type Elem = e: Element | |e.body| < 0x100 witness Element(0, [])

  function Bytes(e: Elem): (b: seq<u8>)
    ensures |b| == |e.body| + 2
  {
    [e.id, |e.body|] + e.body
  }

  // On the wire: identifier, length, body.
  lemma Layout(e: Elem)
    ensures var b := Bytes(e); b[0] == e.id && b[1] == |e.body| && b[2..] == e.body
  {}

  function Encode(es: seq<Elem>): seq<u8> {
    if es == [] then [] else Bytes(es[0]) + Encode(es[1..])
  }

  lemma {:induction false} EncodeAppend(a: seq<Elem>, b: seq<Elem>)
    ensures Encode(a + b) == Encode(a) + Encode(b)
  {
    if a == [] {
      assert a + b == b;
    } else {
      assert (a + b)[1..] == a[1..] + b;
      EncodeAppend(a[1..], b);
    }
  }

  // Element k sits behind the encoding of the elements before it.
  lemma EncodeAt(es: seq<Elem>, k: nat)
    requires k < |es|
    ensures Encode(es) == Encode(es[..k]) + Bytes(es[k]) + Encode(es[k + 1..])
    ensures Encode(es[..k + 1]) == Encode(es[..k]) + Bytes(es[k])
  {
    hide Bytes, Encode;
    Around(es, k);
    EncodeAppend(es[..k], [es[k]]);
    EncodeOne(es[k]);
    EncodeAppend(es[..k + 1], es[k + 1..]);
  }

  lemma EmptyEncoding(es: seq<Elem>)
    requires |Encode(es)| == 0
    ensures es == []
  {}

  lemma EncodeNothing()
    ensures Encode([]) == []
  {}

  lemma EncodeOne(e: Elem)
    ensures Encode([e]) == Bytes(e)
  {
    assert [e][1..] == [];
  }

  // The encoding determines the list.
  lemma {:induction false} EncodeInjective(a: seq<Elem>, b: seq<Elem>)
    requires Encode(a) == Encode(b)
    ensures a == b
  {
    if a != [] && b != [] {
      assert Encode(a)[0] == a[0].id && Encode(b)[0] == b[0].id;
      assert Encode(a)[1] == |a[0].body| && Encode(b)[1] == |b[0].body|;
      var n := |a[0].body| + 2;
      assert Encode(a)[2..n] == a[0].body && Encode(b)[2..n] == b[0].body;
      assert Encode(a)[n..] == Encode(a[1..]) && Encode(b)[n..] == Encode(b[1..]);
      EncodeInjective(a[1..], b[1..]);
    }
  }

  // ---------- matching ----------

  // Same identifier and, when one is asked for, same leading bytes.
  predicate Matches(e: Elem, eid: u8, oui: seq<u8>) {
    e.id == eid && oui <= e.body
  }

  function FirstMatch(es: seq<Elem>, eid: u8, oui: seq<u8>): (k: nat)
    ensures k <= |es|
    ensures k < |es| ==> Matches(es[k], eid, oui)
    ensures forall i :: 0 <= i < k ==> !Matches(es[i], eid, oui)
  {
    if es == [] || Matches(es[0], eid, oui) then 0
    else
      var k := FirstMatch(es[1..], eid, oui);
      assert forall i :: 1 <= i < k + 1 ==> es[i] == es[1..][i - 1];
      k + 1
  }

  lemma FirstIs(es: seq<Elem>, eid: u8, oui: seq<u8>, k: nat)
    requires k <= |es| && (k < |es| ==> Matches(es[k], eid, oui))
    requires forall i :: 0 <= i < k ==> !Matches(es[i], eid, oui)
    ensures FirstMatch(es, eid, oui) == k
  {}

  function Without(es: seq<Elem>, eid: u8, oui: seq<u8>): seq<Elem> {
    if es == [] then []
    else (if Matches(es[0], eid, oui) then [] else [es[0]]) + Without(es[1..], eid, oui)
  }

  lemma {:induction false} WithoutAppend(a: seq<Elem>, b: seq<Elem>, eid: u8, oui: seq<u8>)
    ensures Without(a + b, eid, oui) == Without(a, eid, oui) + Without(b, eid, oui)
  {
    if a == [] {
      assert a + b == b;
    } else {
      assert (a + b)[1..] == a[1..] + b;
      WithoutAppend(a[1..], b, eid, oui);
    }
  }

  // The filter element by element: with `WithoutAppend`, that is all of it.
  lemma WithoutOne(e: Elem, eid: u8, oui: seq<u8>)
    ensures Without([e], eid, oui) == if e.id == eid && oui <= e.body then [] else [e]
    ensures Without([], eid, oui) == []
  {
    assert [e][1..] == [];
  }

  lemma {:induction false} WithoutNone(es: seq<Elem>, eid: u8, oui: seq<u8>)
    requires forall i :: 0 <= i < |es| ==> !Matches(es[i], eid, oui)
    ensures Without(es, eid, oui) == es
  {
    if es != [] {
      WithoutNone(es[1..], eid, oui);
      assert es == [es[0]] + es[1..];
    }
  }

  // What the driver tests.  The comparison starts at the body but does not stop at its end:
  // it goes on in the elements behind it and then in the bytes behind the list.
  predicate Hit(es: seq<Elem>, i: nat, behind: seq<u8>, eid: u8, oui: seq<u8>)
    requires i < |es|
  {
    es[i].id == eid && oui <= es[i].body + Encode(es[i + 1..]) + behind
  }

  // A body that is only the beginning of the bytes looked for, the others following it.
  predicate Overrun(es: seq<Elem>, i: nat, behind: seq<u8>, eid: u8, oui: seq<u8>)
    requires i < |es|
  {
    && es[i].id == eid && |es[i].body| < |oui| && es[i].body == oui[..|es[i].body|]
    && oui[|es[i].body|..] <= Encode(es[i + 1..]) + behind
  }

  lemma HitIs(es: seq<Elem>, i: nat, behind: seq<u8>, eid: u8, oui: seq<u8>)
    requires i < |es|
    ensures Hit(es, i, behind, eid, oui) <==> Matches(es[i], eid, oui) || Overrun(es, i, behind, eid, oui)
    ensures !(Matches(es[i], eid, oui) && Overrun(es, i, behind, eid, oui))
  {
    hide Encode;
    var body, rest := es[i].body, Encode(es[i + 1..]) + behind;
    assert body + Encode(es[i + 1..]) + behind == body + rest;
    if |body| < |oui| {
      assert oui == oui[..|body|] + oui[|body|..];
      if oui <= body + rest {
        assert oui[..|body|] == (body + rest)[..|oui|][..|body|] == body;
        assert oui[|body|..] == (body + rest)[..|oui|][|body|..] == rest[..|oui| - |body|];
      }
    }
  }

  // The first hit from element i on.
  function FirstHit(es: seq<Elem>, i: nat, behind: seq<u8>, eid: u8, oui: seq<u8>): (k: nat)
    requires i <= |es|
    ensures i <= k <= |es| && (k < |es| ==> Hit(es, k, behind, eid, oui))
    ensures forall j :: i <= j < k ==> !Hit(es, j, behind, eid, oui)
    decreases |es| - i
  {
    if i == |es| || Hit(es, i, behind, eid, oui) then i else FirstHit(es, i + 1, behind, eid, oui)
  }

  // The search is for the first match exactly when no body before it is an overrun.
  lemma SearchIsExact(es: seq<Elem>, behind: seq<u8>, eid: u8, oui: seq<u8>)
    ensures FirstHit(es, 0, behind, eid, oui) == FirstMatch(es, eid, oui)
       <==> forall i :: 0 <= i < FirstMatch(es, eid, oui) ==> !Overrun(es, i, behind, eid, oui)
  {
    hide Hit, Overrun, Matches, FirstHit, FirstMatch;
    forall i | 0 <= i < |es|
      ensures Hit(es, i, behind, eid, oui) <==> Matches(es[i], eid, oui) || Overrun(es, i, behind, eid, oui)
    {
      HitIs(es, i, behind, eid, oui);
    }
  }

  // ---------- removal ----------

  // What lies behind the list once its first element has been removed in place: the bytes
  // the others moved away from, then what lay behind before.
  function Vacated(es: seq<Elem>, behind: seq<u8>): (v: seq<u8>)
    requires es != []
    ensures |v| == |Bytes(es[0])| + |behind|
  {
    Encode(es)[|Encode(es[1..])|..] + behind
  }

  // The list with every hit removed, from the front, in place.
  function Purged(es: seq<Elem>, behind: seq<u8>, eid: u8, oui: seq<u8>): (r: seq<Elem>)
    ensures |r| <= |Without(es, eid, oui)|
  {
    if es == [] then []
    else
      HitIs(es, 0, behind, eid, oui);
      if Hit(es, 0, behind, eid, oui) then Purged(es[1..], Vacated(es, behind), eid, oui)
      else [es[0]] + Purged(es[1..], behind, eid, oui)
  }

  // No overrun is come across while matches are removed.
  predicate Clean(es: seq<Elem>, behind: seq<u8>, eid: u8, oui: seq<u8>) {
    es == [] ||
    (&& !Overrun(es, 0, behind, eid, oui)
     && Clean(es[1..], if Matches(es[0], eid, oui) then Vacated(es, behind) else behind, eid, oui))
  }

  // Removal is of exactly the matches exactly when it comes across no overrun.
  lemma {:induction false} RemovalIsExact(es: seq<Elem>, behind: seq<u8>, eid: u8, oui: seq<u8>)
    ensures Purged(es, behind, eid, oui) == Without(es, eid, oui) <==> Clean(es, behind, eid, oui)
  {
    hide Hit, Overrun, Matches, Vacated;
    if es != [] {
      HitIs(es, 0, behind, eid, oui);
      if Matches(es[0], eid, oui) {
        RemovalIsExact(es[1..], Vacated(es, behind), eid, oui);
      } else if !Overrun(es, 0, behind, eid, oui) {
        RemovalIsExact(es[1..], behind, eid, oui);
        assert Purged(es, behind, eid, oui)[1..] == Purged(es[1..], behind, eid, oui);
        assert Without(es, eid, oui)[1..] == Without(es[1..], eid, oui);
      }
    }
  }

  // There are bytes to compare with behind the start of every body that is compared, n of
  // them behind the list.
  predicate Readable(es: seq<Elem>, n: nat, eid: u8, oui: seq<u8>) {
    forall i :: 0 <= i < |es| && es[i].id == eid ==> |oui| <= |es[i].body| + |Encode(es[i + 1..])| + n
  }

  lemma StillReadable(es: seq<Elem>, k: nat, n: nat, m: nat, eid: u8, oui: seq<u8>)
    requires Readable(es, n, eid, oui) && k <= |es| && n <= m
    ensures Readable(es[k..], m, eid, oui)
  {
    hide Encode;
    forall i | 0 <= i < |es[k..]| && es[k..][i].id == eid
      ensures |oui| <= |es[k..][i].body| + |Encode(es[k..][i + 1..])| + m
    {
      assert es[k..][i] == es[k + i] && es[k..][i + 1..] == es[k + i + 1..];
    }
  }

  // Where no comparison reaches the end of the list, what lies behind it does not matter.
  lemma {:induction false} CleanInList(es: seq<Elem>, behind: seq<u8>, eid: u8, oui: seq<u8>)
    requires Readable(es, 0, eid, oui)
    ensures Clean(es, behind, eid, oui) <==> forall i :: 0 <= i < |es| ==> !Overrun(es, i, [], eid, oui)
  {
    hide Encode, Vacated, Matches, Overrun;
    if es != [] {
      OverrunInList(es, 0, behind, eid, oui);
      StillReadable(es, 1, 0, 0, eid, oui);
      CleanInList(es[1..], if Matches(es[0], eid, oui) then Vacated(es, behind) else behind, eid, oui);
      forall i | 1 <= i < |es|
        ensures Overrun(es, i, [], eid, oui) == Overrun(es[1..], i - 1, [], eid, oui)
      {
        OverrunInTail(es, i, eid, oui);
      }
      var rest := es[1..];
      if i :| 0 <= i < |rest| && Overrun(rest, i, [], eid, oui) {
        assert Overrun(es, i + 1, [], eid, oui);
      }
    }
  }

  // Where no comparison reaches the end of the list, removal is of exactly the matches exactly
  // when no body in it is an overrun.
  lemma RemovalInList(es: seq<Elem>, behind: seq<u8>, eid: u8, oui: seq<u8>)
    requires Readable(es, 0, eid, oui)
    ensures Purged(es, behind, eid, oui) == Without(es, eid, oui)
       <==> forall i :: 0 <= i < |es| ==> !Overrun(es, i, [], eid, oui)
  {
    hide Purged, Without, Overrun, Readable, Clean;
    RemovalIsExact(es, behind, eid, oui);
    CleanInList(es, behind, eid, oui);
  }

  lemma OverrunInTail(es: seq<Elem>, i: nat, eid: u8, oui: seq<u8>)
    requires 1 <= i < |es|
    ensures Overrun(es, i, [], eid, oui) == Overrun(es[1..], i - 1, [], eid, oui)
  {
    hide Encode;
    assert es[1..][i - 1] == es[i] && es[1..][i..] == es[i + 1..];
  }

  lemma OverrunInList(es: seq<Elem>, i: nat, behind: seq<u8>, eid: u8, oui: seq<u8>)
    requires i < |es| && Readable(es, 0, eid, oui)
    ensures Overrun(es, i, behind, eid, oui) == Overrun(es, i, [], eid, oui)
  {
    hide Encode;
    var rest := Encode(es[i + 1..]);
    assert rest + [] == rest;
    if es[i].id == eid && |es[i].body| < |oui| {
      var n := |oui| - |es[i].body|;
      assert (rest + behind)[..n] == rest[..n];
    }
  }

  // A one-byte vendor body is found, and removed, for a four-byte identifier that goes on
  // with the next element's header.
  lemma HeaderTakenForOui(body: seq<u8>, behind: seq<u8>)
    requires |body| == 0x9a && body[0] == 0x09
    ensures var es, oui := [Element(221, [0x50]), Element(0x6f, body)], [0x50, 0x6f, 0x9a, 0x09];
            && FirstMatch(es, 221, oui) == 2 && FirstHit(es, 0, behind, 221, oui) == 0
            && Without(es, 221, oui) == es && Purged(es, behind, 221, oui) == es[1..]
  {
    var a: Elem, b: Elem := Element(221, [0x50]), Element(0x6f, body);
    var es, oui: seq<u8> := [a, b], [0x50, 0x6f, 0x9a, 0x09];
    assert es[1..] == [b] && [b][1..] == [];
    EncodeOne(b);
    assert oui[1..] == [0x6f, 0x9a, 0x09];
    assert (Bytes(b) + behind)[..3] == oui[1..];
    HitIs(es, 0, behind, 221, oui);
    assert !Matches(b, 221, oui);
    assert FirstMatch([b], 221, oui) == 1;
    assert Without([b], 221, oui) == [b];
    assert Purged([b], Vacated(es, behind), 221, oui) == [b];
  }

  // ---------- buffers ----------

  // Moves n bytes down from src to dst.
  method MoveDown(buf: array<u8>, dst: nat, src: nat, n: nat)
    requires dst <= src && src + n <= buf.Length
    modifies buf
    ensures buf[..] == old(buf[..dst]) + old(buf[src..src + n]) + old(buf[dst + n..])
  {
    ghost var s := buf[..];
    forall i | 0 <= i < n {
      buf[dst + i] := buf[src + i];
    }
    Moved(s, buf[..], dst, src, n);
  }

  lemma Moved(s: seq<u8>, r: seq<u8>, dst: nat, src: nat, n: nat)
    requires dst <= src && src + n <= |s| == |r|
    requires forall i :: dst <= i < dst + n ==> r[i] == s[src + (i - dst)]
    requires forall i :: 0 <= i < |s| && !(dst <= i < dst + n) ==> r[i] == s[i]
    ensures r == s[..dst] + s[src..src + n] + s[dst + n..]
  {
    assert r[..dst] == s[..dst];
    assert r[dst..dst + n] == s[src..src + n];
    assert r[dst + n..] == s[dst + n..];
  }

  // The first hit in buf[start..start + len], or -1.
  method GetIeEx(buf: array<u8>, start: nat, len: nat, eid: u8, oui: seq<u8>, ghost es: seq<Elem>)
    returns (pos: int, ielen: nat)
    requires start + len <= buf.Length && buf[start..start + len] == Encode(es)
    requires Readable(es, buf.Length - (start + len), eid, oui)
    ensures var k := FirstHit(es, 0, buf[start + len..], eid, oui);
            if k == |es| then pos == -1 && ielen == 0
            else pos == start + |Encode(es[..k])| && ielen == |Bytes(es[k])|
  {
    hide Encode, FirstHit, Hit;
    ielen := 0;
    if len <= 0 {
      EmptyEncoding(es);
      return -1, 0;
    }
    EncodeNothing();
    ghost var s := buf[..];
    ghost var behind := s[start + len..];
    assert s[start..start + len] == buf[start..start + len] && behind == buf[start + len..];
    var cnt := 0;
    ghost var k := 0;
    assert es[..0] == [];
    while cnt < len
      invariant 0 <= k <= |es| && cnt == |Encode(es[..k])| <= len
      invariant forall i :: 0 <= i < k ==> !Hit(es, i, behind, eid, oui)
      decreases |es| - k
    {
      assert es[..|es|] == es;
      ElementInBuffer(s, start, len, es, k);
      HitInBuffer(s, start, len, es, k, eid, oui);
      var at := start + cnt;
      assert forall i :: at <= i < start + len ==> buf[i] == s[i];
      var found := buf[at] == eid;
      if found {
        found := Same(buf, at + 2, oui);
      }
      if found {
        pos, ielen := at, buf[at + 1] as int + 2;
        FirstHitIs(es, behind, eid, oui, k);
        return;
      }
      cnt := cnt + buf[at + 1] as int + 2;
      k := k + 1;
    }
    assert k == |es| by {
      if k < |es| {
        EncodeAt(es, k);
      }
    }
    FirstHitIs(es, behind, eid, oui, k);
    pos := -1;
  }

  // Compares byte by byte up to the first difference.
  method Same(buf: array<u8>, at: nat, oui: seq<u8>) returns (same: bool)
    requires at + |oui| <= buf.Length
    ensures same == (buf[at..at + |oui|] == oui)
  {
    for i := 0 to |oui|
      invariant buf[at..at + i] == oui[..i]
    {
      if buf[at + i] != oui[i] {
        assert buf[at..at + |oui|][i] != oui[i];
        return false;
      }
    }
    same := true;
  }

  // What the comparison sees of element k in the buffer.
  lemma HitInBuffer(s: seq<u8>, start: nat, len: nat, es: seq<Elem>, k: nat, eid: u8, oui: seq<u8>)
    requires start + len <= |s| && s[start..start + len] == Encode(es) && k < |es|
    requires Readable(es, |s| - (start + len), eid, oui)
    ensures var at := start + |Encode(es[..k])|;
            && at < start + len && s[at] == es[k].id
            && (es[k].id == eid ==> at + 2 + |oui| <= |s|)
            && (Hit(es, k, s[start + len..], eid, oui)
                <==> es[k].id == eid && s[at + 2..at + 2 + |oui|] == oui)
  {
    hide Encode;
    var at := start + |Encode(es[..k])|;
    ElementInBuffer(s, start, len, es, k);
    BodyAndBehind(s, start, len, es, k);
    if es[k].id == eid {
      assert s[at + 2..][..|oui|] == s[at + 2..at + 2 + |oui|];
    }
  }

  lemma BodyAndBehind(s: seq<u8>, start: nat, len: nat, es: seq<Elem>, k: nat)
    requires start + len <= |s| && s[start..start + len] == Encode(es) && k < |es|
    ensures var at := start + |Encode(es[..k])|;
            && at + 2 <= start + len
            && s[at + 2..start + len] == es[k].body + Encode(es[k + 1..])
            && s[at + 2..] == es[k].body + Encode(es[k + 1..]) + s[start + len..]
  {
    hide Encode, Bytes;
    var at, e := start + |Encode(es[..k])|, es[k];
    ElementInBuffer(s, start, len, es, k);
    TargetParts(s, start, start + len, es, k);
    assert |Bytes(e)| == 2 + |e.body|;
    var m := at + 2 + |e.body|;
    assert at + |Bytes(e)| == m;
    Joined(s, at + 2, m, start + len, e.body, Encode(es[k + 1..]));
    Remainder(s, at + 2, start + len, e.body + Encode(es[k + 1..]), 0);
  }

  lemma FirstHitIs(es: seq<Elem>, behind: seq<u8>, eid: u8, oui: seq<u8>, k: nat)
    requires k <= |es| && (k < |es| ==> Hit(es, k, behind, eid, oui))
    requires forall i :: 0 <= i < k ==> !Hit(es, i, behind, eid, oui)
    ensures FirstHit(es, 0, behind, eid, oui) == k
  {
    hide Hit;
  }

  lemma ElementInBuffer(s: seq<u8>, start: nat, len: nat, es: seq<Elem>, k: nat)
    requires start + len <= |s| && s[start..start + len] == Encode(es) && k < |es|
    ensures var c, e := |Encode(es[..k])|, es[k];
            && c + 2 + |e.body| == |Encode(es[..k + 1])| <= len
            && s[start + c] == e.id && s[start + c + 1] == |e.body|
            && s[start + c + 2..start + c + 2 + |e.body|] == e.body
  {
    hide Bytes, Encode;
    EncodeAt(es, k);
    Parts(s, start, len, Encode(es[..k]), Bytes(es[k]), Encode(es[k + 1..]));
    Header(s, start + |Encode(es[..k])|, es[k]);
  }

  lemma Header(s: seq<u8>, at: nat, e: Elem)
    requires at + |Bytes(e)| <= |s| && s[at..at + |Bytes(e)|] == Bytes(e)
    ensures s[at] == e.id && s[at + 1] == |e.body| && s[at + 2..at + 2 + |e.body|] == e.body
  {
    var t := s[at..at + |Bytes(e)|];
    assert s[at] == t[0] && s[at + 1] == t[1];
    forall i | 0 <= i < |e.body| ensures s[at + 2 + i] == e.body[i] {
      assert t[i + 2] == s[at + (i + 2)] && Bytes(e)[i + 2] == e.body[i];
    }
  }

  // Removes every hit behind `offset`, in one pass, in place.
  method RemoveIe(buf: array<u8>, iesLen: nat, offset: nat, eid: u8, oui: seq<u8>, ghost es: seq<Elem>)
    returns (removed: bool, newLen: nat)
    requires iesLen <= buf.Length
    requires offset < iesLen ==>
               buf[offset..iesLen] == Encode(es) && Readable(es, buf.Length - iesLen, eid, oui)
    modifies buf
    ensures iesLen <= offset ==> !removed && newLen == iesLen && buf[..] == old(buf[..])
    ensures offset < iesLen ==>
              var behind := old(buf[iesLen..]);
              && newLen <= iesLen && buf[..offset] == old(buf[..offset]) && offset <= newLen
              && buf[offset..newLen] == Encode(Purged(es, behind, eid, oui))
              && buf[iesLen..] == behind
              && (removed <==> FirstHit(es, 0, behind, eid, oui) < |es|)
  {
    hide Bytes, Encode, Purged, FirstHit, Hit, Readable, Vacated;
    removed, newLen := false, iesLen;
    if iesLen <= offset {
      return;
    }
    var start, searchLen := offset, iesLen - offset;
    ghost var kept: seq<Elem>, rest := [], es;
    ghost var behind := buf[iesLen..];
    EncodeNothing();
    assert buf[offset..start] == [] && buf[start..newLen] == buf[offset..iesLen];
    while true
      invariant offset <= start && 0 <= searchLen && start + searchLen == newLen <= iesLen
      invariant buf[..offset] == old(buf[..offset]) && buf[iesLen..] == old(buf[iesLen..])
      invariant buf[offset..start] == Encode(kept) && buf[start..newLen] == Encode(rest)
      invariant Readable(rest, buf.Length - newLen, eid, oui)
      invariant Purged(es, behind, eid, oui) == kept + Purged(rest, buf[newLen..], eid, oui)
      invariant removed ==> FirstHit(es, 0, behind, eid, oui) < |es|
      invariant !removed ==> rest == es && newLen == iesLen
      decreases |rest|
    {
      var target, ielen := GetIeEx(buf, start, searchLen, eid, oui, rest);
      ghost var k := FirstHit(rest, 0, buf[newLen..], eid, oui);
      if target == -1 || ielen == 0 {
        PurgedNone(rest, 0, buf[newLen..], eid, oui);
        Joined(buf[..], offset, start, newLen, Encode(kept), Encode(rest));
        EncodeAppend(kept, rest);
        return;
      }
      var after := target + ielen;
      var remain := searchLen - (after - start);
      ghost var was, wasBehind := buf[..], buf[newLen..];
      assert was[iesLen..] == behind && was[newLen..] == wasBehind;
      TakeOut(buf, offset, start, target, after, newLen, kept, rest, k);
      SameEnd(was, buf[..], newLen, iesLen);
      OneDropped(es, behind, kept, rest, k, wasBehind, eid, oui);
      StillReadable(rest, k + 1, buf.Length - newLen, buf.Length - (newLen - ielen), eid, oui);
      newLen := newLen - ielen;
      removed := true;
      start, searchLen := target, remain;
      kept, rest := kept + rest[..k], rest[k + 1..];
    }
  }

  lemma PurgedAt(es: seq<Elem>, i: nat, behind: seq<u8>, eid: u8, oui: seq<u8>)
    requires i < |es|
    ensures Purged(es[i..], behind, eid, oui)
         == if Hit(es, i, behind, eid, oui) then Purged(es[i + 1..], Vacated(es[i..], behind), eid, oui)
            else [es[i]] + Purged(es[i + 1..], behind, eid, oui)
  {
    hide Encode, Vacated;
    assert es[i..][0] == es[i] && es[i..][1..] == es[i + 1..];
  }

  // Nothing is removed before the first hit.
  lemma {:induction false} PurgedNone(es: seq<Elem>, i: nat, behind: seq<u8>, eid: u8, oui: seq<u8>)
    requires i <= |es| && FirstHit(es, i, behind, eid, oui) == |es|
    ensures Purged(es[i..], behind, eid, oui) == es[i..]
    decreases |es| - i
  {
    if i < |es| {
      hide Purged, Hit;
      PurgedAt(es, i, behind, eid, oui);
      PurgedNone(es, i + 1, behind, eid, oui);
      assert es[i..] == [es[i]] + es[i + 1..];
    }
  }

  lemma {:induction false} DropHit(es: seq<Elem>, i: nat, k: nat, behind: seq<u8>, eid: u8, oui: seq<u8>)
    requires i <= k < |es| && k == FirstHit(es, i, behind, eid, oui)
    ensures Purged(es[i..], behind, eid, oui)
         == es[i..k] + Purged(es[k + 1..], Vacated(es[k..], behind), eid, oui)
    decreases k - i
  {
    hide Hit, Vacated, Purged;
    PurgedAt(es, i, behind, eid, oui);
    if i < k {
      DropHit(es, i + 1, k, behind, eid, oui);
      assert es[i..k] == [es[i]] + es[i + 1..k];
    } else {
      assert es[i..k] == [];
    }
  }

  lemma SameEnd(s: seq<u8>, r: seq<u8>, i: nat, j: nat)
    requires i <= j <= |s| == |r| && r[i..] == s[i..]
    ensures r[j..] == s[j..]
  {
    assert r[j..] == r[i..][j - i..];
  }

  lemma OneDropped(es: seq<Elem>, behind: seq<u8>, kept: seq<Elem>, rest: seq<Elem>, k: nat, wasBehind: seq<u8>,
                   eid: u8, oui: seq<u8>)
    requires Purged(es, behind, eid, oui) == kept + Purged(rest, wasBehind, eid, oui)
    requires k < |rest| && k == FirstHit(rest, 0, wasBehind, eid, oui)
    ensures Purged(es, behind, eid, oui)
         == kept + rest[..k] + Purged(rest[k + 1..], Vacated(rest[k..], wasBehind), eid, oui)
  {
    hide Purged, FirstHit, Vacated;
    DropHit(rest, 0, k, wasBehind, eid, oui);
    assert rest[0..] == rest && rest[0..k] == rest[..k];
  }

  // Closes the gap over element k of the rest.
  method TakeOut(buf: array<u8>, offset: nat, start: nat, target: nat, after: nat, len: nat,
                 ghost kept: seq<Elem>, ghost rest: seq<Elem>, ghost k: nat)
    requires offset <= start <= len <= buf.Length && k < |rest|
    requires buf[offset..start] == Encode(kept) && buf[start..len] == Encode(rest)
    requires target == start + |Encode(rest[..k])| && after == target + |Bytes(rest[k])|
    modifies buf
    ensures after <= len && buf[..offset] == old(buf[..offset]) && buf[len..] == old(buf[len..])
    ensures buf[offset..target] == Encode(kept + rest[..k])
    ensures buf[target..len - (after - target)] == Encode(rest[k + 1..])
    ensures buf[len - (after - target)..] == Vacated(rest[k..], old(buf[len..]))
  {
    hide Bytes, Encode, Vacated;
    ghost var before := buf[..];
    assert before[start..len] == buf[start..len] && before[len..] == buf[len..];
    assert before[offset..start] == buf[offset..start] && before[..offset] == buf[..offset];
    TargetParts(before, start, len, rest, k);
    MoveDown(buf, target, after, len - after);
    LeftBehind(before, start, len, rest, k);
    TakenOut(before, buf[..], offset, start, target, after, len, kept, rest, k);
  }

  lemma TakenOut(s: seq<u8>, r: seq<u8>, offset: nat, start: nat, target: nat, after: nat, len: nat,
                 kept: seq<Elem>, rest: seq<Elem>, k: nat)
    requires offset <= start <= target <= after <= len <= |s| && k < |rest|
    requires s[offset..start] == Encode(kept) && s[start..target] == Encode(rest[..k])
    requires s[after..len] == Encode(rest[k + 1..])
    requires r == s[..target] + s[after..len] + s[target + (len - after)..]
    ensures |r| == |s| && r[..offset] == s[..offset] && r[len..] == s[len..]
    ensures r[offset..target] == Encode(kept + rest[..k])
    ensures r[target..len - (after - target)] == Encode(rest[k + 1..])
    ensures r[len - (after - target)..] == s[len - (after - target)..]
  {
    hide Encode;
    var to := target + (len - after);
    Closed(s, r, offset, target, after, len);
    EncodeAppend(kept, rest[..k]);
    Joined(s, offset, start, target, Encode(kept), Encode(rest[..k]));
    assert r[to..] == s[to..];
  }

  // The bytes behind the list once the elements behind k have moved down.
  lemma LeftBehind(s: seq<u8>, start: nat, len: nat, es: seq<Elem>, k: nat)
    requires start <= len <= |s| && s[start..len] == Encode(es) && k < |es|
    ensures var target := start + |Encode(es[..k])|;
            && target + |Encode(es[k + 1..])| <= len
            && s[target + |Encode(es[k + 1..])|..] == Vacated(es[k..], s[len..])
  {
    hide Encode;
    var target := start + |Encode(es[..k])|;
    FromOn(es, k);
    EncodeAppend(es[..k], es[k..]);
    assert es == es[..k] + es[k..];
    Parts(s, start, len - start, Encode(es[..k]), Encode(es[k..]), []);
    Remainder(s, target, len, Encode(es[k..]), |Encode(es[k + 1..])|);
  }

  lemma FromOn(es: seq<Elem>, k: nat)
    requires k < |es|
    ensures Encode(es[k..]) == Bytes(es[k]) + Encode(es[k + 1..]) && es[k..][1..] == es[k + 1..]
  {
    hide Bytes;
    assert es[k..][1..] == es[k + 1..];
  }

  lemma Remainder(s: seq<u8>, i: nat, j: nat, t: seq<u8>, n: nat)
    requires i <= j <= |s| && s[i..j] == t && n <= |t|
    ensures s[i + n..] == t[n..] + s[j..]
  {
    assert s[i + n..] == s[i..][n..];
    assert s[i..] == t + s[j..];
  }

  // Where element k lies in the bytes s[start..end] and what lies around it.
  lemma TargetParts(s: seq<u8>, start: nat, end: nat, es: seq<Elem>, k: nat)
    requires start <= end <= |s| && s[start..end] == Encode(es) && k < |es|
    ensures var t := start + |Encode(es[..k])|;
            && t + |Bytes(es[k])| <= end
            && s[start..t] == Encode(es[..k]) && s[t + |Bytes(es[k])|..end] == Encode(es[k + 1..])
  {
    hide Bytes, Encode;
    EncodeAt(es, k);
    Parts(s, start, end - start, Encode(es[..k]), Bytes(es[k]), Encode(es[k + 1..]));
    Parts(s, start, end - start, [], Encode(es[..k]), Bytes(es[k]) + Encode(es[k + 1..]));
  }
}
