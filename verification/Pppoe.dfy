/** The PPPoE arm of the bridge: a client's discovery packet carries its MAC away in a
    Relay-Session-Id tag, and the reply brings it back (RFC 2516, section 4 and Appendix A).
 */
module Pppoe {
  import opened Octets
  import opened Slices

  const RELAY_SID := 0x0110
  const MAGIC: seq<u8> := [0x81, 0x86]
  const TAG_BUF := 40

  datatype PlainTag = Tag(ttype: nat, value: seq<u8>)
  type PTag = t: PlainTag | t.ttype < 0x1_0000 && |t.value| < 0x1_0000 witness Tag(0, [])

  function TagBytes(t: PTag): (b: seq<u8>)
    ensures |b| == |t.value| + 4
  {
    [Hi(t.ttype), Lo(t.ttype), Hi(|t.value|), Lo(|t.value|)] + t.value
  }

  function Encode(tags: seq<PTag>): seq<u8> {
    if tags == [] then [] else TagBytes(tags[0]) + Encode(tags[1..])
  }

  lemma {:induction false} EncodeAppend(a: seq<PTag>, b: seq<PTag>)
    ensures Encode(a + b) == Encode(a) + Encode(b)
  {
    hide TagBytes;
    if a == [] {
      assert a + b == b;
    } else {
      assert (a + b)[1..] == a[1..] + b;
      EncodeAppend(a[1..], b);
    }
  }

  lemma EncodeOne(t: PTag)
    ensures Encode([t]) == TagBytes(t) && Encode([]) == []
  {
    assert [t][1..] == [];
  }

  lemma EncodeAt(tags: seq<PTag>, k: nat)
    requires k < |tags|
    ensures Encode(tags) == Encode(tags[..k]) + TagBytes(tags[k]) + Encode(tags[k + 1..])
    ensures Encode(tags[..k + 1]) == Encode(tags[..k]) + TagBytes(tags[k])
  {
    hide TagBytes, Encode;
    Around(tags, k);
    EncodeAppend(tags[..k], [tags[k]]);
    EncodeOne(tags[k]);
    EncodeAppend(tags[..k + 1], tags[k + 1..]);
  }

  // ---------- what happens to the tags ----------

  function FirstTag(tags: seq<PTag>, ttype: nat): (k: nat)
    ensures k <= |tags|
    ensures k < |tags| ==> tags[k].ttype == ttype
    ensures forall i :: 0 <= i < k ==> tags[i].ttype != ttype
  {
    if tags == [] || tags[0].ttype == ttype then 0
    else
      var k := FirstTag(tags[1..], ttype);
      assert forall i :: 1 <= i < k + 1 ==> tags[i] == tags[1..][i - 1];
      k + 1
  }

  lemma FirstTagIs(tags: seq<PTag>, ttype: nat, k: nat)
    requires k <= |tags| && (k < |tags| ==> tags[k].ttype == ttype)
    requires forall i :: 0 <= i < k ==> tags[i].ttype != ttype
    ensures FirstTag(tags, ttype) == k
  {}

  // The relay identifier a packet already has, and its other tags.
  function OldSid(tags: seq<PTag>): seq<u8> {
    var k := FirstTag(tags, RELAY_SID);
    if k < |tags| then tags[k].value else []
  }

  function Others(tags: seq<PTag>): seq<PTag> {
    var k := FirstTag(tags, RELAY_SID);
    if k < |tags| then tags[..k] + tags[k + 1..] else tags
  }

  // The tag put in front on the way out.
  function RelayTag(mac: seq<u8>, sid: seq<u8>): PTag
    requires |mac| == 6 && |sid| <= TAG_BUF - 12
  {
    Tag(RELAY_SID, MAGIC + mac + sid)
  }

  datatype Restored = Failed | Restored(mac: seq<u8>, tags: seq<PTag>)

  // On the way back: the MAC from the first relay tag, the identifier behind it kept.
  function Restore(tags: seq<PTag>): Restored {
    var k := FirstTag(tags, RELAY_SID);
    if k == |tags| then Failed
    else
      var v := tags[k].value;
      if |v| < 8 || v[..2] != MAGIC then Failed
      else if |v| > 8 then Restored(v[2..8], tags[..k] + [Tag(RELAY_SID, v[8..])] + tags[k + 1..])
      else Restored(v[2..8], tags[..k] + tags[k + 1..])
  }

  // A relay tag of the driver's: its magic, then a MAC.
  predicate Ours(v: seq<u8>) {
    |v| >= 8 && v[0] == 0x81 && v[1] == 0x86
  }

  // The tags with the magic and MAC cut out of tag k, and with it all of the tag if that was
  // all it held.
  function Stripped(tags: seq<PTag>, k: nat): seq<PTag>
    requires k < |tags| && Ours(tags[k].value)
  {
    var v := tags[k].value;
    tags[..k] + (if |v| > 8 then [Tag(0x0110, v[8..])] else []) + tags[k + 1..]
  }

  lemma RestoreIs(tags: seq<PTag>)
    ensures var k := FirstTag(tags, 0x0110);
            Restore(tags) == if k < |tags| && Ours(tags[k].value) then Restored(tags[k].value[2..8], Stripped(tags, k))
                             else Failed
  {
    hide FirstTag, Ours;
    var k := FirstTag(tags, 0x0110);
    if k < |tags| {
      MagicIs(tags[k].value);
      NoneBetween(tags[..k], tags[k + 1..]);
    }
  }

  lemma MagicIs(v: seq<u8>)
    ensures Ours(v) <==> |v| >= 8 && v[..2] == MAGIC
  {
    if |v| >= 8 {
      assert v[..2] == [v[0], v[1]];
    }
  }

  lemma NoneBetween(a: seq<PTag>, b: seq<PTag>)
    ensures a + [] + b == a + b
  {}

  // A tag on the wire: type, length, value, the numbers high byte first.
  lemma TagLayout(t: PTag)
    ensures var b := TagBytes(t);
            && b[0] as int * 256 + b[1] as int == t.ttype && b[2] as int * 256 + b[3] as int == |t.value|
            && b[4..] == t.value
  {}

  // If the access concentrator returns the relay tag unchanged among whatever tags it
  // likes (no relay tag before it), the reply reaches the client that asked, with every
  // other tag in its place; the client's own identifier is back exactly when it had one
  // that was not empty or had none at all.
  lemma RoundTrip(asked: seq<PTag>, mac: seq<u8>, before: seq<PTag>, after: seq<PTag>)
    requires |mac| == 6 && |OldSid(asked)| <= TAG_BUF - 12
    requires FirstTag(before, RELAY_SID) == |before|
    ensures var reply := before + [RelayTag(mac, OldSid(asked))] + after;
            var k := FirstTag(asked, RELAY_SID);
            var own: seq<PTag> := if k < |asked| then [asked[k]] else [];
            && Restore(reply) == Restored(mac, before + (if OldSid(asked) != [] then own else []) + after)
            && (Restore(reply) == Restored(mac, before + own + after) <==> own == [] || OldSid(asked) != [])
  {
    hide FirstTag;
    var t := RelayTag(mac, OldSid(asked));
    var reply := before + [t] + after;
    var n := |before|;
    assert reply[n] == t && reply[..n] == before && reply[n + 1..] == after;
    FirstTagIs(reply, RELAY_SID, n);
    assert t.value[..2] == MAGIC && t.value[2..8] == mac && t.value[8..] == OldSid(asked);
    var k := FirstTag(asked, RELAY_SID);
    assert before + [] + after == before + after;
    if k < |asked| && OldSid(asked) == [] {
      assert |before + [asked[k]] + after| != |before + after|;
    }
  }

  // ---------- the frame ----------

  /** A socket buffer: allocation and length in use.  Ethernet header 14 bytes, PPPoE
      header 6 bytes with the tag length last, then the tags. */
  class Frame {
    const buf: array<u8>
    var len: nat

    constructor (buf: array<u8>, len: nat)
      requires 20 <= len <= buf.Length
      ensures Valid() && this.buf == buf && this.len == len
    {
      this.buf, this.len := buf, len;
    }

    ghost predicate Valid()
      reads this
    {
      20 <= len <= buf.Length
    }

    ghost function Bytes(): (s: seq<u8>)
      requires Valid()
      reads this, buf
      ensures |s| == len
    {
      buf[..len]
    }

    function TagLen(): nat
      requires buf.Length >= 20
      reads buf
    {
      Net(buf[18], buf[19])
    }

    method Read(at: nat, n: nat) returns (b: seq<u8>)
      requires Valid() && at + n <= len
      ensures b == Bytes()[at..at + n]
    {
      b := buf[at..at + n];
      forall i | 0 <= i < n ensures b[i] == Bytes()[at..at + n][i] {
        assert Bytes()[at + i] == buf[at + i];
      }
    }

    method SetTagLen(n: nat)
      requires buf.Length >= 20 && n < 0x1_0000
      modifies buf
      ensures buf[..] == old(buf[..])[18 := Hi(n)][19 := Lo(n)]
    {
      buf[18], buf[19] := Hi(n), Lo(n);
    }

    // The first tag of a type, or -1.
    method FindTag(ttype: nat, ghost tags: seq<PTag>) returns (p: int)
      requires Valid() && Holds(Bytes(), tags)
      ensures var k := FirstTag(tags, ttype);
              p == if k == |tags| then -1 else 20 + |Encode(tags[..k])|
    {
      hide Encode, FirstTag;
      EncodeOne(Tag(0, []));
      ghost var s, k := Bytes(), 0;
      assert tags[..0] == [] && tags[..|tags|] == tags;
      var cur, total := 20, TagLen();
      while cur - 20 < total
        invariant 0 <= k <= |tags| && cur == 20 + |Encode(tags[..k])| && cur - 20 <= total
        invariant forall i :: 0 <= i < k ==> tags[i].ttype != ttype
        decreases |tags| - k
      {
        TagInFrame(s, tags, k);
        assert forall i :: cur <= i < cur + 4 ==> buf[i] == s[i];
        if Net(buf[cur], buf[cur + 1]) == ttype {
          FirstTagIs(tags, ttype, k);
          return cur;
        }
        cur := cur + 4 + Net(buf[cur + 2], buf[cur + 3]);
        k := k + 1;
      }
      if k < |tags| {
        EncodeAt(tags, k);
      }
      FirstTagIs(tags, ttype, k);
      p := -1;
    }

    // Cuts n bytes at src out of the frame.
    method PullAndMerge(src: nat, n: nat) returns (ok: bool)
      requires Valid() && 20 <= src
      modifies `len, buf
      ensures Valid() && ok == (src + n <= old(len))
      ensures Bytes() == if ok then old(Bytes()[..src] + Bytes()[src + n..]) else old(Bytes())
    {
      if src + n > len {
        return false;
      }
      var tail := len - (src + n);
      ghost var s := Bytes();
      forall i | 0 <= i < tail {
        buf[src + i] := buf[src + n + i];
      }
      len := len - n;
      ok := true;
      PulledOut(s, buf[..len], src, n);
    }
  }

  lemma PulledOut(s: seq<u8>, r: seq<u8>, src: nat, n: nat)
    requires src + n <= |s| && |r| == |s| - n
    requires forall i :: 0 <= i < src ==> r[i] == s[i]
    requires forall i :: src <= i < |r| ==> r[i] == s[i + n]
    ensures r == s[..src] + s[src + n..]
  {}

  // The length field counts exactly the tags that follow it.
  ghost predicate Holds(s: seq<u8>, tags: seq<PTag>) {
    && 20 + |Encode(tags)| <= |s| && Net(s[18], s[19]) == |Encode(tags)|
    && s[20..20 + |Encode(tags)|] == Encode(tags)
  }

  lemma TagInFrame(s: seq<u8>, tags: seq<PTag>, k: nat)
    requires Holds(s, tags) && k < |tags|
    ensures var c, t := 20 + |Encode(tags[..k])|, tags[k];
            && c + 4 + |t.value| == 20 + |Encode(tags[..k + 1])| <= 20 + |Encode(tags)| <= |s|
            && Net(s[c], s[c + 1]) == t.ttype && Net(s[c + 2], s[c + 3]) == |t.value|
            && s[c..c + 4 + |t.value|] == TagBytes(t) && s[c + 4..c + 4 + |t.value|] == t.value
            && s[20..c] == Encode(tags[..k])
            && s[c + 4 + |t.value|..20 + |Encode(tags)|] == Encode(tags[k + 1..])
  {
    hide Encode;
    EncodeAt(tags, k);
    var c, t := 20 + |Encode(tags[..k])|, tags[k];
    Parts(s, 20, |Encode(tags)|, Encode(tags[..k]), TagBytes(t), Encode(tags[k + 1..]));
    Parts(s, 20, |Encode(tags)|, [], Encode(tags[..k]), TagBytes(t) + Encode(tags[k + 1..]));
    var b := s[c..c + |TagBytes(t)|];
    assert b[0] == s[c] && b[1] == s[c + 1] && b[2] == s[c + 2] && b[3] == s[c + 3];
    assert b[4..] == t.value;
    Slice(s, c, |TagBytes(t)|, 4, |TagBytes(t)|);
  }

  const MAX_TAGS := 1494

  // The frame with n bytes at c cut out and the length field lowered.
  function Shortened(s: seq<u8>, c: nat, n: nat, newLen: nat): seq<u8>
    requires 20 <= c && c + n <= |s| && newLen < 0x1_0000
  {
    (s[..c] + s[c + n..])[18 := Hi(newLen)][19 := Lo(newLen)]
  }

  lemma ShortenedHolds(s: seq<u8>, c: nat, n: nat, a: seq<PTag>, b: seq<PTag>)
    requires 20 <= c && c + n <= |s| && s[20..c] == Encode(a) && |Encode(a)| + |Encode(b)| < 0x1_0000
    requires c + n + |Encode(b)| <= |s| && s[c + n..c + n + |Encode(b)|] == Encode(b)
    ensures Holds(Shortened(s, c, n, |Encode(a)| + |Encode(b)|), a + b)
    ensures Shortened(s, c, n, |Encode(a)| + |Encode(b)|)[..18] == s[..18]
  {
    hide Encode, Net, Hi, Lo;
    EncodeAppend(a, b);
    ToNet(|Encode(a)| + |Encode(b)|);
    var r := Shortened(s, c, n, |Encode(a)| + |Encode(b)|);
    assert r[20..c] == s[20..c];
    assert r[c..c + |Encode(b)|] == s[c + n..c + n + |Encode(b)|];
    Joined(r, 20, c, c + |Encode(b)|, Encode(a), Encode(b));
  }

  // Puts a tag in front of the others.  The driver takes the tag's length field as the
  // host reads it, without converting it, and copies that many bytes from the tag on:
  // `behind` is what lies behind the tag in memory.
  method AddTag(f: Frame, bigEndian: bool, tag: seq<u8>, behind: seq<u8>) returns (ok: bool)
    requires f.Valid() && |tag| >= 4 && |behind| >= 0x1_0004 && 20 + f.TagLen() <= f.len
    modifies f`len, f.buf
    ensures f.Valid()
    ensures var n := Host(bigEndian, tag[2], tag[3]) + 4;
            && ok == (old(f.len) + n <= f.buf.Length)
            && f.len == (if ok then old(f.len) + n else old(f.len))
            && f.buf[..] == if ok then PushedBytes(old(f.buf[..]), (tag + behind)[..n], old(f.TagLen()),
                                                   (old(f.TagLen()) + n) % 0x1_0000)
                            else old(f.buf[..])
  {
    hide PushedBytes, Host, Net;
    var n := Host(bigEndian, tag[2], tag[3]) + 4;
    ok := f.buf.Length - f.len >= n;
    if ok {
      var total := f.TagLen();
      f.len := f.len + n;
      PushTag(f, (tag + behind)[..n], total, (total + n) % 0x1_0000);
    }
  }

  function PushedBytes(s: seq<u8>, fill: seq<u8>, total: nat, w: nat): seq<u8>
    requires w < 0x1_0000 && 20 + |fill| + total <= |s|
  {
    var s1 := s[..20 + |fill|] + s[20..20 + total] + s[20 + |fill| + total..];
    var s2 := s1[18 := Hi(w)][19 := Lo(w)];
    s2[..20] + fill + s2[20 + |fill|..]
  }

  method PushTag(f: Frame, fill: seq<u8>, total: nat, w: nat)
    requires w < 0x1_0000 && 20 + |fill| + total <= f.buf.Length
    modifies f.buf
    ensures f.buf[..] == PushedBytes(old(f.buf[..]), fill, total, w)
  {
    hide Hi, Lo, PushedBytes;
    ghost var s := f.buf[..];
    MoveUp(f.buf, 20, |fill|, total);
    f.SetTagLen(w);
    ghost var s2 := f.buf[..];
    Write(f.buf, 20, fill);
    PushedIs(s, s2, f.buf[..], fill, total, w);
  }

  lemma PushedIs(s: seq<u8>, s2: seq<u8>, r: seq<u8>, fill: seq<u8>, total: nat, w: nat)
    requires w < 0x1_0000 && 20 + |fill| + total <= |s|
    requires var s1 := s[..20 + |fill|] + s[20..20 + total] + s[20 + |fill| + total..];
             s2 == s1[18 := Hi(w)][19 := Lo(w)]
    requires r == s2[..20] + fill + s2[20 + |fill|..]
    ensures r == PushedBytes(s, fill, total, w)
  {
    hide Hi, Lo;
  }

  method MoveUp(buf: array<u8>, at: nat, n: nat, total: nat)
    requires at + n + total <= buf.Length
    modifies buf
    ensures buf[..] == old(buf[..at + n] + buf[at..at + total] + buf[at + n + total..])
  {
    forall i | 0 <= i < total {
      buf[at + n + i] := buf[at + i];
    }
  }

  // Tags moved up by n, length field rewritten, the gap filled.
  lemma Pushed(s: seq<u8>, fill: seq<u8>, total: nat, w: nat)
    requires w < 0x1_0000 && 20 + |fill| + total <= |s|
    ensures var r, n := PushedBytes(s, fill, total, w), |fill|;
            && |r| == |s| && Net(r[18], r[19]) == w && r[..18] == s[..18] && r[20..20 + n] == fill
            && r[20 + n..20 + n + total] == s[20..20 + total]
  {
    var n := |fill|;
    var s1 := s[..20 + n] + s[20..20 + total] + s[20 + n + total..];
    var s2 := s1[18 := Hi(w)][19 := Lo(w)];
    PushedParts(s, s1, s2, s2[..20] + fill + s2[20 + n..], fill, n, total, w);
  }

  lemma PushedParts(s: seq<u8>, s1: seq<u8>, s2: seq<u8>, r: seq<u8>, fill: seq<u8>, n: nat, total: nat, w: nat)
    requires |fill| == n && w < 0x1_0000 && 20 + n + total <= |s|
    requires s1 == s[..20 + n] + s[20..20 + total] + s[20 + n + total..]
    requires s2 == s1[18 := Hi(w)][19 := Lo(w)]
    requires r == s2[..20] + fill + s2[20 + n..]
    ensures |r| == |s| && Net(r[18], r[19]) == w && r[..18] == s[..18] && r[20..20 + n] == fill
    ensures r[20 + n..20 + n + total] == s[20..20 + total]
  {
    hide Net, Hi, Lo;
    ToNet(w);
    assert |s1| == |s| == |r| && r[0..|r|] == r && s1[0..|s1|] == s1;
    assert r[..18] == s2[..18] == s1[..18] == s[..18];
    Parts(r, 0, |r|, s2[..20], fill, s2[20 + n..]);
    Parts(s1, 0, |s1|, s[..20 + n], s[20..20 + total], s[20 + n + total..]);
    assert s2[20 + n..] == s1[20 + n..];
    Slice(r, 20 + n, |r| - (20 + n), 0, total);
    Slice(s1, 20 + n, |r| - (20 + n), 0, total);
    assert r[18] == s2[..20][18] && r[19] == s2[..20][19];
  }

  lemma HoldsPrefix(s: seq<u8>, len: nat, tags: seq<PTag>)
    requires len <= |s|
    ensures Holds(s[..len], tags) <==> Holds(s, tags) && 20 + |Encode(tags)| <= len
  {
    hide Encode;
    if 20 + |Encode(tags)| <= len {
      Slice(s, 0, len, 20, 20 + |Encode(tags)|);
      assert s[0..len] == s[..len];
    }
  }

  // With its length converted, a tag's own bytes land in front of the others.
  lemma PushedHolds(s: seq<u8>, t: PTag, behind: seq<u8>, tags: seq<PTag>)
    requires Holds(s, tags) && |Encode(tags)| + |TagBytes(t)| < 0x1_0000
    requires 20 + |Encode(tags)| + |TagBytes(t)| <= |s|
    ensures Holds(PushedBytes(s, TagBytes(t), |Encode(tags)|, |Encode(tags)| + |TagBytes(t)|), [t] + tags)
  {
    hide Encode, TagBytes, PushedBytes;
    var n := |TagBytes(t)|;
    Pushed(s, TagBytes(t), |Encode(tags)|, |Encode(tags)| + n);
    EncodeAppend([t], tags);
    EncodeOne(t);
    var r := PushedBytes(s, TagBytes(t), |Encode(tags)|, |Encode(tags)| + n);
    Joined(r, 20, 20 + n, 20 + n + |Encode(tags)|, TagBytes(t), Encode(tags));
  }

  // Cuts n bytes at p out of the frame and lowers the length field.
  method CutOut(f: Frame, p: nat, n: nat) returns (ok: bool)
    requires f.Valid() && 20 <= p && p + n <= f.len && n <= f.TagLen()
    modifies f`len, f.buf
    ensures f.Valid() && ok && f.len == old(f.len) - n
    ensures f.Bytes() == Shortened(old(f.Bytes()), p, n, old(f.TagLen()) - n)
  {
    ghost var s := f.Bytes();
    var total := f.TagLen();
    ok := f.PullAndMerge(p, n);
    f.SetTagLen(total - n);
    assert f.Bytes() == (s[..p] + s[p + n..])[18 := Hi(total - n)][19 := Lo(total - n)];
  }

  lemma SidInFrame(s: seq<u8>, tags: seq<PTag>, k: nat)
    requires Holds(s, tags) && k < |tags|
    ensures var c, n := 20 + |Encode(tags[..k])|, |TagBytes(tags[k])|;
            && c + n <= 20 + |Encode(tags)| && Net(s[c + 2], s[c + 3]) + 4 == n && s[c + 4..c + n] == tags[k].value
            && |Encode(tags)| - n == |Encode(tags[..k])| + |Encode(tags[k + 1..])|
            && Holds(Shortened(s, c, n, |Encode(tags)| - n), tags[..k] + tags[k + 1..])
            && Shortened(s, c, n, |Encode(tags)| - n)[..18] == s[..18]
  {
    hide Encode, Holds;
    HoldsFits(s, tags);
    TagInFrame(s, tags, k);
    EncodeAt(tags, k);
    var c, n := 20 + |Encode(tags[..k])|, |TagBytes(tags[k])|;
    ShortenedHolds(s, c, n, tags[..k], tags[k + 1..]);
  }

  lemma HoldsFits(s: seq<u8>, tags: seq<PTag>)
    requires Holds(s, tags)
    ensures 20 + |Encode(tags)| <= |s| && Net(s[18], s[19]) == |Encode(tags)| < 0x1_0000
  {}

  // Takes the client's own relay tag out, if it has one that fits the tag buffer.
  method TakeOldSid(f: Frame, ghost tags: seq<PTag>) returns (ok: bool, sid: seq<u8>)
    requires f.Valid() && Holds(f.Bytes(), tags)
    modifies f`len, f.buf
    ensures f.Valid() && ok == (|OldSid(tags)| <= TAG_BUF - 12)
    ensures !ok ==> f.Bytes() == old(f.Bytes())
    ensures ok ==> sid == OldSid(tags) && Holds(f.Bytes(), Others(tags)) && f.Bytes()[..18] == old(f.Bytes()[..18])
    ensures ok ==> f.len - |Encode(Others(tags))| == old(f.len) - |Encode(tags)|
  {
    hide Encode, FirstTag, Holds, Shortened, Net, TagBytes;
    ghost var k, s := FirstTag(tags, RELAY_SID), f.Bytes();
    HoldsFits(s, tags);
    var p := f.FindTag(RELAY_SID, tags);
    ok, sid := true, [];
    if p != -1 {
      SidInFrame(s, tags, k);
      assert s[p + 2] == f.buf[p + 2] && s[p + 3] == f.buf[p + 3] && f.TagLen() == Net(s[18], s[19]);
      var n := Net(f.buf[p + 2], f.buf[p + 3]);
      if n + 4 + 2 + 6 > TAG_BUF {
        return false, [];
      }
      sid := f.Read(p + 4, n);
      ok := CutOut(f, p, 4 + n);
      EncodeAppend(tags[..k], tags[k + 1..]);
    }
  }

  // Bytes the driver reserves for the relay tag: the length field taken as the host reads
  // it, so two kilobytes and more where that swaps its bytes.
  function Reserved(sid: seq<u8>, bigEndian: bool): nat {
    4 + if bigEndian then 8 + |sid| else 0x100 * (8 + |sid|)
  }

  // On a big-endian host that is the tag's own size, so the frame grows by the tags it gains.
  lemma ReservedIsTag(mac: seq<u8>, sid: seq<u8>, rest: seq<PTag>)
    requires |mac| == 6 && |sid| <= TAG_BUF - 12
    ensures |Encode([RelayTag(mac, sid)] + rest)| == Reserved(sid, true) + |Encode(rest)|
  {
    hide Encode;
    EncodeAppend([RelayTag(mac, sid)], rest);
    EncodeOne(RelayTag(mac, sid));
  }

  // A client's PADI or PADR.  Without room the packet is refused, its own relay tag
  // already gone.  The frame that goes out is well formed exactly on a big-endian host.
  method InsertRelay(f: Frame, bigEndian: bool, behind: seq<u8>, ghost tags: seq<PTag>) returns (ok: bool)
    requires f.Valid() && Holds(f.Bytes(), tags) && |Encode(tags)| <= MAX_TAGS && |behind| >= 0x1_0004
    modifies f`len, f.buf
    ensures f.Valid()
    ensures 12 + |OldSid(tags)| > 40 ==> !ok && f.Bytes() == old(f.Bytes())
    ensures 12 + |OldSid(tags)| <= 40 ==>
              (ok <==> old(f.len) - |Encode(tags)| + |Encode(Others(tags))| + Reserved(OldSid(tags), bigEndian)
                       <= f.buf.Length)
    ensures 12 + |OldSid(tags)| <= 40 ==>
              && f.Bytes()[..18] == old(f.Bytes()[..18])
              && (!ok ==> Holds(f.Bytes(), Others(tags)))
              && f.len == old(f.len) - |Encode(tags)| + |Encode(Others(tags))|
                          + (if ok then Reserved(OldSid(tags), bigEndian) else 0)
              && (ok ==> (Holds(f.Bytes(), [RelayTag(old(f.Bytes()[6..12]), OldSid(tags))] + Others(tags))
                          <==> bigEndian))
    ensures ok && bigEndian ==>
              f.len - |Encode([RelayTag(old(f.Bytes()[6..12]), OldSid(tags))] + Others(tags))|
              == old(f.len) - |Encode(tags)|
    ensures ok && bigEndian ==>
              var n := |OldSid(tags)|;
              && f.len >= 32 + n
              && f.Bytes()[20..32 + n] == [0x01, 0x10, 0x00, 8 + n, 0x81, 0x86] + old(f.Bytes()[6..12]) + OldSid(tags)
  {
    hide Encode, FirstTag, Holds, TagBytes, PushedBytes, Net;
    ghost var s := f.Bytes();
    var sid;
    ok, sid := TakeOldSid(f, tags);
    if !ok {
      return;
    }
    ghost var rest, s1 := Others(tags), f.Bytes();
    OthersShorter(tags);
    HoldsFits(s1, rest);
    var mac := f.Read(6, 6);
    SameSource(s, s1);
    var t: PTag := RelayTag(mac, sid);
    assert f.buf[..][..f.len] == s1;
    HoldsPrefix(f.buf[..], f.len, rest);
    HoldsFits(f.buf[..], rest);
    LengthAsRead(t, bigEndian);
    ghost var all, len1 := f.buf[..], f.len;
    ok := AddTag(f, bigEndian, TagBytes(t), behind);
    if ok {
      Relayed(all, f.buf[..], t, behind, rest, bigEndian, f.len, len1);
      ReservedIsTag(mac, sid, rest);
      if bigEndian {
        RelayInFront(f.Bytes(), mac, sid, rest);
      }
      assert f.Bytes() == f.buf[..][..f.len];
    }
  }

  lemma SameSource(s: seq<u8>, s1: seq<u8>)
    requires |s| >= 18 && |s1| >= 18 && s[..18] == s1[..18]
    ensures s1[6..12] == s[6..12]
  {
    assert s1[6..12] == s1[..18][6..12] && s[6..12] == s[..18][6..12];
  }

  lemma OthersShorter(tags: seq<PTag>)
    ensures |Encode(Others(tags))| <= |Encode(tags)|
  {
    hide Encode;
    var k := FirstTag(tags, RELAY_SID);
    if k < |tags| {
      EncodeAt(tags, k);
      EncodeAppend(tags[..k], tags[k + 1..]);
    }
  }

  // A tag of less than 256 value bytes: its length field, read unconverted.
  lemma LengthAsRead(t: PTag, bigEndian: bool)
    requires 8 <= |t.value| < 0x100
    ensures var b := TagBytes(t);
            Host(bigEndian, b[2], b[3]) == if bigEndian then |t.value| else 0x100 * |t.value|
  {}

  lemma Relayed(s: seq<u8>, r: seq<u8>, t: PTag, behind: seq<u8>, rest: seq<PTag>, bigEndian: bool, len: nat, len0: nat)
    requires 8 <= |t.value| <= 36 && Holds(s, rest) && |Encode(rest)| <= MAX_TAGS && |behind| >= 0x1_0004
    requires 20 + |Encode(rest)| <= len0 && len <= |s| == |r|
    requires var n := (if bigEndian then |t.value| else 0x100 * |t.value|) + 4;
             && len == len0 + n
             && r == PushedBytes(s, (TagBytes(t) + behind)[..n], |Encode(rest)|, (|Encode(rest)| + n) % 0x1_0000)
    ensures Holds(r[..len], [t] + rest) <==> bigEndian
    ensures len >= 18 && r[..18] == s[..18]
  {
    hide Encode, TagBytes, PushedBytes, Net;
    var n := (if bigEndian then |t.value| else 0x100 * |t.value|) + 4;
    Pushed(s, (TagBytes(t) + behind)[..n], |Encode(rest)|, (|Encode(rest)| + n) % 0x1_0000);
    EncodeAppend([t], rest);
    EncodeOne(t);
    HoldsPrefix(r, len, [t] + rest);
    if bigEndian {
      assert (TagBytes(t) + behind)[..n] == TagBytes(t);
      PushedHolds(s, t, behind, rest);
    }
  }

  // The driver's tag as it goes out: behind the PPPoE header, magic first, then the MAC.
  lemma RelayInFront(s: seq<u8>, mac: seq<u8>, sid: seq<u8>, rest: seq<PTag>)
    requires |mac| == 6 && |sid| <= 28 && Holds(s, [RelayTag(mac, sid)] + rest)
    ensures |s| >= 32 + |sid| && s[20..32 + |sid|] == [0x01, 0x10, 0x00, 8 + |sid|, 0x81, 0x86] + mac + sid
  {
    hide Encode, Holds;
    var tags := [RelayTag(mac, sid)] + rest;
    TagInFrame(s, tags, 0);
    EncodeOne(RelayTag(mac, sid));
    assert tags[..0] == [];
    RelayLayout(mac, sid);
  }

  lemma RelayLayout(mac: seq<u8>, sid: seq<u8>)
    requires |mac| == 6 && |sid| <= 28
    ensures TagBytes(RelayTag(mac, sid)) == [0x01, 0x10, 0x00, 8 + |sid|, 0x81, 0x86] + mac + sid
  {}

  // The relay tag of a reply, if it holds the driver's magic and a MAC.
  method FindRelay(f: Frame, ghost tags: seq<PTag>) returns (p: int, tagLen: nat, mac: seq<u8>)
    requires f.Valid() && Holds(f.Bytes(), tags)
    ensures var k := FirstTag(tags, 0x0110);
            if k == |tags| || !Ours(tags[k].value) then p == -1
            else && p == 20 + |Encode(tags[..k])| && tagLen == |tags[k].value| && mac == tags[k].value[2..8]
  {
    hide Encode, FirstTag, Holds;
    ghost var k, s := FirstTag(tags, RELAY_SID), f.Bytes();
    p := f.FindTag(RELAY_SID, tags);
    tagLen, mac := 0, [];
    if p == -1 {
      return;
    }
    RelayBytes(s, tags, k);
    assert forall i :: p <= i < p + 4 ==> f.buf[i] == s[i];
    tagLen := Net(f.buf[p + 2], f.buf[p + 3]);
    if Net(f.buf[p], f.buf[p + 1]) != RELAY_SID || tagLen < 2 + 6 {
      return -1, 0, [];
    }
    MagicIs(tags[k].value);
    var magic := f.Read(p + 4, 2);
    if magic != MAGIC {
      return -1, 0, [];
    }
    mac := f.Read(p + 6, 6);
  }

  // The start of the relay tag.
  lemma RelayBytes(s: seq<u8>, tags: seq<PTag>, k: nat)
    requires Holds(s, tags) && k < |tags|
    ensures var c, v := 20 + |Encode(tags[..k])|, tags[k].value;
            && c + 4 + |v| <= |s|
            && Net(s[c], s[c + 1]) == tags[k].ttype && Net(s[c + 2], s[c + 3]) == |v|
            && (|v| >= 8 ==> s[c + 4..c + 6] == v[..2] && s[c + 6..c + 12] == v[2..8])
  {
    hide Encode, Holds, Net;
    TagInFrame(s, tags, k);
    var c, v := 20 + |Encode(tags[..k])|, tags[k].value;
    if |v| >= 8 {
      Slice(s, c + 4, |v|, 0, 2);
      Slice(s, c + 4, |v|, 2, 8);
      assert v[0..2] == v[..2];
    }
  }

  // A concentrator's PADO or PADS: the client's MAC becomes the destination, magic and MAC
  // leave the relay tag, and the tag itself leaves when nothing else was in it.
  method RestoreReply(f: Frame, ghost tags: seq<PTag>) returns (ok: bool)
    requires f.Valid() && Holds(f.Bytes(), tags)
    modifies f`len, f.buf
    ensures f.Valid() && ok == (FirstTag(tags, 0x0110) < |tags| && Ours(tags[FirstTag(tags, 0x0110)].value))
    ensures !ok ==> f.Bytes() == old(f.Bytes())
    ensures var k := FirstTag(tags, 0x0110);
            ok ==> && Holds(f.Bytes(), Stripped(tags, k)) && f.Bytes()[..6] == tags[k].value[2..8]
                   && f.Bytes()[6..18] == old(f.Bytes()[6..18])
                   && f.len - |Encode(Stripped(tags, k))| == old(f.len) - |Encode(tags)|
  {
    hide Encode, FirstTag, Holds;
    ghost var k, s := FirstTag(tags, RELAY_SID), f.Bytes();
    var p, tagLen, mac := FindRelay(f, tags);
    if p == -1 {
      return false;
    }
    SetDestination(f, mac, tags);
    ghost var s1 := f.Bytes();
    CutRelay(f, p, tagLen, tags, k);
    assert tags[..k] + [] + tags[k + 1..] == tags[..k] + tags[k + 1..];
    HeadKept(s, s1, f.Bytes(), mac);
    CutSize(tags, k);
    ok := true;
  }

  // The bytes a restored tag list is shorter by.
  lemma CutSize(tags: seq<PTag>, k: nat)
    requires k < |tags| && |tags[k].value| >= 8
    ensures |Encode(tags[..k] + [Tag(tags[k].ttype, tags[k].value[8..])] + tags[k + 1..])| == |Encode(tags)| - 8
    ensures |tags[k].value| == 8 ==> |Encode(tags[..k] + tags[k + 1..])| == |Encode(tags)| - 12
  {
    hide Encode;
    var t: PTag := Tag(tags[k].ttype, tags[k].value[8..]);
    EncodeAt(tags, k);
    EncodeAppend(tags[..k] + [t], tags[k + 1..]);
    EncodeAppend(tags[..k], [t]);
    EncodeOne(t);
    EncodeAppend(tags[..k], tags[k + 1..]);
  }

  lemma HeadKept(s: seq<u8>, s1: seq<u8>, r: seq<u8>, mac: seq<u8>)
    requires |s| >= 18 && |s1| >= 18 && |r| >= 18 && |mac| == 6
    requires s1[..18] == mac + s[6..18] && r[..18] == s1[..18]
    ensures r[..6] == mac && r[6..18] == s[6..18]
  {
    assert r[..6] == r[..18][..6] && r[6..18] == r[..18][6..];
  }

  // Magic and MAC leave the relay tag at p, the whole tag if it held nothing else.
  method CutRelay(f: Frame, p: nat, tagLen: nat, ghost tags: seq<PTag>, ghost k: nat)
    requires f.Valid() && Holds(f.Bytes(), tags) && k < |tags| && p == 20 + |Encode(tags[..k])|
    requires tagLen == |tags[k].value| >= 8
    modifies f`len, f.buf
    ensures f.Valid() && f.Bytes()[..18] == old(f.Bytes()[..18])
    ensures f.len == old(f.len) - if tagLen > 8 then 8 else 12
    ensures Holds(f.Bytes(), tags[..k] + (if tagLen > 8 then [Tag(tags[k].ttype, tags[k].value[8..])] else [])
                             + tags[k + 1..])
  {
    hide Encode, Holds, Shortened, ShortRelay, Net, TagBytes;
    ghost var s := f.Bytes();
    HoldsFits(s, tags);
    SidInFrame(s, tags, k);
    assert f.TagLen() == Net(s[18], s[19]) == |Encode(tags)|;
    var offset := if tagLen > 2 + 6 then 4 else 0;
    var ok := CutOut(f, p + offset, 4 + 2 + 6 - offset);
    if offset > 0 {
      RelayShortened(s, tags, k);
      SetRelayLen(f, s, p, tagLen - 8, |Encode(tags)| - 8);
    } else {
      assert tags[..k] + [] + tags[k + 1..] == tags[..k] + tags[k + 1..];
    }
  }

  method SetRelayLen(f: Frame, ghost s: seq<u8>, p: nat, n: nat, ghost total: nat)
    requires f.Valid() && 20 <= p && p + 12 <= |s| && total < 0x1_0000 && n < 0x1_0000
    requires f.Bytes() == Shortened(s, p + 4, 8, total)
    modifies f.buf
    ensures f.Valid() && f.Bytes() == ShortRelay(s, p, total, n)
  {
    hide Net, Hi, Lo;
    assert |Shortened(s, p + 4, 8, total)| == |s| - 8;
    f.buf[p + 2], f.buf[p + 3] := Hi(n), Lo(n);
  }

  method SetDestination(f: Frame, mac: seq<u8>, ghost tags: seq<PTag>)
    requires f.Valid() && Holds(f.Bytes(), tags) && |mac| == 6
    modifies f.buf
    ensures f.Valid() && Holds(f.Bytes(), tags)
    ensures f.Bytes()[..18] == mac + old(f.Bytes()[6..18])
  {
    hide Encode;
    ghost var s := f.Bytes();
    forall i | 0 <= i < 6 {
      f.buf[i] := mac[i];
    }
    assert forall i :: 6 <= i < |s| ==> f.Bytes()[i] == s[i];
  }

  // The frame with the first eight value bytes of the tag at p cut out.
  function ShortRelay(s: seq<u8>, p: nat, total: nat, n: nat): seq<u8>
    requires 20 <= p && p + 12 <= |s| && total < 0x1_0000 && n < 0x1_0000
  {
    Shortened(s, p + 4, 8, total)[p + 2 := Hi(n)][p + 3 := Lo(n)]
  }

  lemma ShortRelayBytes(s: seq<u8>, p: nat, total: nat, n: nat)
    requires 20 <= p && p + 12 <= |s| && total < 0x1_0000 && n < 0x1_0000
    ensures var r := ShortRelay(s, p, total, n);
            && |r| == |s| - 8 && r[..18] == s[..18] && Net(r[18], r[19]) == total
            && r[20..p] == s[20..p] && r[p] == s[p] && r[p + 1] == s[p + 1] && r[p + 2] == Hi(n) && r[p + 3] == Lo(n)
            && r[p + 4..] == s[p + 12..]
  {
    hide Net, Hi, Lo;
    ToNet(total);
    var m := s[..p + 4] + s[p + 4 + 8..];
    assert m[p + 4..] == s[p + 12..];
    FourSet(m, p, Hi(total), Lo(total), Hi(n), Lo(n));
  }

  lemma FourSet(m: seq<u8>, p: nat, a: u8, b: u8, c: u8, d: u8)
    requires 20 <= p && p + 4 <= |m|
    ensures var r := m[18 := a][19 := b][p + 2 := c][p + 3 := d];
            && |r| == |m| && r[..18] == m[..18] && r[18] == a && r[19] == b && r[20..p] == m[20..p]
            && r[p] == m[p] && r[p + 1] == m[p + 1] && r[p + 2] == c && r[p + 3] == d && r[p + 4..] == m[p + 4..]
  {}

  lemma RelayShortened(s: seq<u8>, tags: seq<PTag>, k: nat)
    requires Holds(s, tags) && k < |tags| && |tags[k].value| > 8
    ensures var p, v := 20 + |Encode(tags[..k])|, tags[k].value;
            && p + 12 <= |s| && 8 <= |Encode(tags)| < 0x1_0000
            && Holds(ShortRelay(s, p, |Encode(tags)| - 8, |v| - 8),
                     tags[..k] + [Tag(tags[k].ttype, v[8..])] + tags[k + 1..])
            && ShortRelay(s, p, |Encode(tags)| - 8, |v| - 8)[..18] == s[..18]
  {
    hide Encode, ShortRelay, Net, Hi, Lo, Holds, TagBytes;
    var p, v := 20 + |Encode(tags[..k])|, tags[k].value;
    var t': PTag := Tag(tags[k].ttype, v[8..]);
    HoldsFits(s, tags);
    TagInFrame(s, tags, k);
    EncodeAt(tags, k);
    ShortRelayBytes(s, p, |Encode(tags)| - 8, |v| - 8);
    var r := ShortRelay(s, p, |Encode(tags)| - 8, |v| - 8);
    var e, n, lb := p + 4 + |v|, |v| - 8, |Encode(tags[k + 1..])|;
    Slice(s, p + 4, |v|, 8, |v|);
    Slice(s, p + 12, |s| - (p + 12), 0, n);
    Slice(s, p + 12, |s| - (p + 12), n, n + lb);
    Slice(r, p + 4, |r| - (p + 4), 0, n);
    Slice(r, p + 4, |r| - (p + 4), n, n + lb);
    assert s[p + 12..|s|] == s[p + 12..] && r[p + 4..|r|] == r[p + 4..];
    TagAssembled(r, p, s[p], s[p + 1], tags[k], t');
    Assembled(r, p, tags[..k], t', tags[k + 1..]);
  }

  lemma TagAssembled(r: seq<u8>, p: nat, b0: u8, b1: u8, t: PTag, t': PTag)
    requires t'.ttype == t.ttype == Net(b0, b1) && p + 4 + |t'.value| <= |r|
    requires r[p] == b0 && r[p + 1] == b1 && r[p + 2] == Hi(|t'.value|) && r[p + 3] == Lo(|t'.value|)
    requires r[p + 4..p + 4 + |t'.value|] == t'.value
    ensures r[p..p + |TagBytes(t')|] == TagBytes(t')
  {
    hide Net, Hi, Lo;
    OfNet(b0, b1);
    Joined(r, p, p + 4, p + 4 + |t'.value|, [r[p], r[p + 1], r[p + 2], r[p + 3]], t'.value);
  }

  lemma Assembled(r: seq<u8>, p: nat, a: seq<PTag>, t: PTag, b: seq<PTag>)
    requires p == 20 + |Encode(a)| && p + |TagBytes(t)| + |Encode(b)| <= |r| && r[20..p] == Encode(a)
    requires r[p..p + |TagBytes(t)|] == TagBytes(t)
    requires r[p + |TagBytes(t)|..p + |TagBytes(t)| + |Encode(b)|] == Encode(b)
    requires Net(r[18], r[19]) == |Encode(a)| + |TagBytes(t)| + |Encode(b)|
    ensures Holds(r, a + [t] + b)
  {
    hide Encode, TagBytes;
    EncodeAppend(a + [t], b);
    EncodeAppend(a, [t]);
    EncodeOne(t);
    Joined(r, 20, p, p + |TagBytes(t)|, Encode(a), TagBytes(t));
    Joined(r, 20, p + |TagBytes(t)|, p + |TagBytes(t)| + |Encode(b)|, Encode(a) + TagBytes(t), Encode(b));
  }

  // ---------- there and back ----------

  // A client's packet on its way out, and any reply that carries the relay tag among tags of
  // its own, none of them a relay tag before it: the reply goes to the client's MAC with
  // every other tag in place, and the client's own identifier if that is not empty.
  method ThereAndBack(f: Frame, g: Frame, bigEndian: bool, behind: seq<u8>, ghost tags: seq<PTag>,
                      ghost before: seq<PTag>, ghost after: seq<PTag>)
    returns (sent: bool, back: bool)
    requires f.Valid() && Holds(f.Bytes(), tags) && |Encode(tags)| <= MAX_TAGS && |behind| >= 0x1_0004
    requires |OldSid(tags)| <= TAG_BUF - 12 && FirstTag(before, RELAY_SID) == |before|
    requires f != g && f.buf != g.buf && g.Valid()
    requires Holds(g.Bytes(), before + [RelayTag(f.Bytes()[6..12], OldSid(tags))] + after)
    modifies f`len, f.buf, g`len, g.buf
    ensures f.Valid() && g.Valid() && back
    ensures sent ==> (bigEndian <==>
              Holds(f.Bytes(), [RelayTag(old(f.Bytes()[6..12]), OldSid(tags))] + Others(tags)))
    ensures sent && bigEndian ==>
              f.len - |Encode([RelayTag(old(f.Bytes()[6..12]), OldSid(tags))] + Others(tags))|
              == old(f.len) - |Encode(tags)|
    ensures g.Bytes()[..6] == old(f.Bytes()[6..12]) && g.Bytes()[6..18] == old(g.Bytes()[6..18])
    ensures var k := FirstTag(tags, RELAY_SID);
            var own := if OldSid(tags) != [] then [tags[k]] else [];
            && Holds(g.Bytes(), before + own + after)
            && g.len - |Encode(before + own + after)|
               == old(g.len) - |Encode(before + [RelayTag(old(f.Bytes()[6..12]), OldSid(tags))] + after)|
  {
    hide Encode, FirstTag, Holds, Restore;
    ghost var mac := f.Bytes()[6..12];
    RoundTrip(tags, mac, before, after);
    sent := InsertRelay(f, bigEndian, behind, tags);
    RestoreIs(before + [RelayTag(mac, OldSid(tags))] + after);
    back := RestoreReply(g, before + [RelayTag(mac, OldSid(tags))] + after);
  }

  // A packet without tags, room to spare, a little-endian host: what goes out does not hold
  // its own relay tag.
  method LittleEndianMalformed() returns (f: Frame, ok: bool)
    ensures f.Valid() && ok && !Holds(f.Bytes(), [RelayTag([0, 0, 0, 0, 0, 0], [])])
  {
    hide Encode, Holds, FirstTag;
    EncodeNone();
    f := NoTags();
    ok := InsertRelay(f, false, seq(0x1_0004, _ => 0), []);
    assert [RelayTag([0, 0, 0, 0, 0, 0], [])] + [] == [RelayTag([0, 0, 0, 0, 0, 0], [])];
  }

  method NoTags() returns (f: Frame)
    ensures fresh(f) && fresh(f.buf) && f.Valid() && f.len == 20 && f.buf.Length == 4096
    ensures Holds(f.Bytes(), []) && f.Bytes()[6..12] == [0, 0, 0, 0, 0, 0]
  {
    var buf := new u8[4096](_ => 0);
    f := new Frame(buf, 20);
    assert f.Bytes()[20..20] == [];
  }

  lemma EncodeNone()
    ensures Encode([]) == [] && OldSid([]) == [] && Others([]) == []
  {}

  // A client's empty relay tag does not come back.
  lemma EmptySidLost(mac: seq<u8>)
    requires |mac| == 6
    ensures var asked: seq<PTag> := [Tag(RELAY_SID, [])];
            Restore([RelayTag(mac, OldSid(asked))]) == Restored(mac, [])
  {
    var asked: seq<PTag> := [Tag(RELAY_SID, [])];
    RoundTrip(asked, mac, [], []);
    assert [] + [RelayTag(mac, [])] + [] == [RelayTag(mac, [])];
  }
}
