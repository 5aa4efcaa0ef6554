/** Setting the broadcast flag of a DHCP request on its way through the bridge, with the
    UDP checksum updated incrementally (section 3 of RFC 1624).
 */
module Dhcp {
  import opened Octets

  const ETH_HLEN := 14
  const FLAGS := 10           // offset of the flags in a DHCP message
  const COOKIE := 236         // offset of the magic cookie

  // The bytes of a 16-bit value the host stores.
  function First(bigEndian: bool, w: nat): u8
    requires w < 0x1_0000
  {
    if bigEndian then Hi(w) else Lo(w)
  }

  function Second(bigEndian: bool, w: nat): u8
    requires w < 0x1_0000
  {
    if bigEndian then Lo(w) else Hi(w)
  }

  // The sum of the 16-bit words of a packet, an odd last byte padded.
  function Total(s: seq<u8>): nat {
    if s == [] then 0
    else if |s| == 1 then Net(s[0], 0)
    else Net(s[0], s[1]) + Total(s[2..])
  }

  lemma {:induction false} TotalUpdate(s: seq<u8>, w: nat, b0: u8, b1: u8)
    requires 2 * w + 1 < |s|
    ensures Total(s[2 * w := b0][2 * w + 1 := b1]) == Total(s) - Net(s[2 * w], s[2 * w + 1]) + Net(b0, b1)
  {
    var t := s[2 * w := b0][2 * w + 1 := b1];
    if w == 0 {
      assert t[2..] == s[2..];
    } else {
      assert t[2..] == s[2..][2 * (w - 1) := b0][2 * (w - 1) + 1 := b1];
      TotalUpdate(s[2..], w - 1, b0, b1);
    }
  }

  // ---------- the checksum ----------

  // Folds the carries of a one's-complement sum back in.
  method Fold(start: nat) returns (sum: nat)
    ensures sum < 0x1_0000 && sum % 0xffff == start % 0xffff
    ensures start > 0 ==> sum > 0
  {
    sum := start;
    while sum / 0x1_0000 != 0
      invariant sum % 0xffff == start % 0xffff
      invariant start > 0 ==> sum > 0
      decreases sum
    {
      FoldStep(sum);
      sum := sum % 0x1_0000 + sum / 0x1_0000;
    }
  }

  lemma FoldStep(sum: nat)
    ensures (sum % 0x1_0000 + sum / 0x1_0000) % 0xffff == sum % 0xffff
  {
    var hi, lo := sum / 0x1_0000, sum % 0x1_0000;
    assert sum == (hi + lo) + hi * 0xffff;
    SameResidue(hi + lo, hi);
  }

  lemma SameResidue(a: int, k: int)
    ensures (a + k * 0xffff) % 0xffff == a % 0xffff
  {
    var q, r := a / 0xffff, a % 0xffff;
    assert a + k * 0xffff == (q + k) * 0xffff + r;
  }

  // The new checksum for old checksum `check` and new flags `flags`, as the host sees them.
  predicate Updated(check: nat, flags: nat, new': nat) {
    && new' < 0x1_0000
    && (new' + flags) % 0xffff == check % 0xffff
    && new' != 0xffff
  }

  method NewCheck(check: nat, flags: nat) returns (new': nat)
    requires check < 0x1_0000 && 0 < flags < 0x1_0000
    ensures Updated(check, flags, new')
  {
    var sum := Fold((0xffff - check) + flags);
    new' := 0xffff - sum;
    Negated(check, flags, sum);
  }

  lemma Negated(check: nat, flags: nat, sum: nat)
    requires check < 0x1_0000 && sum < 0x1_0000 && sum % 0xffff == (0xffff - check + flags) % 0xffff
    ensures (0xffff - sum + flags) % 0xffff == check % 0xffff
  {
    // sum + k * 0xffff is the unfolded sum for some k
    var all := 0xffff - check + flags;
    var k := all / 0xffff - sum / 0xffff;
    assert all == sum + k * 0xffff;
    assert 0xffff - sum + flags == check + k * 0xffff;
    SameResidue(check, k);
  }

  // ---------- the frame ----------

  function UdpAt(s: seq<u8>): nat
    requires |s| > ETH_HLEN
  {
    ETH_HLEN + s[ETH_HLEN] % 0x10 * 4
  }

  predicate IsIp(s: seq<u8>)
    requires |s| >= ETH_HLEN
  {
    s[12] == 0x08 && s[13] == 0x00
  }

  // From port 68 to port 67.
  predicate ToServer(s: seq<u8>, u: nat)
    requires |s| >= u + 4
  {
    s[u] == 0 && s[u + 1] == 68 && s[u + 2] == 0 && s[u + 3] == 67
  }

  // The fields the driver looks at, each only if those before it call for it, are there;
  // it relies on the stack for that.
  predicate Readable(s: seq<u8>) {
    && |s| >= ETH_HLEN
    && (IsIp(s) ==>
          && |s| >= ETH_HLEN + 10
          && (s[ETH_HLEN + 9] == 17 ==>
                && |s| >= UdpAt(s) + 4
                && (ToServer(s, UdpAt(s)) ==> |s| >= UdpAt(s) + 8 + COOKIE + 4)))
  }

  // An IP/UDP datagram from port 68 to port 67 with the DHCP cookie.
  predicate IsRequest(s: seq<u8>)
    requires Readable(s)
  {
    && IsIp(s) && s[ETH_HLEN + 9] == 17 && ToServer(s, UdpAt(s))
    && s[UdpAt(s) + 8 + COOKIE..UdpAt(s) + 8 + COOKIE + 4] == [0x63, 0x82, 0x53, 0x63]
  }

  lemma RequestFits(s: seq<u8>)
    requires Readable(s) && IsRequest(s)
    ensures |s| >= UdpAt(s) + 8 + COOKIE + 4
  {}

  // The frame with the broadcast bit set and the checksum field replaced.
  function Rewritten(s: seq<u8>, bigEndian: bool, check: nat): seq<u8>
    requires Readable(s) && IsRequest(s) && s[UdpAt(s) + 8 + FLAGS] < 0x80 && check < 0x1_0000
  {
    var u := UdpAt(s);
    s[u + 8 + FLAGS := s[u + 8 + FLAGS] + 0x80]
     [u + 6 := First(bigEndian, check)][u + 7 := Second(bigEndian, check)]
  }

  method FlagBcast(frame: array<u8>, bigEndian: bool, disabled: bool) returns (ghost check: nat)
    requires disabled || Readable(frame[..])
    modifies frame
    ensures var s := old(frame[..]);
            if disabled || !IsRequest(s) || s[UdpAt(s) + 8 + FLAGS] >= 0x80 then frame[..] == s
            else var u := UdpAt(s);
                 && Updated(Host(bigEndian, s[u + 6], s[u + 7]),
                            Host(bigEndian, s[u + 8 + FLAGS] + 0x80, s[u + 9 + FLAGS]), check)
                 && frame[..] == Rewritten(s, bigEndian, check)
    ensures var s, u := old(frame[..]), 14 + 4 * (if frame.Length > 14 then old(frame[14]) % 16 else 0);
            frame[..] != s ==> && u + 20 <= |s| && frame[u + 18] == s[u + 18] + 0x80
                               && forall i :: 0 <= i < |s| && i !in [u + 6, u + 7, u + 18] ==> frame[i] == s[i]
  {
    check := 0;
    ghost var s := frame[..];
    if disabled || !(frame[12] == 0x08 && frame[13] == 0x00) || frame[ETH_HLEN + 9] != 17 {
      return;
    }
    var u := ETH_HLEN + frame[ETH_HLEN] % 0x10 * 4;
    if !(frame[u] == 0 && frame[u + 1] == 68 && frame[u + 2] == 0 && frame[u + 3] == 67) {
      return;
    }
    var c := u + 8 + COOKIE;
    assert s[c..c + 4] == frame[c..c + 4];
    if frame[c..c + 4] != [0x63, 0x82, 0x53, 0x63] {
      return;
    }
    if frame[u + 8 + FLAGS] < 0x80 {
      check := SetBroadcast(frame, bigEndian, u);
    }
  }

  // A DHCP message in an IPv4 datagram: 14 bytes of Ethernet header for IPv4, a header whose
  // length in words is in its first byte and whose tenth byte says UDP, then from port 68 to
  // port 67 a message with the magic cookie behind its 236 fixed bytes.
  lemma Recognized(eth: seq<u8>, ip: seq<u8>, udp: seq<u8>, msg: seq<u8>)
    requires |eth| == 14 && eth[12..] == [0x08, 0x00]
    requires 20 <= |ip| <= 60 && |ip| == 4 * (ip[0] % 16) && ip[9] == 17
    requires |udp| == 8 && udp[..4] == [0, 68, 0, 67]
    requires |msg| >= 240
    ensures var s := eth + ip + udp + msg;
            && Readable(s) && (IsRequest(s) <==> msg[236..240] == [0x63, 0x82, 0x53, 0x63])
            && s[UdpAt(s) + 6..UdpAt(s) + 8] == udp[6..8] && s[UdpAt(s) + 18..UdpAt(s) + 20] == msg[10..12]
  {
    var s := eth + ip + udp + msg;
    assert s[14] == ip[0] && s[23] == ip[9] && eth[12..][0] == s[12] && eth[12..][1] == s[13];
    var u := 14 + |ip|;
    assert s[u..u + 8] == udp && s[u + 8..] == msg;
    assert udp[..4] == s[u..u + 4] == [s[u], s[u + 1], s[u + 2], s[u + 3]];
    assert s[u + 8 + 236..u + 8 + 240] == msg[236..240];
    assert s[u + 6..u + 8] == udp[6..8] && s[u + 18..u + 20] == msg[10..12];
  }

  lemma SomeFlag(bigEndian: bool, f0: u8, f1: u8)
    requires f0 >= 0x80
    ensures Host(bigEndian, f0, f1) > 0
  {}

  method SetBroadcast(frame: array<u8>, bigEndian: bool, u: nat) returns (ghost check: nat)
    requires u + 20 <= frame.Length && frame[u + 18] < 0x80
    modifies frame
    ensures Updated(Host(bigEndian, old(frame[u + 6]), old(frame[u + 7])),
                    Host(bigEndian, old(frame[u + 18]) + 0x80, old(frame[u + 19])), check)
    ensures check < 0x1_0000
    ensures frame[..] == old(frame[..])[u + 18 := old(frame[u + 18]) + 0x80]
                           [u + 6 := First(bigEndian, check)][u + 7 := Second(bigEndian, check)]
  {
    hide Updated, Host, First, Second;
    frame[u + 8 + FLAGS] := frame[u + 8 + FLAGS] + 0x80;
    var flags := Host(bigEndian, frame[u + 8 + FLAGS], frame[u + 9 + FLAGS]);
    SomeFlag(bigEndian, frame[u + 8 + FLAGS], frame[u + 9 + FLAGS]);
    var new' := NewCheck(Host(bigEndian, frame[u + 6], frame[u + 7]), flags);
    frame[u + 6] := First(bigEndian, new');
    frame[u + 7] := Second(bigEndian, new');
    check := new';
  }

  // ---------- the UDP total ----------

  // A congruence between host-order fields holds between the same fields in network order.
  lemma ByteOrderIrrelevant(bigEndian: bool, a0: u8, a1: u8, f0: u8, f1: u8, c0: u8, c1: u8)
    requires (Host(bigEndian, a0, a1) + Host(bigEndian, f0, f1)) % 0xffff == Host(bigEndian, c0, c1) % 0xffff
    ensures (Net(a0, a1) + Net(f0, f1)) % 0xffff == Net(c0, c1) % 0xffff
  {
    hide Net;
    if !bigEndian {
      var x, y := Net(a1, a0) + Net(f1, f0), Net(c1, c0);
      var k := x / 0xffff - y / 0xffff;
      assert x == y + k * 0xffff;
      // 0x100 * 0x100 is one modulo 0xffff
      Swapped(a0, a1);
      Swapped(f0, f1);
      Swapped(c0, c1);
      var d := c1 + 0x100 * k - a1 - f1;
      assert Net(a0, a1) + Net(f0, f1) == Net(c0, c1) + d * 0xffff;
      SameResidue(Net(c0, c1), d);
    }
  }

  lemma Swapped(b0: u8, b1: u8)
    ensures 0x100 * Net(b1, b0) == Net(b0, b1) + b1 * 0xffff
  {}

  // The rewrite keeps the UDP total modulo 0xffff exactly when the flags were zero before.
  // Where no checksum was sent, one appears unless all flags were set; where one was sent, the
  // field becomes zero, which says that none was, exactly when it equalled the new flags.
  lemma TotalKept(s: seq<u8>, bigEndian: bool, check: nat)
    requires Readable(s) && IsRequest(s) && s[UdpAt(s) + 8 + FLAGS] < 0x80
    requires var u := UdpAt(s);
             Updated(Host(bigEndian, s[u + 6], s[u + 7]),
                     Host(bigEndian, s[u + 8 + FLAGS] + 0x80, s[u + 9 + FLAGS]), check)
    ensures var u := UdpAt(s);
            Total(Rewritten(s, bigEndian, check)[u..]) % 0xffff == Total(s[u..]) % 0xffff
            <==> s[u + 8 + FLAGS] == 0 && s[u + 9 + FLAGS] == 0
    ensures var u := UdpAt(s);
            s[u + 6] == 0 && s[u + 7] == 0 ==>
              (check == 0 <==> s[u + 8 + FLAGS] == 0x7f && s[u + 9 + FLAGS] == 0xff)
    ensures var u := UdpAt(s);
            s[u + 6] != 0 || s[u + 7] != 0 ==>
              (check == 0 <==> s[u + 6] == s[u + 8 + FLAGS] + 0x80 && s[u + 7] == s[u + 9 + FLAGS])
  {
    hide Total, First, Second, Host, Net, Readable, IsRequest, UdpAt, Updated;
    RequestFits(s);
    var u := UdpAt(s);
    var f0, f1, c0, c1 := s[u + 8 + FLAGS], s[u + 9 + FLAGS], s[u + 6], s[u + 7];
    UpdatedIs(Host(bigEndian, c0, c1), Host(bigEndian, f0 + 0x80, f1), check);
    var n0, n1 := First(bigEndian, check), Second(bigEndian, check);
    Stored(bigEndian, check);
    ByteOrderIrrelevant(bigEndian, n0, n1, f0 + 0x80, f1, c0, c1);
    RewrittenTotal(s, u, f0 + 0x80, f1, n0, n1);
    FlagWord(f0, f1);
    TotalChange(Total(s[u..]), Net(f0, f1), Net(c0, c1), Net(n0, n1));
    if c0 == 0 && c1 == 0 {
      Unchecked(bigEndian, f0 + 0x80, f1, check);
    } else {
      Cancelled(bigEndian, c0, c1, f0 + 0x80, f1, check);
    }
  }

  lemma UpdatedIs(check: nat, flags: nat, new': nat)
    requires Updated(check, flags, new')
    ensures new' < 0x1_0000 && (new' + flags) % 0xffff == check % 0xffff
  {}

  lemma FlagWord(f0: u8, f1: u8)
    requires f0 < 0x80
    ensures Net(f0 + 0x80, f1) == Net(f0, f1) + 0x8000 && Net(f0, f1) < 0x8000
    ensures Net(f0, f1) == 0 <==> f0 == 0 && f1 == 0
  {}

  lemma Stored(bigEndian: bool, w: nat)
    requires w < 0x1_0000
    ensures Host(bigEndian, First(bigEndian, w), Second(bigEndian, w)) == w
  {}

  lemma Unchecked(bigEndian: bool, f0: u8, f1: u8, check: nat)
    requires f0 >= 0x80 && Updated(Host(bigEndian, 0, 0), Host(bigEndian, f0, f1), check)
    ensures check == 0 <==> f0 == 0xff && f1 == 0xff
  {
    var flags := Host(bigEndian, f0, f1);
    assert Host(bigEndian, 0, 0) == 0 && 0 < flags <= 0xffff;
    assert flags == 0xffff <==> f0 == 0xff && f1 == 0xff;
    AllOnes(check, flags);
  }

  lemma AllOnes(check: nat, flags: nat)
    requires check < 0xffff && 0 < flags <= 0xffff && (check + flags) % 0xffff == 0
    ensures check == 0 <==> flags == 0xffff
  {}

  lemma Cancelled(bigEndian: bool, c0: u8, c1: u8, f0: u8, f1: u8, check: nat)
    requires f0 >= 0x80 && (c0 != 0 || c1 != 0)
    requires Updated(Host(bigEndian, c0, c1), Host(bigEndian, f0, f1), check)
    ensures check == 0 <==> c0 == f0 && c1 == f1
  {
    var old', flags := Host(bigEndian, c0, c1), Host(bigEndian, f0, f1);
    assert 0 < old' <= 0xffff && 0 < flags <= 0xffff;
    assert old' == flags <==> c0 == f0 && c1 == f1;
    Balanced(old', flags, check);
  }

  lemma Balanced(old': nat, flags: nat, check: nat)
    requires 0 < old' <= 0xffff && 0 < flags <= 0xffff && Updated(old', flags, check)
    ensures check == 0 <==> old' == flags
  {
    if old' == flags {
      var k := (check + flags) / 0xffff - old' / 0xffff;
      assert check == k * 0xffff;
    }
  }

  lemma RewrittenTotal(s: seq<u8>, u: nat, f0: u8, f1: u8, n0: u8, n1: u8)
    requires u + 20 <= |s| && s[u + 19] == f1
    ensures Total(s[u + 18 := f0][u + 6 := n0][u + 7 := n1][u..])
         == Total(s[u..]) - Net(s[u + 18], s[u + 19]) + Net(f0, f1) - Net(s[u + 6], s[u + 7]) + Net(n0, n1)
  {
    hide Total;
    var seg := s[u..];
    var one := seg[2 * 9 := f0][2 * 9 + 1 := f1];
    TotalUpdate(seg, 9, f0, f1);
    TotalUpdate(one, 3, n0, n1);
    assert s[u + 18 := f0][u + 6 := n0][u + 7 := n1][u..] == one[2 * 3 := n0][2 * 3 + 1 := n1];
  }

  lemma TotalChange(total: nat, f: nat, c: nat, n: nat)
    requires f < 0x8000 && (n + f + 0x8000) % 0xffff == c % 0xffff && total - f + f + 0x8000 - c + n >= 0
    ensures (total + 0x8000 - c + n) % 0xffff == total % 0xffff <==> f == 0
  {
    var k := (n + f + 0x8000) / 0xffff - c / 0xffff;
    assert total + 0x8000 - c + n == total - f + k * 0xffff;
    SameResidue(total - f, k);
    var q := total / 0xffff - (total - f) / 0xffff;
    assert (total - f) % 0xffff == total % 0xffff ==> f == q * 0xffff;
  }

  // A request with the given checksum and flags and little else.
  function Request(c0: u8, c1: u8, f0: u8, f1: u8): seq<u8> {
    seq(282, i => if i == 12 then 0x08 else if i == 14 then 0x45 else if i == 23 then 17
                  else if i == 35 then 68 else if i == 37 then 67 else if i == 40 then c0 else if i == 41 then c1
                  else if i == 52 then f0 else if i == 53 then f1
                  else if i == 278 then 0x63 else if i == 279 then 0x82 else if i == 280 then 0x53
                  else if i == 281 then 0x63 else 0)
  }

  lemma RequestFields(c0: u8, c1: u8, f0: u8, f1: u8)
    ensures var s := Request(c0, c1, f0, f1);
            && Readable(s) && IsRequest(s) && UdpAt(s) == 34
            && s[40] == c0 && s[41] == c1 && s[52] == f0 && s[53] == f1
  {
    var s := Request(c0, c1, f0, f1);
    assert s[278..282] == [0x63, 0x82, 0x53, 0x63];
  }

  // With the lowest reserved flag set the total is no longer what it was, whichever checksum
  // the rewrite settles on.
  lemma ReservedFlagBreaksTotal(bigEndian: bool, check: nat)
    requires Updated(Host(bigEndian, 0, 0), Host(bigEndian, 0x80, 1), check)
    ensures var s := Request(0, 0, 0, 1);
            && Readable(s) && IsRequest(s)
            && Total(Rewritten(s, bigEndian, check)[34..]) % 0xffff != Total(s[34..]) % 0xffff
  {
    hide Total, Updated, Host, Request;
    RequestFields(0, 0, 0, 1);
    TotalKept(Request(0, 0, 0, 1), bigEndian, check);
  }

  // With no flag set and a checksum of 0x8000 the total is kept, but the request goes out as
  // one without a checksum.
  lemma ChecksumLost(bigEndian: bool, check: nat)
    requires Updated(Host(bigEndian, 0x80, 0), Host(bigEndian, 0x80, 0), check)
    ensures var s := Request(0x80, 0, 0, 0);
            && Readable(s) && IsRequest(s)
            && Total(Rewritten(s, bigEndian, check)[34..]) % 0xffff == Total(s[34..]) % 0xffff
            && s[40] != 0 && Rewritten(s, bigEndian, check)[40..42] == [0, 0]
  {
    hide Total, Updated, Host, Request;
    RequestFields(0x80, 0, 0, 0);
    TotalKept(Request(0x80, 0, 0, 0), bigEndian, check);
  }
}
