/** The SLIP layer of the three-wire UART transport (Bluetooth Core Specification
    v4.0, Volume 4, Part D, section 3), with the two flow-control characters escaped.
 */
module Slip {

  const DELIM: bv8 := 0xc0
  const ESC: bv8 := 0xdb
  const XON: bv8 := 0x11
  const XOFF: bv8 := 0x13

  function EncodeByte(c: bv8): (s: seq<bv8>)
    ensures 1 <= |s| <= 2
  {
    if c == 0xc0 then [0xdb, 0xdc]
    else if c == 0xdb then [0xdb, 0xdd]
    else if c == 0x11 then [0xdb, 0xde]
    else if c == 0x13 then [0xdb, 0xdf]
    else [c]
  }

  function Encode(s: seq<bv8>): seq<bv8> {
    if s == [] then [] else Encode(s[..|s| - 1]) + EncodeByte(s[|s| - 1])
  }

  // The second byte of an escape pair.
  predicate IsEscaped(b: bv8) { b == 0xdc || b == 0xdd || b == 0xde || b == 0xdf }

  function Unescape(b: bv8): bv8 {
    if b == 0xdc then 0xc0 else if b == 0xdd then 0xdb else if b == 0xde then 0x11 else 0x13
  }

  // Reference decoder for a stretch without delimiters: the bytes carried up to the
  // first invalid escape pair.  `esc` says that an escape byte has just been read.
  function Decode(esc: bool, w: seq<bv8>): seq<bv8>
    decreases |w|
  {
    if w == [] then []
    else if esc then
      if IsEscaped(w[0]) then [Unescape(w[0])] + Decode(false, w[1..]) else []
    else if w[0] == ESC then Decode(true, w[1..])
    else [w[0]] + Decode(false, w[1..])
  }

  // What the bytes of a stretch stand for: four escape pairs, nothing from any other pair
  // on, and every other byte for itself.
  lemma Stands(x: bv8, rest: seq<bv8>)
    ensures Decode(false, [0xdb, 0xdc] + rest) == [0xc0] + Decode(false, rest)
    ensures Decode(false, [0xdb, 0xdd] + rest) == [0xdb] + Decode(false, rest)
    ensures Decode(false, [0xdb, 0xde] + rest) == [0x11] + Decode(false, rest)
    ensures Decode(false, [0xdb, 0xdf] + rest) == [0x13] + Decode(false, rest)
    ensures x !in [0xdc, 0xdd, 0xde, 0xdf] ==> Decode(false, [0xdb, x] + rest) == []
    ensures x != 0xdb ==> Decode(false, [x] + rest) == [x] + Decode(false, rest)
    ensures Decode(false, []) == Decode(false, [0xdb]) == []
  {
    PairStands(0xdc, rest);
    PairStands(0xdd, rest);
    PairStands(0xde, rest);
    PairStands(0xdf, rest);
    PairStands(x, rest);
    assert ([x] + rest)[1..] == rest;
  }

  lemma PairStands(x: bv8, rest: seq<bv8>)
    ensures Decode(false, [0xdb, x] + rest) == if IsEscaped(x) then [Unescape(x)] + Decode(false, rest) else []
  {
    var w := [0xdb, x] + rest;
    assert w[1..] == [x] + rest && w[1..][1..] == rest;
  }

  lemma DecodeEncodeByte(c: bv8, rest: seq<bv8>)
    ensures Decode(false, EncodeByte(c) + rest) == [c] + Decode(false, rest)
  {
    var w := EncodeByte(c) + rest;
    if |EncodeByte(c)| == 1 {
      assert w[1..] == rest;
    } else {
      assert w[1..] == EncodeByte(c)[1..] + rest;
      assert w[1..][1..] == rest;
    }
  }

  // Round trip, with anything following.
  lemma {:induction false} DecodeEncode(s: seq<bv8>, rest: seq<bv8>)
    ensures Decode(false, Encode(s) + rest) == s + Decode(false, rest)
  {
    if s == [] {
      assert Encode(s) + rest == rest;
    } else {
      var init, c := s[..|s| - 1], s[|s| - 1];
      assert Encode(s) + rest == Encode(init) + (EncodeByte(c) + rest);
      DecodeEncode(init, EncodeByte(c) + rest);
      DecodeEncodeByte(c, rest);
    }
  }

  lemma DecodeOfEncode(s: seq<bv8>)
    ensures Decode(false, Encode(s)) == s
  {
    DecodeEncode(s, []);
    assert Encode(s) + [] == Encode(s);
  }

  // Encoded bytes never hold a delimiter or a flow-control character, and at most double.
  lemma {:induction false} EncodeClean(s: seq<bv8>)
    ensures DELIM !in Encode(s) && XON !in Encode(s) && XOFF !in Encode(s)
    ensures |s| <= |Encode(s)| <= 2 * |s|
  {
    if s != [] {
      EncodeClean(s[..|s| - 1]);
    }
  }

  lemma {:induction false} EncodeAppend(a: seq<bv8>, b: seq<bv8>)
    ensures Encode(a + b) == Encode(a) + Encode(b)
  {
    if b == [] {
      assert a + b == a;
    } else {
      assert (a + b)[..|a + b| - 1] == a + b[..|b| - 1];
      var init, last := b[..|b| - 1], EncodeByte(b[|b| - 1]);
      EncodeAppend(a, init);
      assert Encode(a + b) == Encode(a + init) + last;
      assert (Encode(a) + Encode(init)) + last == Encode(a) + (Encode(init) + last);
    }
  }

  // Bytes that need no escape travel as they are.
  lemma {:induction false} EncodePlain(s: seq<bv8>)
    requires forall i :: 0 <= i < |s| ==> EncodeByte(s[i]) == [s[i]]
    ensures Encode(s) == s
  {
    if s != [] {
      var init := s[..|s| - 1];
      EncodePlain(init);
      assert s == init + [s[|s| - 1]];
    }
  }
}
