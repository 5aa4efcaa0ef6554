/** The 16-bit data integrity check of the three-wire UART transport
    (Bluetooth Core Specification v4.0, Volume 4, Part D, section 5):
    the nibble-table computation the driver uses, the bit-serial register it
    stands for, and what the check can and cannot miss.
 */
module Crc {

  const INIT: bv16 := 0xffff

  const TABLE: seq<bv16> := [
    0x0000, 0x1081, 0x2102, 0x3183,
    0x4204, 0x5285, 0x6306, 0x7387,
    0x8408, 0x9489, 0xa50a, 0xb58b,
    0xc60c, 0xd68d, 0xe70e, 0xf78f
  ]

  // The table entry for the four low bits of i.
  function Table(i: bv16): bv16
  {
    LowNibble(i);
    TABLE[(i & 0x000f) as nat]
  }

  lemma LowNibble(i: bv16)
    ensures (i & 0x000f) as nat < 16
  {}

  function Nibble(reg: bv16, n: bv16): bv16 {
    (reg >> 4) ^ Table(reg ^ n)
  }

  // One byte into the register: low nibble first.
  function Update(reg: bv16, d: bv8): bv16 {
    Nibble(Nibble(reg, d as bv16), (d >> 4) as bv16)
  }

  function Run(reg: bv16, data: seq<bv8>): bv16 {
    if data == [] then reg else Update(Run(reg, data[..|data| - 1]), data[|data| - 1])
  }

  // ---------- the bit-serial register, reflected CCITT polynomial 0x8408 ----------

  function Shift(reg: bv16, bit: bv16): bv16 {
    if (reg ^ bit) & 1 == 1 then (reg >> 1) ^ 0x8408 else reg >> 1
  }

  // Feed the n low bits of x, least significant first.
  function Serial(reg: bv16, x: bv16, n: nat): bv16
    decreases n
  {
    if n == 0 then reg else Serial(Shift(reg, x & 1), x >> 1, n - 1)
  }

  function SerialRun(reg: bv16, data: seq<bv8>): bv16 {
    if data == [] then reg else Serial(SerialRun(reg, data[..|data| - 1]), data[|data| - 1] as bv16, 8)
  }

  // The table is linear: entry i is the xor of i shifted to three places.
  function Spread(i: bv16): bv16 { i ^ (i << 7) ^ (i << 12) }

  lemma TableIsSpread(i: bv16)
    ensures Table(i) == Spread(i & 0x000f)
  {
    LowNibble(i);
    var k := i & 0x000f;
    if k < 4 {
      if k == 0 {} else if k == 1 {} else if k == 2 {} else {}
    } else if k < 8 {
      if k == 4 {} else if k == 5 {} else if k == 6 {} else {}
    } else if k < 12 {
      if k == 8 {} else if k == 9 {} else if k == 10 {} else {}
    } else {
      if k == 12 {} else if k == 13 {} else if k == 14 {} else {}
    }
  }

  // One table step in closed form.
  function Closed(reg: bv16, n: bv16): bv16 {
    var i := (reg ^ n) & 0xf;
    (reg >> 4) ^ (i ^ (i << 7) ^ (i << 12))
  }

  lemma NibbleIsClosed(reg: bv16, n: bv16)
    ensures Nibble(reg, n) == Closed(reg, n)
  {
    TableIsSpread(reg ^ n);
  }

  // One single-bit step without the case distinction, and the register after one, two and
  // three of them in closed form.
  function Step(reg: bv16, bit: bv16): bv16 {
    var i := (reg ^ bit) & 1;
    (reg >> 1) ^ (i << 15) ^ (i << 10) ^ (i << 3)
  }

  lemma ShiftIsStep(reg: bv16, bit: bv16)
    ensures Shift(reg, bit) == Step(reg, bit)
  {
    var i := (reg ^ bit) & 1;
    OneBit(i);
    assert (reg >> 1) ^ 0 ^ 0 ^ 0 == reg >> 1;
  }

  lemma OneBit(i: bv16)
    requires i & 1 == i
    ensures i == 1 || i == 0
    ensures (i << 15) ^ (i << 10) ^ (i << 3) == if i == 1 then 0x8408 else 0
  {}

  function AfterTwo(reg: bv16, x: bv16): bv16 {
    var i := (reg ^ x) & 3;
    (reg >> 2) ^ (i << 14) ^ (i << 9) ^ (i << 2)
  }

  function AfterThree(reg: bv16, x: bv16): bv16 {
    var i := (reg ^ x) & 7;
    (reg >> 3) ^ (i << 13) ^ (i << 8) ^ (i << 1)
  }

  lemma SecondStep(reg: bv16, x: bv16)
    ensures Step(Step(reg, x & 1), (x >> 1) & 1) == AfterTwo(reg, x)
  {}

  lemma ThirdStep(reg: bv16, x: bv16)
    ensures Step(AfterTwo(reg, x), (x >> 1 >> 1) & 1) == AfterThree(reg, x)
  {}

  lemma FourthStep(reg: bv16, x: bv16)
    ensures Step(AfterThree(reg, x), (x >> 1 >> 1 >> 1) & 1) == Closed(reg, x)
  {}

  // Four single-bit steps amount to one table step.
  lemma NibbleIsFourShifts(reg: bv16, x: bv16)
    ensures Shift(Shift(Shift(Shift(reg, x & 1), (x >> 1) & 1), (x >> 1 >> 1) & 1), (x >> 1 >> 1 >> 1) & 1)
         == Nibble(reg, x)
  {
    hide Shift, Step, AfterTwo, AfterThree, Closed, Nibble;
    ShiftIsStep(reg, x & 1);
    ShiftIsStep(Step(reg, x & 1), (x >> 1) & 1);
    SecondStep(reg, x);
    ShiftIsStep(AfterTwo(reg, x), (x >> 1 >> 1) & 1);
    ThirdStep(reg, x);
    ShiftIsStep(AfterThree(reg, x), (x >> 1 >> 1 >> 1) & 1);
    FourthStep(reg, x);
    NibbleIsClosed(reg, x);
  }

  lemma SerialFour(reg: bv16, x: bv16, m: nat)
    ensures Serial(reg, x, m + 4)
         == Serial(Shift(Shift(Shift(Shift(reg, x & 1), (x >> 1) & 1), (x >> 1 >> 1) & 1), (x >> 1 >> 1 >> 1) & 1),
                   x >> 1 >> 1 >> 1 >> 1, m)
  {
    SerialTwo(reg, x, m + 2);
    SerialTwo(Shift(Shift(reg, x & 1), (x >> 1) & 1), x >> 1 >> 1, m);
  }

  lemma SerialTwo(reg: bv16, x: bv16, m: nat)
    ensures Serial(reg, x, m + 2) == Serial(Shift(Shift(reg, x & 1), (x >> 1) & 1), x >> 1 >> 1, m)
  {
    assert Serial(reg, x, m + 2) == Serial(Shift(reg, x & 1), x >> 1, m + 1);
  }

  lemma UpdateIsSerial(reg: bv16, d: bv8)
    ensures Update(reg, d) == Serial(reg, d as bv16, 8)
  {
    var x := d as bv16;
    var y := x >> 1 >> 1 >> 1 >> 1;
    assert y == (d >> 4) as bv16;
    NibbleIsFourShifts(reg, x);
    NibbleIsFourShifts(Nibble(reg, x), y);
    SerialFour(reg, x, 4);
    SerialFour(Nibble(reg, x), y, 0);
  }

  // The driver's table computation is the standard's bit-serial register, on every message.
  lemma {:induction false} RunIsSerial(reg: bv16, data: seq<bv8>)
    ensures Run(reg, data) == SerialRun(reg, data)
  {
    if data != [] {
      RunIsSerial(reg, data[..|data| - 1]);
      UpdateIsSerial(Run(reg, data[..|data| - 1]), data[|data| - 1]);
    }
  }

  lemma {:induction false} RunAppend(reg: bv16, a: seq<bv8>, b: seq<bv8>)
    ensures Run(reg, a + b) == Run(Run(reg, a), b)
  {
    if b == [] {
      assert a + b == a;
    } else {
      assert (a + b)[..|a + b| - 1] == a + b[..|b| - 1];
      RunAppend(reg, a, b[..|b| - 1]);
    }
  }

  // ---------- what the check detects ----------

  // Two register/data pairs that select the same table entry.
  predicate Agree(u: bv16, b: bv16, v: bv16, d: bv16) {
    (u ^ b) & 0xf == (v ^ d) & 0xf
  }

  // What one table step leaves behind: the top nibble of the register tells which table
  // entry was used, and the nibbles below it tell the upper part of the register before.
  lemma Top3(u: bv16, b: bv16, v: bv16, d: bv16)
    requires Closed(u, b) >> 12 == Closed(v, d) >> 12
    ensures Agree(u, b, v, d)
  {}

  lemma Top2(u: bv16, b: bv16, v: bv16, d: bv16)
    requires Closed(u, b) >> 8 == Closed(v, d) >> 8
    ensures Agree(u, b, v, d) && u >> 12 == v >> 12
  {}

  lemma Top1(u: bv16, b: bv16, v: bv16, d: bv16)
    requires Closed(u, b) >> 4 == Closed(v, d) >> 4
    ensures Agree(u, b, v, d) && u >> 8 == v >> 8
  {}

  lemma LowNibbleKept(u: bv16, b: bv16, v: bv16, d: bv16)
    requires Closed(u, b) & 0xf == Closed(v, d) & 0xf
    requires Agree(u, b, v, d)
    ensures (u >> 4) & 0xf == (v >> 4) & 0xf
  {}

  lemma Joined(u: bv16, v: bv16)
    requires (u >> 4) & 0xf == (v >> 4) & 0xf && u >> 8 == v >> 8
    ensures u >> 4 == v >> 4
  {}

  lemma Top0(u: bv16, b: bv16, v: bv16, d: bv16)
    requires Closed(u, b) == Closed(v, d)
    ensures Agree(u, b, v, d) && u >> 4 == v >> 4
  {
    Top1(u, b, v, d);
    LowNibbleKept(u, b, v, d);
    Joined(u, v);
  }

  lemma SameRegister(u: bv16, v: bv16, b: bv16)
    requires Agree(u, b, v, b) && u >> 4 == v >> 4
    ensures u == v
  {}

  lemma SameStep(u: bv16, b: bv16, d: bv16)
    requires Agree(u, b, u, d)
    ensures Closed(u, b) == Closed(u, d)
  {}

  lemma SameByte(r: bv16, s: bv16, a: bv8, c: bv8)
    requires Agree(r, a as bv16, r, c as bv16)
    requires Agree(s, (a >> 4) as bv16, s, (c >> 4) as bv16)
    ensures a == c
  {}

  lemma UpdateIsClosed(r: bv16, d: bv8)
    ensures Update(r, d) == Closed(Closed(r, d as bv16), (d >> 4) as bv16)
  {
    NibbleIsClosed(r, d as bv16);
    NibbleIsClosed(Closed(r, d as bv16), (d >> 4) as bv16);
  }

  lemma UpdateInjectiveReg(r: bv16, s: bv16, d: bv8)
    requires Update(r, d) == Update(s, d)
    ensures r == s
  {
    UpdateIsClosed(r, d);
    UpdateIsClosed(s, d);
    ClosedInjective(Closed(r, d as bv16), Closed(s, d as bv16), (d >> 4) as bv16);
    ClosedInjective(r, s, d as bv16);
  }

  lemma ClosedInjective(r: bv16, s: bv16, n: bv16)
    requires Closed(r, n) == Closed(s, n)
    ensures r == s
  {
    Top0(r, n, s, n);
    SameRegister(r, s, n);
  }

  lemma {:induction false} RunInjectiveReg(r: bv16, s: bv16, data: seq<bv8>)
    requires Run(r, data) == Run(s, data)
    ensures r == s
  {
    if data != [] {
      var init, d := data[..|data| - 1], data[|data| - 1];
      UpdateInjectiveReg(Run(r, init), Run(s, init), d);
      RunInjectiveReg(r, s, init);
    }
  }

  // Equal registers after a byte had equal high halves before it.
  lemma UpdateKeepsHigh(u: bv16, b: bv8, v: bv16, d: bv8)
    requires Update(u, b) == Update(v, d)
    ensures u >> 8 == v >> 8
  {
    hide Closed, Update, Agree;
    UpdateIsClosed(u, b);
    UpdateIsClosed(v, d);
    Top0(Closed(u, b as bv16), (b >> 4) as bv16, Closed(v, d as bv16), (d >> 4) as bv16);
    Top1(u, b as bv16, v, d as bv16);
  }

  // The high half after a byte determines the byte.
  lemma HighFixesByte(r: bv16, a: bv8, c: bv8)
    requires Update(r, a) >> 8 == Update(r, c) >> 8
    ensures a == c
  {
    UpdateIsClosed(r, a);
    UpdateIsClosed(r, c);
    HighFixesClosed(r, a, c);
  }

  lemma HighFixesClosed(r: bv16, a: bv8, c: bv8)
    requires Closed(Closed(r, a as bv16), (a >> 4) as bv16) >> 8 == Closed(Closed(r, c as bv16), (c >> 4) as bv16) >> 8
    ensures a == c
  {
    HighFixesNibbles(r, a as bv16, (a >> 4) as bv16, c as bv16, (c >> 4) as bv16);
    SameByte(r, Closed(r, a as bv16), a, c);
  }

  lemma HighFixesNibbles(r: bv16, a0: bv16, a1: bv16, c0: bv16, c1: bv16)
    requires Closed(Closed(r, a0), a1) >> 8 == Closed(Closed(r, c0), c1) >> 8
    ensures Agree(r, a0, r, c0)
    ensures Agree(Closed(r, a0), a1, Closed(r, a0), c1)
  {
    Top2(Closed(r, a0), a1, Closed(r, c0), c1);
    Top3(r, a0, r, c0);
    SameStep(r, a0, c0);
  }

  // Two successive bytes fill the register: different pairs leave different registers.
  lemma TwoBytesInjective(r: bv16, a: bv8, b: bv8, c: bv8, d: bv8)
    requires Update(Update(r, a), b) == Update(Update(r, c), d)
    ensures a == c && b == d
  {
    UpdateKeepsHigh(Update(r, a), b, Update(r, c), d);
    HighFixesByte(r, a, c);
    HighFixesByte(Update(r, a), b, d);
  }

  // Messages of one length that agree outside two adjacent bytes and differ inside
  // them never share a check value.  One changed byte is the case b == d.
  lemma WindowDetected(reg: bv16, pre: seq<bv8>, a: bv8, b: bv8, c: bv8, d: bv8, post: seq<bv8>)
    requires a != c || b != d
    ensures Run(reg, pre + [a, b] + post) != Run(reg, pre + [c, d] + post)
  {
    RunAppend(reg, pre + [a, b], post);
    RunAppend(reg, pre + [c, d], post);
    RunPair(reg, pre, a, b);
    RunPair(reg, pre, c, d);
    if Run(reg, pre + [a, b] + post) == Run(reg, pre + [c, d] + post) {
      RunInjectiveReg(Run(reg, pre + [a, b]), Run(reg, pre + [c, d]), post);
      TwoBytesInjective(Run(reg, pre), a, b, c, d);
    }
  }

  lemma RunPair(reg: bv16, pre: seq<bv8>, a: bv8, b: bv8)
    ensures Run(reg, pre + [a, b]) == Update(Update(Run(reg, pre), a), b)
  {
    assert (pre + [a, b])[..|pre + [a, b]| - 1] == pre + [a];
    assert (pre + [a])[..|pre + [a]| - 1] == pre;
  }

  // ---------- bit order on the wire ----------

  // Bit i of the result is bit 7 - i of b.
  function BitRev8(b: bv8): bv8 {
    var x := (b >> 4) | (b << 4);
    var y := ((x & 0xcc) >> 2) | ((x & 0x33) << 2);
    ((y & 0xaa) >> 1) | ((y & 0x55) << 1)
  }

  function BitRev16(x: bv16): bv16 {
    ((BitRev8((x & 0xff) as bv8) as bv16) << 8) | (BitRev8((x >> 8) as bv8) as bv16)
  }

  // Bit 0 goes to bit 7, bit 1 to bit 6, and so on.
  function Mirror(b: bv8): bv8 {
    ((b & 0x01) << 7) | ((b & 0x02) << 5) | ((b & 0x04) << 3) | ((b & 0x08) << 1)
    | ((b & 0x10) >> 1) | ((b & 0x20) >> 3) | ((b & 0x40) >> 5) | ((b & 0x80) >> 7)
  }

  lemma ByteMirrored(b: bv8)
    ensures BitRev8(b) == Mirror(b)
  {}

  // Two check bytes, the high one first, are the mirror image of the serial register that
  // has run over the message from all ones.
  predicate Mirrors(message: seq<bv8>, hi: bv8, lo: bv8) {
    var reg := SerialRun(0xffff, message);
    hi == Mirror((reg & 0xff) as bv8) && lo == Mirror((reg >> 8) as bv8)
  }

  // That is what the driver compares and what it writes.
  lemma CheckMirrors(message: seq<bv8>, hi: bv8, lo: bv8)
    ensures BitRev16(Run(INIT, message)) == Value(hi, lo) <==> Mirrors(message, hi, lo)
    ensures var dic := Bytes(BitRev16(Run(INIT, message))); Mirrors(message, dic[0], dic[1])
  {
    hide BitRev16, Run, SerialRun, Bytes, Value, Mirror;
    RunIsSerial(INIT, message);
    var reg := Run(INIT, message);
    var dic := Bytes(BitRev16(reg));
    BytesValue(BitRev16(reg));
    MirrorIs(reg, hi, lo);
    MirrorIs(reg, dic[0], dic[1]);
  }

  lemma MirrorIs(reg: bv16, hi: bv8, lo: bv8)
    ensures BitRev16(reg) == Value(hi, lo) <==> hi == Mirror((reg & 0xff) as bv8) && lo == Mirror((reg >> 8) as bv8)
  {
    hide BitRev8, Mirror, Value, Pack;
    ByteMirrored((reg & 0xff) as bv8);
    ByteMirrored((reg >> 8) as bv8);
    ReversedIs(reg);
    ValueIs(hi, lo);
    PackOnce(BitRev8((reg & 0xff) as bv8), BitRev8((reg >> 8) as bv8), hi, lo);
  }

  function Pack(hi: bv8, lo: bv8): bv16 {
    ((hi as bv16) << 8) | (lo as bv16)
  }

  lemma ReversedIs(reg: bv16)
    ensures BitRev16(reg) == Pack(BitRev8((reg & 0xff) as bv8), BitRev8((reg >> 8) as bv8))
  {
    hide BitRev8;
  }

  lemma ValueIs(hi: bv8, lo: bv8)
    ensures Value(hi, lo) == Pack(hi, lo)
  {}

  lemma PackOnce(a: bv8, b: bv8, c: bv8, d: bv8)
    ensures Pack(a, b) == Pack(c, d) <==> a == c && b == d
  {
    Unpacked(a, b);
    Unpacked(c, d);
  }

  lemma Unpacked(hi: bv8, lo: bv8)
    ensures (Pack(hi, lo) >> 8) as bv8 == hi && (Pack(hi, lo) & 0xff) as bv8 == lo
  {}

  lemma BitRev16Injective(x: bv16, y: bv16)
    requires BitRev16(x) == BitRev16(y)
    ensures x == y
  {}

  // The check value travels high byte first.
  function Bytes(x: bv16): (s: seq<bv8>)
    ensures |s| == 2
  {
    [(x >> 8) as bv8, (x & 0xff) as bv8]
  }

  // The driver's reading of the last two buffer bytes.
  function Value(hi: bv8, lo: bv8): bv16 {
    (lo as bv16) + ((hi as bv16) << 8)
  }

  lemma BytesValue(x: bv16)
    ensures Value(Bytes(x)[0], Bytes(x)[1]) == x
  {}

  // Bytes that carry the reversed register of one message do not fit another message
  // that differs from it only within two adjacent bytes.
  lemma WrongMessageRejected(pre: seq<bv8>, a: bv8, b: bv8, c: bv8, d: bv8, post: seq<bv8>)
    requires a != c || b != d
    ensures var dic := Bytes(BitRev16(Run(INIT, pre + [a, b] + post)));
            BitRev16(Run(INIT, pre + [c, d] + post)) != Value(dic[0], dic[1])
  {
    var sent, got := Run(INIT, pre + [a, b] + post), Run(INIT, pre + [c, d] + post);
    BytesValue(BitRev16(sent));
    WindowDetected(INIT, pre, a, b, c, d, post);
    if BitRev16(got) == BitRev16(sent) {
      BitRev16Injective(got, sent);
    }
  }
}
