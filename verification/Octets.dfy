/** Bytes as numbers, for the buffers whose fields are counted and copied rather than
    taken apart bit by bit.
 */
module Octets {
  type u8 = x: int | 0 <= x < 0x100

  // A 16-bit field in network order.
  function Net(b0: u8, b1: u8): (w: nat)
    ensures w < 0x1_0000
  {
    0x100 * b0 + b1
  }

  function Hi(w: nat): u8
    requires w < 0x1_0000
  {
    w / 0x100
  }

  function Lo(w: nat): u8 { w % 0x100 }

  lemma OfNet(b0: u8, b1: u8)
    ensures Hi(Net(b0, b1)) == b0 && Lo(Net(b0, b1)) == b1
  {}

  lemma ToNet(w: nat)
    requires w < 0x1_0000
    ensures Net(Hi(w), Lo(w)) == w
  {}

  // A 16-bit field as the host reads it.
  function Host(bigEndian: bool, b0: u8, b1: u8): (w: nat)
    ensures w < 0x1_0000
  {
    if bigEndian then Net(b0, b1) else Net(b1, b0)
  }

  lemma ByteRoundTrip(n: nat)
    requires n < 0x100
    ensures n as bv8 as nat == n
  {
    assert n % 0x100 == n;
  }

  method Write(buf: array<u8>, at: nat, bytes: seq<u8>)
    requires at + |bytes| <= buf.Length
    modifies buf
    ensures buf[..] == old(buf[..at]) + bytes + old(buf[at + |bytes|..])
  {
    forall i | 0 <= i < |bytes| {
      buf[at + i] := bytes[i];
    }
  }
}
