/** The bridge's hash table: sixteen chains of entries, each entry pointing to the next and
    back to whatever points to it (core/rtw_br_ext.c, include/rtw_br_ext.h).
 */
module Nat25 {
  import opened Clients

  const HASH_SIZE := 16
  const IPV4: bv8 := 1
  const IPV6: bv8 := 2
  const IPX: bv8 := 3
  const APPLE: bv8 := 4
  const PPPOE: bv8 := 5

  function XorOf(s: seq<bv8>): bv8 {
    if s == [] then 0 else XorOf(s[..|s| - 1]) ^ s[|s| - 1]
  }

  // The bytes of an address that decide its chain.
  function Hashed(a: Addr): seq<bv8> {
    if a[0] == IPV4 then a[7..11]
    else if a[0] == IPX then a[1..11]
    else if a[0] == APPLE then a[1..4]
    else if a[0] == PPPOE then a[0..9]
    else if a[0] == IPV6 then a[1..17]
    else a
  }

  function Hash(a: Addr): (h: nat)
    ensures h < HASH_SIZE
  {
    (XorOf(Hashed(a)) & 15) as nat
  }

  method NetworkHash(a: Addr) returns (h: nat)
    ensures h == Hash(a) < HASH_SIZE
  {
    var s, x: bv8 := Hashed(a), 0;
    for i := 0 to |s|
      invariant x == XorOf(s[..i])
    {
      assert s[..i + 1][..i] == s[..i];
      x := x ^ s[i];
    }
    assert s[..|s|] == s;
    h := (x & 15) as nat;
  }

  function Ipv4Addr(ip: seq<bv8>): Addr
    requires |ip| == 4
  {
    [IPV4, 0, 0, 0, 0, 0, 0] + ip + [0, 0, 0, 0, 0, 0]
  }

  // An IPv4 address is kept whole, and its four bytes decide its chain.
  lemma Ipv4Hash(ip: seq<bv8>)
    requires |ip| == 4
    ensures Ipv4Addr(ip)[7..11] == ip && Ipv4Addr(ip)[0] == 1
    ensures Hash(Ipv4Addr(ip)) == ((ip[0] ^ ip[1] ^ ip[2] ^ ip[3]) & 15) as nat
    ensures forall jp: seq<bv8> :: |jp| == 4 && Ipv4Addr(jp) == Ipv4Addr(ip) ==> jp == ip
  {
    var a := Ipv4Addr(ip);
    assert a[7..11] == ip;
    assert XorOf(ip[..0]) == 0 && ip[..4] == ip;
    forall k | 1 <= k <= 4 ensures XorOf(ip[..k]) == XorOf(ip[..k - 1]) ^ ip[k - 1] {
      assert ip[..k][..k - 1] == ip[..k - 1];
    }
    forall jp: seq<bv8> | |jp| == 4 && Ipv4Addr(jp) == a ensures jp == ip {
      assert Ipv4Addr(jp)[7..11] == jp;
    }
  }

  // What points to an entry: its chain's head, or the entry before it.
  datatype Back = NoLink | Head(i: nat) | NextOf(e: Entry)

  class Entry {
    var nextHash: Entry?
    var pprevHash: Back
    var useCount: int
    var mac: Mac
    var ageing: int
    const addr: Addr

    constructor (addr: Addr, mac: Mac, now: int)
      ensures this.addr == addr && this.mac == mac && ageing == now && useCount == 1
    {
      this.addr, this.mac, ageing, useCount := addr, mac, now, 1;
      nextHash, pprevHash := null, NoLink;
    }

    function Info(): Info
      requires useCount >= 0
      reads `mac, `ageing, `useCount
    {
      Clients.Info(mac, ageing, useCount)
    }
  }

  // ---------- one chain ----------

  ghost function After(c: seq<Entry>, k: nat): Entry? {
    if k < |c| then c[k] else null
  }

  ghost function Before(c: seq<Entry>, i: nat, k: nat): Back
    requires k <= |c|
  {
    if k == 0 then Head(i) else NextOf(c[k - 1])
  }

  ghost predicate Linked(c: seq<Entry>, head: Entry?, i: nat)
    reads c`nextHash, c`pprevHash
  {
    && head == After(c, 0)
    && forall k :: 0 <= k < |c| ==> c[k].nextHash == After(c, k + 1) && c[k].pprevHash == Before(c, i, k)
  }

  ghost predicate Distinct(c: seq<Entry>) {
    forall j, k :: 0 <= j < k < |c| ==> c[j] != c[k]
  }

  method Link(nethash: array<Entry?>, ghost c: seq<Entry>, i: nat, e: Entry)
    requires i < nethash.Length && Linked(c, nethash[i], i) && Distinct(c) && e !in c
    modifies nethash, c`pprevHash, e`nextHash, e`pprevHash
    ensures Linked([e] + c, nethash[i], i) && Distinct([e] + c)
    ensures forall j :: 0 <= j < nethash.Length && j != i ==> nethash[j] == old(nethash[j])
  {
    e.nextHash := nethash[i];
    if e.nextHash != null {
      e.nextHash.pprevHash := NextOf(e);
    }
    nethash[i] := e;
    e.pprevHash := Head(i);
  }

  method Unlink(nethash: array<Entry?>, ghost c: seq<Entry>, ghost i: nat, ghost k: nat, e: Entry)
    requires i < nethash.Length && Linked(c, nethash[i], i) && Distinct(c) && k < |c| && e == c[k]
    modifies nethash, c`nextHash, c`pprevHash
    ensures Linked(Without(c, k), nethash[i], i)
    ensures forall j :: 0 <= j < nethash.Length && j != i ==> nethash[j] == old(nethash[j])
    ensures e.nextHash == null && e.pprevHash == NoLink
  {
    hide Without, Linked;
    Bypass(nethash, c, i, k, e);
    Rejoined(c, nethash[i], i, k);
  }

  lemma LinksAt(c: seq<Entry>, head: Entry?, i: nat, k: nat)
    requires Linked(c, head, i) && k < |c|
    ensures head == After(c, 0)
    ensures forall j :: 0 <= j < |c| ==> c[j].nextHash == After(c, j + 1) && c[j].pprevHash == Before(c, i, j)
    ensures c[k].pprevHash == if k == 0 then Head(i) else NextOf(c[k - 1])
    ensures After(c, k + 1) == if k + 1 < |c| then c[k + 1] else null
  {}

  method Bypass(nethash: array<Entry?>, ghost c: seq<Entry>, ghost i: nat, ghost k: nat, e: Entry)
    requires i < nethash.Length && Linked(c, nethash[i], i) && Distinct(c) && k < |c| && e == c[k]
    modifies nethash, c`nextHash, c`pprevHash
    ensures nethash[i] == After(c, if k == 0 then 1 else 0)
    ensures forall j :: 0 <= j < |c| && j != k ==>
              && c[j].nextHash == After(c, if j + 1 == k then k + 1 else j + 1)
              && c[j].pprevHash == Before(c, i, if j == k + 1 then k else j)
    ensures forall j :: 0 <= j < nethash.Length && j != i ==> nethash[j] == old(nethash[j])
    ensures e.nextHash == null && e.pprevHash == NoLink
  {
    hide After, Before, Linked;
    LinksAt(c, nethash[i], i, k);
    match e.pprevHash {
      case Head(h) => nethash[h] := e.nextHash;
      case NextOf(p) => p.nextHash := e.nextHash;
    }
    if e.nextHash != null {
      e.nextHash.pprevHash := e.pprevHash;
    }
    e.nextHash, e.pprevHash := null, NoLink;
  }

  function Without<T>(c: seq<T>, k: nat): seq<T>
    requires k < |c|
  {
    c[..k] + c[k + 1..]
  }

  lemma WithoutAt(c: seq<Entry>, k: nat, i: nat, j: nat)
    requires k < |c| && j < |c|
    ensures After(Without(c, k), j) == After(c, if j < k then j else j + 1)
    ensures Before(Without(c, k), i, j) == Before(c, i, if j <= k then j else j + 1)
    ensures |Without(c, k)| == |c| - 1
    ensures j < |Without(c, k)| ==> Without(c, k)[j] == c[if j < k then j else j + 1]
  {}

  lemma Rejoined(c: seq<Entry>, head: Entry?, i: nat, k: nat)
    requires k < |c| && head == After(c, if k == 0 then 1 else 0)
    requires forall j :: 0 <= j < |c| && j != k ==>
               && c[j].nextHash == After(c, if j + 1 == k then k + 1 else j + 1)
               && c[j].pprevHash == Before(c, i, if j == k + 1 then k else j)
    ensures Linked(Without(c, k), head, i)
  {
    hide After, Before, Without;
    var d := Without(c, k);
    WithoutAt(c, k, i, 0);
    forall j | 0 <= j < |d|
      ensures d[j].nextHash == After(d, j + 1) && d[j].pprevHash == Before(d, i, j)
    {
      WithoutAt(c, k, i, j);
      if j + 1 < |c| {
        WithoutAt(c, k, i, j + 1);
      }
      assert d[j] == c[if j < k then j else j + 1];
    }
  }

  // ---------- the table ----------

  ghost predicate Keyed(node: map<Addr, Entry>) {
    forall a :: a in node ==> node[a].addr == a
  }

  // Every entry is in the chain its address hashes to, once, and under no other address.
  ghost predicate Shape(chains: seq<seq<Entry>>, node: map<Addr, Entry>) {
    && |chains| == HASH_SIZE
    && (forall i :: 0 <= i < |chains| ==> Distinct(chains[i]))
    && (forall i, e :: 0 <= i < |chains| && e in chains[i] ==> Hash(e.addr) == i && e.addr in node && node[e.addr] == e)
    && (forall a :: a in node ==> node[a] in chains[Hash(a)])
  }

  lemma InTable(chains: seq<seq<Entry>>, node: map<Addr, Entry>)
    requires Shape(chains, node)
    ensures forall i, e :: 0 <= i < |chains| && e in chains[i] ==> e in node.Values
  {
    hide Hash;
    forall i, e | 0 <= i < |chains| && e in chains[i] ensures e in node.Values {
      assert node[e.addr] == e;
    }
  }

  lemma Apart(chains: seq<seq<Entry>>, node: map<Addr, Entry>, i: nat, h: nat)
    requires Shape(chains, node) && i < |chains| && h < |chains| && i != h
    ensures forall e :: e in chains[i] ==> e !in chains[h]
  {
    hide Hash;
    forall e | e in chains[i] ensures e !in chains[h] {
      assert Hash(e.addr) == i;
    }
  }

  lemma ChainHolds(chains: seq<seq<Entry>>, node: map<Addr, Entry>, a: Addr, e: Entry?)
    requires Keyed(node) && Shape(chains, node)
    requires if e == null then forall j :: 0 <= j < |chains[Hash(a)]| ==> chains[Hash(a)][j].addr != a
             else e in chains[Hash(a)] && e.addr == a
    ensures e == if a in node then node[a] else null
  {
    hide Hash, Distinct;
  }

  // Walks one chain.
  method Search(head: Entry?, ghost c: seq<Entry>, ghost i: nat, a: Addr) returns (e: Entry?)
    requires Linked(c, head, i)
    ensures if e == null then forall j :: 0 <= j < |c| ==> c[j].addr != a else e in c && e.addr == a
  {
    hide Before;
    ghost var k := 0;
    e := head;
    while e != null
      invariant k <= |c| && e == After(c, k) && forall j :: 0 <= j < k ==> c[j].addr != a
      decreases |c| - k
    {
      if e.addr == a {
        return;
      }
      e, k := e.nextHash, k + 1;
    }
  }

  lemma ShapeAdd(chains: seq<seq<Entry>>, node: map<Addr, Entry>, e: Entry)
    requires Shape(chains, node) && e.addr !in node
    ensures var h := Hash(e.addr);
            Shape(chains[h := [e] + chains[h]], node[e.addr := e]) && Distinct([e] + chains[h]) && e !in chains[h]
  {
    hide Hash;
    var h := Hash(e.addr);
    var c := [e] + chains[h];
    assert forall k :: 1 <= k < |c| ==> c[k] in chains[h];
    forall x | x in c ensures x == e || x in chains[h] {}
  }

  lemma ShapeDrop(chains: seq<seq<Entry>>, node: map<Addr, Entry>, i: nat, k: nat)
    requires Keyed(node) && Shape(chains, node) && i < |chains| && k < |chains[i]|
    ensures var e := chains[i][k];
            && e.addr in node && node[e.addr] == e
            && Shape(chains[i := Without(chains[i], k)], node - {e.addr})
  {
    hide Hash;
    var c, d, e := chains[i], Without(chains[i], k), chains[i][k];
    assert e in c;
    forall j | 0 <= j < |d| ensures d[j] == c[if j < k then j else j + 1] && d[j] in c && d[j] != e {}
    forall a | a in node && a != e.addr && Hash(a) == i ensures node[a] in d {
      var j :| 0 <= j < |c| && c[j] == node[a];
      assert d[if j < k then j else j - 1] == node[a];
    }
  }

  lemma CutAt(c: seq<Entry>, k: nat, done: set<Addr>)
    requires k < |c| && forall j :: 0 <= j < |c| ==> (c[j].addr in done <==> j < k + 1)
    ensures forall j :: 0 <= j < |Without(c, k)| ==> (Without(c, k)[j].addr in done <==> j < k)
  {}

  // A socket buffer, whose data begins with the destination MAC.
  class Packet {
    var data: seq<bv8>
  }

  class Bridge {
    const nethash: array<Entry?>
    const hz: nat
    var scdbEntry: Entry?
    var scdbMac: Mac
    var scdbIp: seq<bv8>
    ghost var chains: seq<seq<Entry>>
    ghost var node: map<Addr, Entry>

    // NAT25_AGEING_TIME * HZ
    function Life(): nat { 300 * hz }

    ghost predicate Linkage()
      reads `chains, `node, nethash, node.Values`nextHash, node.Values`pprevHash
    {
      && nethash.Length == HASH_SIZE == |chains| && Keyed(node) && Shape(chains, node)
      && (InTable(chains, node); forall i :: 0 <= i < HASH_SIZE ==> Linked(chains[i], nethash[i], i))
    }

    ghost predicate Counted()
      reads `node, node.Values`useCount
    {
      forall a :: a in node ==> node[a].useCount >= 1
    }

    // The remembered source is an entry of the table, for the address remembered with it.
    ghost predicate ScdbInside()
      reads `node, `scdbEntry, `scdbIp
    {
      |scdbIp| == 4 &&
      (scdbEntry != null ==>
         && scdbEntry.addr == Ipv4Addr(scdbIp)
         && scdbEntry.addr in node && node[scdbEntry.addr] == scdbEntry)
    }

    ghost predicate Valid()
      reads this, nethash, node.Values
    {
      Linkage() && Counted() && ScdbInside()
    }

    ghost function View(): (m: map<Addr, Info>)
      requires Counted()
      reads `node, node.Values`mac, node.Values`ageing, node.Values`useCount
      ensures Positive(m) && m.Keys == node.Keys
    {
      map a | a in node :: node[a].Info()
    }

    constructor (hz: nat)
      ensures Valid() && View() == map[] && scdbEntry == null && fresh(nethash) && this.hz == hz
    {
      this.hz := hz;
      nethash := new Entry?[HASH_SIZE](_ => null);
      scdbEntry, scdbMac, scdbIp := null, [0, 0, 0, 0, 0, 0], [0, 0, 0, 0];
      chains, node := seq(HASH_SIZE, _ => []), map[];
    }

    // Also scdb_findEntry, for an IPv4 address.
    method Find(a: Addr) returns (e: Entry?)
      requires Linkage()
      ensures e == if a in node then node[a] else null
    {
      hide Hash, Shape, Linked;
      var h := NetworkHash(a);
      e := Search(nethash[h], chains[h], h, a);
      ChainHolds(chains, node, a, e);
    }

    method Use(e: Entry)
      requires Valid() && e.addr in node && node[e.addr] == e
      modifies e`useCount
      ensures Valid() && e.useCount == old(e.useCount) + 1
      ensures View() == old(View())[e.addr := old(View())[e.addr].(uses := old(View())[e.addr].uses + 1)]
    {
      hide Hash, Shape, Linked;
      e.useCount := e.useCount + 1;
    }

    method LookupAndReplace(a: Addr, now: int, skb: Packet) returns (found: bool)
      requires Valid() && |skb.data| >= 6
      modifies node.Values`useCount, skb`data
      ensures Valid() && found == (a in old(View()))
      ensures View() == Apply(old(View()), Lookup(a, now), Life())
      ensures skb.data == if found && !Old(old(View())[a].age, now, Life()) then old(View())[a].mac + old(skb.data[6..])
                          else old(skb.data)
    {
      hide Hash, Shape, Linked, Linkage, ScdbInside, Counted, Ipv4Addr;
      var e := FindValid(a);
      if e != null {
        if e.ageing > now - Life() {
          skb.data := e.mac + skb.data[6..];
          Use(e);
        }
        return true;
      }
      return false;
    }

    // The mac of a client and its network address; `room` is whether memory was left.
    method Insert(mac: Mac, a: Addr, now: int, room: bool)
      requires Valid()
      modifies `chains, `node, nethash, node.Values
      ensures Valid() && fresh(node.Values - old(node.Values))
      ensures View() == if room || a in old(View()) then Apply(old(View()), Clients.Insert(a, mac, now), Life())
                        else old(View())
      ensures room || a in old(View()) ==> a in View() && View()[a].mac == mac && View()[a].age == now
    {
      hide Hash, Shape, Linked, Linkage;
      var e := FindValid(a);
      if e != null {
        Refresh(e, mac, now);
        return;
      }
      if room {
        Create(a, mac, now);
      }
    }

    method Create(a: Addr, mac: Mac, now: int)
      requires Valid() && a !in node
      modifies `chains, `node, nethash, node.Values`nextHash, node.Values`pprevHash
      ensures Valid() && fresh(node.Values - old(node.Values))
      ensures View() == old(View())[a := Info(mac, now, 1)]
    {
      hide Hash, Shape, Linked, Keyed, Linkage, Ipv4Addr, View;
      ghost var m, n := View(), node;
      ViewAt(m);
      var e := new Entry(a, mac, now);
      Enter(e);
      assert forall x :: x in n ==> n[x].useCount >= 1 && m[x] == n[x].Info();
      assert e.Info() == Info(mac, now, 1);
      ViewAdd(m, n, e);
    }

    lemma ViewAt(m: map<Addr, Info>)
      requires Counted() && m == View()
      ensures m.Keys == node.Keys && forall x :: x in node ==> m[x] == node[x].Info()
    {}

    lemma ViewAdd(m: map<Addr, Info>, n: map<Addr, Entry>, e: Entry)
      requires e.addr !in n && node == n[e.addr := e] && m.Keys == n.Keys && e.useCount >= 1
      requires forall x :: x in n ==> n[x].useCount >= 1 && m[x] == n[x].Info()
      ensures Counted() && View() == m[e.addr := e.Info()]
    {}

    method Refresh(e: Entry, mac: Mac, now: int)
      requires Valid() && e.addr in node && node[e.addr] == e
      modifies e`mac, e`ageing
      ensures Valid()
      ensures View() == old(View())[e.addr := Info(mac, now, old(View())[e.addr].uses)]
    {
      hide Hash, Shape, Linked;
      e.mac := mac;
      e.ageing := now;
    }

    method Enter(e: Entry)
      requires Linkage() && e.addr !in node && e !in node.Values
      modifies `chains, `node, nethash, node.Values`pprevHash, e`nextHash, e`pprevHash
      ensures Linkage() && node == old(node)[e.addr := e]
    {
      hide Hash, After, Before;
      var h := NetworkHash(e.addr);
      InTable(chains, node);
      ShapeAdd(chains, node, e);
      ghost var c0 := chains;
      Link(nethash, chains[h], h, e);
      forall i | 0 <= i < HASH_SIZE && i != h ensures Linked(c0[i], nethash[i], i) {
        Apart(c0, old(node), i, h);
        InTable(c0, old(node));
        assert old(Linked(chains[i], nethash[i], i));
        assert forall x: Entry :: x in c0[i] ==> x !in c0[h] && x != e;
        assert nethash[i] == old(nethash[i]);
        assert forall x: Entry :: x in c0[i] ==> x.nextHash == old(x.nextHash);
        assert forall x: Entry :: x in c0[i] ==> x.pprevHash == old(x.pprevHash);
        assert forall k :: 0 <= k < |c0[i]| ==> c0[i][k] in c0[i];
      }
      chains, node := chains[h := [e] + chains[h]], node[e.addr := e];
    }

    // Takes the entry at position k of chain i out of the table.
    method Remove(e: Entry, ghost i: nat, ghost k: nat)
      requires Linkage() && i < HASH_SIZE && k < |chains[i]| && e == chains[i][k]
      modifies `chains, `node, nethash, node.Values`nextHash, node.Values`pprevHash
      ensures Linkage() && e.addr in old(node) && old(node)[e.addr] == e && node == old(node) - {e.addr}
      ensures chains == old(chains)[i := Without(old(chains)[i], k)]
    {
      hide Hash, After, Before, Without;
      InTable(chains, node);
      ShapeDrop(chains, node, i, k);
      ghost var c0 := chains;
      Unlink(nethash, chains[i], i, k, e);
      forall j | 0 <= j < HASH_SIZE && j != i ensures Linked(c0[j], nethash[j], j) {
        Apart(c0, old(node), j, i);
        assert old(Linked(chains[j], nethash[j], j));
        assert nethash[j] == old(nethash[j]);
        assert forall x: Entry :: x in c0[j] ==> x.nextHash == old(x.nextHash);
        assert forall x: Entry :: x in c0[j] ==> x.pprevHash == old(x.pprevHash);
        assert forall k :: 0 <= k < |c0[j]| ==> c0[j][k] in c0[j];
      }
      chains, node := chains[i := Without(chains[i], k)], node - {e.addr};
    }

    // An entry leaves, and is forgotten as the remembered source.
    method Forget(e: Entry, ghost i: nat, ghost k: nat)
      requires Linkage() && ScdbInside() && i < HASH_SIZE && k < |chains[i]| && e == chains[i][k]
      modifies `scdbEntry, `scdbMac, `scdbIp
      modifies `chains, `node, nethash, node.Values`nextHash, node.Values`pprevHash
      ensures Linkage() && ScdbInside() && e.addr in old(node) && node == old(node) - {e.addr}
      ensures chains == old(chains)[i := Without(old(chains)[i], k)]
      ensures scdbEntry == if old(scdbEntry) == e then null else old(scdbEntry)
      ensures old(scdbEntry) == e ==> scdbMac == [0, 0, 0, 0, 0, 0] && scdbIp == [0, 0, 0, 0]
    {
      hide Hash, Shape, Linked, Without;
      if scdbEntry == e {
        scdbMac, scdbIp, scdbEntry := [0, 0, 0, 0, 0, 0], [0, 0, 0, 0], null;
      }
      Remove(e, i, k);
    }

    // One entry of an expiry pass: an old one loses a use, and goes with its last.
    method ExpireEntry(f: Entry, ghost i: nat, ghost k: nat, now: int) returns (gone: bool)
      requires Valid() && i < HASH_SIZE && k < |chains[i]| && f == chains[i][k]
      requires f.addr in node && node[f.addr] == f
      modifies `scdbEntry, `scdbMac, `scdbIp, `chains, `node, nethash
      modifies node.Values`nextHash, node.Values`pprevHash, node.Values`useCount
      ensures Valid() && gone == Goes(old(View())[f.addr], now, Life())
      ensures View() == if gone then old(View()) - {f.addr}
                        else old(View())[f.addr := Aged(old(View())[f.addr], now, Life())]
      ensures node == if gone then old(node) - {f.addr} else old(node)
      ensures chains == if gone then old(chains)[i := Without(old(chains)[i], k)] else old(chains)
      ensures scdbEntry == if gone && old(scdbEntry) == f then null else old(scdbEntry)
      ensures !gone ==> f.nextHash == old(f.nextHash)
    {
      hide Hash, Shape, Linked, Without;
      gone := false;
      if f.ageing <= now - Life() {
        f.useCount := f.useCount - 1;
        if f.useCount == 0 {
          gone := true;
          Forget(f, i, k);
        }
      }
    }

    lemma ChainAt(i: nat)
      requires Linkage() && i < HASH_SIZE
      ensures nethash.Length == HASH_SIZE == |chains|
      ensures nethash[i] == After(chains[i], 0) && forall j :: 0 <= j < |chains[i]| ==> Hash(chains[i][j].addr) == i
    {
      hide Hash;
    }

    lemma EntryAt(i: nat, k: nat)
      requires Linkage() && i < HASH_SIZE && k < |chains[i]|
      ensures var e := chains[i][k];
              && e.nextHash == After(chains[i], k + 1) && e.addr in node && node[e.addr] == e && Hash(e.addr) == i
              && forall j :: 0 <= j < |chains[i]| && j != k ==> chains[i][j].addr != e.addr
    {
      hide Hash, After, Before;
      var c := chains[i];
      assert c[k] in c;
      forall j | 0 <= j < |c| && j != k ensures c[j].addr != c[k].addr {
        assert c[j] in c && c[j] != c[k];
        assert node[c[j].addr] == c[j];
      }
    }

    lemma ChainDone(i: nat, done: set<Addr>)
      requires Linkage() && i < HASH_SIZE && forall j :: 0 <= j < |chains[i]| ==> chains[i][j].addr in done
      ensures forall a :: a in node && Hash(a) == i ==> a in done
    {
      hide Hash, After, Before, Linked;
      forall a | a in node && Hash(a) == i ensures a in done {
        assert node[a] in chains[i] && node[a].addr == a;
      }
    }

    // The remembered source is still what it was, or forgotten because it left the table.
    ghost predicate ScdbSince(before: Entry?)
      reads `scdbEntry, `node
    {
      scdbEntry == before || (scdbEntry == null && before.addr !in node)
    }

    // A pass with k entries of chain i behind it, and all it has reached so far in `done`.
    ghost predicate Reached(i: nat, k: nat, m: map<Addr, Info>, done: set<Addr>, now: int)
      reads this, nethash, node.Values
    {
      && Valid() && i < HASH_SIZE == |chains| && k <= |chains[i]| && View() == ExpireSome(m, done, now, Life())
      && forall j :: 0 <= j < |chains[i]| ==> (chains[i][j].addr in done <==> j < k)
    }

    method ExpireStep(f: Entry, ghost i: nat, ghost k: nat, now: int, ghost m: map<Addr, Info>, ghost done: set<Addr>)
        returns (g: Entry?, ghost k': nat)
      requires Reached(i, k, m, done, now) && k < |chains[i]| && f == chains[i][k]
      modifies `scdbEntry, `scdbMac, `scdbIp, `chains, `node, nethash
      modifies node.Values`nextHash, node.Values`pprevHash, node.Values`useCount
      ensures Reached(i, k', m, done + {f.addr}, now) && g == After(chains[i], k') && Hash(f.addr) == i
      ensures |chains[i]| - k' < old(|chains[i]|) - k && node.Values <= old(node.Values)
      ensures node.Keys <= old(node.Keys) && ScdbSince(old(scdbEntry))
    {
      hide Hash, Shape, Linked, Without, Goes, Aged, ExpireSome, After, Linkage;
      g := f.nextHash;
      ghost var c := chains[i];
      EntryAt(i, k);
      ReachesOneMore(m, done, f.addr, now, Life());
      var gone := ExpireEntry(f, i, k, now);
      assert forall j :: 0 <= j < |c| ==> (c[j].addr in done + {f.addr} <==> j < k + 1);
      if gone {
        WithoutAt(c, k, i, k);
        CutAt(c, k, done + {f.addr});
        k' := k;
      } else {
        k' := k + 1;
      }
    }

    method ExpireChain(i: nat, now: int, ghost m: map<Addr, Info>, ghost done0: set<Addr>)
        returns (ghost done: set<Addr>)
      requires Valid() && i < HASH_SIZE && View() == ExpireSome(m, done0, now, Life())
      requires forall a :: a in done0 ==> Hash(a) < i
      modifies `scdbEntry, `scdbMac, `scdbIp, `chains, `node, nethash
      modifies node.Values`nextHash, node.Values`pprevHash, node.Values`useCount
      ensures Valid() && View() == ExpireSome(m, done, now, Life()) && node.Values <= old(node.Values)
      ensures node.Keys <= old(node.Keys) && ScdbSince(old(scdbEntry))
      ensures forall a :: a in done ==> Hash(a) <= i
      ensures forall a :: a in m && (a in done0 || Hash(a) == i) ==> a in done
    {
      hide Hash, Shape, Linked, Goes, Aged, Linkage;
      done := done0;
      ghost var k := 0;
      ChainAt(i);
      var f := nethash[i];
      while f != null
        invariant Reached(i, k, m, done, now) && f == After(chains[i], k) && node.Values <= old(node.Values)
        invariant node.Keys <= old(node.Keys) && ScdbSince(old(scdbEntry))
        invariant done0 <= done && forall a :: a in done ==> Hash(a) <= i
        decreases |chains[i]| - k
      {
        ghost var x := f.addr;
        f, k := ExpireStep(f, i, k, now, m, done);
        done := done + {x};
      }
      ChainDone(i, done);
    }

    method Expire(now: int)
      requires Valid()
      modifies `scdbEntry, `scdbMac, `scdbIp, `chains, `node, nethash
      modifies node.Values`nextHash, node.Values`pprevHash, node.Values`useCount
      ensures Valid() && View() == Apply(old(View()), Clients.Expire(now), Life())
      ensures PassedOver(old(View()), View(), now, 300 * hz)
      ensures node.Values <= old(node.Values) && ScdbSince(old(scdbEntry))
    {
      hide Hash, Shape, Linked, Goes, Aged, Linkage, ExpireSome, ScdbInside, PassedOver;
      ghost var m, done := View(), {};
      ReachesNone(m, now, Life());
      for i := 0 to HASH_SIZE
        invariant Valid() && View() == ExpireSome(m, done, now, Life())
        invariant node.Values <= old(node.Values) && node.Keys <= old(node.Keys) && ScdbSince(old(scdbEntry))
        invariant forall a :: a in done ==> Hash(a) < i
        invariant forall a :: a in m && Hash(a) < i ==> a in done
      {
        done := ExpireChain(i, now, m, done);
      }
      ReachesAll(m, done, now, Life());
      PassLeaves(m, now, Life());
    }

    method CleanupChain(i: nat)
      requires Valid() && i < HASH_SIZE && forall a :: a in node ==> Hash(a) >= i
      modifies `scdbEntry, `scdbMac, `scdbIp, `chains, `node, nethash
      modifies node.Values`nextHash, node.Values`pprevHash
      ensures Valid() && node.Values <= old(node.Values)
      ensures forall a :: a in node ==> Hash(a) > i
    {
      hide Hash, Shape, Linked, Linkage;
      ChainAt(i);
      var f := nethash[i];
      while f != null
        invariant Valid() && |chains| == HASH_SIZE && f == After(chains[i], 0) && node.Values <= old(node.Values)
        invariant forall a :: a in node ==> Hash(a) >= i
        decreases |chains[i]|
      {
        EntryAt(i, 0);
        var g := f.nextHash;
        WithoutAt(chains[i], 0, i, 0);
        Forget(f, i, 0);
        f := g;
      }
      ChainDone(i, {});
    }

    method Cleanup()
      requires Valid()
      modifies `scdbEntry, `scdbMac, `scdbIp, `chains, `node, nethash
      modifies node.Values`nextHash, node.Values`pprevHash
      ensures Valid() && View() == map[] && scdbEntry == null
    {
      hide Hash, Shape, Linked, Linkage;
      for i := 0 to HASH_SIZE
        invariant Valid() && node.Values <= old(node.Values)
        invariant forall a :: a in node ==> Hash(a) >= i
      {
        CleanupChain(i);
      }
    }

    // An IP packet from the bridge: its source is remembered while the table knows it, and
    // kept fresh; `nat` is whether the packet still has to be rewritten.
    method Transmit(sa: Mac, sip: seq<bv8>, now: int) returns (doNat25: bool)
      requires Valid() && |sip| == 4
      modifies `scdbEntry, `scdbMac, `scdbIp, node.Values`ageing
      ensures Valid() && doNat25 == (scdbEntry == null)
      ensures old(scdbMac) != sa ==>
                && View() == Apply(old(View()), Touch(Ipv4Addr(sip), now), Life())
                && (scdbEntry != null <==> Ipv4Addr(sip) in View())
                && (scdbEntry != null ==> scdbMac == sa && scdbIp == sip)
      ensures old(scdbMac) == sa ==>
                && scdbEntry == old(scdbEntry)
                && View() == if scdbEntry == null then old(View())
                             else Apply(old(View()), Touch(Ipv4Addr(old(scdbIp)), now), Life())
    {
      hide Hash, Shape, Linked, Linkage, Ipv4Addr, Apply;
      if scdbMac != sa {
        Remember(sa, sip, now);
      } else if scdbEntry != null {
        TouchScdb(now);
      } else {
        scdbMac, scdbIp := [0, 0, 0, 0, 0, 0], [0, 0, 0, 0];
      }
      doNat25 := scdbEntry == null;
    }

    method Remember(sa: Mac, sip: seq<bv8>, now: int)
      requires Valid() && |sip| == 4
      modifies `scdbEntry, `scdbMac, `scdbIp, node.Values`ageing
      ensures Valid() && View() == Apply(old(View()), Touch(Ipv4Addr(sip), now), Life())
      ensures scdbEntry != null <==> Ipv4Addr(sip) in View()
      ensures scdbEntry != null ==> scdbMac == sa && scdbIp == sip
    {
      hide Hash, Shape, Linked, Linkage, Ipv4Addr;
      var e := FindValid(Ipv4Addr(sip));
      Adopt(e, sa, sip);
      if scdbEntry != null {
        TouchScdb(now);
      }
    }

    method FindValid(a: Addr) returns (e: Entry?)
      requires Valid()
      ensures e == null <==> a !in View()
      ensures e != null ==> e.addr == a && a in node && node[a] == e
    {
      hide Hash, Shape, Linked;
      e := Find(a);
    }

    method Adopt(e: Entry?, sa: Mac, sip: seq<bv8>)
      requires Valid() && |sip| == 4
      requires e != null ==> e.addr == Ipv4Addr(sip) && e.addr in node && node[e.addr] == e
      modifies `scdbEntry, `scdbMac, `scdbIp
      ensures Valid() && scdbEntry == e && (e != null ==> scdbMac == sa && scdbIp == sip)
    {
      hide Hash, Shape, Linked, Linkage, Ipv4Addr;
      scdbEntry := e;
      if e != null {
        scdbMac, scdbIp := sa, sip;
      }
    }

    method TouchScdb(now: int)
      requires Valid() && scdbEntry != null
      modifies scdbEntry`ageing
      ensures Valid() && View() == Apply(old(View()), Touch(scdbEntry.addr, now), Life())
    {
      hide Hash, Shape, Linked;
      scdbEntry.ageing := now;
    }
  }
}
