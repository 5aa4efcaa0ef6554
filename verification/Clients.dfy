/** What the bridge remembers: which client answers for a network address, how fresh that
    is, and how much use has been made of it (core/rtw_br_ext.c).
 */
module Clients {
  type Addr = a: seq<bv8> | |a| == 17 witness [0, 0, 0, 0, 0, 0, 0, 0, 0, 0, 0, 0, 0, 0, 0, 0, 0]

  type Mac = m: seq<bv8> | |m| == 6 witness [0, 0, 0, 0, 0, 0]

  datatype Info = Info(mac: Mac, age: int, uses: nat)

  // Not refreshed for a whole ageing time.
  predicate Old(age: int, now: int, life: nat) {
    age <= now - life
  }

  function Aged(i: Info, now: int, life: nat): (r: Info) {
    if Old(i.age, now, life) && i.uses > 0 then i.(uses := i.uses - 1) else i
  }

  predicate Goes(i: Info, now: int, life: nat) {
    Old(i.age, now, life) && i.uses == 1
  }

  // An expiry pass that has reached some of the addresses.
  function ExpireSome(m: map<Addr, Info>, done: set<Addr>, now: int, life: nat): (r: map<Addr, Info>)
    ensures r.Keys <= m.Keys
  {
    map a | a in m && !(a in done && Goes(m[a], now, life)) :: if a in done then Aged(m[a], now, life) else m[a]
  }

  function Expired(m: map<Addr, Info>, now: int, life: nat): map<Addr, Info> {
    ExpireSome(m, m.Keys, now, life)
  }

  lemma ReachesOneMore(m: map<Addr, Info>, done: set<Addr>, a: Addr, now: int, life: nat)
    requires a in m && a !in done
    ensures var r := ExpireSome(m, done, now, life);
            && a in r && r[a] == m[a]
            && ExpireSome(m, done + {a}, now, life)
               == if Goes(m[a], now, life) then r - {a} else r[a := Aged(m[a], now, life)]
  {
    hide Goes, Aged;
  }

  lemma ReachesNone(m: map<Addr, Info>, now: int, life: nat)
    ensures ExpireSome(m, {}, now, life) == m
  {
    hide Goes, Aged;
  }

  lemma ReachesAll(m: map<Addr, Info>, done: set<Addr>, now: int, life: nat)
    requires m.Keys <= done
    ensures ExpireSome(m, done, now, life) == Expired(m, now, life)
  {
    hide Goes, Aged;
  }

  // What a pass leaves of an entry: all of it for `life` after its refresh, then one use less
  // each time until the last.
  predicate PassedOver(m: map<Addr, Info>, r: map<Addr, Info>, now: int, life: nat) {
    && r.Keys <= m.Keys
    && forall a :: a in m ==>
         if now - m[a].age < life then a in r && r[a] == m[a]
         else (a in r <==> m[a].uses != 1)
              && (a in r && m[a].uses > 0 ==> r[a] == Info(m[a].mac, m[a].age, m[a].uses - 1))
  }

  lemma PassLeaves(m: map<Addr, Info>, now: int, life: nat)
    ensures PassedOver(m, Expired(m, now, life), now, life)
  {}

  // ---------- runs ----------

  datatype Op =
    | Insert(addr: Addr, mac: Mac, now: int)
    | Lookup(addr: Addr, now: int)
    | Touch(addr: Addr, now: int)
    | Expire(now: int)
    | Cleanup

  // Inserting an address again refreshes it but leaves its uses; looking it up adds a use
  // while it is fresh, and refreshes nothing.
  function Apply(m: map<Addr, Info>, op: Op, life: nat): map<Addr, Info> {
    match op
    case Insert(a, mac, now) => m[a := Info(mac, now, if a in m then m[a].uses else 1)]
    case Lookup(a, now) =>
      if a in m && !Old(m[a].age, now, life) then m[a := m[a].(uses := m[a].uses + 1)] else m
    case Touch(a, now) => if a in m then m[a := m[a].(age := now)] else m
    case Expire(now) => Expired(m, now, life)
    case Cleanup => map[]
  }

  function Run(m: map<Addr, Info>, ops: seq<Op>, life: nat): map<Addr, Info>
    decreases |ops|
  {
    if ops == [] then m else Run(Apply(m, ops[0], life), ops[1..], life)
  }

  // Known before, after and at every step of a run.
  predicate Stays(m: map<Addr, Info>, ops: seq<Op>, a: Addr, life: nat)
    decreases |ops|
  {
    a in m && (ops == [] || Stays(Apply(m, ops[0], life), ops[1..], a, life))
  }

  // An account for one address: who answers for it, when it was last refreshed, and the uses
  // it has left.
  datatype Account = Closed | Account(mac: Mac, age: int, left: int)

  // What one operation does to it: an insert opens it with one use or refreshes it, a touch
  // refreshes it, a look-up within `life` of the refresh adds a use, a pass later than that
  // takes one away, and it closes with its last use.
  function Entered(c: Account, op: Op, a: Addr, life: nat): Account {
    match op
    case Insert(x, mac, now) =>
      if x != a then c else Account(mac, now, if c.Account? then c.left else 1)
    case Touch(x, now) => if x == a && c.Account? then c.(age := now) else c
    case Lookup(x, now) => if x == a && c.Account? && now - c.age < life then c.(left := c.left + 1) else c
    case Expire(now) =>
      if c.Account? && now - c.age >= life then (if c.left > 1 then c.(left := c.left - 1) else Closed) else c
    case Cleanup => Closed
  }

  function Course(c: Account, ops: seq<Op>, a: Addr, life: nat): Account
    decreases |ops|
  {
    if ops == [] then c else Course(Entered(c, ops[0], a, life), ops[1..], a, life)
  }

  // The account over a run, closed for good once nothing is left.
  function Balance(c: Account, ops: seq<Op>, a: Addr, life: nat): Account
    decreases |ops|
  {
    if c.Closed? then Closed
    else if ops == [] then c
    else Balance(Entered(c, ops[0], a, life), ops[1..], a, life)
  }

  function Opened(m: map<Addr, Info>, a: Addr): Account {
    if a in m then Account(m[a].mac, m[a].age, m[a].uses) else Closed
  }

  predicate Positive(m: map<Addr, Info>) {
    forall a :: a in m ==> m[a].uses > 0
  }

  lemma PositiveKept(m: map<Addr, Info>, op: Op, life: nat)
    requires Positive(m)
    ensures Positive(Apply(m, op, life))
  {}

  lemma OneEntry(m: map<Addr, Info>, op: Op, a: Addr, life: nat)
    requires Positive(m)
    ensures Opened(Apply(m, op, life), a) == Entered(Opened(m, a), op, a, life)
  {}

  // Over any run, whatever happens to other addresses, what is known of an address is what
  // its account says.
  lemma {:induction false} AccountTells(m: map<Addr, Info>, ops: seq<Op>, a: Addr, life: nat)
    requires Positive(m)
    ensures Opened(Run(m, ops, life), a) == Course(Opened(m, a), ops, a, life)
    decreases |ops|
  {
    hide Apply, Entered, Opened;
    if ops != [] {
      OneEntry(m, ops[0], a, life);
      PositiveKept(m, ops[0], life);
      AccountTells(Apply(m, ops[0], life), ops[1..], a, life);
    }
  }

  // An address is known throughout a run exactly when one use, plus one for every lookup
  // while fresh, minus one for every pass while old, never runs out; and that is the count
  // it ends with.
  lemma {:induction false} KeptWhileInCredit(m: map<Addr, Info>, ops: seq<Op>, a: Addr, life: nat)
    requires Positive(m) && a in m
    ensures var b := Balance(Opened(m, a), ops, a, life); var r := Run(m, ops, life);
            && (Stays(m, ops, a, life) <==> b.Account?)
            && (b.Account? ==> a in r && b == Account(r[a].mac, r[a].age, r[a].uses))
            && (b.Account? ==> r[a].mac == LastMac(m[a].mac, ops, a))
    decreases |ops|
  {
    hide Apply, Entered;
    if ops != [] {
      OneEntry(m, ops[0], a, life);
      PositiveKept(m, ops[0], life);
      MacEntered(Opened(m, a), ops[0], a, life);
      if a in Apply(m, ops[0], life) {
        KeptWhileInCredit(Apply(m, ops[0], life), ops[1..], a, life);
      }
    }
  }

  // The MAC of the last insert of an address, or the one it had.
  function LastMac(mac: Mac, ops: seq<Op>, a: Addr): Mac
    decreases |ops|
  {
    if ops == [] then mac
    else LastMac(if ops[0].Insert? && ops[0].addr == a then ops[0].mac else mac, ops[1..], a)
  }

  predicate Inserted(ops: seq<Op>, a: Addr) {
    exists i :: 0 <= i < |ops| && ops[i].Insert? && ops[i].addr == a
  }

  lemma MacEntered(c: Account, op: Op, a: Addr, life: nat)
    ensures var d := Entered(c, op, a, life);
            d.Account? ==> && (c.Closed? ==> op.Insert? && op.addr == a)
                           && (op.Insert? && op.addr == a ==> d.mac == op.mac)
                           && (c.Account? && !(op.Insert? && op.addr == a) ==> d.mac == c.mac)
  {}

  // Whether or not it has been forgotten in between, a known address has the MAC of its last
  // insert, or the one it had if there was none.
  lemma {:induction false} MacOfLastInsert(m: map<Addr, Info>, ops: seq<Op>, a: Addr, life: nat, none: Mac)
    requires Positive(m) && a in Run(m, ops, life)
    ensures Run(m, ops, life)[a].mac == LastMac(if a in m then m[a].mac else none, ops, a)
    ensures Inserted(ops, a) || a in m
    decreases |ops|
  {
    hide Apply, Entered;
    if ops != [] {
      var m' := Apply(m, ops[0], life);
      OneEntry(m, ops[0], a, life);
      PositiveKept(m, ops[0], life);
      MacEntered(Opened(m, a), ops[0], a, life);
      var forgotten: Mac := if ops[0].Insert? && ops[0].addr == a then ops[0].mac
                            else if a in m then m[a].mac else none;
      MacOfLastInsert(m', ops[1..], a, life, forgotten);
      if i :| 0 <= i < |ops[1..]| && ops[1..][i].Insert? && ops[1..][i].addr == a {
        assert ops[i + 1].Insert? && ops[i + 1].addr == a;
      }
    }
  }

  // An operation on one address leaves every other as it was.
  lemma OthersUntouched(m: map<Addr, Info>, op: Op, a: Addr, life: nat)
    requires (op.Insert? || op.Lookup? || op.Touch?) && op.addr != a
    ensures (a in Apply(m, op, life) <==> a in m) && (a in m ==> Apply(m, op, life)[a] == m[a])
  {}

  function Passes(times: seq<int>): (ops: seq<Op>)
    ensures |ops| == |times| && forall i :: 0 <= i < |ops| ==> ops[i] == Expire(times[i])
  {
    if times == [] then [] else [Expire(times[0])] + Passes(times[1..])
  }

  // Old and left alone, an address goes with exactly as many passes as it has uses.
  lemma {:induction false} GoesAfterItsUses(m: map<Addr, Info>, a: Addr, times: seq<int>, life: nat)
    requires Positive(m) && a in m && |times| <= m[a].uses
    requires forall i :: 0 <= i < |times| ==> times[i] - m[a].age >= life
    ensures var r := Run(m, Passes(times), life);
            && (a in r <==> |times| < m[a].uses)
            && (a in r ==> r[a] == m[a].(uses := m[a].uses - |times|))
    decreases |times|
  {
    if times != [] {
      var m' := Apply(m, Expire(times[0]), life);
      PositiveKept(m, Expire(times[0]), life);
      assert Passes(times)[1..] == Passes(times[1..]);
      if a in m' {
        GoesAfterItsUses(m', a, times[1..], life);
      } else {
        StaysAway(m', a, times[1..], life);
      }
    }
  }

  lemma {:induction false} StaysAway(m: map<Addr, Info>, a: Addr, times: seq<int>, life: nat)
    requires a !in m
    ensures a !in Run(m, Passes(times), life)
    decreases |times|
  {
    if times != [] {
      assert Passes(times)[1..] == Passes(times[1..]);
      StaysAway(Apply(m, Expire(times[0]), life), a, times[1..], life);
    }
  }

  // Any number of passes leaves what is fresh at the last of them exactly as it was.
  lemma {:induction false} FreshSurvives(m: map<Addr, Info>, a: Addr, times: seq<int>, life: nat)
    requires a in m && forall i :: 0 <= i < |times| ==> times[i] - m[a].age < life
    ensures var r := Run(m, Passes(times), life); a in r && r[a] == m[a]
    decreases |times|
  {
    if times != [] {
      assert Passes(times)[1..] == Passes(times[1..]);
      FreshSurvives(Apply(m, Expire(times[0]), life), a, times[1..], life);
    }
  }
}
