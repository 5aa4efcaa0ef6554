/** Access-point bookkeeping: the counters of associated stations with a given handicap,
    the protection bits of the beacon's ERP element and the HT operation mode, over joins,
    re-joins with changed capabilities, and leaves.
 */
module Stations {

  // The six flag/counter pairs of the driver.
  datatype Kind = NoShortPreamble | NonErp | NoShortSlot | NoHt | NoHtGf | Ht20

  const KINDS: set<Kind> := {NoShortPreamble, NonErp, NoShortSlot, NoHt, NoHtGf, Ht20}

  class StaInfo {
    // as the station presents itself when it associates
    var shortPreamble: bool
    var nonErp: bool
    var shortSlot: bool
    var ht: bool
    var greenfield: bool
    var supWidth: bool
    // the kinds this station is counted under
    var counted: set<Kind>

    constructor ()
      ensures counted == {} && !shortPreamble && !nonErp && !ht && !greenfield
    {
      shortPreamble, nonErp, shortSlot, ht, greenfield, supWidth := false, false, false, false, false, false;
      counted := {};
    }

    // Counted under exactly the handicaps it presents itself with, and the two of HT it had.
    predicate AsPresented(before: set<Kind>)
      reads this
    {
      && (NoShortPreamble in counted <==> !shortPreamble) && (NonErp in counted <==> nonErp)
      && (NoShortSlot in counted <==> !shortSlot) && (NoHt in counted <==> !ht)
      && (NoHtGf in counted <==> NoHtGf in before || (ht && !greenfield))
      && (Ht20 in counted <==> Ht20 in before || (ht && !supWidth))
    }

    // The kinds its present capabilities call for.
    function Current(): set<Kind>
      reads this
    {
      (if shortPreamble then {} else {NoShortPreamble})
      + (if nonErp then {NonErp} else {})
      + (if shortSlot then {} else {NoShortSlot})
      + (if ht then {} else {NoHt})
      + (if ht && !greenfield then {NoHtGf} else {})
      + (if ht && !supWidth then {Ht20} else {})
    }
  }

  // ---------- beacon bits ----------

  const PROTECTED: bv8 := 0x03   // NonERP_Present and Use_Protection
  const BARKER: bv8 := 0x04

  function ErpByte(erp: bv8, nonErp: nat, noShortPreamble: nat): bv8 {
    var e := if nonErp == 1 then erp | PROTECTED else erp & !PROTECTED;
    if noShortPreamble > 0 then e | BARKER else e & !BARKER
  }

  lemma ErpBits(erp: bv8, nonErp: nat, noShortPreamble: nat)
    ensures ErpByte(erp, nonErp, noShortPreamble) & PROTECTED == if nonErp == 1 then PROTECTED else 0
    ensures Barker(ErpByte(erp, nonErp, noShortPreamble)) == (noShortPreamble > 0)
    ensures OtherBits(ErpByte(erp, nonErp, noShortPreamble)) == OtherBits(erp)
  {}

  lemma ErpBitsAre(erp: bv8, nonErp: nat, noShortPreamble: nat)
    ensures var e := ErpByte(erp, nonErp, noShortPreamble);
            && e & 0x03 == (if nonErp == 1 then 0x03 else 0) && (e & 0x04 != 0 <==> noShortPreamble > 0)
            && e & 0xf8 == erp & 0xf8
  {}

  // The bits of the ERP element that are not the driver's to set here.
  function OtherBits(erp: bv8): bv8 { erp & !(PROTECTED | BARKER) }

  // The beacon tells of long preambles.
  predicate Barker(erp: bv8) { erp & BARKER != 0 }

  const NON_GF: bv16 := 0x04
  const NON_HT: bv16 := 0x10
  const OP_MODE_MASK: bv16 := 0x03

  function OpMode(noHt: nat, wideAp: bool, ht20: nat, olbc: bool): bv16 {
    if noHt > 0 then 3 else if wideAp && ht20 > 0 then 2 else if olbc then 1 else 0
  }

  // The three parts of the operation mode agree with the counters.
  predicate HtModeRight(mode: bv16, noGf: nat, noHt: nat, wideAp: bool, ht20: nat, olbc: bool) {
    && (mode & 0x04 != 0 <==> noGf > 0)
    && (mode & 0x10 != 0 <==> noHt > 0 || olbc)
    && (mode & 0x03 == 3 <==> noHt > 0)
    && (mode & 0x03 == 2 <==> noHt == 0 && wideAp && ht20 > 0)
    && (mode & 0x03 == 1 <==> noHt == 0 && !(wideAp && ht20 > 0) && olbc)
    && (mode & 0x03 == 0 <==> noHt == 0 && !(wideAp && ht20 > 0) && !olbc)
  }

  function OtherModeBits(mode: bv16): bv16 { mode & !(NON_GF | NON_HT | OP_MODE_MASK) }

  function SetBits(mode: bv16, bits: bv16, on: bool): bv16 {
    if on then mode | bits else mode & !bits
  }

  function WithMode(mode: bv16, op: bv16): bv16 { (mode & !OP_MODE_MASK) | op }

  predicate HasBits(mode: bv16, bits: bv16) { mode & bits != 0 }

  lemma GfSet(mode: bv16, on: bool)
    ensures HasBits(SetBits(mode, NON_GF, on), NON_GF) == on
  {}

  lemma GfOthers(mode: bv16, on: bool)
    ensures OtherModeBits(SetBits(mode, NON_GF, on)) == OtherModeBits(mode)
  {}

  lemma HtSet(mode: bv16, on: bool)
    ensures HasBits(SetBits(mode, NON_HT, on), NON_HT) == on
  {}

  lemma HtApart(mode: bv16, on: bool)
    ensures HasBits(SetBits(mode, NON_HT, on), NON_GF) == HasBits(mode, NON_GF)
  {}

  lemma HtOthers(mode: bv16, on: bool)
    ensures OtherModeBits(SetBits(mode, NON_HT, on)) == OtherModeBits(mode)
  {}

  lemma OpPart(mode: bv16, op: bv16)
    requires op <= 3
    ensures var m := WithMode(mode, op);
            && m & OP_MODE_MASK == op && HasBits(m, NON_GF) == HasBits(mode, NON_GF)
            && HasBits(m, NON_HT) == HasBits(mode, NON_HT) && OtherModeBits(m) == OtherModeBits(mode)
  {}

  lemma ModeParts(mode: bv16, gf: bool, ht: bool, op: bv16)
    requires op <= 3
    ensures var m := WithMode(SetBits(SetBits(mode, NON_GF, gf), NON_HT, ht), op);
            && HasBits(m, NON_GF) == gf && HasBits(m, NON_HT) == ht && m & OP_MODE_MASK == op
            && OtherModeBits(m) == OtherModeBits(mode)
  {
    hide HasBits, SetBits, WithMode, OtherModeBits;
    var m1 := SetBits(mode, NON_GF, gf);
    var m2 := SetBits(m1, NON_HT, ht);
    GfSet(mode, gf);
    GfOthers(mode, gf);
    HtSet(m1, ht);
    HtApart(m1, ht);
    HtOthers(m1, ht);
    OpPart(m2, op);
  }

  lemma NoChange(mode: bv16, bits: bv16, on: bool)
    requires bits == NON_GF || bits == NON_HT
    ensures SetBits(mode, bits, on) == mode <==> HasBits(mode, bits) == on
  {}

  predicate AsWanted(mode: bv16, gf: bool, ht: bool, op: bv16) {
    var m1 := SetBits(mode, NON_GF, gf);
    var m2 := SetBits(m1, NON_HT, ht);
    HasBits(mode, NON_GF) == gf && HasBits(m1, NON_HT) == ht && m2 & OP_MODE_MASK == op
  }

  // The three updates together change the mode exactly when one of them is needed.
  lemma ModeChanged(mode: bv16, gf: bool, ht: bool, op: bv16)
    requires op <= 3
    ensures WithMode(SetBits(SetBits(mode, NON_GF, gf), NON_HT, ht), op) == mode <==> AsWanted(mode, gf, ht, op)
  {
    hide SetBits, WithMode;
    var m1 := SetBits(mode, NON_GF, gf);
    var m2 := SetBits(m1, NON_HT, ht);
    NoChange(mode, NON_GF, gf);
    NoChange(m1, NON_HT, ht);
    NoModeChange(m2, op);
    ModeParts(mode, gf, ht, op);
  }

  lemma NoModeChange(mode: bv16, op: bv16)
    requires op <= 3
    ensures WithMode(mode, op) == mode <==> mode & OP_MODE_MASK == op
  {}

  // ---------- counting ----------

  // Associated stations with the kinds each is counted under.
  type Roll = map<StaInfo, set<Kind>>

  ghost function Flagged(roll: Roll, k: Kind): set<StaInfo> {
    set s | s in roll && k in roll[s]
  }

  ghost predicate Tally(num: map<Kind, nat>, roll: Roll) {
    forall k :: k in num && num[k] == |Flagged(roll, k)|
  }

  function Marked(s: set<Kind>, k: Kind, on: bool): set<Kind> { if on then s + {k} else s - {k} }

  // Turning a flag on or off moves its counter between zero and more.
  predicate Crosses(num: nat, has: bool, on: bool) {
    has != on && num == if on then 0 else 1
  }

  // Changing one flag of one station moves it in or out of one flagged set only.
  lemma FlagMoved(num: map<Kind, nat>, roll: Roll, sta: StaInfo, k: Kind, on: bool)
    requires Tally(num, roll) && sta in roll && (k in roll[sta]) != on
    ensures !on ==> num[k] > 0
    ensures Tally(num[k := if on then num[k] + 1 else num[k] - 1], roll[sta := Marked(roll[sta], k, on)])
  {
    var roll' := roll[sta := Marked(roll[sta], k, on)];
    forall j ensures |Flagged(roll', j)| == if j != k then num[j] else if on then num[k] + 1 else num[k] as int - 1 {
      if j != k {
        assert Flagged(roll', j) == Flagged(roll, j);
      } else if on {
        assert Flagged(roll', k) == Flagged(roll, k) + {sta};
      } else {
        assert sta in Flagged(roll, k) && Flagged(roll', k) == Flagged(roll, k) - {sta};
      }
    }
  }

  // The counters and the associated stations behind them.
  class Counters {
    var num: map<Kind, nat>
    ghost var stations: set<StaInfo>

    ghost function Associated(): Roll
      reads this, stations`counted
    {
      map s | s in stations :: s.counted
    }

    // Each counter is the number of associated stations with the flag.
    ghost predicate Valid()
      reads this, stations`counted
      ensures Valid() ==> forall k :: k in num
    {
      Tally(num, Associated())
    }

    constructor ()
      ensures Valid() && stations == {} && forall k :: num[k] == 0
    {
      num, stations := map k | k in KINDS :: 0, {};
      new;
      forall k ensures k in KINDS && Flagged(Associated(), k) == {} { AllKinds(k); }
    }

    // Sets or clears one flag of an associated station and moves the counter with it;
    // says whether anything changed.
    method Mark(sta: StaInfo, k: Kind, on: bool) returns (changed: bool)
      requires Valid() && sta in stations
      modifies `num, sta`counted
      ensures Valid() && changed == ((k in old(sta.counted)) != on)
      ensures sta.counted == Marked(old(sta.counted), k, on)
      ensures forall j :: j != k ==> num[j] == old(num)[j]
      ensures num[k] == if !changed then old(num)[k] else if on then old(num)[k] + 1 else old(num)[k] as int - 1
      ensures (num[k] > 0) != (old(num)[k] > 0) <==> Crosses(old(num)[k], k in old(sta.counted), on)
    {
      hide Tally, Flagged;
      changed := (k in sta.counted) != on;
      if !changed {
        return;
      }
      ghost var roll := Associated();
      FlagMoved(num, roll, sta, k, on);
      sta.counted := Marked(sta.counted, k, on);
      num := num[k := if on then num[k] + 1 else num[k] - 1];
      assert Associated() == roll[sta := Marked(roll[sta], k, on)];
    }

    method Admit(sta: StaInfo)
      requires Valid() && (sta in stations || sta.counted == {})
      modifies `stations
      ensures Valid() && stations == old(stations) + {sta}
    {
      ghost var roll := Associated();
      stations := stations + {sta};
      forall k ensures Flagged(Associated(), k) == Flagged(roll, k) {}
    }

    method Dismiss(sta: StaInfo)
      requires Valid() && sta.counted == {}
      modifies `stations
      ensures Valid() && stations == old(stations) - {sta}
    {
      ghost var roll := Associated();
      stations := stations - {sta};
      forall k ensures Flagged(Associated(), k) == Flagged(roll, k) {}
    }
  }

  // The counters behind the beacon bits, as a call leaves them.
  datatype Census = Census(nonErp: nat, longPreamble: nat)

  // Whether long preambles were about when the number of non-ERP stations last left or
  // reached zero; before that, what the beacon said at the start.
  function ToldLong(calls: seq<Census>, atStart: bool): bool {
    if |calls| < 2 then atStart
    else
      var a, b := calls[|calls| - 2], calls[|calls| - 1];
      if (a.nonErp > 0) != (b.nonErp > 0) then b.longPreamble > 0 else ToldLong(calls[..|calls| - 1], atStart)
  }

  lemma StillTold(calls: seq<Census>, atStart: bool)
    requires calls != []
    ensures forall b: Census :: ToldLong(calls + [b], atStart)
              == if (calls[|calls| - 1].nonErp > 0) != (b.nonErp > 0) then b.longPreamble > 0
                 else ToldLong(calls, atStart)
  {
    forall b: Census ensures (calls + [b])[..|calls|] == calls {}
  }

  class Ap {
    const cnt: Counters
    var erp: bv8            // first byte of the beacon's ERP element
    var htOpMode: bv16
    const started: bool
    const erpEnable: bool
    const htOption: bool
    const wideAp: bool      // 40 MHz in the access point's own HT capabilities
    var olbcHt: bool        // a legacy access point has been heard
    ghost var olbcUsed: bool          // the same when the operation mode was last worked out
    ghost var calls: seq<Census>      // at the start and after every join and leave
    ghost const longAtStart: bool

    // Protection is advertised exactly when some non-ERP station is associated.
    ghost predicate ErpRight()
      requires cnt.Valid()
      reads this, cnt, cnt.stations`counted
    {
      started && erpEnable ==> erp & PROTECTED == if cnt.num[NonErp] > 0 then PROTECTED else 0
    }

    // The Barker bit says whether some station needs long preambles.
    ghost predicate BarkerRight()
      requires cnt.Valid()
      reads this, cnt, cnt.stations`counted
    {
      Barker(erp) == (cnt.num[NoShortPreamble] > 0)
    }

    // What the Barker bit really follows.
    ghost predicate BarkerAsTold()
      requires cnt.Valid()
      reads this, cnt, cnt.stations`counted
    {
      && calls != [] && calls[|calls| - 1] == Census(cnt.num[NonErp], cnt.num[NoShortPreamble])
      && (started && erpEnable ==> Barker(erp) == ToldLong(calls, longAtStart))
    }

    ghost predicate HtRight()
      requires cnt.Valid()
      reads `htOpMode, `olbcUsed, cnt, cnt.stations`counted
    {
      htOption ==> HtModeRight(htOpMode, cnt.num[NoHtGf], cnt.num[NoHt], wideAp, cnt.num[Ht20], olbcUsed)
    }

    ghost predicate Valid()
      reads this, cnt, cnt.stations`counted
    {
      cnt.Valid() && ErpRight() && HtRight() && BarkerAsTold()
    }

    // A fresh access point; the ERP element starts without protection bits.
    constructor (started: bool, erpEnable: bool, htOption: bool, wideAp: bool, erp0: bv8)
      requires erp0 & PROTECTED == 0
      ensures Valid() && cnt.stations == {} && fresh(cnt)
      ensures this.started == started && this.erpEnable == erpEnable && erp == erp0
    {
      cnt := new Counters();
      erp, htOpMode := erp0, 0;
      this.started, this.erpEnable, this.htOption, this.wideAp := started, erpEnable, htOption, wideAp;
      olbcHt, olbcUsed, calls, longAtStart := false, false, [Census(0, 0)], Barker(erp0);
    }

    // Rewrites the protection bits from the counters, on a started BSS with ERP enabled.
    method UpdateBcnErpInfo()
      requires cnt.Valid()
      modifies `erp
      ensures if !started || !erpEnable then erp == old(erp)
              else && erp & PROTECTED == (if cnt.num[NonErp] == 1 then PROTECTED else 0)
                   && Barker(erp) == (cnt.num[NoShortPreamble] > 0)
                   && OtherBits(erp) == OtherBits(old(erp))
      ensures started && erpEnable ==>
                && erp & 0x03 == (if cnt.num[NonErp] == 1 then 0x03 else 0)
                && (erp & 0x04 != 0 <==> cnt.num[NoShortPreamble] > 0) && erp & 0xf8 == old(erp) & 0xf8
    {
      if !started || !erpEnable {
        return;
      }
      ErpBits(erp, cnt.num[NonErp], cnt.num[NoShortPreamble]);
      ErpBitsAre(erp, cnt.num[NonErp], cnt.num[NoShortPreamble]);
      hide ErpByte, Barker, OtherBits;
      erp := ErpByte(erp, cnt.num[NonErp], cnt.num[NoShortPreamble]);
    }

    // Moves the non-ERP flag; only the first such station to come and the last to go
    // have the beacon rewritten.
    method MarkNonErp(sta: StaInfo, on: bool) returns (edge: bool)
      requires cnt.Valid() && ErpRight() && sta in cnt.stations
      modifies cnt`num, `erp, sta`counted
      ensures cnt.Valid() && ErpRight() && OtherBits(erp) == OtherBits(old(erp))
      ensures sta.counted == Marked(old(sta.counted), NonErp, on)
      ensures forall j :: j != NonErp ==> cnt.num[j] == old(cnt.num)[j]
      ensures edge == ((cnt.num[NonErp] > 0) != (old(cnt.num)[NonErp] > 0))
      ensures edge == Crosses(old(cnt.num)[NonErp], NonErp in old(sta.counted), on)
      ensures Barker(erp) == if edge && started && erpEnable then cnt.num[NoShortPreamble] > 0 else Barker(old(erp))
    {
      hide Counters.Valid;
      var changed := cnt.Mark(sta, NonErp, on);
      edge := changed && cnt.num[NonErp] == if on then 1 else 0;
      if edge {
        UpdateBcnErpInfo();
      }
    }

    // The preamble and non-ERP flags, in this order, and the beacon.
    method MarkRates(sta: StaInfo, long: bool, nonErp: bool)
      requires cnt.Valid() && ErpRight() && sta in cnt.stations
      modifies cnt`num, `erp, sta`counted
      ensures cnt.Valid() && ErpRight() && OtherBits(erp) == OtherBits(old(erp))
      ensures sta.counted == Marked(Marked(old(sta.counted), NoShortPreamble, long), NonErp, nonErp)
      ensures (cnt.num[NoShortPreamble] > 0) != (old(cnt.num)[NoShortPreamble] > 0)
         <==> Crosses(old(cnt.num)[NoShortPreamble], NoShortPreamble in old(sta.counted), long)
      ensures (cnt.num[NonErp] > 0) != (old(cnt.num)[NonErp] > 0)
         <==> Crosses(old(cnt.num)[NonErp], NonErp in old(sta.counted), nonErp)
      ensures Barker(erp) == if (cnt.num[NonErp] > 0) != (old(cnt.num)[NonErp] > 0) && started && erpEnable
                             then cnt.num[NoShortPreamble] > 0 else Barker(old(erp))
    {
      hide Counters.Valid, Barker, OtherBits;
      var changed := cnt.Mark(sta, NoShortPreamble, long);
      var edge := MarkNonErp(sta, nonErp);
    }

    // Brings the operation mode in line with the counters; counts the parts that changed.
    method HtOperationUpdate() returns (changes: nat)
      requires cnt.Valid()
      modifies `htOpMode, `olbcUsed
      ensures HtRight() && olbcUsed == olbcHt
      ensures OtherModeBits(htOpMode) == OtherModeBits(old(htOpMode))
      ensures !htOption ==> htOpMode == old(htOpMode)
      ensures changes > 0 <==> htOpMode != old(htOpMode)
    {
      changes, olbcUsed := 0, olbcHt;
      if !htOption {
        return;
      }
      hide Counters.Valid, HtModeRight;
      var noGf, noHt := cnt.num[NoHtGf] > 0, cnt.num[NoHt] > 0 || olbcHt;
      var op := OpMode(cnt.num[NoHt], wideAp, cnt.num[Ht20], olbcHt);
      ModeParts(htOpMode, noGf, noHt, op);
      htOpMode, changes := NewHtMode(htOpMode, noGf, noHt, op);
      ModeIsRight(htOpMode, cnt.num[NoHtGf], cnt.num[NoHt], wideAp, cnt.num[Ht20], olbcHt);
    }

    // The HT flags: a station without HT is counted as such; one with HT may gain the
    // other two but keeps any it had.
    method MarkHt(sta: StaInfo)
      requires cnt.Valid() && sta in cnt.stations
      modifies cnt`num, sta`counted
      ensures cnt.Valid() && cnt.num[NonErp] == old(cnt.num)[NonErp]
      ensures cnt.num[NoShortPreamble] == old(cnt.num)[NoShortPreamble]
      ensures sta.counted == HtMarks(old(sta.counted), sta.ht, sta.greenfield, sta.supWidth)
    {
      hide Marked, Counters.Valid;
      var changed := cnt.Mark(sta, NoHt, !sta.ht);
      if sta.ht && !sta.greenfield {
        changed := cnt.Mark(sta, NoHtGf, true);
      }
      if sta.ht && !sta.supWidth {
        changed := cnt.Mark(sta, Ht20, true);
      }
    }

    method MarkRest(sta: StaInfo)
      requires cnt.Valid() && sta in cnt.stations
      modifies cnt`num, sta`counted
      ensures cnt.Valid() && cnt.num[NonErp] == old(cnt.num)[NonErp]
      ensures cnt.num[NoShortPreamble] == old(cnt.num)[NoShortPreamble]
      ensures sta.counted == HtMarks(Marked(old(sta.counted), NoShortSlot, !sta.shortSlot),
                                     sta.ht, sta.greenfield, sta.supWidth)
    {
      hide Marked, Counters.Valid, HtMarks;
      var changed := cnt.Mark(sta, NoShortSlot, !sta.shortSlot);
      MarkHt(sta);
    }

    // A station associates, for the first time or again with changed capabilities.
    // It is then counted under what it now presents, and still under the two HT handicaps
    // it had before.  The Barker bit is right afterwards exactly when the call reaches the
    // updater, or it was right and the call does not move its counter off or onto zero, or
    // it was wrong and the call does.
    method StaJoin(sta: StaInfo)
      requires Valid() && (sta in cnt.stations || sta.counted == {})
      modifies this, cnt, sta`counted
      ensures Valid() && cnt.stations == old(cnt.stations) + {sta}
      ensures sta.counted == sta.Current() + old(sta.counted) * {NoHtGf, Ht20}
      ensures sta.counted == sta.Current() <==> old(sta.counted) * {NoHtGf, Ht20} <= sta.Current()
      ensures sta.AsPresented(old(sta.counted))
      ensures calls == old(calls) + [Census(cnt.num[NonErp], cnt.num[NoShortPreamble])]
      ensures olbcUsed == olbcHt && OtherBits(erp) == OtherBits(old(erp))
      ensures OtherModeBits(htOpMode) == OtherModeBits(old(htOpMode)) && (!htOption ==> htOpMode == old(htOpMode))
      ensures started && erpEnable ==>
                (BarkerRight() <==> old(Crosses(cnt.num[NonErp], NonErp in sta.counted, sta.nonErp))
                                    || old(BarkerRight() != Crosses(cnt.num[NoShortPreamble],
                                             NoShortPreamble in sta.counted, !sta.shortPreamble)))
    {
      hide Marked, Counters.Valid, HtModeRight, Barker, Crosses, ToldLong, OtherBits, OtherModeBits;
      hide HtMarks, StaInfo.Current, StaInfo.AsPresented, Ap.HtRight;
      StillTold(calls, longAtStart);
      cnt.Admit(sta);
      MarkRates(sta, !sta.shortPreamble, sta.nonErp);
      MarkRest(sta);
      var changes := HtOperationUpdate();
      CountedIs(sta, old(sta.counted));
      Record();
    }

    ghost method Record()
      requires cnt.Valid()
      modifies `calls
      ensures calls == old(calls) + [Census(cnt.num[NonErp], cnt.num[NoShortPreamble])]
    {
      calls := calls + [Census(cnt.num[NonErp], cnt.num[NoShortPreamble])];
    }

    // A legacy access point comes into hearing, or its notice runs out; the operation mode
    // follows when it is next worked out.
    method SetOlbcHt(heard: bool)
      requires Valid()
      modifies `olbcHt
      ensures Valid() && olbcHt == heard
    {
      olbcHt := heard;
    }

    method ClearHt(sta: StaInfo)
      requires cnt.Valid() && sta in cnt.stations
      modifies cnt`num, sta`counted
      ensures cnt.Valid() && cnt.num[NonErp] == old(cnt.num)[NonErp]
      ensures cnt.num[NoShortPreamble] == old(cnt.num)[NoShortPreamble]
      ensures sta.counted == Marked(Marked(Marked(old(sta.counted), NoHtGf, false), NoHt, false), Ht20, false)
    {
      hide Marked, Counters.Valid;
      var changed := cnt.Mark(sta, NoHtGf, false);
      changed := cnt.Mark(sta, NoHt, false);
      changed := cnt.Mark(sta, Ht20, false);
    }

    // A station leaves: every flag it holds is given back.
    method StaLeave(sta: StaInfo)
      requires Valid() && sta in cnt.stations
      modifies this, cnt, sta`counted
      ensures Valid() && cnt.stations == old(cnt.stations) - {sta} && sta.counted == {}
      ensures calls == old(calls) + [Census(cnt.num[NonErp], cnt.num[NoShortPreamble])]
      ensures olbcUsed == olbcHt && OtherBits(erp) == OtherBits(old(erp))
      ensures OtherModeBits(htOpMode) == OtherModeBits(old(htOpMode)) && (!htOption ==> htOpMode == old(htOpMode))
      ensures started && erpEnable ==>
                (BarkerRight() <==> old(Crosses(cnt.num[NonErp], NonErp in sta.counted, false))
                                    || old(BarkerRight() != Crosses(cnt.num[NoShortPreamble],
                                             NoShortPreamble in sta.counted, false)))
    {
      hide Marked, Counters.Valid, HtModeRight, Barker, Crosses, ToldLong, OtherBits, OtherModeBits;
      StillTold(calls, longAtStart);
      MarkRates(sta, false, false);
      var changed := cnt.Mark(sta, NoShortSlot, false);
      ClearHt(sta);
      var changes := HtOperationUpdate();
      AllCleared(sta, old(sta.counted));
      cnt.Dismiss(sta);
      Record();
    }
  }

  // The Barker bit is not kept like the protection bits: an ERP station without short
  // preamble joins an empty cell and the beacon does not tell.
  method BarkerUnannounced() returns (ap: Ap, sta: StaInfo)
    ensures ap.Valid() && ap.started && ap.erpEnable && ap.cnt.stations == {sta}
    ensures NoShortPreamble in sta.counted && ap.erp & BARKER == 0
  {
    hide Ap.Valid, StaInfo.Current, Barker;
    ap := new Ap(true, true, false, false, 0);
    sta := new StaInfo();
    NoBarker();
    AllZero(ap, sta);
    LongPreamble(sta);
    ap.StaJoin(sta);
    LongPreamble(sta);
    Whole(ap);
    SomeFlagged(ap.cnt, NoShortPreamble, sta);
  }

  lemma NoBarker()
    ensures forall erp: bv8 :: !Barker(erp) <==> erp & BARKER == 0
  {}

  lemma AllZero(ap: Ap, sta: StaInfo)
    requires ap.Valid() && ap.cnt.stations == {} && ap.erp == 0 && sta.counted == {}
    ensures ap.cnt.Valid() && ap.cnt.num[NonErp] == 0 && ap.cnt.num[NoShortPreamble] == 0 && ap.BarkerRight()
  {
    NoneFlagged(ap.cnt, NonErp);
    NoneFlagged(ap.cnt, NoShortPreamble);
  }

  // A station that comes back able to do greenfield is still counted as one that is not.
  method StillNoGreenfield() returns (ap: Ap, sta: StaInfo)
    ensures ap.Valid() && ap.cnt.stations == {sta} && sta.ht && sta.greenfield
    ensures NoHtGf in sta.counted && NoHtGf !in sta.Current() && ap.cnt.num[NoHtGf] > 0
  {
    hide Ap.Valid, StaInfo.Current, Crosses, Barker;
    ap := new Ap(true, true, true, false, 0);
    sta := new StaInfo();
    sta.ht := true;
    JoinHt(ap, sta);
    sta.greenfield := true;
    JoinHt(ap, sta);
    Greenfield(sta);
    Whole(ap);
    SomeFlagged(ap.cnt, NoHtGf, sta);
  }

  method JoinHt(ap: Ap, sta: StaInfo)
    requires ap.Valid() && ap.cnt.stations <= {sta} && (sta in ap.cnt.stations || sta.counted == {}) && sta.ht
    modifies ap, ap.cnt, sta`counted
    ensures ap.Valid() && ap.cnt.stations == {sta}
    ensures NoHtGf in sta.counted <==> !sta.greenfield || NoHtGf in old(sta.counted)
  {
    hide Ap.Valid, StaInfo.Current, Crosses, Barker;
    Greenfield(sta);
    ap.StaJoin(sta);
    Greenfield(sta);
  }

  lemma Whole(ap: Ap)
    requires ap.Valid()
    ensures ap.cnt.Valid()
  {}

  lemma Greenfield(sta: StaInfo)
    requires sta.ht
    ensures NoHtGf in sta.Current() <==> !sta.greenfield
  {}

  lemma SomeFlagged(c: Counters, k: Kind, sta: StaInfo)
    requires c.Valid() && sta in c.stations && k in sta.counted
    ensures c.num[k] > 0
  {
    assert sta in Flagged(c.Associated(), k);
  }

  lemma LongPreamble(sta: StaInfo)
    requires !sta.shortPreamble && !sta.nonErp
    ensures NoShortPreamble in sta.Current() && NonErp !in sta.Current()
  {}

  lemma NoneFlagged(c: Counters, k: Kind)
    requires c.Valid() && forall s :: s in c.stations ==> k !in s.counted
    ensures c.num[k] == 0
  {
    assert Flagged(c.Associated(), k) == {};
  }

  lemma AllCleared(sta: StaInfo, before: set<Kind>)
    requires
      var a := Marked(Marked(Marked(before, NoShortPreamble, false), NonErp, false), NoShortSlot, false);
      sta.counted == Marked(Marked(Marked(a, NoHtGf, false), NoHt, false), Ht20, false)
    ensures sta.counted == {}
  {
    forall k ensures k !in sta.counted { AllKinds(k); }
  }

  method NewHtMode(mode: bv16, noGf: bool, noHt: bool, op: bv16) returns (m: bv16, changes: nat)
    requires op <= 3
    ensures m == WithMode(SetBits(SetBits(mode, NON_GF, noGf), NON_HT, noHt), op)
    ensures changes > 0 <==> m != mode
  {
    hide SetBits, WithMode;
    changes := 0;
    m := SetBits(mode, NON_GF, noGf);
    if HasBits(mode, NON_GF) != noGf {
      changes := changes + 1;
    }
    var m1 := m;
    m := SetBits(m, NON_HT, noHt);
    if HasBits(m1, NON_HT) != noHt {
      changes := changes + 1;
    }
    var m2 := m;
    if m & OP_MODE_MASK != op {
      m := WithMode(m, op);
      changes := changes + 1;
    }
    ModeChanged(mode, noGf, noHt, op);
    NoModeChange(m2, op);
  }

  lemma ModeIsRight(mode: bv16, noGf: nat, noHt: nat, wideAp: bool, ht20: nat, olbc: bool)
    requires mode & NON_GF != 0 <==> noGf > 0
    requires mode & NON_HT != 0 <==> noHt > 0 || olbc
    requires mode & OP_MODE_MASK == OpMode(noHt, wideAp, ht20, olbc)
    ensures HtModeRight(mode, noGf, noHt, wideAp, ht20, olbc)
  {}

  function HtMarks(before: set<Kind>, ht: bool, greenfield: bool, supWidth: bool): set<Kind> {
    var a := Marked(before, NoHt, !ht);
    var b := if ht && !greenfield then Marked(a, NoHtGf, true) else a;
    if ht && !supWidth then Marked(b, Ht20, true) else b
  }

  lemma CountedIs(sta: StaInfo, before: set<Kind>)
    requires
      var a := Marked(before, NoShortPreamble, !sta.shortPreamble);
      var b := Marked(a, NonErp, sta.nonErp);
      var c := Marked(b, NoShortSlot, !sta.shortSlot);
      sta.counted == HtMarks(c, sta.ht, sta.greenfield, sta.supWidth)
    ensures sta.counted == sta.Current() + before * {NoHtGf, Ht20}
    ensures sta.counted == sta.Current() <==> before * {NoHtGf, Ht20} <= sta.Current()
    ensures sta.AsPresented(before)
  {
    forall k ensures k in sta.counted <==> k in sta.Current() + before * {NoHtGf, Ht20} { AllKinds(k); }
  }

  lemma AllKinds(k: Kind)
    ensures k in KINDS
  {
    match k case NoShortPreamble => case NonErp => case NoShortSlot => case NoHt => case NoHtGf => case Ht20 =>
  }
}
