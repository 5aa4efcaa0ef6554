/** Interfaces that share one radio: each request is fitted to the group's channel, and the
    group widens when a request needs it (core/rtw_ieee80211.c, core/rtw_wlan_util.c).
 */
module Chbw {
  const WIDTH_20 := 0
  const WIDTH_40 := 1
  const WIDTH_80 := 2
  const DONT_CARE := 0
  const LOWER := 1
  const UPPER := 2

  datatype Setting = Setting(ch: nat, bw: nat, offset: nat)

  predicate Wide(s: Setting) {
    s.bw == WIDTH_40 || s.bw == WIDTH_80
  }

  predicate Grouped(a: Setting, b: Setting) {
    a.ch == b.ch && (Wide(a) && Wide(b) ==> a.offset == b.offset)
  }

  method IsGrouped(a: Setting, b: Setting) returns (grouped: bool)
    ensures grouped == Grouped(a, b)
  {
    if a.ch != b.ch {
      return false;
    } else if (a.bw == WIDTH_40 || a.bw == WIDTH_80) && (b.bw == WIDTH_40 || b.bw == WIDTH_80) {
      if a.offset != b.offset {
        return false;
      }
    }
    return true;
  }

  // ---------- where the second half of a wide channel can lie ----------

  // The lower channel of a 40 MHz pair above 2.4 GHz; the upper one is four higher.
  predicate PairLow(ch: nat) {
    ((36 <= ch <= 60 || 100 <= ch <= 140) && ch % 8 == 4) || (149 <= ch <= 173 && ch % 8 == 5)
  }

  // The primary channel is the lower half, or the upper half, of an existing pair.
  predicate Fits(ch: nat, offset: nat) {
    || (offset == LOWER && (1 <= ch <= 9 || PairLow(ch)))
    || (offset == UPPER && (5 <= ch <= 13 || (ch >= 4 && PairLow(ch - 4))))
  }

  predicate Pairable(ch: nat) {
    Fits(ch, LOWER) || Fits(ch, UPPER)
  }

  // The offset meant by a wide request: its own where it fits, else the upper half if that fits.
  function Chosen(ch: nat, offset: nat): nat {
    if !Pairable(ch) || Fits(ch, offset) then offset else if Fits(ch, UPPER) then UPPER else LOWER
  }

  // The half of its pair a channel above 2.4 GHz is.
  method HalfOf(c: nat) returns (half: nat)
    ensures half == if PairLow(c) then LOWER else if c >= 4 && PairLow(c - 4) then UPPER else DONT_CARE
  {
    if (c == 36 || c == 44 || c == 52 || c == 60 || c == 100 || c == 108 || c == 116
       || c == 124 || c == 132 || c == 140 || c == 149 || c == 157 || c == 165 || c == 173) {
      half := LOWER;
    } else if (c == 40 || c == 48 || c == 56 || c == 64 || c == 104 || c == 112 || c == 120
       || c == 128 || c == 136 || c == 144 || c == 153 || c == 161 || c == 169 || c == 177) {
      half := UPPER;
    } else {
      half := DONT_CARE;
    }
  }

  // A channel is the lower half of a pair exactly when the channel four above is the upper half.
  lemma HalvesPair(ch: nat)
    ensures Fits(ch, 1) <==> Fits(ch + 4, 2)
    ensures Fits(ch, 2) ==> ch >= 4
  {}

  // A request that brings no offset, or one that does not fit, gets the upper half wherever
  // there is one, else the lower; one that fits is kept.
  lemma HalfChosen(ch: nat, offset: nat)
    requires Pairable(ch)
    ensures Chosen(ch, offset) == if Fits(ch, offset) then offset else if Fits(ch, 2) then 2 else 1
    ensures Fits(ch, Chosen(ch, offset))
    ensures ch <= 14 ==> Chosen(ch, 0) == if ch <= 4 then 1 else 2
    ensures ch <= 14 ==> (Fits(ch, 1) <==> 1 <= ch <= 9) && (Fits(ch, 2) <==> 5 <= ch <= 13)
  {}

  class Channel {
    var ch: nat
    var bw: nat
    var offset: nat

    function View(): Setting
      reads this
    {
      Setting(ch, bw, offset)
    }

    // Sets the offset where the width and channel have one.
    method OffsetByChbw(c: nat, width: nat) returns (valid: bool)
      modifies `offset
      ensures valid == (width == WIDTH_20 || (Pairable(c) && !(width >= WIDTH_80 && c <= 14)))
      ensures offset == if !valid then old(offset) else if width == WIDTH_20 then DONT_CARE
                        else Chosen(c, old(offset))
    {
      var found := DONT_CARE;
      valid := true;
      if width != WIDTH_20 {
        if width >= WIDTH_80 && c <= 14 {
          valid := false;
        } else if 1 <= c <= 4 {
          found := LOWER;
        } else if 5 <= c <= 9 {
          if offset == LOWER || offset == UPPER {
            found := offset;
          } else {
            found := UPPER;
          }
        } else if 10 <= c <= 13 {
          found := UPPER;
        } else if c == 14 {
          valid := false;
        } else if 36 <= c <= 177 {
          found := HalfOf(c);
          valid := found != DONT_CARE;
        } else {
          valid := false;
        }
      }
      if valid {
        offset := found;
      }
    }
  }

  method SyncChbw(req: Channel, g: Channel)
    requires req != g
    modifies req, g
    ensures req.View() == Fitted(old(req.View()), old(g.View()))
    ensures g.View() == Widened(old(g.View()), req.View())
  {
    req.ch := g.ch;
    if req.bw == WIDTH_80 && g.ch <= 14 {
      req.bw := WIDTH_40;
    }
    if req.bw == WIDTH_80 || req.bw == WIDTH_40 {
      if g.bw == WIDTH_40 || g.bw == WIDTH_80 {
        req.offset := g.offset;
      } else if g.bw == WIDTH_20 {
        var _ := req.OffsetByChbw(req.ch, req.bw);
      }
      if req.offset == DONT_CARE {
        req.bw := WIDTH_20;
      }
    } else if req.bw == WIDTH_20 {
      req.offset := DONT_CARE;
    }
    if req.bw > g.bw {
      g.bw, g.offset := req.bw, req.offset;
    }
  }

  // ---------- what a request becomes, and the group after it ----------

  function Asked(req: Setting, g: Setting): nat {
    if req.bw == WIDTH_80 && g.ch <= 14 then WIDTH_40 else req.bw
  }

  function Fitted(req: Setting, g: Setting): Setting {
    var bw := Asked(req, g);
    if bw == WIDTH_20 then Setting(g.ch, bw, DONT_CARE)
    else if bw > WIDTH_80 then Setting(g.ch, bw, req.offset)
    else
      var offset := if Wide(g) then g.offset else if g.bw == WIDTH_20 then Chosen(g.ch, req.offset) else req.offset;
      Setting(g.ch, if offset == DONT_CARE then WIDTH_20 else bw, offset)
  }

  function Widened(g: Setting, r: Setting): Setting {
    if r.bw > g.bw then Setting(g.ch, r.bw, r.offset) else g
  }

  // What a request becomes in so many words: the group's channel; the width asked for, 80 MHz
  // cut to 40 up to channel 14, unless the group is narrow and there is no half to be had;
  // the group's half if the group is wide.
  lemma FittedIs(req: Setting, g: Setting)
    requires g.bw <= 2 && (g.offset == 0 <==> g.bw == 0) && req.bw <= 2
    ensures var s := Fitted(req, g);
            var wanted := if req.bw == 2 && g.ch <= 14 then 1 else req.bw;
            var none := g.bw == 0 && !Fits(g.ch, 1) && !Fits(g.ch, 2) && req.offset == 0;
            && s.ch == g.ch && s.bw == (if none then 0 else wanted)
            && (s.bw == 0 ==> s.offset == 0)
            && (s.bw > 0 && g.bw > 0 ==> s.offset == g.offset)
            && (s.bw > 0 && g.bw == 0 && (Fits(g.ch, 1) || Fits(g.ch, 2)) ==>
                  s.offset == if Fits(g.ch, req.offset) then req.offset else if Fits(g.ch, 2) then 2 else 1)
  {}

  // The group takes over the setting exactly when that is wider.
  lemma WidenedIs(g: Setting, r: Setting)
    requires r.ch == g.ch
    ensures Widened(g, r) == if r.bw > g.bw then r else g
  {}

  // A group has an offset exactly when it is wider than 20 MHz.
  predicate Consistent(s: Setting) {
    s.bw <= WIDTH_80 && (s.offset == DONT_CARE <==> s.bw == WIDTH_20)
  }

  // A wide setting whose other half exists.
  predicate Placed(s: Setting) {
    Wide(s) ==> Fits(s.ch, s.offset)
  }

  // Every setting in turn against the group as it then is: the settings they become, and
  // the group at the end.
  function SyncAll(g: Setting, reqs: seq<Setting>): (r: (seq<Setting>, Setting))
    ensures |r.0| == |reqs|
    decreases |reqs|
  {
    if reqs == [] then ([], g)
    else
      var s := Fitted(reqs[0], g);
      var rest := SyncAll(Widened(g, s), reqs[1..]);
      ([s] + rest.0, rest.1)
  }

  // One request: consistent itself, grouped with the group it met and with the one it
  // leaves; the group only ever moves from 20 MHz to wide or keeps its offset.
  lemma OneSync(req: Setting, g: Setting)
    requires Consistent(g) && req.bw <= WIDTH_80
    ensures var s := Fitted(req, g); var g' := Widened(g, s);
            && Consistent(s) && Consistent(g') && g'.ch == g.ch == s.ch && s.bw <= g'.bw && g.bw <= g'.bw
            && Grouped(s, g) && Grouped(s, g') && (Wide(g) ==> g'.offset == g.offset)
            && s.bw <= Asked(req, g) && (g'.bw == g.bw || g'.bw == s.bw)
  {}

  // After any sequence of requests every setting agrees with the group as it ends and with
  // every other setting, none is wider than the group, the group has not narrowed nor
  // changed channel, and is no wider than its widest member or start.
  lemma {:induction false} AllGrouped(g: Setting, reqs: seq<Setting>)
    requires Consistent(g) && forall i :: 0 <= i < |reqs| ==> reqs[i].bw <= WIDTH_80
    ensures var (ss, end) := SyncAll(g, reqs);
            && Consistent(end) && end.ch == g.ch && end.bw >= g.bw && (Wide(g) ==> end.offset == g.offset)
            && (forall i :: 0 <= i < |ss| ==> Consistent(ss[i]) && Grouped(ss[i], end) && ss[i].bw <= end.bw)
            && (forall i, j :: 0 <= i < |ss| && 0 <= j < |ss| ==> Grouped(ss[i], ss[j]))
            && (end.bw == g.bw || exists i :: 0 <= i < |ss| && ss[i].bw == end.bw)
    decreases |reqs|
  {
    hide Fitted;
    if reqs != [] {
      var s := Fitted(reqs[0], g);
      OneSync(reqs[0], g);
      var g' := Widened(g, s);
      AllGrouped(g', reqs[1..]);
      var (rest, end) := SyncAll(g', reqs[1..]);
      var ss := [s] + rest;
      assert forall i :: 1 <= i < |ss| ==> ss[i] == rest[i - 1];
      if end.bw != g'.bw {
        var i :| 0 <= i < |rest| && rest[i].bw == end.bw;
        assert ss[i + 1].bw == end.bw;
      } else if end.bw != g.bw {
        assert ss[0].bw == end.bw;
      }
    }
  }

  // A wide setting gets a half that exists, except that a request bringing an offset of its
  // own keeps it on a channel without pairs as long as the group is still at 20 MHz.
  lemma WhenPlaced(req: Setting, g: Setting)
    requires Consistent(g) && Placed(g) && req.bw <= WIDTH_80
    ensures Placed(Fitted(req, g)) <==>
              !(req.bw != WIDTH_20 && g.bw == WIDTH_20 && !Pairable(g.ch) && req.offset != DONT_CARE)
  {}

  lemma {:induction false} PlacedRuns(g: Setting, reqs: seq<Setting>)
    requires Consistent(g) && Placed(g) && Pairable(g.ch)
    requires forall i :: 0 <= i < |reqs| ==> reqs[i].bw <= WIDTH_80
    ensures var (ss, end) := SyncAll(g, reqs);
            Placed(end) && forall i :: 0 <= i < |ss| ==> Placed(ss[i])
    decreases |reqs|
  {
    hide Fitted, Pairable, Fits;
    if reqs != [] {
      var s := Fitted(reqs[0], g);
      OneSync(reqs[0], g);
      WhenPlaced(reqs[0], g);
      PlacedRuns(Widened(g, s), reqs[1..]);
    }
  }

  // Channel 14 has no second half, yet a 40 MHz request with an offset goes through.
  lemma WideOnChannel14()
    ensures var s := Fitted(Setting(6, WIDTH_40, LOWER), Setting(14, WIDTH_20, DONT_CARE));
            Wide(s) && !Pairable(s.ch)
  {}
}
