/** What the soft AP keeps about the abilities of its stations, and what the beacon tells of them:
    core/rtw_ap.c. */
module StationCaps {
  import opened Bytes

  // ----- flags and how many stations have them

  datatype Flag = NoShortPreamble | NonErp | NoShortSlot | NoGreenfield | NoHt | Only20MHz

  /** The `*_set` flags of a station. */
  datatype Flags = Flags(noShortPreamble: bool, nonErp: bool, noShortSlot: bool, noGreenfield: bool, noHt: bool, only20MHz: bool)
  {
    predicate Has(f: Flag) {
      match f
      case NoShortPreamble => noShortPreamble
      case NonErp => nonErp
      case NoShortSlot => noShortSlot
      case NoGreenfield => noGreenfield
      case NoHt => noHt
      case Only20MHz => only20MHz
    }

    function Put(f: Flag, on: bool): Flags {
      match f
      case NoShortPreamble => this.(noShortPreamble := on)
      case NonErp => this.(nonErp := on)
      case NoShortSlot => this.(noShortSlot := on)
      case NoGreenfield => this.(noGreenfield := on)
      case NoHt => this.(noHt := on)
      case Only20MHz => this.(only20MHz := on)
    }
  }

  const NONE := Flags(false, false, false, false, false, false)

  type Stations = map<nat, Flags>

  function FlagsOf(sta: Stations, id: nat): Flags {
    if id in sta then sta[id] else NONE
  }

  function With(sta: Stations, f: Flag): set<nat> {
    set id | id in sta && sta[id].Has(f)
  }

  /** How many stations have the flag.  Folded: the set of them comes into view only where a `Look` term
      does. */
  ghost function Count(sta: Stations, f: Flag): nat {
    assert IsCount(sta, f, |With(sta, f)|);
    var n: nat :| IsCount(sta, f, n);
    n
  }

  ghost predicate IsCount(sta: Stations, f: Flag, n: nat) {
    forall k {:trigger Look(k)} :: Look(k) ==> n == |With(sta, f)|
  }

  ghost predicate Present(sta: Stations, f: Flag) {
    Count(sta, f) > 0
  }

  lemma CountIs(sta: Stations, f: Flag)
    ensures Count(sta, f) == |With(sta, f)|
  {
    assert Look(0);
  }

  /** Changing one station changes every count by what its own flags change. */
  lemma CountChanges(sta: Stations, id: nat, flags: Flags, f: Flag)
    ensures Count(sta[id := flags], f) ==
            Count(sta, f) + (if flags.Has(f) then 1 else 0) - if FlagsOf(sta, id).Has(f) then 1 else 0
  {
    CountIs(sta, f);
    CountIs(sta[id := flags], f);
    WithChanges(sta, id, flags, f);
    var a := With(sta, f);
    assert |a + {id}| == |a| + if id in a then 0 else 1;
    assert |a - {id}| == |a| - if id in a then 1 else 0;
  }

  lemma WithChanges(sta: Stations, id: nat, flags: Flags, f: Flag)
    ensures With(sta[id := flags], f) == if flags.Has(f) then With(sta, f) + {id} else With(sta, f) - {id}
    ensures id in With(sta, f) <==> FlagsOf(sta, id).Has(f)
  {
  }

  lemma CountsChange(sta: Stations, id: nat, flags: Flags)
    ensures forall f :: Count(sta[id := flags], f) ==
              Count(sta, f) + (if flags.Has(f) then 1 else 0) - if FlagsOf(sta, id).Has(f) then 1 else 0
  {
    forall f
      ensures Count(sta[id := flags], f) ==
              Count(sta, f) + (if flags.Has(f) then 1 else 0) - if FlagsOf(sta, id).Has(f) then 1 else 0
    {
      CountChanges(sta, id, flags, f);
    }
  }

  /** The flag of one station set or cleared. */
  function Marked(sta: Stations, id: nat, f: Flag, on: bool): Stations {
    sta[id := FlagsOf(sta, id).Put(f, on)]
  }

  lemma CountMarked(sta: Stations, id: nat, f: Flag, on: bool, g: Flag)
    ensures Count(Marked(sta, id, f, on), g) ==
            Count(sta, g) + if g != f || on == FlagsOf(sta, id).Has(f) then 0 else if on then 1 else -1
  {
    CountChanges(sta, id, FlagsOf(sta, id).Put(f, on), g);
  }

  lemma CountsMarked(sta: Stations, id: nat, f: Flag, on: bool)
    ensures forall g :: Count(Marked(sta, id, f, on), g) ==
              Count(sta, g) + if g != f || on == FlagsOf(sta, id).Has(f) then 0 else if on then 1 else -1
  {
    forall g
      ensures Count(Marked(sta, id, f, on), g) ==
              Count(sta, g) + if g != f || on == FlagsOf(sta, id).Has(f) then 0 else if on then 1 else -1
    {
      CountMarked(sta, id, f, on, g);
    }
  }

  lemma MarkedSame(sta: Stations, id: nat, f: Flag)
    requires id in sta
    ensures Marked(sta, id, f, sta[id].Has(f)) == sta
  {
    assert sta[id].Put(f, sta[id].Has(f)) == sta[id];
  }

  lemma CountNone(f: Flag)
    ensures Count(map[], f) == 0
  {
    CountIs(map[], f);
  }

  /** What a station says of itself when it associates. */
  datatype Caps = Caps(shortPreamble: bool, nonErp: bool, shortSlot: bool, ht: bool, greenfield: bool, wide: bool)

  /** The flags that say what the station says. */
  function Described(c: Caps): Flags {
    Flags(!c.shortPreamble, c.nonErp, !c.shortSlot, c.ht && !c.greenfield, !c.ht, c.ht && !c.wide)
  }

  /** The flags after a join: the two about HT stations are set, but not taken back. */
  function Joining(flags: Flags, c: Caps): Flags {
    MarkedHt(Flags(!c.shortPreamble, c.nonErp, !c.shortSlot, flags.noGreenfield, flags.noHt, flags.only20MHz), c)
  }

  function MarkedHt(flags: Flags, c: Caps): Flags {
    flags.(noHt := !c.ht, noGreenfield := flags.noGreenfield || (c.ht && !c.greenfield),
           only20MHz := flags.only20MHz || (c.ht && !c.wide))
  }

  /** A station is described by its flags after a join, unless it joins again and has gained greenfield or
      40 MHz, or given up HT, since. */
  lemma JoinDescribesIff(flags: Flags, c: Caps)
    ensures Joining(flags, c) == Described(c)
            <==> (flags.noGreenfield ==> c.ht && !c.greenfield) && (flags.only20MHz ==> c.ht && !c.wide)
  {
  }

  // ----- the HT operation mode (section 7.3.2.57 of IEEE 802.11n-2009)

  const NON_GF_DEVS_PRESENT: bv16 := 4
  const NON_HT_STA_PRESENT: bv16 := 16
  const OP_MODE_MASK: bv16 := 3

  const OP_MODE_PURE: bv16 := 0
  const OP_MODE_MAY_BE_LEGACY_STAS: bv16 := 1
  const OP_MODE_20MHZ_HT_STA_ASSOCED: bv16 := 2
  const OP_MODE_MIXED: bv16 := 3

  /** The mode as its definition reads, from the stations alone. */
  function Recomputed(noGreenfield: bool, noHt: bool, only20MHz: bool, olbcHt: bool, wide: bool): bv16 {
    (if noGreenfield then NON_GF_DEVS_PRESENT else 0)
    | (if noHt || olbcHt then NON_HT_STA_PRESENT else 0)
    | (if noHt || noGreenfield then OP_MODE_MIXED
       else if wide && only20MHz then OP_MODE_20MHZ_HT_STA_ASSOCED
       else if olbcHt then OP_MODE_MAY_BE_LEGACY_STAS
       else OP_MODE_PURE)
  }

  /** Bit by bit, as the standard names them. */
  lemma ModeBits(noGreenfield: bool, noHt: bool, only20MHz: bool, olbcHt: bool, wide: bool)
    ensures var m := Recomputed(noGreenfield, noHt, only20MHz, olbcHt, wide);
            && (m & 4 != 0 <==> noGreenfield) && (m & 16 != 0 <==> noHt || olbcHt) && m & !23 == 0
            && (m & 3 == 3 <==> noHt || noGreenfield)
            && (m & 3 == 2 <==> !noHt && !noGreenfield && wide && only20MHz)
            && (m & 3 == 1 <==> !noHt && !noGreenfield && !(wide && only20MHz) && olbcHt)
  {
  }

  /** With `ht_option` TRUE the mode is never written and stays 0: right exactly while there is nothing to
      protect. */
  lemma UnwrittenModeIsRightIff(noGreenfield: bool, noHt: bool, only20MHz: bool, olbcHt: bool, wide: bool)
    ensures Recomputed(noGreenfield, noHt, only20MHz, olbcHt, wide) == 0
            <==> !noGreenfield && !noHt && !olbcHt && !(wide && only20MHz)
  {
  }

  // ----- the ERP element (section 7.3.2.13 of IEEE 802.11-2007)

  const NON_ERP_PRESENT: bv8 := 1
  const USE_PROTECTION: bv8 := 2
  const BARKER_PREAMBLE_MODE: bv8 := 4

  /** The octet that `update_bcn_erpinfo_ie` writes; it asks whether there is exactly one non-ERP station. */
  function ErpInfo(erp: bv8, nonErp: nat, noShortPreamble: nat): bv8 {
    var e := if nonErp == 1 then erp | (NON_ERP_PRESENT | USE_PROTECTION) else erp & 0xFC;
    if noShortPreamble > 0 then e | BARKER_PREAMBLE_MODE else e & 0xFB
  }

  predicate Protects(erp: bv8, on: bool) {
    erp & (NON_ERP_PRESENT | USE_PROTECTION) == if on then NON_ERP_PRESENT | USE_PROTECTION else 0
  }

  predicate Barker(erp: bv8) {
    erp & BARKER_PREAMBLE_MODE != 0
  }

  lemma ErpInfoBits(erp: bv8, nonErp: nat, noShortPreamble: nat)
    ensures Protects(ErpInfo(erp, nonErp, noShortPreamble), nonErp == 1)
    ensures Barker(ErpInfo(erp, nonErp, noShortPreamble)) <==> noShortPreamble > 0
    ensures ErpInfo(erp, nonErp, noShortPreamble) & 0xF8 == erp & 0xF8
  {
  }

  // ----- runs

  datatype Event = Join(id: nat, caps: Caps) | Leave(id: nat)

  function Happened(sta: Stations, ev: Event): Stations {
    match ev
    case Join(id, caps) => sta[id := Joining(FlagsOf(sta, id), caps)]
    case Leave(id) => sta[id := NONE]
  }

  /** The ERP octet is written when the first non-ERP station comes and when the last one goes. */
  ghost function NextErp(sta: Stations, now: Stations, erp: bv8): bv8 {
    if Present(sta, NonErp) != Present(now, NonErp) then ErpInfo(erp, Count(now, NonErp), Count(now, NoShortPreamble)) else erp
  }

  function StationsAfter(sta: Stations, run: seq<Event>): Stations {
    if run == [] then sta else Happened(StationsAfter(sta, run[..|run| - 1]), run[|run| - 1])
  }

  ghost function ErpAfter(sta: Stations, erp: bv8, run: seq<Event>): bv8 {
    if run == [] then erp
    else
      var n := |run| - 1;
      NextErp(StationsAfter(sta, run[..n]), StationsAfter(sta, run), ErpAfter(sta, erp, run[..n]))
  }

  lemma CountOfEvent(sta: Stations, ev: Event, f: Flag)
    ensures -1 <= Count(Happened(sta, ev), f) - Count(sta, f) <= 1
  {
    match ev
    case Join(id, caps) => CountChanges(sta, id, Joining(FlagsOf(sta, id), caps), f);
    case Leave(id) => CountChanges(sta, id, NONE, f);
  }

  /** Though the writer asks for exactly one non-ERP station: over every run the beacon asks for protection
      exactly while there is a non-ERP station, if it did so to begin with. */
  lemma {:induction false} ProtectionFollowsStations(sta: Stations, erp: bv8, run: seq<Event>)
    requires Protects(erp, Present(sta, NonErp))
    ensures Protects(ErpAfter(sta, erp, run), Present(StationsAfter(sta, run), NonErp))
  {
    if run != [] {
      var n := |run| - 1;
      ProtectionFollowsStations(sta, erp, run[..n]);
      var b, a := StationsAfter(sta, run[..n]), StationsAfter(sta, run);
      CountOfEvent(b, run[n], NonErp);
      ErpInfoBits(ErpAfter(sta, erp, run[..n]), Count(a, NonErp), Count(a, NoShortPreamble));
    }
  }

  ghost predicate BarkerRight(sta: Stations, erp: bv8, run: seq<Event>) {
    Barker(ErpAfter(sta, erp, run)) <==> Present(StationsAfter(sta, run), NoShortPreamble)
  }

  /** Whether there are stations with the flag changes with event `k` of the run. */
  ghost predicate Edge(sta: Stations, run: seq<Event>, k: nat, f: Flag)
    requires k < |run|
  {
    Present(StationsAfter(sta, run[..k]), f) != Present(StationsAfter(sta, run[..k + 1]), f)
  }

  /** The Barker bit, on the other hand, is written only together with the protection bits: right to begin
      with, it stays right all along a run exactly if the stations without short preambles come and go only
      together with non-ERP ones. */
  lemma BarkerRightIff(sta: Stations, erp: bv8, run: seq<Event>)
    requires BarkerRight(sta, erp, [])
    ensures (forall k :: 0 <= k <= |run| ==> BarkerRight(sta, erp, run[..k]))
            <==> forall k :: 0 <= k < |run| && Edge(sta, run, k, NoShortPreamble) ==> Edge(sta, run, k, NonErp)
  {
    BarkerRightUpTo(sta, erp, run, |run|);
  }

  lemma {:induction false} BarkerRightUpTo(sta: Stations, erp: bv8, run: seq<Event>, n: nat)
    requires BarkerRight(sta, erp, []) && n <= |run|
    ensures (forall k :: 0 <= k <= n ==> BarkerRight(sta, erp, run[..k]))
            <==> forall k :: 0 <= k < n && Edge(sta, run, k, NoShortPreamble) ==> Edge(sta, run, k, NonErp)
  {
    if n == 0 {
      assert run[..0] == [];
    } else {
      BarkerRightUpTo(sta, erp, run, n - 1);
      if BarkerRight(sta, erp, run[..n - 1]) {
        BarkerStep(sta, erp, run, n - 1);
      }
    }
  }

  /** An event keeps a right Barker bit right exactly if it writes the octet or need not. */
  lemma BarkerStep(sta: Stations, erp: bv8, run: seq<Event>, n: nat)
    requires n < |run| && BarkerRight(sta, erp, run[..n])
    ensures BarkerRight(sta, erp, run[..n + 1]) <==> (Edge(sta, run, n, NoShortPreamble) ==> Edge(sta, run, n, NonErp))
  {
    assert run[..n + 1][..n] == run[..n];
    var now := StationsAfter(sta, run[..n + 1]);
    ErpInfoBits(ErpAfter(sta, erp, run[..n]), Count(now, NonErp), Count(now, NoShortPreamble));
  }

  /** It goes wrong with the first station that cannot do short preambles but is an ERP one. */
  lemma BarkerExample(caps: Caps)
    requires !caps.shortPreamble && !caps.nonErp
    ensures !Barker(ErpAfter(map[], 0, [Join(1, caps)])) && Present(StationsAfter(map[], [Join(1, caps)]), NoShortPreamble)
  {
    var none: Stations := map[];
    var run := [Join(1, caps)];
    assert run[..0] == [];
    var now := Happened(none, run[0]);
    assert StationsAfter(none, run) == now;
    CountChanges(none, 1, Joining(NONE, caps), NonErp);
    CountChanges(none, 1, Joining(NONE, caps), NoShortPreamble);
    CountNone(NonErp);
    CountNone(NoShortPreamble);
    assert ErpAfter(none, 0, []) == 0;
  }

  // ----- the access point

  const ALL: byte := 0xFF
  const ERP_INFO: byte := 42
  const HT_CAPABILITY: byte := 45
  const HT_ADD_INFO: byte := 61

  class AccessPoint {
    // which `*_set` flags each station has
    var sta: Stations
    var numStaNoShortPreamble: int
    var numStaNonErp: int
    var numStaNoShortSlotTime: int
    var numStaHtNoGf: int
    var numStaNoHt: int
    var numStaHt20MHz: int
    var htOpMode: bv16
    var olbcHt: bool
    var htOption: bool
    const wide: bool
    const above11b: bool
    const bstartBss: bool
    const erpEnable: bool
    const hasErp: bool
    var erp: bv8
    // the elements the beacon was updated for
    var updates: seq<byte>

    /** `start_ap_mode` */
    constructor (htOption: bool, wide: bool, above11b: bool, bstartBss: bool, erpEnable: bool, hasErp: bool, erp: bv8)
      ensures Valid() && sta == map[] && this.htOption == htOption && this.erp == erp && !olbcHt
      ensures this.wide == wide && this.above11b == above11b && this.bstartBss == bstartBss
      ensures this.erpEnable == erpEnable && this.hasErp == hasErp
    {
      sta := map[];
      numStaNoShortPreamble, numStaNonErp, numStaNoShortSlotTime := 0, 0, 0;
      numStaHtNoGf, numStaNoHt, numStaHt20MHz := 0, 0, 0;
      htOpMode, olbcHt := 0, false;
      this.htOption, this.wide, this.above11b, this.bstartBss := htOption, wide, above11b, bstartBss;
      this.erpEnable, this.hasErp, this.erp, updates := erpEnable, hasErp, erp, [];
      new;
      forall f ensures Count(map[], f) == 0 {
        CountNone(f);
      }
    }

    function Number(f: Flag): int
      reads this`numStaNoShortPreamble, this`numStaNonErp, this`numStaNoShortSlotTime, this`numStaHtNoGf,
            this`numStaNoHt, this`numStaHt20MHz
    {
      match f
      case NoShortPreamble => numStaNoShortPreamble
      case NonErp => numStaNonErp
      case NoShortSlot => numStaNoShortSlotTime
      case NoGreenfield => numStaHtNoGf
      case NoHt => numStaNoHt
      case Only20MHz => numStaHt20MHz
    }

    /** Every counter is the number of stations with its flag. */
    ghost predicate Counted()
      reads this`sta, this`numStaNoShortPreamble, this`numStaNonErp, this`numStaNoShortSlotTime, this`numStaHtNoGf,
            this`numStaNoHt, this`numStaHt20MHz
    {
      forall f :: Number(f) == Count(sta, f)
    }

    ghost predicate Valid()
      reads this
    {
      && Counted() && htOpMode & !(OP_MODE_MASK | NON_GF_DEVS_PRESENT | NON_HT_STA_PRESENT) == 0
      && (!htOption ==> htOpMode == Recomputed(Present(sta, NoGreenfield), Present(sta, NoHt), Present(sta, Only20MHz), olbcHt, wide))
    }

    /** The counter of one flag moves. */
    method Bump(f: Flag, d: int)
      modifies this`numStaNoShortPreamble, this`numStaNonErp, this`numStaNoShortSlotTime, this`numStaHtNoGf,
               this`numStaNoHt, this`numStaHt20MHz
      ensures forall g :: Number(g) == old(Number(g)) + if g == f then d else 0
    {
      match f
      case NoShortPreamble => numStaNoShortPreamble := numStaNoShortPreamble + d;
      case NonErp => numStaNonErp := numStaNonErp + d;
      case NoShortSlot => numStaNoShortSlotTime := numStaNoShortSlotTime + d;
      case NoGreenfield => numStaHtNoGf := numStaHtNoGf + d;
      case NoHt => numStaNoHt := numStaNoHt + d;
      case Only20MHz => numStaHt20MHz := numStaHt20MHz + d;
    }

    /** `psta->*_set = 1` and the counter with it. */
    method Enter(id: nat, f: Flag)
      requires Counted() && !FlagsOf(sta, id).Has(f)
      modifies this`sta, this`numStaNoShortPreamble, this`numStaNonErp, this`numStaNoShortSlotTime, this`numStaHtNoGf,
               this`numStaNoHt, this`numStaHt20MHz
      ensures Counted() && sta == Marked(old(sta), id, f, true)
    {
      CountsMarked(sta, id, f, true);
      sta := Marked(sta, id, f, true);
      Bump(f, 1);
    }

    /** `psta->*_set = 0` and the counter with it. */
    method Quit(id: nat, f: Flag)
      requires Counted() && FlagsOf(sta, id).Has(f)
      modifies this`sta, this`numStaNoShortPreamble, this`numStaNonErp, this`numStaNoShortSlotTime, this`numStaHtNoGf,
               this`numStaNoHt, this`numStaHt20MHz
      ensures Counted() && sta == Marked(old(sta), id, f, false)
    {
      CountsMarked(sta, id, f, false);
      sta := Marked(sta, id, f, false);
      Bump(f, -1);
    }

    /** `update_bcn_erpinfo_ie`; an ERP element without a body counts as none. */
    method UpdateBcnErpinfoIe()
      modifies this`erp
      ensures erp == if erpEnable && hasErp then ErpInfo(old(erp), if numStaNonErp == 1 then 1 else 0,
                                                         if numStaNoShortPreamble > 0 then 1 else 0)
                     else old(erp)
    {
      if !erpEnable {
        return;
      }
      if hasErp {
        if numStaNonErp == 1 {
          erp := erp | (NON_ERP_PRESENT | USE_PROTECTION);
        } else {
          erp := erp & !(NON_ERP_PRESENT | USE_PROTECTION);
        }
        if numStaNoShortPreamble > 0 {
          erp := erp | BARKER_PREAMBLE_MODE;
        } else {
          erp := erp & !BARKER_PREAMBLE_MODE;
        }
      }
    }

    /** `update_beacon`, as far as it touches the ERP element. */
    method UpdateBeacon(ie: byte)
      modifies this`erp, this`updates
      ensures updates == if bstartBss then old(updates) + [ie] else old(updates)
      ensures erp == if bstartBss && erpEnable && hasErp && ie == ERP_INFO
                     then ErpInfo(old(erp), if numStaNonErp == 1 then 1 else 0, if numStaNoShortPreamble > 0 then 1 else 0)
                     else old(erp)
    {
      if !bstartBss {
        return;
      }
      if ie == ERP_INFO {
        UpdateBcnErpinfoIe();
      }
      updates := updates + [ie];
    }

    /** A bit of the mode is set or cleared, if it is not what it should be. */
    method MarkPresent(bit: bv16, present: bool) returns (changed: bool)
      requires bit == NON_GF_DEVS_PRESENT || bit == NON_HT_STA_PRESENT
      modifies this`htOpMode
      ensures htOpMode == if present then old(htOpMode) | bit else old(htOpMode) & !bit
      ensures changed <==> htOpMode != old(htOpMode)
    {
      changed := false;
      if htOpMode & bit == 0 && present {
        htOpMode := htOpMode | bit;
        changed := true;
      } else if htOpMode & bit != 0 && !present {
        htOpMode := htOpMode & !bit;
        changed := true;
      }
    }

    /** `rtw_ht_operation_update`, from any mode without foreign bits: it leaves what the stations call for,
        and returns how many of the three parts it changed. */
    method RtwHtOperationUpdate() returns (opModeChanges: int)
      requires htOpMode & !(OP_MODE_MASK | NON_GF_DEVS_PRESENT | NON_HT_STA_PRESENT) == 0
      modifies this`htOpMode
      ensures htOpMode & !(OP_MODE_MASK | NON_GF_DEVS_PRESENT | NON_HT_STA_PRESENT) == 0
      ensures htOption ==> htOpMode == old(htOpMode) && opModeChanges == 0
      ensures !htOption ==> htOpMode == Recomputed(numStaHtNoGf != 0, numStaNoHt != 0, numStaHt20MHz != 0, olbcHt, wide)
      ensures opModeChanges == 0 <==> htOpMode == old(htOpMode)
      ensures 0 <= opModeChanges <= 3
    {
      opModeChanges := 0;
      if htOption {
        return;
      }
      var changed := MarkPresent(NON_GF_DEVS_PRESENT, numStaHtNoGf != 0);
      if changed {
        opModeChanges := opModeChanges + 1;
      }
      changed := MarkPresent(NON_HT_STA_PRESENT, numStaNoHt != 0 || olbcHt);
      if changed {
        opModeChanges := opModeChanges + 1;
      }
      var newOpMode: bv16 := 0;
      if numStaNoHt != 0 || htOpMode & NON_GF_DEVS_PRESENT != 0 {
        newOpMode := OP_MODE_MIXED;
      } else if wide && numStaHt20MHz != 0 {
        newOpMode := OP_MODE_20MHZ_HT_STA_ASSOCED;
      } else if olbcHt {
        newOpMode := OP_MODE_MAY_BE_LEGACY_STAS;
      } else {
        newOpMode := OP_MODE_PURE;
      }
      var curOpMode := htOpMode & OP_MODE_MASK;
      if curOpMode != newOpMode {
        htOpMode := htOpMode & !OP_MODE_MASK;
        htOpMode := htOpMode | newOpMode;
        opModeChanges := opModeChanges + 1;
      }
    }

    /** A flag that follows what the station says of itself; whether the first such station has come or the
        last one gone. */
    method Follow(id: nat, f: Flag, on: bool) returns (edge: bool)
      requires Counted() && id in sta
      modifies this`sta, this`numStaNoShortPreamble, this`numStaNonErp, this`numStaNoShortSlotTime, this`numStaHtNoGf,
               this`numStaNoHt, this`numStaHt20MHz
      ensures Counted() && sta == Marked(old(sta), id, f, on)
      ensures edge == (Present(sta, f) != Present(old(sta), f))
    {
      edge := false;
      CountMarked(sta, id, f, on, f);
      MarkedSame(sta, id, f);
      if on {
        if !FlagsOf(sta, id).Has(f) {
          Enter(id, f);
          edge := Number(f) == 1;
        }
      } else {
        if FlagsOf(sta, id).Has(f) {
          Quit(id, f);
          edge := Number(f) == 0;
        }
      }
    }

    /** `rtw_alloc_stainfo`: a station without flags. */
    method Allocate(id: nat)
      requires Valid() && id !in sta
      modifies this`sta
      ensures Valid() && sta == old(sta)[id := NONE]
    {
      CountsChange(sta, id, NONE);
      sta := sta[id := NONE];
    }

    /** The part of a join that is about HT: a flag that is set stays set. */
    method FollowHt(id: nat, caps: Caps)
      requires Counted() && id in sta
      modifies this`sta, this`numStaHtNoGf, this`numStaNoHt, this`numStaHt20MHz, this`numStaNoShortPreamble, this`numStaNonErp,
               this`numStaNoShortSlotTime
      ensures Counted() && sta == old(sta)[id := MarkedHt(FlagsOf(old(sta), id), caps)]
    {
      HtInSteps(sta, id, caps);
      var edge := Follow(id, NoHt, !caps.ht);
      if caps.ht {
        if !caps.greenfield {
          edge := Follow(id, NoGreenfield, true);
        }
        if !caps.wide {
          edge := Follow(id, Only20MHz, true);
        }
      }
    }

    /** The part of a leave that is about HT. */
    method LeaveHt(id: nat)
      requires Counted() && id in sta
      modifies this`sta, this`numStaHtNoGf, this`numStaNoHt, this`numStaHt20MHz, this`numStaNoShortPreamble, this`numStaNonErp,
               this`numStaNoShortSlotTime
      ensures Counted() && sta == Marked(Marked(Marked(old(sta), id, NoGreenfield, false), id, NoHt, false), id, Only20MHz, false)
    {
      var edge := Follow(id, NoGreenfield, false);
      edge := Follow(id, NoHt, false);
      edge := Follow(id, Only20MHz, false);
    }

    /** The HT mode is brought up to date, and the beacon with it. */
    method UpdateHt()
      requires Counted() && htOpMode & !(OP_MODE_MASK | NON_GF_DEVS_PRESENT | NON_HT_STA_PRESENT) == 0
      modifies this`htOpMode, this`erp, this`updates
      ensures Valid() && erp == old(erp) && (htOption ==> htOpMode == old(htOpMode))
    {
      var changes := RtwHtOperationUpdate();
      assert Number(NoGreenfield) == Count(sta, NoGreenfield) && Number(NoHt) == Count(sta, NoHt);
      assert Number(Only20MHz) == Count(sta, Only20MHz);
      if changes > 0 {
        UpdateBeacon(HT_CAPABILITY);
        UpdateBeacon(HT_ADD_INFO);
      }
    }

    /** Short preamble and short slot: the beacon is updated as a whole, except in an 11b-only network. */
    method FollowBasic(id: nat, f: Flag, on: bool) returns (beaconUpdated: bool)
      requires Counted() && id in sta
      modifies this`sta, this`numStaNoShortPreamble, this`numStaNonErp, this`numStaNoShortSlotTime, this`numStaHtNoGf,
               this`numStaNoHt, this`numStaHt20MHz, this`erp, this`updates
      ensures Counted() && sta == Marked(old(sta), id, f, on) && erp == old(erp)
      ensures beaconUpdated == (above11b && Present(old(sta), f) != Present(sta, f))
    {
      var edge := Follow(id, f, on);
      beaconUpdated := above11b && edge;
      if beaconUpdated {
        UpdateBeacon(ALL);
      }
    }

    /** Non-ERP: the ERP element of the beacon is updated. */
    method FollowErp(id: nat, on: bool) returns (beaconUpdated: bool)
      requires Counted() && id in sta
      modifies this`sta, this`numStaNoShortPreamble, this`numStaNonErp, this`numStaNoShortSlotTime, this`numStaHtNoGf,
               this`numStaNoHt, this`numStaHt20MHz, this`erp, this`updates
      ensures Counted() && sta == Marked(old(sta), id, NonErp, on)
      ensures erp == if bstartBss && erpEnable && hasErp then NextErp(old(sta), sta, old(erp)) else old(erp)
      ensures beaconUpdated == (Present(old(sta), NonErp) != Present(sta, NonErp))
    {
      beaconUpdated := Follow(id, NonErp, on);
      assert Number(NonErp) == Count(sta, NonErp) && Number(NoShortPreamble) == Count(sta, NoShortPreamble);
      if beaconUpdated {
        UpdateBeacon(ERP_INFO);
      }
    }

    /** `bss_cap_update_on_sta_join` */
    method BssCapUpdateOnStaJoin(id: nat, caps: Caps) returns (beaconUpdated: bool)
      requires Valid() && id in sta
      modifies this
      ensures Valid() && sta == Happened(old(sta), Join(id, caps)) && htOption == old(htOption) && olbcHt == old(olbcHt)
      ensures erp == if bstartBss && erpEnable && hasErp then NextErp(old(sta), sta, old(erp)) else old(erp)
      ensures beaconUpdated == Noticed(old(sta), sta, above11b)
    {
      JoinInSteps(sta, id, caps, erp, above11b);
      var preamble := FollowBasic(id, NoShortPreamble, !caps.shortPreamble);
      var nonErp := FollowErp(id, caps.nonErp);
      var slot := FollowBasic(id, NoShortSlot, !caps.shortSlot);
      FollowHt(id, caps);
      UpdateHt();
      beaconUpdated := preamble || nonErp || slot;
    }

    /** `bss_cap_update_on_sta_leave` */
    method BssCapUpdateOnStaLeave(id: nat) returns (beaconUpdated: bool)
      requires Valid() && id in sta
      modifies this
      ensures Valid() && sta == Happened(old(sta), Leave(id)) && htOption == old(htOption) && olbcHt == old(olbcHt)
      ensures erp == if bstartBss && erpEnable && hasErp then NextErp(old(sta), sta, old(erp)) else old(erp)
      ensures beaconUpdated == Noticed(old(sta), sta, above11b)
    {
      LeaveInSteps(sta, id, erp, above11b);
      var preamble := FollowBasic(id, NoShortPreamble, false);
      var nonErp := FollowErp(id, false);
      var slot := FollowBasic(id, NoShortSlot, false);
      LeaveHt(id);
      UpdateHt();
      beaconUpdated := preamble || nonErp || slot;
    }
  }

  /** A change in whether there are such stations at all. */
  ghost predicate Noticed(sta: Stations, now: Stations, above11b: bool) {
    || (above11b && Present(sta, NoShortPreamble) != Present(now, NoShortPreamble))
    || (Present(sta, NonErp) != Present(now, NonErp))
    || (above11b && Present(sta, NoShortSlot) != Present(now, NoShortSlot))
  }

  /** What a join changes about HT, flag by flag. */
  lemma HtInSteps(sta: Stations, id: nat, caps: Caps)
    ensures var s1 := Marked(sta, id, NoHt, !caps.ht);
            var s2 := if caps.ht && !caps.greenfield then Marked(s1, id, NoGreenfield, true) else s1;
            (if caps.ht && !caps.wide then Marked(s2, id, Only20MHz, true) else s2)
            == sta[id := MarkedHt(FlagsOf(sta, id), caps)]
  {
  }

  /** The three flags the beacon depends on are followed one by one, then those about HT: no step changes
      what another one looks at. */
  lemma InSteps(sta: Stations, id: nat, a: bool, b: bool, c: bool, s4: Stations, erp: bv8, above11b: bool)
    requires var s3 := Marked(Marked(Marked(sta, id, NoShortPreamble, a), id, NonErp, b), id, NoShortSlot, c);
             && s4 == s3[id := FlagsOf(s4, id)]
             && FlagsOf(s4, id).noShortPreamble == a && FlagsOf(s4, id).nonErp == b && FlagsOf(s4, id).noShortSlot == c
    ensures var s1 := Marked(sta, id, NoShortPreamble, a);
            var s2 := Marked(s1, id, NonErp, b);
            var s3 := Marked(s2, id, NoShortSlot, c);
            && NextErp(s1, s2, erp) == NextErp(sta, s4, erp)
            && Noticed(sta, s4, above11b) ==
                 ((above11b && Present(sta, NoShortPreamble) != Present(s1, NoShortPreamble))
                  || (Present(s1, NonErp) != Present(s2, NonErp))
                  || (above11b && Present(s2, NoShortSlot) != Present(s3, NoShortSlot)))
  {
    var s1 := Marked(sta, id, NoShortPreamble, a);
    var s2 := Marked(s1, id, NonErp, b);
    var s3 := Marked(s2, id, NoShortSlot, c);
    CountMarked(sta, id, NoShortPreamble, a, NonErp);
    CountMarked(sta, id, NoShortPreamble, a, NoShortSlot);
    CountMarked(s1, id, NonErp, b, NoShortPreamble);
    CountMarked(s1, id, NonErp, b, NoShortSlot);
    CountMarked(s2, id, NoShortSlot, c, NoShortPreamble);
    CountMarked(s2, id, NoShortSlot, c, NonErp);
    SameCount(s3, s4, id, NoShortPreamble);
    SameCount(s3, s4, id, NonErp);
    SameCount(s3, s4, id, NoShortSlot);
  }

  lemma SameCount(a: Stations, b: Stations, id: nat, f: Flag)
    requires b == a[id := FlagsOf(b, id)] && FlagsOf(a, id).Has(f) == FlagsOf(b, id).Has(f)
    ensures Count(b, f) == Count(a, f)
  {
    CountChanges(a, id, FlagsOf(b, id), f);
  }

  lemma JoinInSteps(sta: Stations, id: nat, caps: Caps, erp: bv8, above11b: bool)
    ensures var s1 := Marked(sta, id, NoShortPreamble, !caps.shortPreamble);
            var s2 := Marked(s1, id, NonErp, caps.nonErp);
            var s3 := Marked(s2, id, NoShortSlot, !caps.shortSlot);
            var s4 := s3[id := MarkedHt(FlagsOf(s3, id), caps)];
            && s4 == Happened(sta, Join(id, caps)) && NextErp(s1, s2, erp) == NextErp(sta, s4, erp)
            && Noticed(sta, s4, above11b) ==
                 ((above11b && Present(sta, NoShortPreamble) != Present(s1, NoShortPreamble))
                  || (Present(s1, NonErp) != Present(s2, NonErp))
                  || (above11b && Present(s2, NoShortSlot) != Present(s3, NoShortSlot)))
  {
    InSteps(sta, id, !caps.shortPreamble, caps.nonErp, !caps.shortSlot, Happened(sta, Join(id, caps)), erp, above11b);
  }

  lemma LeaveInSteps(sta: Stations, id: nat, erp: bv8, above11b: bool)
    ensures var s1 := Marked(sta, id, NoShortPreamble, false);
            var s2 := Marked(s1, id, NonErp, false);
            var s3 := Marked(s2, id, NoShortSlot, false);
            var s4 := Marked(Marked(Marked(s3, id, NoGreenfield, false), id, NoHt, false), id, Only20MHz, false);
            && s4 == Happened(sta, Leave(id)) && NextErp(s1, s2, erp) == NextErp(sta, s4, erp)
            && Noticed(sta, s4, above11b) ==
                 ((above11b && Present(sta, NoShortPreamble) != Present(s1, NoShortPreamble))
                  || (Present(s1, NonErp) != Present(s2, NonErp))
                  || (above11b && Present(s2, NoShortSlot) != Present(s3, NoShortSlot)))
  {
    InSteps(sta, id, false, false, false, Happened(sta, Leave(id)), erp, above11b);
  }
}
