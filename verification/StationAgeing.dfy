/** Ageing of associated stations: core/rtw_ap.c, `chk_sta_is_alive` and `expire_timeout_chk`, with
    neither CONFIG_ACTIVE_KEEP_ALIVE_CHECK nor CONFIG_TX_MCAST2UNI, and `wifi_spec` not 1. */
module StationAgeing {
  import opened Bytes

  const KEEP_ALIVE_TRYCNT: nat := 3
  const NR_XMITFRAME: nat := 256

  /** What ageing looks at.  `checking` is WIFI_STA_ALIVE_CHK_STATE, `sleeping` WIFI_SLEEP_STATE, `ampdu`
      that HT and A-MPDU are both on, and `candidate` the ADDBA candidate bit of priority 1. */
  datatype Sta = Sta(expireTo: nat, tries: nat, checking: bool, sleeping: bool, ampdu: bool, candidate: bool)

  datatype Fate = Kept(sta: Sta) | Gone

  // ----- one sweep over one station

  function Counted(e: nat, s: Sta, alive: bool): Sta {
    if alive || s.expireTo == 0 then s.(expireTo := e, tries := 0) else s.(expireTo := s.expireTo - 1)
  }

  /** An expiry settles the outcome of the previous probe first. */
  function Settled(s: Sta): Sta {
    if 0 < s.tries <= KEEP_ALIVE_TRYCNT then (if s.checking then s.(checking := false) else s.(tries := 0))
    else if s.tries > KEEP_ALIVE_TRYCNT && !s.checking then s.(tries := 0)
    else s
  }

  predicate CanProbe(s: Sta) {
    s.ampdu && !s.candidate && !s.checking
  }

  function Probed(s: Sta): Sta {
    s.(candidate := true, expireTo := if s.sleeping then 2 else 1, checking := true, tries := s.tries + 1)
  }

  function GivenUp(s: Sta): Sta {
    if s.tries > 0 && s.checking then s.(tries := 0, checking := false) else s
  }

  /** What becomes of a station whose time has run out; whether the beacon announces traffic to rouse it. */
  function Expired(e: nat, s: Sta): (Fate, bool) {
    var t := Settled(s);
    if CanProbe(t) then (Kept(Probed(t)), false)
    else
      var u := GivenUp(t);
      if u.sleeping && !u.checking then (Kept(u.(expireTo := e, checking := true)), true) else (Gone, false)
  }

  function Swept(e: nat, s: Sta, alive: bool): Fate {
    var c := Counted(e, s, alive);
    if c.expireTo == 0 then Expired(e, c).0 else Kept(c)
  }

  predicate Roused(e: nat, s: Sta, alive: bool) {
    var c := Counted(e, s, alive);
    c.expireTo == 0 && Expired(e, c).1
  }

  // ----- runs

  /** What the environment decides between two sweeps: whether frames came in, and what the candidate bit
      is by then; its timer may have cleared it, and traffic may have set it. */
  datatype Interval = Interval(alive: bool, candidate: bool)

  function After(e: nat, s: Sta, run: seq<Interval>): Fate {
    if run == [] then Kept(s)
    else
      var n := |run| - 1;
      match After(e, s, run[..n])
      case Gone => Gone
      case Kept(t) => Swept(e, t.(candidate := run[n].candidate), run[n].alive)
  }

  predicate Silent(run: seq<Interval>) {
    forall i :: 0 <= i < |run| ==> !run[i].alive
  }

  /** The sweep finds a sleeping station in the middle of its probes with no way to send the next one, and
      gives it a whole new period without counting a try. */
  predicate Stalls(s: Sta, candidate: bool) {
    && s.sleeping && s.checking && s.expireTo == 1 && 0 < s.tries <= KEEP_ALIVE_TRYCNT
    && !(s.ampdu && !candidate)
  }

  function Stalled(e: nat, s: Sta, run: seq<Interval>): nat {
    if run == [] then 0
    else
      var n := |run| - 1;
      Stalled(e, s, run[..n]) +
      match After(e, s, run[..n])
      case Gone => 0
      case Kept(t) => if Stalls(t, run[n].candidate) then 1 else 0
  }

  // ----- the time bounds

  /** The probes an awake station still gets, one sweep each. */
  function ProbesLeft(s: Sta): nat {
    if !s.checking then KEEP_ALIVE_TRYCNT + 1
    else if 0 < s.tries <= KEEP_ALIVE_TRYCNT then KEEP_ALIVE_TRYCNT + 1 - s.tries
    else 0
  }

  /** How many silent sweeps are left at most, if no stall comes between. */
  function Patience(e: nat, s: Sta): nat {
    s.expireTo + if s.sleeping
                 then 2 * ProbesLeft(s) + if s.checking && s.tries == 0 then 0 else e
                 else ProbesLeft(s)
  }

  /** `n` sweeps with `k` stalls have left a station of that patience at `f`; folded, to keep the case
      analysis of a sweep out of inductions. */
  ghost predicate RunDown(e: nat, s: Sta, n: nat, k: nat, f: Fate) {
    forall i {:trigger Look(i)} :: Look(i) ==>
      match f
      case Gone => true
      case Kept(t) =>
        && t.expireTo > 0 && t.sleeping == s.sleeping && t.ampdu == s.ampdu
        && Patience(e, t) + n <= Patience(e, s) + e * k
  }

  lemma SilentSweep(e: nat, s: Sta, c: bool)
    requires e > 0 && s.expireTo > 0
    ensures RunDown(e, s, 1, if Stalls(s, c) then 1 else 0, Swept(e, s.(candidate := c), false))
  {
  }

  lemma RunDownMore(e: nat, s: Sta, t: Sta, n: nat, k: nat, j: nat, f: Fate)
    requires RunDown(e, s, n, k, Kept(t)) && RunDown(e, t, 1, j, f)
    ensures RunDown(e, s, n + 1, k + j, f)
  {
    assert Look(0);
    assert e * (k + j) == e * k + e * j;
  }

  lemma StillThere(e: nat, s: Sta, n: nat, k: nat, t: Sta)
    requires RunDown(e, s, n, k, Kept(t))
    ensures t.expireTo > 0 && t.sleeping == s.sleeping && n < Patience(e, s) + e * k
  {
    assert Look(0);
  }

  /** However the environment sets the candidate bit, the patience with a silent station runs down. */
  lemma {:induction false} PatienceRunsDown(e: nat, s: Sta, run: seq<Interval>)
    requires e > 0 && s.expireTo > 0 && Silent(run)
    ensures RunDown(e, s, |run|, Stalled(e, s, run), After(e, s, run))
  {
    if run != [] {
      var n := |run| - 1;
      PatienceRunsDown(e, s, run[..n]);
      match After(e, s, run[..n])
      case Gone =>
      case Kept(t) =>
        var k, c := Stalled(e, s, run[..n]), run[n].candidate;
        StillThere(e, s, n, k, t);
        SilentSweep(e, t, c);
        RunDownMore(e, s, t, n, k, if Stalls(t, c) then 1 else 0, Swept(e, t.(candidate := c), false));
    }
  }

  /** A silent station whose time has just been set to `e` is removed within `e + 4` sweeps if it is awake;
      a sleeping one within `2 * e + 8`, and `e` more for every stall. */
  lemma SilentIsRemoved(e: nat, s: Sta, run: seq<Interval>)
    requires e > 0 && s.expireTo == e && Silent(run)
    requires |run| >= if s.sleeping then 2 * e + 8 + e * Stalled(e, s, run) else e + 4
    ensures After(e, s, run) == Gone
  {
    PatienceRunsDown(e, s, run);
    match After(e, s, run)
    case Gone =>
    case Kept(t) =>
      StillThere(e, s, |run|, Stalled(e, s, run), t);
      if !s.sleeping {
        AwakeNeverStalls(e, s, run);
      }
  }

  lemma {:induction false} AwakeNeverStalls(e: nat, s: Sta, run: seq<Interval>)
    requires e > 0 && s.expireTo > 0 && Silent(run) && !s.sleeping
    ensures Stalled(e, s, run) == 0
  {
    if run != [] {
      var n := |run| - 1;
      AwakeNeverStalls(e, s, run[..n]);
      PatienceRunsDown(e, s, run[..n]);
      match After(e, s, run[..n])
      case Gone =>
      case Kept(t) => StillThere(e, s, n, Stalled(e, s, run[..n]), t);
    }
  }

  // ----- when the bound for sleeping stations holds

  /** A sleeping station on its way: either it has used up its patience exactly, or it went straight into
      its last period without a probe. */
  ghost predicate OnTime(e: nat, s: Sta, n: nat, k: nat, f: Fate) {
    forall i {:trigger Look(i)} :: Look(i) ==>
      match f
      case Gone => k == 0 || n >= Patience(e, s) + e * k
      case Kept(t) =>
        && t.expireTo > 0 && t.sleeping
        && (if t.tries == 0 && t.checking && k == 0 then true
            else Patience(e, t) + n == Patience(e, s) + e * k && (t.checking || k == 0))
  }

  /** A silent sweep over a sleeping station: whether it is exactly on time afterwards, or in its last
      period. */
  ghost predicate SleepSwept(e: nat, t: Sta, stall: bool, f: Fate) {
    var last := t.tries == 0 && t.checking;
    match f
    case Gone => last && t.expireTo == 1 && !stall
    case Kept(u) =>
      && u.expireTo > 0 && u.sleeping && (stall ==> t.checking) && (last ==> !stall)
      && (t.checking ==> u.checking)
      && if last || (!t.checking && u.checking && u.tries == 0) then u.tries == 0 && u.checking && (last ==> Patience(e, u) + 1 == Patience(e, t))
         else Patience(e, u) + 1 == Patience(e, t) + if stall then e else 0
  }

  lemma SleepStep(e: nat, t: Sta, c: bool)
    requires e > 0 && t.expireTo > 0 && t.sleeping
    ensures SleepSwept(e, t, Stalls(t, c), Swept(e, t.(candidate := c), false))
  {
  }

  lemma OnTimeStep(e: nat, s: Sta, n: nat, k: nat, t: Sta, stall: bool, f: Fate)
    requires e > 0 && OnTime(e, s, n, k, Kept(t)) && SleepSwept(e, t, stall, f)
    ensures OnTime(e, s, n + 1, if stall then k + 1 else k, f)
  {
    assert Look(0);
    assert e * (k + 1) == e * k + e;
  }

  lemma OnTimeSleeps(e: nat, s: Sta, n: nat, k: nat, t: Sta)
    requires OnTime(e, s, n, k, Kept(t))
    ensures t.expireTo > 0 && t.sleeping
  {
    assert Look(0);
  }

  lemma OnTimeGone(e: nat, s: Sta, n: nat, k: nat)
    requires OnTime(e, s, n, k, Gone)
    ensures OnTime(e, s, n + 1, k, Gone)
  {
    assert Look(0);
  }

  lemma {:induction false} StaysOnTime(e: nat, s: Sta, run: seq<Interval>)
    requires e > 0 && s.expireTo > 0 && s.sleeping && Silent(run)
    ensures OnTime(e, s, |run|, Stalled(e, s, run), After(e, s, run))
  {
    if run != [] {
      var n := |run| - 1;
      StaysOnTime(e, s, run[..n]);
      match After(e, s, run[..n])
      case Gone => OnTimeGone(e, s, n, Stalled(e, s, run[..n]));
      case Kept(t) =>
        var c, k := run[n].candidate, Stalled(e, s, run[..n]);
        OnTimeSleeps(e, s, n, k, t);
        SleepStep(e, t, c);
        OnTimeStep(e, s, n, k, t, Stalls(t, c), Swept(e, t.(candidate := c), false));
        LastSweep(e, s, run, t);
    }
  }

  lemma LastSweep(e: nat, s: Sta, run: seq<Interval>, t: Sta)
    requires run != [] && After(e, s, run[..|run| - 1]) == Kept(t)
    ensures var n := |run| - 1;
            && After(e, s, run) == Swept(e, t.(candidate := run[n].candidate), run[n].alive)
            && Stalled(e, s, run) == (if Stalls(t, run[n].candidate) then Stalled(e, s, run[..n]) + 1 else Stalled(e, s, run[..n]))
  {
  }

  lemma RemovedIffNeverStalled(e: nat, s: Sta, run: seq<Interval>)
    requires e > 0 && s.expireTo == e && s.tries == 0 && s.sleeping && Silent(run) && |run| == 2 * e + 8
    ensures After(e, s, run) == Gone <==> Stalled(e, s, run) == 0
  {
    if Stalled(e, s, run) == 0 {
      SilentIsRemoved(e, s, run);
    } else {
      StaysOnTime(e, s, run);
      if s.checking {
        CheckedNeverStalls(e, s, run);
      }
      NotYet(e, s, |run|, Stalled(e, s, run), After(e, s, run));
    }
  }

  lemma NotYet(e: nat, s: Sta, n: nat, k: nat, f: Fate)
    requires e > 0 && OnTime(e, s, n, k, f) && n < Patience(e, s) + e && k > 0
    ensures f != Gone
  {
    assert Look(0);
    assert e * k >= e by {
      assert e * k == e + e * (k - 1);
    }
  }

  /** In its last period a station is not probed any more. */
  lemma {:induction false} CheckedNeverStalls(e: nat, s: Sta, run: seq<Interval>)
    requires e > 0 && s.expireTo > 0 && s.tries == 0 && s.checking && s.sleeping && Silent(run)
    ensures Stalled(e, s, run) == 0
    ensures After(e, s, run).Kept? ==>
              var t := After(e, s, run).sta; t.tries == 0 && t.checking && t.sleeping && t.expireTo > 0
  {
    if run != [] {
      CheckedNeverStalls(e, s, run[..|run| - 1]);
    }
  }

  function Expiry(e: nat, t: Sta, candidate: bool): Fate {
    Expired(e, t.(expireTo := 0, candidate := candidate)).0
  }

  lemma CountsDown(e: nat, t: Sta, c: bool)
    requires t.expireTo > 0
    ensures Swept(e, t.(candidate := c), false)
            == if t.expireTo == 1 then Expiry(e, t, c) else Kept(t.(expireTo := t.expireTo - 1, candidate := c))
  {
  }

  lemma NextSweep(e: nat, s: Sta, run: seq<Interval>, p: nat, t: Sta)
    requires p < |run| && After(e, s, run[..p]) == Kept(t)
    ensures After(e, s, run[..p + 1]) == Swept(e, t.(candidate := run[p].candidate), run[p].alive)
    ensures Stalls(t, run[p].candidate) ==> Stalled(e, s, run[..p + 1]) > 0
  {
    assert run[..p + 1][..p] == run[..p];
  }

  lemma {:induction false} StalledByThen(e: nat, s: Sta, run: seq<Interval>, p: nat)
    requires p <= |run|
    ensures Stalled(e, s, run) >= Stalled(e, s, run[..p])
    ensures After(e, s, run[..p]) == Gone ==> After(e, s, run) == Gone
  {
    if p == |run| {
      assert run[..p] == run;
    } else {
      assert run[..|run| - 1][..p] == run[..p];
      StalledByThen(e, s, run[..|run| - 1], p);
    }
  }

  /** A station counts down silently until its time runs out; only then the candidate bit matters. */
  lemma {:induction false} ToExpiry(e: nat, s: Sta, run: seq<Interval>, p: nat, t: Sta, q: nat)
    requires Silent(run) && t.expireTo > 0 && q == p + t.expireTo <= |run| && After(e, s, run[..p]) == Kept(t)
    ensures After(e, s, run[..q]) == Expiry(e, t, run[q - 1].candidate)
    ensures Stalls(t.(expireTo := 1), run[q - 1].candidate) ==> Stalled(e, s, run) > 0
    decreases q - p
  {
    NextSweep(e, s, run, p, t);
    CountsDown(e, t, run[p].candidate);
    if t.expireTo == 1 {
      StalledByThen(e, s, run, q);
    } else {
      ToExpiry(e, s, run, p + 1, t.(expireTo := t.expireTo - 1, candidate := run[p].candidate), q);
    }
  }

  /** In its last period a sleeping station is not probed any more, and is removed at the end of it. */
  lemma LastPeriod(e: nat, s: Sta, run: seq<Interval>, p: nat, t: Sta, q: nat)
    requires Silent(run) && t.expireTo > 0 && q == p + t.expireTo <= |run| && After(e, s, run[..p]) == Kept(t)
    requires t.tries == 0 && t.checking
    ensures After(e, s, run) == Gone
  {
    ToExpiry(e, s, run, p, t, q);
    StalledByThen(e, s, run, q);
  }

  lemma FirstExpiry(e: nat, t: Sta, c: bool)
    requires t.tries == 0 && t.sleeping && !t.checking
    ensures Expiry(e, t, c) == Kept(if t.ampdu && !c then Probing(t, 1) else t.(expireTo := e, checking := true, candidate := c))
  {
  }

  /** The station two sweeps before the outcome of the probe of that number is looked at. */
  function Probing(t: Sta, n: nat): Sta {
    t.(expireTo := 2, tries := n, checking := true, candidate := true)
  }

  /** The probes that follow the first, two sweeps apart: each is sent if the candidate bit is clear by
      then, and with the bit set the station stalls. */
  lemma NextProbe(e: nat, s: Sta, run: seq<Interval>, p: nat, t: Sta, n: nat)
    requires Silent(run) && p + 2 <= |run| && After(e, s, run[..p]) == Kept(Probing(t, n))
    requires t.ampdu && t.sleeping && 0 < n <= KEEP_ALIVE_TRYCNT
    ensures if run[p + 1].candidate then Stalled(e, s, run) > 0 else After(e, s, run[..p + 2]) == Kept(Probing(t, n + 1))
  {
    ToExpiry(e, s, run, p, Probing(t, n), p + 2);
  }

  /** After the last probe the station is given one more period. */
  lemma GivesUp(e: nat, s: Sta, run: seq<Interval>, p: nat, t: Sta)
    requires e > 0 && Silent(run) && p + 2 + e <= |run| && t.sleeping
    requires After(e, s, run[..p]) == Kept(Probing(t, KEEP_ALIVE_TRYCNT + 1))
    ensures After(e, s, run) == Gone
  {
    var u := Probing(t, KEEP_ALIVE_TRYCNT + 1);
    ToExpiry(e, s, run, p, u, p + 2);
    LastPeriod(e, s, run, p + 2, u.(expireTo := e, tries := 0, candidate := run[p + 1].candidate), p + 2 + e);
  }

  lemma ThreeProbes(e: nat, s: Sta, run: seq<Interval>)
    requires Silent(run) && |run| >= e + 6 && s.ampdu && s.sleeping && After(e, s, run[..e]) == Kept(Probing(s, 1))
    ensures if run[e + 1].candidate || run[e + 3].candidate || run[e + 5].candidate then Stalled(e, s, run) > 0
            else After(e, s, run[..e + 6]) == Kept(Probing(s, KEEP_ALIVE_TRYCNT + 1))
  {
    NextProbe(e, s, run, e, s, 1);
    if !run[e + 1].candidate {
      NextProbe(e, s, run, e + 2, s, 2);
      if !run[e + 3].candidate {
        NextProbe(e, s, run, e + 4, s, 3);
      }
    }
  }

  lemma ProbedIsRemovedIff(e: nat, s: Sta, run: seq<Interval>)
    requires e > 0 && s.expireTo == e && s.tries == 0 && s.sleeping && Silent(run) && |run| == 2 * e + 8
    requires s.ampdu && After(e, s, run[..e]) == Kept(Probing(s, 1))
    ensures After(e, s, run) == Gone <==> !(run[e + 1].candidate || run[e + 3].candidate || run[e + 5].candidate)
  {
    ThreeProbes(e, s, run);
    if run[e + 1].candidate || run[e + 3].candidate || run[e + 5].candidate {
      RemovedIffNeverStalled(e, s, run);
    } else {
      GivesUp(e, s, run, e + 6, s);
    }
  }

  /** A silent sleeping station, as a reset leaves it, is removed within `2 * e + 8` sweeps exactly when it
      cannot be probed, or the first probe is prevented, or none of the three that follow is. */
  lemma SleepingIsRemovedIff(e: nat, s: Sta, run: seq<Interval>)
    requires e > 0 && s.expireTo == e && s.tries == 0 && s.sleeping && Silent(run) && |run| == 2 * e + 8
    ensures After(e, s, run) == Gone
            <==> !s.ampdu || s.checking || run[e - 1].candidate
                 || !(run[e + 1].candidate || run[e + 3].candidate || run[e + 5].candidate)
  {
    assert run[..0] == [];
    if s.checking {
      LastPeriod(e, s, run, 0, s, e);
    } else {
      var c := run[e - 1].candidate;
      ToExpiry(e, s, run, 0, s, e);
      FirstExpiry(e, s, c);
      if s.ampdu && !c {
        ProbedIsRemovedIff(e, s, run);
      } else {
        LastPeriod(e, s, run, e, s.(expireTo := e, checking := true, candidate := c), 2 * e);
      }
    }
  }

  /** Left alone, a sleeping station whose candidate bit nobody clears after the first probe is never
      removed. */
  lemma {:induction false} NeverRemoved(e: nat, run: seq<Interval>)
    requires e > 0 && Silent(run) && forall i :: 0 <= i < |run| ==> run[i].candidate == (i >= e)
    ensures var s := Sta(e, 0, false, true, true, false);
            && After(e, s, run).Kept?
            && var t := After(e, s, run).sta;
               if |run| < e then t == s.(expireTo := e - |run|)
               else t == s.(expireTo := t.expireTo, tries := 1, checking := true, candidate := true) && t.expireTo > 0
  {
    if run != [] {
      NeverRemoved(e, run[..|run| - 1]);
    }
  }

  /** The bounds are reached when the candidate bit is clear at every sweep. */
  lemma {:induction false} BoundsAreReached(e: nat, s: Sta, run: seq<Interval>)
    requires e > 0 && s.expireTo > 0 && s.ampdu && Silent(run) && |run| < Patience(e, s)
    requires forall i :: 0 <= i < |run| ==> !run[i].candidate
    ensures After(e, s, run).Kept?
    ensures var t := After(e, s, run).sta; t.expireTo > 0 && t.ampdu && Patience(e, t) + |run| == Patience(e, s)
  {
    if run != [] {
      var n := |run| - 1;
      BoundsAreReached(e, s, run[..n]);
      ClearSweep(e, After(e, s, run[..n]).sta);
    }
  }

  lemma ClearSweep(e: nat, s: Sta)
    requires e > 0 && s.expireTo > 0 && s.ampdu
    ensures match Swept(e, s.(candidate := false), false)
            case Gone => Patience(e, s) == 1
            case Kept(t) => t.expireTo > 0 && t.ampdu && Patience(e, t) + 1 == Patience(e, s)
  {
  }

  // ----- no removal too early

  /** The silent sweeps at the end of a run. */
  function Quiet(run: seq<Interval>): (q: nat)
    ensures q <= |run| && forall i :: |run| - q <= i < |run| ==> !run[i].alive
  {
    if run == [] || run[|run| - 1].alive then 0 else Quiet(run[..|run| - 1]) + 1
  }

  lemma {:induction false} TimeOrQuiet(e: nat, s: Sta, run: seq<Interval>)
    requires e > 0 && s.expireTo == e
    ensures After(e, s, run).Kept? ==> After(e, s, run).sta.expireTo + Quiet(run) >= e
  {
    if run != [] {
      TimeOrQuiet(e, s, run[..|run| - 1]);
    }
  }

  /** The sweep that removes a station comes at the end of at least `e` silent ones in a row. */
  lemma NeverTooEarly(e: nat, s: Sta, run: seq<Interval>)
    requires e > 0 && s.expireTo == e && run != []
    requires After(e, s, run[..|run| - 1]).Kept? && After(e, s, run) == Gone
    ensures Quiet(run) >= e
  {
    TimeOrQuiet(e, s, run[..|run| - 1]);
  }

  // ----- from the last frame on

  /** A run can be cut anywhere. */
  lemma {:induction false} AfterBoth(e: nat, s: Sta, a: seq<Interval>, b: seq<Interval>)
    ensures After(e, s, a + b) == match After(e, s, a) case Gone => Gone case Kept(t) => After(e, t, b)
  {
    if b == [] {
      assert a + b == a;
    } else {
      var n := |b| - 1;
      assert (a + b)[..|a + b| - 1] == a + b[..n] && (a + b)[|a + b| - 1] == b[n];
      AfterBoth(e, s, a, b[..n]);
    }
  }

  /** A sweep that finds frames of the station gives it a full period and forgets its probes; whether it is under
      check does not change. */
  lemma AliveResets(e: nat, s: Sta, run: seq<Interval>)
    requires e > 0 && run != [] && run[|run| - 1].alive && After(e, s, run[..|run| - 1]).Kept?
    ensures var t := After(e, s, run[..|run| - 1]).sta;
            After(e, s, run) == Kept(Sta(e, 0, t.checking, t.sleeping, t.ampdu, run[|run| - 1].candidate))
  {
  }

  /** Counted from its last frame, whatever went before, a station that has fallen silent is gone after `e + 4`
      sweeps if it is awake, after `2 * e + 8` and `e` for every stall if it is asleep. */
  lemma SilentSinceFrameIsRemoved(e: nat, s: Sta, before: seq<Interval>, frame: Interval, silent: seq<Interval>)
    requires e > 0 && frame.alive && Silent(silent)
    requires match After(e, s, before + [frame])
             case Gone => true
             case Kept(t) => |silent| >= if t.sleeping then 2 * e + 8 + e * Stalled(e, t, silent) else e + 4
    ensures After(e, s, before + [frame] + silent) == Gone
  {
    var run := before + [frame];
    assert run[..|run| - 1] == before;
    AfterBoth(e, s, run, silent);
    if After(e, s, before).Kept? {
      AliveResets(e, s, run);
      SilentIsRemoved(e, After(e, s, run).sta, silent);
    }
  }

  // ----- exactly when an awake station goes

  /** The awake station in the `k`-th of its probes. */
  function AwakeProbing(s: Sta, k: nat): Sta {
    s.(expireTo := 1, tries := k, checking := true, candidate := true)
  }

  lemma AwakeExpiry(e: nat, s: Sta, c: bool)
    requires !s.sleeping
    ensures s.tries == 0 ==> Expiry(e, s, c) == if s.ampdu && !c && !s.checking then Kept(AwakeProbing(s, 1)) else Gone
    ensures s.checking && 0 < s.tries <= KEEP_ALIVE_TRYCNT ==>
              Expiry(e, s, c) == if s.ampdu && !c then Kept(AwakeProbing(s, s.tries + 1)) else Gone
    ensures s.checking && s.tries > KEEP_ALIVE_TRYCNT ==> Expiry(e, s, c) == Gone
  {
  }

  /** The candidate bit was clear at every sweep from number `e` to the last. */
  predicate AllClear(e: nat, run: seq<Interval>) {
    forall i :: 0 < e <= i + 1 <= |run| ==> !run[i].candidate
  }

  /** A silent awake station, as a reset leaves it, stays for its period, and then for at most four sweeps, one
      for each probe: exactly as long as it can be probed and the candidate bit is clear. */
  lemma {:induction false} AwakeIsKeptIff(e: nat, s: Sta, run: seq<Interval>)
    requires e > 0 && s.expireTo == e && s.tries == 0 && !s.sleeping && Silent(run)
    ensures After(e, s, run).Kept? <==> |run| < e || (|run| < e + 4 && s.ampdu && !s.checking && AllClear(e, run))
    ensures After(e, s, run).Kept? && |run| < e ==>
              After(e, s, run) == Kept(s.(expireTo := e - |run|, candidate := After(e, s, run).sta.candidate))
    ensures After(e, s, run).Kept? && |run| >= e ==> After(e, s, run) == Kept(AwakeProbing(s, |run| - e + 1))
  {
    if run != [] {
      var n := |run| - 1;
      AwakeIsKeptIff(e, s, run[..n]);
      AllClearMore(e, run);
      if After(e, s, run[..n]).Kept? {
        var t := After(e, s, run[..n]).sta;
        CountsDown(e, t, run[n].candidate);
        AwakeExpiry(e, t, run[n].candidate);
      }
    }
  }

  lemma AllClearMore(e: nat, run: seq<Interval>)
    requires e > 0 && run != []
    ensures var n := |run| - 1; AllClear(e, run) <==> AllClear(e, run[..n]) && (|run| >= e ==> !run[n].candidate)
  {
    var n := |run| - 1;
    assert forall i :: 0 <= i < n ==> run[..n][i] == run[i];
    if AllClear(e, run[..n]) && (|run| >= e ==> !run[n].candidate) {
      forall i | 0 < e <= i + 1 <= |run| ensures !run[i].candidate {
        if i < n {
          assert !run[..n][i].candidate;
        }
      }
    }
    if AllClear(e, run) {
      forall i | 0 < e <= i + 1 <= n ensures !run[..n][i].candidate {
        assert !run[i].candidate;
      }
    }
  }

  // ----- when a station is roused

  /** The beacon announces traffic for a station exactly in a sweep that gives a sleeping one a new period
      instead of the next probe: its time has run out, it cannot be probed now, and it is not in its last
      period. */
  lemma RousedIff(e: nat, s: Sta, alive: bool)
    requires e > 0 && s.expireTo > 0
    ensures Roused(e, s, alive)
            <==> !alive && s.expireTo == 1 && s.sleeping
                 && (if s.checking && s.tries == 0 then false
                     else if s.checking && s.tries > KEEP_ALIVE_TRYCNT then true
                     else !s.ampdu || s.candidate)
    ensures Roused(e, s, alive) ==> Swept(e, s, alive).Kept? && Swept(e, s, alive).sta.expireTo == e && Swept(e, s, alive).sta.checking
  {
  }

  predicate RousedAt(e: nat, s: Sta, run: seq<Interval>, k: nat) {
    && k < |run| && After(e, s, run[..k]).Kept?
    && Roused(e, After(e, s, run[..k]).sta.(candidate := run[k].candidate), run[k].alive)
  }

  lemma RousedBy(e: nat, s: Sta, run: seq<Interval>, n: nat, k: nat)
    requires n <= |run| && RousedAt(e, s, run[..n], k)
    ensures RousedAt(e, s, run, k)
  {
    assert run[..n][..k] == run[..k] && run[..n][k] == run[k];
  }

  /** A silent sleeping station gets into its last period by being roused, and goes at the end of it. */
  lemma SleepingSweep(e: nat, t: Sta, c: bool)
    requires e > 0 && t.expireTo > 0 && t.sleeping
    ensures match Swept(e, t.(candidate := c), false)
            case Gone => t.checking && t.tries == 0 && t.expireTo == 1
            case Kept(u) =>
              && u.sleeping && u.expireTo > 0
              && (u.checking && u.tries == 0 ==>
                    if t.expireTo > 1 then t.checking && t.tries == 0 && u.expireTo + 1 == t.expireTo
                    else u.expireTo == e && Roused(e, t.(candidate := c), false))
  {
  }

  /** A sleeping station is never removed without having been roused, a whole period before, since it was last
      not under check. */
  lemma {:induction false} RousedBeforeGone(e: nat, s: Sta, run: seq<Interval>) returns (k: nat)
    requires e > 0 && s.expireTo > 0 && s.sleeping && !s.checking && Silent(run) && After(e, s, run) == Gone
    ensures k + e < |run| && RousedAt(e, s, run, k)
    decreases |run|
  {
    var n := |run| - 1;
    if After(e, s, run[..n]) == Gone {
      k := RousedBeforeGone(e, s, run[..n]);
    } else {
      k := LastRoused(e, s, run[..n]);
      SleepingSweep(e, After(e, s, run[..n]).sta, run[n].candidate);
    }
    RousedBy(e, s, run, n, k);
  }

  lemma {:induction false} LastRoused(e: nat, s: Sta, run: seq<Interval>) returns (k: nat)
    requires e > 0 && s.expireTo > 0 && s.sleeping && !s.checking && Silent(run) && After(e, s, run).Kept?
    ensures var t := After(e, s, run).sta;
            && t.sleeping && t.expireTo > 0
            && (t.checking && t.tries == 0 ==> RousedAt(e, s, run, k) && k + 1 + e == |run| + t.expireTo)
    decreases |run|
  {
    k := 0;
    if run != [] {
      var n := |run| - 1;
      k := LastRoused(e, s, run[..n]);
      var t := After(e, s, run[..n]).sta;
      SleepingSweep(e, t, run[n].candidate);
      if t.expireTo == 1 {
        k := n;
      } else if RousedAt(e, s, run[..n], k) {
        RousedBy(e, s, run, n, k);
      }
    }
  }

  // ----- many stations, sweep after sweep

  /** The associated stations by association number. */
  type Table = map<nat, Sta>

  /** One sweep over all of them; `env` is what the environment decides for each before it. */
  function SweptTable(e: nat, t: Table, env: nat -> Interval): Table {
    map id | id in t && SweptIn(e, t[id], env(id)).Kept? :: SweptIn(e, t[id], env(id)).sta
  }

  function SweptIn(e: nat, s: Sta, i: Interval): Fate {
    Swept(e, s.(candidate := i.candidate), i.alive)
  }

  function TableAfter(e: nat, t: Table, series: seq<nat -> Interval>): Table {
    if series == [] then t else SweptTable(e, TableAfter(e, t, series[..|series| - 1]), series[|series| - 1])
  }

  /** What one station sees of the series. */
  function RunOf(series: seq<nat -> Interval>, id: nat): (run: seq<Interval>)
    ensures |run| == |series|
  {
    seq(|series|, i requires 0 <= i < |series| => series[i](id))
  }

  /** Every station goes its own way: it is in the table after the series exactly if it is kept, and as its own
      run leaves it. */
  lemma {:induction false} TableFollows(e: nat, t: Table, series: seq<nat -> Interval>, id: nat)
    ensures if id in t && After(e, t[id], RunOf(series, id)).Kept?
            then id in TableAfter(e, t, series) && TableAfter(e, t, series)[id] == After(e, t[id], RunOf(series, id)).sta
            else id !in TableAfter(e, t, series)
  {
    if series != [] {
      var n := |series| - 1;
      assert RunOf(series, id)[..n] == RunOf(series[..n], id);
      TableFollows(e, t, series[..n], id);
    }
  }

  /** So the bounds hold for all of them at once: after a series with no frames from the stations in `ids`,
      long enough for each, none of these is left. */
  lemma SilentStationsGo(e: nat, t: Table, series: seq<nat -> Interval>, ids: set<nat>)
    requires e > 0 && forall id :: id in ids && id in t ==>
               && t[id].expireTo == e && Silent(RunOf(series, id))
               && |series| >= if t[id].sleeping then 2 * e + 8 + e * Stalled(e, t[id], RunOf(series, id)) else e + 4
    ensures ids !! TableAfter(e, t, series).Keys
  {
    forall id | id in ids ensures id !in TableAfter(e, t, series) {
      TableFollows(e, t, series, id);
      if id in t {
        SilentIsRemoved(e, t[id], RunOf(series, id));
      }
    }
  }

  // ----- the station list

  /** A station as a sweep finds it; `queued` frames wait for it to wake up. */
  datatype Seen = Seen(sta: Sta, alive: bool, aid: nat, queued: nat)

  predicate Runs(e: nat, f: Seen) {
    Counted(e, f.sta, f.alive).expireTo > 0
  }

  predicate Stays(e: nat, f: Seen) {
    Swept(e, f.sta, f.alive).Kept?
  }

  /** What a sweep does to a station: folded, to keep the case analysis out of the loop over the list. */
  ghost predicate Aged(e: nat, f: Seen, stays: bool, running: bool, rouse: bool, now: Sta) {
    forall i {:trigger Look(i)} :: Look(i) ==>
      && stays == Stays(e, f) && running == Runs(e, f) && rouse == Roused(e, f.sta, f.alive)
      && (stays ==> now == Swept(e, f.sta, f.alive).sta)
  }

  /** The station is as the sweep leaves it, if it stays. */
  ghost predicate Done(e: nat, f: Seen, now: Sta) {
    forall i {:trigger Look(i)} :: Look(i) ==> Stays(e, f) ==> now == Swept(e, f.sta, f.alive).sta
  }

  lemma AgedIsDone(e: nat, f: Seen, stays: bool, running: bool, rouse: bool, now: Sta)
    requires Aged(e, f, stays, running, rouse, now)
    ensures Done(e, f, now)
  {
    assert Look(0);
  }

  class StaInfo {
    const aid: nat
    var expireTo: nat
    var keepAliveTrycnt: nat
    var aliveChk: bool
    var sleeping: bool
    var ampdu: bool
    var candidate: bool
    var rxDataPkts: nat
    var rxCtrlPkts: nat
    var lastRxDataPkts: nat
    var lastRxCtrlPkts: nat
    var sleepqLen: nat

    constructor (aid: nat, expireTo: nat)
      ensures this.aid == aid && View() == Sta(expireTo, 0, false, false, false, false) && !Alive()
    {
      this.aid, this.expireTo := aid, expireTo;
      keepAliveTrycnt, aliveChk, sleeping, ampdu, candidate := 0, false, false, false, false;
      rxDataPkts, rxCtrlPkts, lastRxDataPkts, lastRxCtrlPkts, sleepqLen := 0, 0, 0, 0, 0;
    }

    function Now(): Seen
      reads this
    {
      Seen(View(), Alive(), aid, sleepqLen)
    }

    function View(): Sta
      reads this
    {
      Sta(expireTo, keepAliveTrycnt, aliveChk, sleeping, ampdu, candidate)
    }

    predicate Alive()
      reads this
    {
      lastRxDataPkts + lastRxCtrlPkts != rxDataPkts + rxCtrlPkts
    }

    /** `chk_sta_is_alive` */
    method ChkStaIsAlive() returns (ret: bool)
      modifies this`lastRxDataPkts, this`lastRxCtrlPkts
      ensures ret == old(Alive()) && !Alive()
    {
      ret := false;
      if lastRxDataPkts + lastRxCtrlPkts != rxDataPkts + rxCtrlPkts {
        ret := true;
      }
      lastRxDataPkts := rxDataPkts;
      lastRxCtrlPkts := rxCtrlPkts;
    }

    /** What happens to the station when its time has run out. */
    method Expire(e: nat) returns (stays: bool, rouse: bool)
      modifies this`expireTo, this`keepAliveTrycnt, this`aliveChk, this`candidate
      ensures (if stays then Kept(View()) else Gone, rouse) == Expired(e, old(View()))
    {
      if keepAliveTrycnt > 0 && keepAliveTrycnt <= KEEP_ALIVE_TRYCNT {
        if aliveChk {
          aliveChk := false;
        } else {
          keepAliveTrycnt := 0;
        }
      } else if keepAliveTrycnt > KEEP_ALIVE_TRYCNT && !aliveChk {
        keepAliveTrycnt := 0;
      }
      if ampdu {
        var issued := candidate;
        if !issued {
          if !aliveChk {
            candidate := true;
            if sleeping {
              expireTo := 2;
            } else {
              expireTo := 1;
            }
            aliveChk := true;
            keepAliveTrycnt := keepAliveTrycnt + 1;
            return true, false;
          }
        }
      }
      if keepAliveTrycnt > 0 && aliveChk {
        keepAliveTrycnt := 0;
        aliveChk := false;
      }
      if sleeping {
        if !aliveChk {
          expireTo := e;
          aliveChk := true;
          return true, true;
        }
      }
      return false, false;
    }

    /** The body of the loop over the associated stations, up to the removal: whether the station stays,
        whether its time is still running, and whether the beacon is to rouse it. */
    method Age(e: nat) returns (stays: bool, running: bool, rouse: bool)
      modifies this
      ensures Aged(e, old(Now()), stays, running, rouse, View()) && (running ==> stays) && sleepqLen == old(sleepqLen)
    {
      var alive := ChkStaIsAlive();
      if alive || expireTo == 0 {
        expireTo := e;
        keepAliveTrycnt := 0;
      } else {
        expireTo := expireTo - 1;
      }
      if expireTo > 0 {
        return true, true, false;
      }
      stays, rouse := Expire(e);
      running := false;
    }
  }

  /** Those of the list that stay, or those that go. */
  function Chosen(e: nat, list: seq<StaInfo>, seen: seq<Seen>, stay: bool): seq<StaInfo>
    requires |seen| == |list|
  {
    if list == [] then []
    else
      var n := |list| - 1;
      Chosen(e, list[..n], seen[..n], stay) + if Stays(e, seen[n]) == stay then [list[n]] else []
  }

  /** Station `n` is woken up: its frames take more than its share of the transmit frames, of which less than
      half a share is free.  A share goes by the number of stations still on the list. */
  predicate Wakes(e: nat, l: seq<StaInfo>, seen: seq<Seen>, free: nat, n: nat)
    requires n < |l| == |seen|
  {
    var share := NR_XMITFRAME / (|Chosen(e, l[..n], seen[..n], true)| + (|l| - n));
    Runs(e, seen[n]) && seen[n].queued > share && free < share / 2
  }

  function Woken(e: nat, l: seq<StaInfo>, seen: seq<Seen>, free: nat, n: nat): seq<StaInfo>
    requires n <= |l| == |seen|
  {
    if n == 0 then [] else Woken(e, l, seen, free, n - 1) + if Wakes(e, l, seen, free, n - 1) then [l[n - 1]] else []
  }

  /** Without divisions: with `cnt` stations on the list its frames are more than 256 shared by `cnt`, and what is
      free makes, shared, not even half of that. */
  lemma WakesIff(e: nat, l: seq<StaInfo>, seen: seq<Seen>, free: nat, n: nat, cnt: nat)
    requires n < |l| == |seen| && cnt == |Chosen(e, l[..n], seen[..n], true)| + (|l| - n)
    ensures Wakes(e, l, seen, free, n)
            <==> Runs(e, seen[n]) && seen[n].queued * cnt > NR_XMITFRAME && 2 * cnt * (free + 1) <= NR_XMITFRAME
  {
    QuotientLess(NR_XMITFRAME, cnt, seen[n].queued);
    QuotientLess(NR_XMITFRAME, cnt, 2 * (free + 1));
    assert 2 * (free + 1) * cnt == 2 * cnt * (free + 1);
  }

  lemma QuotientLess(a: nat, d: nat, q: nat)
    requires d > 0
    ensures a / d < q <==> a < q * d
  {
    var r := a / d;
    assert a == r * d + a % d;
    if r < q {
      assert r + 1 <= q;
      Grows(r + 1, q, d);
    } else {
      Grows(q, r, d);
    }
  }

  lemma Grows(p: nat, q: nat, d: nat)
    requires p <= q
    ensures p * d <= q * d
  {
  }

  function RousedAids(e: nat, seen: seq<Seen>): set<nat> {
    set i | 0 <= i < |seen| && Roused(e, seen[i].sta, seen[i].alive) :: seen[i].aid
  }

  /** No station is twice on the list.  Folded. */
  ghost predicate Distinct(list: seq<StaInfo>) {
    forall k {:trigger Look(k)} :: Look(k) ==> forall i, j :: 0 <= i < j < |list| ==> list[i] != list[j]
  }

  lemma {:induction false} ChosenLength(e: nat, list: seq<StaInfo>, seen: seq<Seen>)
    requires |seen| == |list|
    ensures |Chosen(e, list, seen, true)| + |Chosen(e, list, seen, false)| == |list|
  {
    if list != [] {
      ChosenLength(e, list[..|list| - 1], seen[..|list| - 1]);
    }
  }

  /** The list after its station at `i` has been kept or taken off. */
  function Left(list: seq<StaInfo>, i: nat, stays: bool): seq<StaInfo>
    requires i < |list|
  {
    if stays then list else list[..i] + list[i + 1..]
  }

  class StaPriv {
    var asocList: seq<StaInfo>
    var asocListCnt: nat
    var expireTo: nat
    var timBitmap: set<nat>
    var freeXmitframeCnt: nat

    constructor (expireTo: nat)
      ensures Valid() && asocList == [] && this.expireTo == expireTo
    {
      asocList, asocListCnt, this.expireTo, timBitmap, freeXmitframeCnt := [], 0, expireTo, {}, 0;
    }

    ghost predicate Valid()
      reads this
    {
      Distinct(asocList) && asocListCnt == |asocList|
    }

    /** Association: a station that is not on the list goes to its tail, with a full period. */
    method Associate(psta: StaInfo)
      requires Valid()
      modifies this`asocList, this`asocListCnt, psta`expireTo
      ensures Valid()
      ensures asocList == if psta in old(asocList) then old(asocList) else old(asocList) + [psta]
      ensures psta.expireTo == if psta in old(asocList) then old(psta.expireTo) else expireTo
    {
      if psta !in asocList {
        psta.expireTo := expireTo;
        asocList := asocList + [psta];
        asocListCnt := asocListCnt + 1;
      }
    }

    /** What the loop does with the outcome for the station at `i`; the share of the transmit frames is
        computed by a division through `asocListCnt`. */
    method Settle(i: nat, psta: StaInfo, stays: bool, running: bool, rouse: bool, freed: seq<StaInfo>)
      returns (next: nat, nowFreed: seq<StaInfo>, wake: bool)
      requires i < |asocList| == asocListCnt && psta == asocList[i] && (running ==> stays)
      modifies this`asocList, this`asocListCnt, this`timBitmap
      ensures asocListCnt == |asocList| && timBitmap == if rouse then old(timBitmap) + {psta.aid} else old(timBitmap)
      ensures asocList == Left(old(asocList), i, stays) && next == (if stays then i + 1 else i)
      ensures nowFreed == if stays then freed else freed + [psta]
      ensures wake <==> running && psta.sleepqLen > NR_XMITFRAME / asocListCnt
                        && freeXmitframeCnt < NR_XMITFRAME / asocListCnt / 2
    {
      next, nowFreed, wake := i, freed, false;
      if rouse {
        timBitmap := timBitmap + {psta.aid};
      }
      if !stays {
        asocList := asocList[..i] + asocList[i + 1..];
        asocListCnt := asocListCnt - 1;
        nowFreed := freed + [psta];
      } else {
        if running {
          wake := psta.sleepqLen > NR_XMITFRAME / asocListCnt && freeXmitframeCnt < NR_XMITFRAME / asocListCnt / 2;
        }
        next := i + 1;
      }
    }

    /** One round of the loop in `expire_timeout_chk`: the station at `i`, number `n` of the list `l` as
        the sweep found it. */
    method SweepNext(i: nat, freed: seq<StaInfo>, woken: seq<StaInfo>,
                     ghost l: seq<StaInfo>, ghost seen: seq<Seen>, ghost n: nat, ghost tim0: set<nat>)
      returns (next: nat, nowFreed: seq<StaInfo>, nowWoken: seq<StaInfo>)
      requires i < |asocList| == asocListCnt && n < |l| == |seen| && Distinct(l)
      requires Progress(expireTo, l, seen, n, i, asocList, freed, tim0, timBitmap)
      requires asocList[i] == l[n] && SoFar(expireTo, l, seen, n)
      requires AreWoken(expireTo, l, seen, freeXmitframeCnt, n, woken)
      modifies this`asocList, this`asocListCnt, this`timBitmap, l[n]
      ensures asocListCnt == |asocList|
      ensures Progress(expireTo, l, seen, n + 1, next, asocList, nowFreed, tim0, timBitmap)
      ensures SoFar(expireTo, l, seen, n + 1)
      ensures AreWoken(expireTo, l, seen, freeXmitframeCnt, n + 1, nowWoken)
    {
      ghost var list, tim := asocList, timBitmap;
      SoFarIs(expireTo, l, seen, n);
      Others(l, n);
      var psta := asocList[i];
      var stays, running, rouse := psta.Age(expireTo);
      ghost var now := psta.View();
      AgedIsDone(expireTo, seen[n], stays, running, rouse, now);
      Share(expireTo, l, seen, n, i, asocList, freed, tim0, timBitmap, stays, running, rouse, now, freeXmitframeCnt, asocListCnt);
      var wake;
      next, nowFreed, wake := Settle(i, psta, stays, running, rouse, freed);
      nowWoken := if wake then woken + [psta] else woken;
      WokenMore(expireTo, l, seen, freeXmitframeCnt, n, wake, woken, nowWoken);
      ProgressMore(expireTo, l, seen, n, i, list, freed, tim0, tim, stays, running, rouse, now, next, asocList, nowFreed, timBitmap);
      SoFarIs(expireTo, l, seen, n + 1);
    }

    /** The loop over the associated stations, from the list `l`. */
    method SweepList(ghost l: seq<StaInfo>, ghost seen: seq<Seen>, ghost tim0: set<nat>) returns (freed: seq<StaInfo>, woken: seq<StaInfo>)
      requires asocListCnt == |asocList| && Distinct(l) && l == asocList && |seen| == |l| && tim0 == timBitmap && SoFar(expireTo, l, seen, 0)
      modifies this`asocList, this`asocListCnt, this`timBitmap, l
      ensures asocListCnt == |asocList| && SoFar(expireTo, l, seen, |l|)
      ensures Progress(expireTo, l, seen, |l|, |asocList|, asocList, freed, tim0, timBitmap)
      ensures AreWoken(expireTo, l, seen, freeXmitframeCnt, |l|, woken)
    {
      freed, woken := [], [];
      ghost var n := 0;
      var i: nat := 0;
      ProgressStarts(expireTo, l, seen, timBitmap);
      while i < |asocList|
        invariant asocListCnt == |asocList| && n <= |l|
        invariant Progress(expireTo, l, seen, n, i, asocList, freed, tim0, timBitmap)
        invariant SoFar(expireTo, l, seen, n) && AreWoken(expireTo, l, seen, freeXmitframeCnt, n, woken)
        decreases |l| - n
      {
        ProgressHere(expireTo, l, seen, n, i, asocList, freed, tim0, timBitmap);
        i, freed, woken := SweepNext(i, freed, woken, l, seen, n, tim0);
        n := n + 1;
      }
      ProgressDone(expireTo, l, seen, n, i, asocList, freed, tim0, timBitmap);
    }

    /** The second half of `expire_timeout_chk`; `seen` is what it finds on the list. */
    method ExpireTimeoutChk(ghost seen: seq<Seen>) returns (freed: seq<StaInfo>, woken: seq<StaInfo>)
      requires Valid()
      requires |seen| == |asocList| && forall i :: 0 <= i < |seen| ==> seen[i] == asocList[i].Now()
      modifies this`asocList, this`asocListCnt, this`timBitmap, asocList
      ensures Valid() && expireTo == old(expireTo)
      ensures asocList == Chosen(expireTo, old(asocList), seen, true)
      ensures freed == Chosen(expireTo, old(asocList), seen, false)
      ensures timBitmap == old(timBitmap) + RousedAids(expireTo, seen)
      ensures woken == Woken(expireTo, old(asocList), seen, freeXmitframeCnt, |seen|)
      ensures forall i :: 0 <= i < |seen| ==> Done(expireTo, seen[i], old(asocList)[i].View())
      ensures forall i :: 0 <= i < |seen| ==> (old(asocList)[i] in asocList <==> Stays(expireTo, seen[i]))
    {
      ghost var l, tim0 := asocList, timBitmap;
      SoFarStarts(expireTo, l, seen);
      freed, woken := SweepList(l, seen, tim0);
      ProgressEnds(expireTo, l, seen, asocList, freed, tim0, timBitmap);
      SoFarEnds(expireTo, l, seen);
      AllWoken(expireTo, l, seen, freeXmitframeCnt, woken);
      ChosenIff(expireTo, l, seen);
    }
  }

  /** After `n` stations of the list `l`: the cursor `i` stands behind those that stay.  Folded. */
  ghost predicate Progress(e: nat, l: seq<StaInfo>, seen: seq<Seen>, n: nat, i: nat, list: seq<StaInfo>, freed: seq<StaInfo>,
                           tim0: set<nat>, tim: set<nat>)
  {
    && n <= |l| == |seen|
    && forall x {:trigger Look(x)} :: Look(x) ==>
    && i == |Chosen(e, l[..n], seen[..n], true)|
    && list == Chosen(e, l[..n], seen[..n], true) + l[n..]
    && freed == Chosen(e, l[..n], seen[..n], false)
    && tim == tim0 + RousedAids(e, seen[..n])
  }

  /** The first `n` stations are as the sweep leaves them, the others as it found them.  Folded. */
  ghost predicate SoFar(e: nat, l: seq<StaInfo>, seen: seq<Seen>, n: nat)
    requires n <= |l| == |seen|
    reads l
  {
    forall x {:trigger Look(x)} :: Look(x) ==>
      && (forall j :: 0 <= j < n ==> Done(e, seen[j], l[j].View()))
      && (forall j :: n <= j < |l| ==> seen[j] == l[j].Now())
  }

  /** The answers of `Wakes` and `Woken`; folded. */
  ghost predicate IsWake(e: nat, l: seq<StaInfo>, seen: seq<Seen>, free: nat, n: nat, wake: bool) {
    n < |l| == |seen| && forall x {:trigger Look(x)} :: Look(x) ==> wake == Wakes(e, l, seen, free, n)
  }

  ghost predicate AreWoken(e: nat, l: seq<StaInfo>, seen: seq<Seen>, free: nat, n: nat, woken: seq<StaInfo>) {
    n <= |l| == |seen| && forall x {:trigger Look(x)} :: Look(x) ==> woken == Woken(e, l, seen, free, n)
  }

  lemma WokenMore(e: nat, l: seq<StaInfo>, seen: seq<Seen>, free: nat, n: nat, wake: bool, w: seq<StaInfo>, woken: seq<StaInfo>)
    requires AreWoken(e, l, seen, free, n, w) && IsWake(e, l, seen, free, n, wake)
    requires woken == if wake then w + [l[n]] else w
    ensures AreWoken(e, l, seen, free, n + 1, woken)
  {
    assert Look(0);
  }

  lemma AllWoken(e: nat, l: seq<StaInfo>, seen: seq<Seen>, free: nat, woken: seq<StaInfo>)
    requires |l| == |seen| && AreWoken(e, l, seen, free, |l|, woken)
    ensures woken == Woken(e, l, seen, free, |seen|)
  {
    assert Look(0);
  }

  lemma Others(l: seq<StaInfo>, n: nat)
    requires Distinct(l) && n < |l|
    ensures forall j :: 0 <= j < |l| && j != n ==> l[j] != l[n]
  {
    assert Look(0);
  }

  lemma SoFarStarts(e: nat, l: seq<StaInfo>, seen: seq<Seen>)
    requires |seen| == |l| && forall i :: 0 <= i < |seen| ==> seen[i] == l[i].Now()
    ensures SoFar(e, l, seen, 0)
  {
  }

  lemma SoFarIs(e: nat, l: seq<StaInfo>, seen: seq<Seen>, n: nat)
    requires n <= |l| == |seen|
    ensures SoFar(e, l, seen, n) <==>
            && (forall j :: 0 <= j < n ==> Done(e, seen[j], l[j].View()))
            && (forall j :: n <= j < |l| ==> seen[j] == l[j].Now())
  {
    assert Look(0);
  }

  lemma SoFarEnds(e: nat, l: seq<StaInfo>, seen: seq<Seen>)
    requires |l| == |seen| && SoFar(e, l, seen, |l|)
    ensures forall i :: 0 <= i < |seen| ==> Done(e, seen[i], l[i].View())
  {
    assert Look(0);
  }

  lemma ProgressStarts(e: nat, l: seq<StaInfo>, seen: seq<Seen>, tim0: set<nat>)
    requires |seen| == |l|
    ensures Progress(e, l, seen, 0, 0, l, [], tim0, tim0)
  {
  }

  lemma ProgressHere(e: nat, l: seq<StaInfo>, seen: seq<Seen>, n: nat, i: nat, list: seq<StaInfo>, freed: seq<StaInfo>,
                     tim0: set<nat>, tim: set<nat>)
    requires Progress(e, l, seen, n, i, list, freed, tim0, tim) && i < |list|
    ensures n < |l| && list[i] == l[n]
  {
    assert Look(0);
  }

  lemma ProgressMore(e: nat, l: seq<StaInfo>, seen: seq<Seen>, n: nat, i: nat, list: seq<StaInfo>, freed: seq<StaInfo>,
                     tim0: set<nat>, tim: set<nat>, stays: bool, running: bool, rouse: bool, now: Sta,
                     i': nat, list': seq<StaInfo>, freed': seq<StaInfo>, tim': set<nat>)
    requires Progress(e, l, seen, n, i, list, freed, tim0, tim) && i < |list| && n < |l|
    requires Aged(e, seen[n], stays, running, rouse, now)
    requires list' == Left(list, i, stays) && i' == (if stays then i + 1 else i)
    requires freed' == (if stays then freed else freed + [l[n]])
    requires tim' == (if rouse then tim + {seen[n].aid} else tim)
    ensures Progress(e, l, seen, n + 1, i', list', freed', tim0, tim')
  {
    assert Look(0);
    ChosenMore(e, l, seen, n, true, stays);
    ChosenMore(e, l, seen, n, false, stays);
    RousedMore(e, seen, n, rouse);
    LeftParts(Chosen(e, l[..n], seen[..n], true), l, n, stays);
  }

  /** The share goes by the count as it stands. */
  lemma Share(e: nat, l: seq<StaInfo>, seen: seq<Seen>, n: nat, i: nat, list: seq<StaInfo>, freed: seq<StaInfo>,
              tim0: set<nat>, tim: set<nat>, stays: bool, running: bool, rouse: bool, now: Sta, free: nat, cnt: nat)
    requires Progress(e, l, seen, n, i, list, freed, tim0, tim) && n < |l| == |seen| && i < |list|
    requires Aged(e, seen[n], stays, running, rouse, now) && cnt == |list|
    ensures Wakes(e, l, seen, free, n) <==> running && seen[n].queued > NR_XMITFRAME / cnt && free < NR_XMITFRAME / cnt / 2
  {
    assert Look(0);
  }

  lemma ChosenMore(e: nat, l: seq<StaInfo>, seen: seq<Seen>, n: nat, stay: bool, stays: bool)
    requires n < |l| == |seen| && stays == Stays(e, seen[n])
    ensures Chosen(e, l[..n + 1], seen[..n + 1], stay) ==
            Chosen(e, l[..n], seen[..n], stay) + if stays == stay then [l[n]] else []
  {
    assert l[..n + 1][..n] == l[..n] && seen[..n + 1][..n] == seen[..n];
  }

  lemma LeftParts(a: seq<StaInfo>, l: seq<StaInfo>, n: nat, stays: bool)
    requires n < |l|
    ensures Left(a + l[n..], |a|, stays) == (if stays then a + [l[n]] else a) + l[n + 1..]
  {
    assert l[n..] == [l[n]] + l[n + 1..];
  }

  lemma ProgressDone(e: nat, l: seq<StaInfo>, seen: seq<Seen>, n: nat, i: nat, list: seq<StaInfo>, freed: seq<StaInfo>,
                     tim0: set<nat>, tim: set<nat>)
    requires Progress(e, l, seen, n, i, list, freed, tim0, tim) && i >= |list|
    ensures n == |l| && i == |list|
  {
    assert Look(0);
  }

  lemma ProgressEnds(e: nat, l: seq<StaInfo>, seen: seq<Seen>, list: seq<StaInfo>, freed: seq<StaInfo>, tim0: set<nat>, tim: set<nat>)
    requires Progress(e, l, seen, |l|, |list|, list, freed, tim0, tim) && Distinct(l)
    ensures list == Chosen(e, l, seen, true) && freed == Chosen(e, l, seen, false)
    ensures tim == tim0 + RousedAids(e, seen) && Distinct(list)
  {
    assert Look(0);
    assert l[..|l|] == l && seen[..|l|] == seen;
    ChosenDistinct(e, l, seen);
  }

  lemma RousedMore(e: nat, seen: seq<Seen>, n: nat, rouse: bool)
    requires n < |seen| && rouse == Roused(e, seen[n].sta, seen[n].alive)
    ensures RousedAids(e, seen[..n + 1]) == RousedAids(e, seen[..n]) + if rouse then {seen[n].aid} else {}
  {
    assert forall i :: 0 <= i < n ==> seen[..n + 1][i] == seen[..n][i];
    assert seen[..n + 1][n] == seen[n];
  }

  lemma {:induction false} ChosenIff(e: nat, list: seq<StaInfo>, seen: seq<Seen>)
    requires |seen| == |list| && Distinct(list)
    ensures forall i :: 0 <= i < |list| ==> (list[i] in Chosen(e, list, seen, true) <==> Stays(e, seen[i]))
  {
    if list != [] {
      var n := |list| - 1;
      assert Look(0);
      ChosenDistinct(e, list[..n], seen[..n]);
      ChosenIff(e, list[..n], seen[..n]);
      assert forall i :: 0 <= i < n ==> list[i] == list[..n][i] && seen[i] == seen[..n][i];
    }
  }

  lemma {:induction false} ChosenDistinct(e: nat, list: seq<StaInfo>, seen: seq<Seen>)
    requires |seen| == |list| && Distinct(list)
    ensures Distinct(Chosen(e, list, seen, true))
    ensures forall x :: x in Chosen(e, list, seen, true) ==> x in list
  {
    if list != [] {
      var n := |list| - 1;
      ChosenDistinct(e, list[..n], seen[..n]);
      assert Look(0);
      assert list[n] !in list[..n];
    }
  }
}
