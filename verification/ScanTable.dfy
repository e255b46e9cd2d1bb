/** The table of scanned networks, a fixed pool of nodes: core/rtw_mlme.c, with P2P off. */
module ScanTable {
  import opened Bytes

  const MAX_BSS_CNT: nat := 128
  const SCANQUEUE_LIFETIME: nat := 20000
  const WORD32: nat := 0x1_0000_0000
  const WORD64: nat := 0x1_0000_0000_0000_0000

  // ----- networks

  /** `WLAN_BSSID_EX`: `ies` is the whole element buffer, of which `ieLength` octets are in use. */
  datatype Bss = Bss(mac: seq<byte>, ssid: seq<byte>, ies: seq<byte>, ieLength: nat, strength: byte, quality: byte,
                     rssi: int, frameType: byte)
  {
    predicate WellFormed() {
      |mac| == 6 && |ssid| <= 32 && |ies| == 768 && ieLength <= 768
    }

    /** The capability octets follow time stamp and beacon interval. */
    predicate Ess()
      requires WellFormed()
    {
      ies[10] % 2 == 1
    }

    predicate Ibss()
      requires WellFormed()
    {
      ies[10] / 2 % 2 == 1
    }
  }

  /** `is_same_network` without P2P */
  predicate IsSameNetwork(src: Bss, dst: Bss)
    requires src.WellFormed() && dst.WellFormed()
  {
    && |src.ssid| == |dst.ssid| && src.mac == dst.mac
    && src.ssid[..|src.ssid|] == dst.ssid[..|src.ssid|]
    && src.Ibss() == dst.Ibss() && src.Ess() == dst.Ess()
  }

  /** Copying a description takes only the octets in use. */
  function Copied(dst: Bss, src: Bss): (b: Bss)
    requires dst.WellFormed() && src.WellFormed()
    ensures b.WellFormed()
  {
    src.(ies := src.ies[..src.ieLength] + dst.ies[src.ieLength..])
  }

  /** The capabilities are among the octets in use, or the place to copy to has the same ones. */
  predicate CapsCopied(dst: Bss, src: Bss)
    requires dst.WellFormed() && src.WellFormed()
  {
    src.ieLength > 10 || (dst.Ibss() == src.Ibss() && dst.Ess() == src.Ess())
  }

  /** Only then a copy is the same network. */
  lemma CopyIsSameIff(dst: Bss, src: Bss)
    requires dst.WellFormed() && src.WellFormed()
    ensures IsSameNetwork(Copied(dst, src), src) <==> CapsCopied(dst, src)
  {
  }

  lemma SameIsEquivalence(a: Bss, b: Bss, c: Bss)
    requires a.WellFormed() && b.WellFormed() && c.WellFormed()
    ensures IsSameNetwork(a, a) && (IsSameNetwork(a, b) ==> IsSameNetwork(b, a))
    ensures IsSameNetwork(a, b) && IsSameNetwork(b, c) ==> IsSameNetwork(a, c)
  {
  }

  // ----- signal quality

  /** Division of the C language. */
  function Quotient(a: int, b: int): int
    requires b > 0
  {
    if a >= 0 then a / b else -((-a) / b)
  }

  /** The sample counts one fifth. */
  function Smoothed(sample: int, history: int): int {
    Quotient(sample + history * 4, 5)
  }

  /** Rounding towards zero included. */
  lemma SmoothedIsBetween(sample: int, history: int)
    ensures sample <= Smoothed(sample, history) <= history || history <= Smoothed(sample, history) <= sample
  {
  }

  /** The receiver's figures for the access point we are linked to. */
  datatype Link = Unlinked | Linked(current: Bss, strength: byte, quality: byte)

  const WRONG_CHANNEL: byte := 101

  function Updated(dst: Bss, src: Bss, link: Link, updateIe: bool): (b: Bss)
    requires dst.WellFormed() && src.WellFormed() && (link.Linked? ==> link.current.WellFormed())
    ensures b.WellFormed()
  {
    var ours := link.Linked? && IsSameNetwork(link.current, src);
    var base := if updateIe then Copied(dst, src) else dst;
    base.(strength := if ours then link.strength
                      else if src.quality == WRONG_CHANNEL then dst.strength
                      else Smoothed(src.strength, dst.strength),
          quality := if ours then link.quality
                     else if src.quality == WRONG_CHANNEL then dst.quality
                     else Smoothed(src.quality, dst.quality),
          rssi := if src.quality == WRONG_CHANNEL then dst.rssi else Smoothed(src.rssi, dst.rssi))
  }

  /** Probe responses (3) win over beacons (1), and nothing is taken from probe requests (2); the test on
      the lengths of the elements comes first and is always overridden. */
  predicate UpdateIe(dst: Bss, src: Bss) {
    src.frameType != 2 && src.frameType >= dst.frameType
  }

  /** A description entered anew. */
  function Entered(dst: Bss, src: Bss): (b: Bss)
    requires dst.WellFormed() && src.WellFormed()
    ensures b.WellFormed()
  {
    var b := Copied(dst, src);
    if b.quality == WRONG_CHANNEL then b.(quality := 0) else b
  }

  // ----- what a node holds of a report

  /** The description `b` is the report's: who it is and, of the elements, the octets in use; behind them stands
      what the node held before. */
  predicate HoldsReport(b: Bss, was: Bss, target: Bss)
    requires b.WellFormed() && was.WellFormed() && target.WellFormed()
  {
    && b.mac == target.mac && b.ssid == target.ssid && b.frameType == target.frameType && b.ieLength == target.ieLength
    && b.ies[..target.ieLength] == target.ies[..target.ieLength]
    && b.ies[target.ieLength..] == was.ies[target.ieLength..]
  }

  /** Nothing but the signal has changed. */
  predicate KeepsElements(b: Bss, was: Bss) {
    b == was.(strength := b.strength, quality := b.quality, rssi := b.rssi)
  }

  /** A fifth of the sample and four fifths of the history, the fraction cut off. */
  predicate Averages(r: int, sample: int, history: int) {
    var x := sample + 4 * history;
    if x >= 0 then 5 * r <= x < 5 * r + 5 else 5 * r - 5 < x <= 5 * r
  }

  lemma SmoothedAverages(sample: int, history: int)
    ensures Averages(Smoothed(sample, history), sample, history)
  {
  }

  /** The signal after a refresh.  Strength and quality of our own access point are the receiver's; what was not
      received on the right channel says nothing. */
  predicate SignalRefreshed(b: Bss, was: Bss, target: Bss, link: Link)
    requires target.WellFormed() && (link.Linked? ==> link.current.WellFormed())
  {
    var heard := target.quality != WRONG_CHANNEL;
    && (if link.Linked? && IsSameNetwork(link.current, target) then b.strength == link.strength && b.quality == link.quality
        else if heard then Averages(b.strength, target.strength, was.strength) && Averages(b.quality, target.quality, was.quality)
        else b.strength == was.strength && b.quality == was.quality)
    && (if heard then Averages(b.rssi, target.rssi, was.rssi) else b.rssi == was.rssi)
  }

  /** The signal of a network entered anew. */
  predicate SignalEntered(b: Bss, target: Bss) {
    && b.strength == target.strength && b.rssi == target.rssi
    && b.quality == if target.quality == WRONG_CHANNEL then 0 else target.quality
  }

  lemma EnteredHoldsReport(was: Bss, target: Bss)
    requires was.WellFormed() && target.WellFormed()
    ensures HoldsReport(Entered(was, target), was, target) && SignalEntered(Entered(was, target), target)
  {
    var n := target.ieLength;
    assert (target.ies[..n] + was.ies[n..])[..n] == target.ies[..n] && (target.ies[..n] + was.ies[n..])[n..] == was.ies[n..];
  }

  /** A refresh takes the elements from anything but a probe request (2) and not after a probe response (3) from
      a beacon (1). */
  lemma UpdatedHoldsReport(was: Bss, target: Bss, link: Link)
    requires was.WellFormed() && target.WellFormed() && (link.Linked? ==> link.current.WellFormed())
    ensures var b := Updated(was, target, link, UpdateIe(was, target));
            && (if target.frameType != 2 && target.frameType >= was.frameType then HoldsReport(b, was, target)
                else KeepsElements(b, was))
            && SignalRefreshed(b, was, target, link)
  {
    var n := target.ieLength;
    assert (target.ies[..n] + was.ies[n..])[..n] == target.ies[..n] && (target.ies[..n] + was.ies[n..])[n..] == was.ies[n..];
    SmoothedAverages(target.strength, was.strength);
    SmoothedAverages(target.quality, was.quality);
    SmoothedAverages(target.rssi, was.rssi);
  }

  /** Entered, it is the same network as before, and as different from all others. */
  lemma EnteredDiffers(was: Bss, target: Bss)
    requires was.WellFormed() && target.WellFormed() && CapsCopied(was, target)
    ensures IsSameNetwork(Entered(was, target), target)
    ensures forall n: Bss {:trigger IsSameNetwork(n, target)} :: n.WellFormed() && !IsSameNetwork(n, target) ==>
              !IsSameNetwork(n, Entered(was, target)) && !IsSameNetwork(Entered(was, target), n)
  {
  }

  lemma UpdatedIsSame(dst: Bss, src: Bss, link: Link, updateIe: bool)
    requires dst.WellFormed() && src.WellFormed() && (link.Linked? ==> link.current.WellFormed())
    requires IsSameNetwork(dst, src)
    ensures IsSameNetwork(Updated(dst, src, link, updateIe), dst)
  {
  }

  // ----- time

  /** `time_after` on words: the difference wraps and is taken as signed. */
  predicate TimeAfter(a: nat, b: nat, word: nat)
    requires word > 0
  {
    (b - a) % word >= word / 2
  }

  /** What `rtw_get_current_time` keeps of the time. */
  function Stamp(time: nat): nat {
    time % WORD32
  }

  /** With 32-bit words the comparison is right for any two times less than half the range apart. */
  lemma TimeAfter32(p: nat, q: nat)
    requires -0x8000_0000 < p - q < 0x8000_0000
    ensures TimeAfter(Stamp(p), Stamp(q), WORD32) <==> p > q
  {
    assert (Stamp(q) - Stamp(p)) % WORD32 == (q - p) % WORD32;
  }

  /** Exactly: for times less than the whole range apart it is right if they are less than half of it apart, or
      just half of it with the first one later. */
  lemma TimeAfter32Iff(p: nat, q: nat)
    requires p - q < WORD32 && q - p < WORD32
    ensures (TimeAfter(Stamp(p), Stamp(q), WORD32) <==> p > q)
            <==> if p > q then p - q <= WORD32 / 2 else q - p < WORD32 / 2
  {
    assert (Stamp(q) - Stamp(p)) % WORD32 == (q - p) % WORD32;
    if p > q {
      assert q - p == -1 * WORD32 + (q - p + WORD32);
    }
  }

  /** With 64-bit words it compares the stamps themselves: for times less than the whole range apart it is
      right exactly when the stamps have not wrapped in between. */
  lemma TimeAfter64Iff(p: nat, q: nat)
    requires p - q < WORD32 && q - p < WORD32
    ensures (TimeAfter(Stamp(p), Stamp(q), WORD64) <==> p > q) <==> p / WORD32 == q / WORD32
  {
    assert TimeAfter(Stamp(p), Stamp(q), WORD64) <==> Stamp(p) > Stamp(q);
    assert p == p / WORD32 * WORD32 + Stamp(p) && q == q / WORD32 * WORD32 + Stamp(q);
  }

  /** The loops that look for the oldest entry: a later one must be strictly older to be preferred. */
  function Oldest(stamps: seq<nat>, word: nat): (k: nat)
    requires stamps != [] && word > 0
    ensures k < |stamps|
  {
    var n := |stamps| - 1;
    if n == 0 then 0
    else
      var k := Oldest(stamps[..n], word);
      if TimeAfter(stamps[k], stamps[n], word) then n else k
  }

  /** Wherever the comparison is right the loop finds an entry with the least time. */
  lemma {:induction false} OldestIsLeast(times: seq<nat>, stamps: seq<nat>, word: nat)
    requires times != [] && |stamps| == |times| && word > 0
    requires forall i, j :: 0 <= i < |times| && 0 <= j < |times| ==> (TimeAfter(stamps[i], stamps[j], word) <==> times[i] > times[j])
    ensures forall i :: 0 <= i < |times| ==> times[Oldest(stamps, word)] <= times[i]
  {
    var n := |stamps| - 1;
    if n > 0 {
      OldestIsLeast(times[..n], stamps[..n], word);
    }
  }

  /** With 32-bit words the oldest is found as long as no two entries are half the range apart. */
  lemma OldestIsLeast32(times: seq<nat>, stamps: seq<nat>)
    requires times != [] && |stamps| == |times| && forall i :: 0 <= i < |times| ==> stamps[i] == Stamp(times[i])
    requires forall i, j :: 0 <= i < |times| && 0 <= j < |times| ==> times[i] < times[j] + 0x8000_0000
    ensures forall i :: 0 <= i < |times| ==> times[Oldest(stamps, WORD32)] <= times[i]
  {
    forall i, j | 0 <= i < |times| && 0 <= j < |times|
      ensures TimeAfter(stamps[i], stamps[j], WORD32) <==> times[i] > times[j]
    {
      TimeAfter32(times[i], times[j]);
    }
    OldestIsLeast(times, stamps, WORD32);
  }

  /** Of two the older is found exactly then. */
  lemma OlderOfTwo32Iff(p: nat, q: nat)
    requires p - q < WORD32 && q - p < WORD32
    ensures (var k := Oldest([Stamp(p), Stamp(q)], WORD32); [p, q][k] <= p && [p, q][k] <= q)
            <==> if p > q then p - q <= WORD32 / 2 else q - p < WORD32 / 2
  {
    TimeAfter32Iff(p, q);
    var stamps := [Stamp(p), Stamp(q)];
    assert stamps[..1] == [Stamp(p)];
  }

  /** With 64-bit words, and no two entries the whole 32-bit range apart, it is found exactly when the stamps
      have not wrapped between any two. */
  lemma OldestIsLeast64Iff(times: seq<nat>, stamps: seq<nat>)
    requires times != [] && |stamps| == |times| && forall i :: 0 <= i < |times| ==> stamps[i] == Stamp(times[i])
    requires forall i, j :: 0 <= i < |times| && 0 <= j < |times| ==> times[i] < times[j] + WORD32
    ensures (forall i :: 0 <= i < |times| ==> times[Oldest(stamps, WORD64)] <= times[i])
            <==> forall i, j :: 0 <= i < |times| && 0 <= j < |times| ==> times[i] / WORD32 == times[j] / WORD32
  {
    OldestIsLeast(stamps, stamps, WORD64);
    var k := Oldest(stamps, WORD64);
    forall i | 0 <= i < |times| ensures times[k] <= times[i] <==> times[k] / WORD32 == times[i] / WORD32 {
      TimeAfter64Iff(times[k], times[i]);
      assert stamps[k] <= stamps[i];
    }
  }

  /** The age of an entry in milliseconds, in 32-bit arithmetic. */
  function PassingMs(now: nat, stamp: nat, hz: nat): nat
    requires hz > 0
  {
    (now - stamp) % WORD32 * 1000 % WORD32 / hz
  }

  lemma StampGone(time: nat, age: nat)
    requires age < WORD32
    ensures (time + age - Stamp(time)) % WORD32 == age
  {
    var q := time / WORD32;
    assert time + age - Stamp(time) == age + WORD32 * q;
  }

  /** The age in milliseconds comes out right exactly as long as a thousand times the age in ticks fits a
      word; some 71 minutes later, with a thousand ticks a second, an entry looks young again. */
  lemma PassingIsAgeIff(time: nat, age: nat, hz: nat)
    requires 0 < hz <= WORD32 && age < WORD32
    ensures PassingMs(time + age, Stamp(time), hz) == age * 1000 / hz <==> age * 1000 < WORD32
  {
    StampGone(time, age);
    if age * 1000 >= WORD32 {
      LessDivides(age * 1000 % WORD32, age * 1000, hz);
    }
  }

  lemma QuotientReaches(a: nat, hz: nat, q: nat)
    requires hz > 0
    ensures a / hz >= q <==> a >= hz * q
  {
    var r := a / hz;
    assert a == r * hz + a % hz;
    if r >= q {
      MulGrows(q, r, hz);
    } else {
      MulGrows(r + 1, q, hz);
    }
  }

  lemma LessDivides(a: nat, b: nat, hz: nat)
    requires 0 < hz && a + hz <= b
    ensures a / hz < b / hz
  {
    var p, q := a / hz, b / hz;
    assert a == p * hz + a % hz && b == q * hz + b % hz;
    if q <= p {
      MulGrows(q, p, hz);
      assert false;
    }
  }

  lemma MulGrows(q: nat, p: nat, hz: nat)
    requires q <= p
    ensures q * hz <= p * hz
  {
  }

  // ----- the table

  class WlanNetwork {
    var network: Bss
    var networkType: int
    var fixed: bool
    var lastScanned: nat
    var aid: int
    var joinRes: int

    constructor (network: Bss)
      ensures this.network == network
    {
      this.network := network;
      networkType, fixed, lastScanned, aid, joinRes := 0, false, 0, 0, 0;
    }

    /** The description is copied; one not received on its own channel says nothing about quality. */
    method Enter(target: Bss)
      requires network.WellFormed() && target.WellFormed()
      modifies this`network
      ensures network == Entered(old(network), target)
    {
      network := Copied(network, target);
      if network.quality == WRONG_CHANNEL {
        network := network.(quality := 0);
      }
    }
  }

  function Remove<T(==)>(s: seq<T>, x: T): (r: seq<T>) {
    if s == [] then [] else if s[0] == x then s[1..] else [s[0]] + Remove(s[1..], x)
  }

  lemma {:induction false} RemoveTakesOne<T>(s: seq<T>, x: T)
    ensures multiset(Remove(s, x)) == multiset(s) - multiset{x}
    ensures x in s ==> |Remove(s, x)| == |s| - 1
  {
    if s != [] {
      var t := s[1..];
      assert s == [s[0]] + t && multiset(s) == multiset{s[0]} + multiset(t);
      if s[0] != x {
        RemoveTakesOne(t, x);
        assert multiset([s[0]] + Remove(t, x)) == multiset{s[0]} + multiset(Remove(t, x));
      }
    }
  }

  lemma {:induction false} RemoveKeepsMembers<T>(s: seq<T>, x: T)
    ensures forall y :: y in Remove(s, x) ==> y in s
  {
    if s != [] {
      RemoveKeepsMembers(s[1..], x);
      assert forall y :: y in s[1..] ==> y in s;
    }
  }

  /** No two nodes of the list hold the same network.  Folded: the networks come into view only where a
      `Look` term does. */
  ghost predicate Twinless(list: seq<WlanNetwork>)
    reads list`network
  {
    forall k {:trigger Look(k)} :: Look(k) ==>
      forall x, y :: x in list && y in list && x != y && x.network.WellFormed() && y.network.WellFormed() ==>
        !IsSameNetwork(x.network, y.network)
  }

  lemma TwinlessGrows(list: seq<WlanNetwork>, x: WlanNetwork, was: Bss, target: Bss)
    requires Twinless(list) && was.WellFormed() && target.WellFormed() && CapsCopied(was, target)
    requires x.network == Entered(was, target)
    requires forall y :: y in list ==> y.network.WellFormed() && !IsSameNetwork(y.network, target)
    ensures Twinless(list + [x])
  {
    assert Look(0);
    EnteredDiffers(was, target);
  }

  /** No other node of the list holds the network of `node`.  Folded. */
  ghost predicate Alone(list: seq<WlanNetwork>, node: WlanNetwork)
    reads list`network, node`network
  {
    forall k {:trigger Look(k)} :: Look(k) ==>
      forall y :: y in list && y != node && y.network.WellFormed() && node.network.WellFormed() ==>
        !IsSameNetwork(y.network, node.network)
  }

  lemma TwinlessIffAlone(list: seq<WlanNetwork>, node: WlanNetwork)
    requires node in list && forall x :: x in list ==> x.network.WellFormed()
    requires forall x, y :: x in list && y in list && x != y && x != node && y != node ==> !IsSameNetwork(x.network, y.network)
    ensures Twinless(list) <==> Alone(list, node)
  {
    assert Look(0);
    forall y | y in list ensures IsSameNetwork(y.network, node.network) <==> IsSameNetwork(node.network, y.network) {
      SameIsEquivalence(y.network, node.network, y.network);
      SameIsEquivalence(node.network, y.network, node.network);
    }
  }

  lemma TwinlessAppended(list: seq<WlanNetwork>, node: WlanNetwork)
    requires Twinless(list) && node.network.WellFormed() && forall x :: x in list ==> x.network.WellFormed()
    ensures Twinless(list + [node]) <==> Alone(list + [node], node)
  {
    assert Look(0);
    TwinlessIffAlone(list + [node], node);
  }

  /** An entry keeps its own capabilities when a report without any is entered in its place, and with them
      looks like a third one. */
  lemma TwinExample()
    ensures var z := seq(768, _ => 0);
            var other := Bss([1, 2, 3, 4, 5, 6], [], z[10 := 1], 12, 0, 0, 0, 1);
            var was := Bss([6, 5, 4, 3, 2, 1], [], z[10 := 1], 12, 0, 0, 0, 1);
            var target := other.(ies := z, ieLength := 0);
            && other.WellFormed() && was.WellFormed() && target.WellFormed() && !CapsCopied(was, target)
            && !IsSameNetwork(other, was) && !IsSameNetwork(other, target) && !IsSameNetwork(was, target)
            && IsSameNetwork(other, Entered(was, target))
  {
  }

  lemma TwinlessPart(a: seq<WlanNetwork>, b: seq<WlanNetwork>)
    requires Twinless(b) && forall x :: x in a ==> x in b
    ensures Twinless(a)
  {
    assert Look(0);
  }

  /** The nodes of the pool are spread over the two lists, each on one of them and once.  Folded. */
  ghost predicate Parted(free: seq<WlanNetwork>, scanned: seq<WlanNetwork>, pool: set<WlanNetwork>) {
    forall k {:trigger Look(k)} :: Look(k) ==> multiset(free) + multiset(scanned) == multiset(pool)
  }

  lemma PartedOnce(free: seq<WlanNetwork>, scanned: seq<WlanNetwork>, pool: set<WlanNetwork>)
    requires Parted(free, scanned, pool)
    ensures forall i, j :: 0 <= i < j < |scanned| ==> scanned[i] != scanned[j]
    ensures forall x :: x in scanned ==> x in pool && x !in free
    ensures forall x :: x in free ==> x in pool
    ensures |free| + |scanned| == |pool|
  {
    assert Look(0);
    assert |multiset(free) + multiset(scanned)| == |free| + |scanned|;
    assert |multiset(pool)| == |pool|;
    forall i, j | 0 <= i < j < |scanned| ensures scanned[i] != scanned[j] {
      if scanned[i] == scanned[j] {
        assert multiset(pool)[scanned[i]] <= 1;
        Twice(scanned, i, j);
      }
    }
    forall x | x in scanned ensures x in pool && x !in free {
      assert multiset(scanned)[x] >= 1 && multiset(pool)[x] <= 1;
    }
    forall x | x in free ensures x in pool {
      assert (multiset(free) + multiset(scanned))[x] >= 1;
      assert x in multiset(pool);
    }
  }

  lemma Twice<T>(s: seq<T>, i: nat, j: nat)
    requires i < j < |s| && s[i] == s[j]
    ensures multiset(s)[s[i]] >= 2
  {
    assert s == s[..j] + s[j..];
    assert s[i] in s[..j] && s[j] in s[j..];
    assert multiset(s) == multiset(s[..j]) + multiset(s[j..]);
  }

  lemma RemoveMiddle(a: seq<WlanNetwork>, x: WlanNetwork, b: seq<WlanNetwork>, free: seq<WlanNetwork>, pool: set<WlanNetwork>)
    requires Parted(free, a + ([x] + b), pool)
    ensures Remove(a + ([x] + b), x) == a + b
  {
    var s := a + ([x] + b);
    PartedOnce(free, s, pool);
    assert s[|a|] == x;
    assert forall i :: 0 <= i < |a| ==> a[i] == s[i];
    RemoveAt(a, x, b);
  }

  lemma {:induction false} RemoveAt<T>(a: seq<T>, x: T, b: seq<T>)
    requires x !in a
    ensures Remove(a + ([x] + b), x) == a + b
  {
    if a != [] {
      assert (a + ([x] + b))[1..] == a[1..] + ([x] + b);
      RemoveAt(a[1..], x, b);
    } else {
      assert a + ([x] + b) == [x] + b;
    }
  }

  lemma {:induction false} RemoveAbsent<T>(s: seq<T>, x: T)
    requires x !in s
    ensures Remove(s, x) == s
  {
    if s != [] {
      RemoveAbsent(s[1..], x);
    }
  }

  lemma OnOneList(free: seq<WlanNetwork>, scanned: seq<WlanNetwork>, pool: set<WlanNetwork>, x: WlanNetwork)
    requires Parted(free, scanned, pool) && x in pool
    ensures multiset(free)[x] + multiset(scanned)[x] == 1
  {
    assert Look(0);
    assert (multiset(free) + multiset(scanned))[x] == multiset(pool)[x] == 1;
  }

  lemma FirstStaysParted(x: WlanNetwork, free: seq<WlanNetwork>, scanned: seq<WlanNetwork>, pool: set<WlanNetwork>)
    requires Parted(free, [x] + scanned, pool)
    ensures Parted(free + [x], scanned, pool)
  {
    assert Look(0);
    assert multiset([x] + scanned) == multiset{x} + multiset(scanned);
    assert multiset(free + [x]) == multiset(free) + multiset{x};
  }

  lemma AppendedStaysParted(x: WlanNetwork, free: seq<WlanNetwork>, scanned: seq<WlanNetwork>, pool: set<WlanNetwork>)
    requires Parted([x] + free, scanned, pool)
    ensures Parted(free, scanned + [x], pool)
  {
    assert Look(0);
    assert multiset([x] + free) == multiset{x} + multiset(free);
    assert multiset(scanned + [x]) == multiset(scanned) + multiset{x};
  }

  lemma NotFree(free: seq<WlanNetwork>, scanned: seq<WlanNetwork>, pool: set<WlanNetwork>, x: WlanNetwork)
    requires Parted(free, scanned, pool) && x in scanned
    ensures Remove(free, x) == free
  {
    PartedOnce(free, scanned, pool);
    RemoveAbsent(free, x);
  }

  lemma InPool(free: seq<WlanNetwork>, scanned: seq<WlanNetwork>, pool: set<WlanNetwork>, x: WlanNetwork)
    requires Parted(free, scanned, pool) && x in scanned
    ensures x in pool
  {
    PartedOnce(free, scanned, pool);
  }

  lemma FreedStaysParted(free: seq<WlanNetwork>, scanned: seq<WlanNetwork>, pool: set<WlanNetwork>, x: WlanNetwork)
    requires Parted(free, scanned, pool) && x in pool
    ensures Parted(Remove(free, x) + [x], Remove(scanned, x), pool)
    ensures |Remove(scanned, x)| == |scanned| - if x in scanned then 1 else 0
  {
    assert Look(0);
    OnOneList(free, scanned, pool, x);
    RemoveTakesOne(scanned, x);
    RemoveTakesOne(free, x);
    MovedOver(multiset(free), multiset(scanned), multiset(pool), x);
    assert multiset(Remove(free, x) + [x]) == multiset(Remove(free, x)) + multiset{x};
    if x !in scanned {
      RemoveAbsent(scanned, x);
    }
  }

  lemma MovedOver<T>(a: multiset<T>, b: multiset<T>, all: multiset<T>, x: T)
    requires a + b == all && a[x] + b[x] == 1
    ensures a - multiset{x} + multiset{x} + (b - multiset{x}) == all
  {
  }

  // ----- sweeping the list

  /** Those of the list that go, or those that stay. */
  function Chosen(list: seq<WlanNetwork>, goes: seq<bool>, go: bool): seq<WlanNetwork>
    requires |goes| == |list|
  {
    if list == [] then []
    else
      var n := |list| - 1;
      Chosen(list[..n], goes[..n], go) + if goes[n] == go then [list[n]] else []
  }

  lemma {:induction false} ChosenMembers(list: seq<WlanNetwork>, goes: seq<bool>, go: bool)
    requires |goes| == |list|
    ensures forall x :: x in Chosen(list, goes, go) ==> x in list
  {
    if list != [] {
      ChosenMembers(list[..|list| - 1], goes[..|list| - 1], go);
    }
  }

  /** After `n` nodes of the list `l`.  Folded. */
  ghost predicate Swept(l: seq<WlanNetwork>, goes: seq<bool>, n: nat, f: seq<WlanNetwork>, scanned: seq<WlanNetwork>, free: seq<WlanNetwork>) {
    && n <= |l| == |goes|
    && forall k {:trigger Look(k)} :: Look(k) ==>
         scanned == Chosen(l[..n], goes[..n], false) + l[n..] && free == f + Chosen(l[..n], goes[..n], true)
  }

  lemma SweptStarts(l: seq<WlanNetwork>, goes: seq<bool>, f: seq<WlanNetwork>)
    requires |goes| == |l|
    ensures Swept(l, goes, 0, f, l, f)
  {
  }

  lemma SweptAll(l: seq<WlanNetwork>, goes: seq<bool>, f: seq<WlanNetwork>, scanned: seq<WlanNetwork>, free: seq<WlanNetwork>)
    requires Swept(l, goes, |l|, f, scanned, free)
    ensures scanned == Chosen(l, goes, false) && free == f + Chosen(l, goes, true)
    ensures forall x :: x in scanned ==> x in l
  {
    assert Look(0);
    assert l[..|l|] == l && goes[..|l|] == goes;
    ChosenMembers(l, goes, false);
  }

  lemma SweptMore(l: seq<WlanNetwork>, goes: seq<bool>, n: nat, f: seq<WlanNetwork>, scanned: seq<WlanNetwork>, free: seq<WlanNetwork>,
                  pool: set<WlanNetwork>)
    requires Swept(l, goes, n, f, scanned, free) && n < |l| && Parted(free, scanned, pool)
    ensures l[n] in scanned
    ensures if goes[n] then Swept(l, goes, n + 1, f, Remove(scanned, l[n]), free + [l[n]])
            else Swept(l, goes, n + 1, f, scanned, free)
  {
    var a, c, rest := SweptParts(l, goes, n, f, scanned, free);
    var x := l[n];
    assert scanned[|a|] == x;
    if goes[n] {
      RemoveMiddle(a, x, rest, free, pool);
      SweptMade(l, goes, n, f, a, c, rest, a + rest, free + [x]);
    } else {
      SweptMade(l, goes, n, f, a, c, rest, scanned, free);
    }
  }

  lemma SweptParts(l: seq<WlanNetwork>, goes: seq<bool>, n: nat, f: seq<WlanNetwork>, scanned: seq<WlanNetwork>, free: seq<WlanNetwork>)
    returns (a: seq<WlanNetwork>, c: seq<WlanNetwork>, rest: seq<WlanNetwork>)
    requires Swept(l, goes, n, f, scanned, free) && n < |l|
    ensures a == Chosen(l[..n], goes[..n], false) && c == Chosen(l[..n], goes[..n], true) && rest == l[n + 1..]
    ensures scanned == a + ([l[n]] + rest) && free == f + c
  {
    assert Look(0);
    a, c, rest := Chosen(l[..n], goes[..n], false), Chosen(l[..n], goes[..n], true), l[n + 1..];
    assert l[n..] == [l[n]] + rest;
  }

  lemma SweptMade(l: seq<WlanNetwork>, goes: seq<bool>, n: nat, f: seq<WlanNetwork>,
                  a: seq<WlanNetwork>, c: seq<WlanNetwork>, rest: seq<WlanNetwork>, scanned: seq<WlanNetwork>, free: seq<WlanNetwork>)
    requires n < |l| == |goes| && rest == l[n + 1..]
    requires a == Chosen(l[..n], goes[..n], false) && c == Chosen(l[..n], goes[..n], true)
    requires scanned == (if goes[n] then a + rest else a + ([l[n]] + rest))
    requires free == (if goes[n] then (f + c) + [l[n]] else f + c)
    ensures Swept(l, goes, n + 1, f, scanned, free)
  {
    ChosenNext(l, goes, n, false);
    ChosenNext(l, goes, n, true);
    assert a + ([l[n]] + rest) == (a + [l[n]]) + rest && a + [] == a && c + [] == c;
    assert (f + c) + [l[n]] == f + (c + [l[n]]);
  }

  lemma ChosenNext(l: seq<WlanNetwork>, goes: seq<bool>, n: nat, go: bool)
    requires n < |l| == |goes|
    ensures Chosen(l[..n + 1], goes[..n + 1], go) == Chosen(l[..n], goes[..n], go) + if goes[n] == go then [l[n]] else []
  {
    assert l[..n + 1][..n] == l[..n] && goes[..n + 1][..n] == goes[..n];
  }

  predicate Zero(mac: seq<byte>) {
    mac == [0, 0, 0, 0, 0, 0]
  }

  /** The node is the first entry with that address, or there is none. */
  ghost predicate IsFirstWith(list: seq<WlanNetwork>, addr: seq<byte>, pnetwork: WlanNetwork?)
    reads list`network
  {
    if Zero(addr) || forall i :: 0 <= i < |list| ==> list[i].network.mac != addr then pnetwork == null
    else exists k :: 0 <= k < |list| && pnetwork == list[k] && list[k].network.mac == addr
                     && forall i :: 0 <= i < k ==> list[i].network.mac != addr
  }

  class MlmePriv {
    ghost const pool: set<WlanNetwork>
    var freeBssPool: seq<WlanNetwork>
    var scannedQueue: seq<WlanNetwork>
    var numOfScanned: int
    const hz: nat
    const word: nat

    /** The part of `_rtw_init_mlme_priv` that lays out the pool. */
    constructor (nodes: seq<WlanNetwork>, hz: nat, word: nat)
      requires |nodes| == MAX_BSS_CNT && multiset(nodes) == multiset(set x | x in nodes)
      requires hz > 0 && word > 0 && forall x :: x in nodes ==> x.network.WellFormed()
      ensures Valid() && freeBssPool == nodes && scannedQueue == [] && pool == set x | x in nodes
    {
      pool := set x | x in nodes;
      freeBssPool, scannedQueue, numOfScanned := nodes, [], 0;
      this.hz, this.word := hz, word;
      new;
      PartedOnce(freeBssPool, scannedQueue, pool);
    }

    ghost predicate Sound()
      reads this, pool`network
    {
      && Parted(freeBssPool, scannedQueue, pool) && pool != {} && hz > 0 && word > 0
      && forall x :: x in pool ==> x.network.WellFormed()
    }

    /** The counter goes with the scanned list. */
    ghost predicate Valid()
      reads this, pool`network
    {
      Sound() && numOfScanned == |scannedQueue|
    }

    ghost predicate NoTwins()
      reads this`scannedQueue, scannedQueue`network
    {
      Twinless(scannedQueue)
    }

    /** `_rtw_alloc_network`: the node is on neither list afterwards. */
    method AllocNetwork(now: nat) returns (pnetwork: WlanNetwork?)
      requires Valid()
      modifies this`freeBssPool, this`numOfScanned, pool
      ensures (pnetwork == null) == (old(freeBssPool) == [])
      ensures pnetwork == null ==> freeBssPool == [] && numOfScanned == old(numOfScanned) && unchanged(pool)
      ensures pnetwork != null ==>
                && [pnetwork] + freeBssPool == old(freeBssPool) && numOfScanned == old(numOfScanned) + 1
                && pnetwork in pool && pnetwork.network == old(pnetwork.network)
                && pnetwork.networkType == 0 && !pnetwork.fixed && pnetwork.lastScanned == Stamp(now)
                && pnetwork.aid == 0 && pnetwork.joinRes == 0
                && forall x :: x in pool && x != pnetwork ==> unchanged(x)
    {
      PartedOnce(freeBssPool, scannedQueue, pool);
      if freeBssPool == [] {
        return null;
      }
      pnetwork := freeBssPool[0];
      freeBssPool := freeBssPool[1..];
      pnetwork.networkType := 0;
      pnetwork.fixed := false;
      pnetwork.lastScanned := Stamp(now);
      pnetwork.aid := 0;
      pnetwork.joinRes := 0;
      numOfScanned := numOfScanned + 1;
    }

    /** Whether `_rtw_free_network` lets the node go. */
    predicate Goes(pnetwork: WlanNetwork, isfreeall: bool, now: nat, adhoc: bool)
      requires hz > 0
      reads pnetwork
    {
      && !pnetwork.fixed
      && (isfreeall || PassingMs(now, pnetwork.lastScanned, hz) >= if adhoc then 1 else SCANQUEUE_LIFETIME)
    }

    /** By the true age: a node that is not fixed goes if all do, or its age in milliseconds has reached the
        lifetime, 20 seconds or, for an ad-hoc network, one millisecond. */
    lemma GoesByAge(pnetwork: WlanNetwork, isfreeall: bool, time: nat, age: nat, adhoc: bool)
      requires 0 < hz <= WORD32 && pnetwork.lastScanned == Stamp(time) && age * 1000 < WORD32
      ensures Goes(pnetwork, isfreeall, time + age, adhoc)
              <==> !pnetwork.fixed && (isfreeall || age * 1000 >= hz * if adhoc then 1 else 20000)
    {
      PassingIsAgeIff(time, age, hz);
      var lifetime: nat := if adhoc then 1 else 20000;
      QuotientReaches(age * 1000, hz, lifetime);
    }

    /** `_rtw_free_network` */
    method FreeNetwork(pnetwork: WlanNetwork, isfreeall: bool, now: nat, adhoc: bool)
      requires Valid() && pnetwork in scannedQueue
      modifies this`freeBssPool, this`scannedQueue, this`numOfScanned
      ensures Valid() && (old(NoTwins()) ==> NoTwins())
      ensures if Goes(pnetwork, isfreeall, now, adhoc)
              then scannedQueue == Remove(old(scannedQueue), pnetwork) && freeBssPool == old(freeBssPool) + [pnetwork]
              else scannedQueue == old(scannedQueue) && freeBssPool == old(freeBssPool)
    {
      if pnetwork.fixed {
        return;
      }
      var lifetime := SCANQUEUE_LIFETIME;
      if adhoc {
        lifetime := 1;
      }
      if !isfreeall {
        var deltaTime := PassingMs(now, pnetwork.lastScanned, hz);
        if deltaTime < lifetime {
          return;
        }
      }
      Release(pnetwork);
    }

    /** From the list to the pool. */
    method Release(pnetwork: WlanNetwork)
      requires Valid() && pnetwork in scannedQueue
      modifies this`freeBssPool, this`scannedQueue, this`numOfScanned
      ensures Valid() && (old(NoTwins()) ==> NoTwins())
      ensures scannedQueue == Remove(old(scannedQueue), pnetwork) && freeBssPool == old(freeBssPool) + [pnetwork]
    {
      InPool(freeBssPool, scannedQueue, pool, pnetwork);
      FreedStaysParted(freeBssPool, scannedQueue, pool, pnetwork);
      NotFree(freeBssPool, scannedQueue, pool, pnetwork);
      RemoveKeepsMembers(scannedQueue, pnetwork);
      if NoTwins() {
        TwinlessPart(Remove(scannedQueue, pnetwork), scannedQueue);
      }
      scannedQueue := Remove(scannedQueue, pnetwork);
      freeBssPool := freeBssPool + [pnetwork];
      numOfScanned := numOfScanned - 1;
    }

    /** `_rtw_free_network_queue`; `goes` says which of its nodes are let go. */
    method FreeNetworkQueue(isfreeall: bool, now: nat, adhoc: bool, ghost goes: seq<bool>)
      requires Valid() && |goes| == |scannedQueue|
      requires forall i :: 0 <= i < |goes| ==> goes[i] == Goes(scannedQueue[i], isfreeall, now, adhoc)
      modifies this`freeBssPool, this`scannedQueue, this`numOfScanned
      ensures Valid() && (old(NoTwins()) ==> NoTwins())
      ensures scannedQueue == Chosen(old(scannedQueue), goes, false)
      ensures freeBssPool == old(freeBssPool) + Chosen(old(scannedQueue), goes, true)
    {
      ghost var l, f, n := scannedQueue, freeBssPool, 0;
      var plist := scannedQueue;
      SweptStarts(l, goes, f);
      while plist != []
        invariant Valid() && n <= |l| && plist == l[n..]
        invariant Swept(l, goes, n, f, scannedQueue, freeBssPool)
        decreases |plist|
      {
        var pnetwork := plist[0];
        plist := plist[1..];
        FreeNext(pnetwork, isfreeall, now, adhoc, l, goes, n, f);
        n := n + 1;
      }
      SweptAll(l, goes, f, scannedQueue, freeBssPool);
      if Twinless(l) {
        TwinlessPart(scannedQueue, l);
      }
    }

    method FreeNext(pnetwork: WlanNetwork, isfreeall: bool, now: nat, adhoc: bool,
                    ghost l: seq<WlanNetwork>, ghost goes: seq<bool>, ghost n: nat, ghost f: seq<WlanNetwork>)
      requires Valid() && Swept(l, goes, n, f, scannedQueue, freeBssPool) && n < |l| && pnetwork == l[n]
      requires goes[n] == Goes(pnetwork, isfreeall, now, adhoc)
      modifies this`freeBssPool, this`scannedQueue, this`numOfScanned
      ensures Valid() && Swept(l, goes, n + 1, f, scannedQueue, freeBssPool)
    {
      SweptMore(l, goes, n, f, scannedQueue, freeBssPool, pool);
      FreeNetwork(pnetwork, isfreeall, now, adhoc);
    }

    /** `free_scanqueue`: fixed or not, young or old. */
    method FreeScanqueue()
      requires Valid()
      modifies this`freeBssPool, this`scannedQueue, this`numOfScanned
      ensures Valid() && NoTwins() && scannedQueue == [] && freeBssPool == old(freeBssPool) + old(scannedQueue)
    {
      while scannedQueue != []
        invariant Valid() && freeBssPool + scannedQueue == old(freeBssPool) + old(scannedQueue)
        decreases |scannedQueue|
      {
        var plist := scannedQueue[0];
        assert scannedQueue == [plist] + scannedQueue[1..];
        FirstStaysParted(plist, freeBssPool, scannedQueue[1..], pool);
        scannedQueue := scannedQueue[1..];
        freeBssPool := freeBssPool + [plist];
        numOfScanned := numOfScanned - 1;
      }
    }

    /** `_rtw_find_network` */
    method FindNetwork(addr: seq<byte>) returns (pnetwork: WlanNetwork?)
      ensures IsFirstWith(scannedQueue, addr, pnetwork) && (pnetwork != null ==> pnetwork in scannedQueue)
    {
      if Zero(addr) {
        return null;
      }
      var i := 0;
      while i < |scannedQueue|
        invariant 0 <= i <= |scannedQueue|
        invariant forall j :: 0 <= j < i ==> scannedQueue[j].network.mac != addr
      {
        if addr == scannedQueue[i].network.mac {
          return scannedQueue[i];
        }
        i := i + 1;
      }
      pnetwork := null;
    }

    /** `_rtw_free_network_nolock`: takes the node off the list it is on, whichever that is. */
    method FreeNetworkNolock(pnetwork: WlanNetwork?)
      requires Sound() && (pnetwork != null ==> pnetwork in pool)
      modifies this`freeBssPool, this`scannedQueue, this`numOfScanned
      ensures Sound()
      ensures if pnetwork == null || pnetwork.fixed
              then scannedQueue == old(scannedQueue) && freeBssPool == old(freeBssPool) && numOfScanned == old(numOfScanned)
              else numOfScanned == old(numOfScanned) - 1
                   && scannedQueue == Remove<WlanNetwork>(old(scannedQueue), pnetwork)
                   && freeBssPool == Remove<WlanNetwork>(old(freeBssPool), pnetwork) + [pnetwork]
    {
      if pnetwork == null || pnetwork.fixed {
        return;
      }
      var node: WlanNetwork := pnetwork;
      FreedStaysParted(freeBssPool, scannedQueue, pool, node);
      scannedQueue := Remove(scannedQueue, node);
      freeBssPool := Remove(freeBssPool, node) + [node];
      numOfScanned := numOfScanned - 1;
    }

    /** Frees a node of the list, and in an ad-hoc master with one station once more. */
    method FreeFound(pwlan: WlanNetwork, twice: bool)
      requires Valid() && pwlan in scannedQueue && pwlan in pool
      modifies this`freeBssPool, this`scannedQueue, this`numOfScanned, pwlan`fixed
      ensures Sound() && (old(NoTwins()) ==> NoTwins())
      ensures scannedQueue == Remove(old(scannedQueue), pwlan) && numOfScanned == |scannedQueue| - if twice then 1 else 0
    {
      ghost var l := scannedQueue;
      FreedTwice(freeBssPool, scannedQueue, pool, pwlan);
      pwlan.fixed := false;
      FreeNetworkNolock(pwlan);
      if twice {
        FreeNetworkNolock(pwlan);
      }
      RemoveKeepsMembers(l, pwlan);
      if Twinless(l) {
        TwinlessPart(scannedQueue, l);
      }
    }

    /** The part of `rtw_free_assoc_resources` about the table.  A node found is freed, and in an ad-hoc
        master with one station freed once more: then, and only then, the counter is one too low. */
    method FreeAssocResources(addr: seq<byte>, adhocMaster: bool, asocStaCount: nat) returns (pwlan: WlanNetwork?)
      requires Valid()
      modifies this`freeBssPool, this`scannedQueue, this`numOfScanned, pool`fixed
      ensures Sound() && (old(NoTwins()) ==> NoTwins()) && IsFirstWith(old(scannedQueue), addr, pwlan)
      ensures pwlan == null ==> Valid() && scannedQueue == old(scannedQueue) && freeBssPool == old(freeBssPool)
      ensures pwlan != null ==>
                && pwlan in old(scannedQueue) && scannedQueue == Remove<WlanNetwork>(old(scannedQueue), pwlan)
                && numOfScanned == |scannedQueue| - if adhocMaster && asocStaCount == 1 then 1 else 0
    {
      pwlan := FindNetwork(addr);
      if pwlan != null {
        InPool(freeBssPool, scannedQueue, pool, pwlan);
        FreeFound(pwlan, adhocMaster && asocStaCount == 1);
      } else if adhocMaster && asocStaCount == 1 {
        FreeNetworkNolock(null);
      }
    }

    // ----- entering what a scan reports

    /** The search of `rtw_update_scanned_network`: the first entry that is the same network, or, when there
        is none, the oldest one. */
    method Search(target: Bss, ghost stamps: seq<nat>) returns (found: bool, k: nat)
      requires Sound() && target.WellFormed()
      requires |stamps| == |scannedQueue| && forall i :: 0 <= i < |stamps| ==> stamps[i] == scannedQueue[i].lastScanned
      ensures found ==> k < |scannedQueue| && scannedQueue[k] in pool && IsSameNetwork(scannedQueue[k].network, target)
      ensures !found ==> NoneIs(target) && (scannedQueue != [] ==> k == Oldest(stamps, word))
    {
      PartedOnce(freeBssPool, scannedQueue, pool);
      found, k := false, 0;
      var i := 0;
      while i < |scannedQueue|
        invariant i <= |scannedQueue| && (i > 0 ==> k == Oldest(stamps[..i], word))
        invariant forall j :: 0 <= j < i ==> !IsSameNetwork(scannedQueue[j].network, target)
      {
        if IsSameNetwork(scannedQueue[i].network, target) {
          return true, i;
        }
        assert stamps[..i + 1][..i] == stamps[..i];
        if i == 0 || TimeAfter(scannedQueue[k].lastScanned, scannedQueue[i].lastScanned, word) {
          k := i;
        }
        i := i + 1;
      }
      assert stamps[..i] == stamps;
    }

    ghost predicate NoneIs(target: Bss)
      requires Sound() && target.WellFormed()
      reads this, pool`network
    {
      PartedOnce(freeBssPool, scannedQueue, pool);
      forall x :: x in scannedQueue ==> !IsSameNetwork(x.network, target)
    }

    /** An entry that is there is brought up to date. */
    method Refresh(pnetwork: WlanNetwork, target: Bss, now: nat, link: Link)
      requires Valid() && NoTwins() && pnetwork in scannedQueue && pnetwork in pool && target.WellFormed()
      requires IsSameNetwork(pnetwork.network, target) && (link.Linked? ==> link.current.WellFormed())
      modifies pnetwork`network, pnetwork`lastScanned
      ensures Valid() && NoTwins()
      ensures pnetwork.lastScanned == Stamp(now)
      ensures var was := old(pnetwork.network);
              pnetwork.network == Updated(was, target, link, UpdateIe(was, target))
    {
      PartedOnce(freeBssPool, scannedQueue, pool);
      assert Look(0);
      var updateIe := true;
      pnetwork.lastScanned := Stamp(now);
      if pnetwork.network.ieLength > target.ieLength && target.frameType == 1 {
        updateIe := false;
      }
      if target.frameType != 2 && target.frameType >= pnetwork.network.frameType {
        updateIe := true;
      } else {
        updateIe := false;
      }
      var refreshed := Updated(pnetwork.network, target, link, updateIe);
      UpdatedIsSame(pnetwork.network, target, link, updateIe);
      pnetwork.network := refreshed;
    }

    /** There is no room left: the oldest entry is overwritten, even a fixed one. */
    method Evict(pnetwork: WlanNetwork, target: Bss, now: nat)
      requires Valid() && pnetwork in scannedQueue && pnetwork in pool
      requires target.WellFormed() && NoneIs(target)
      modifies pnetwork
      ensures Valid() && IsEntry(pnetwork, old(pnetwork.network), target, now)
      ensures old(NoTwins()) && CapsCopied(old(pnetwork.network), target) ==> NoTwins()
      ensures old(NoTwins()) ==> (NoTwins() <==> Alone(scannedQueue, pnetwork))
    {
      PartedOnce(freeBssPool, scannedQueue, pool);
      assert Look(0);
      ghost var was := pnetwork.network;
      if CapsCopied(was, target) {
        EnteredDiffers(was, target);
      }
      pnetwork.Enter(target);
      pnetwork.fixed := false;
      pnetwork.lastScanned := Stamp(now);
      pnetwork.networkType := 0;
      pnetwork.aid := 0;
      pnetwork.joinRes := 0;
      if old(NoTwins()) {
        TwinlessIffAlone(scannedQueue, pnetwork);
      }
    }

    /** A node of the free pool, filled in, and not on a list yet. */
    method Take(target: Bss, now: nat) returns (pnetwork: WlanNetwork)
      requires Valid() && freeBssPool != [] && target.WellFormed()
      modifies this`freeBssPool, this`numOfScanned, pool
      ensures [pnetwork] + freeBssPool == old(freeBssPool) && numOfScanned == old(numOfScanned) + 1
      ensures pnetwork in pool && forall x :: x in pool && x != pnetwork ==> unchanged(x)
      ensures old(pnetwork.network).WellFormed() && IsEntry(pnetwork, old(pnetwork.network), target, now)
    {
      var node := AllocNetwork(now);
      pnetwork := node;
      pnetwork.Enter(target);
      pnetwork.lastScanned := Stamp(now);
    }

    /** A node of the free pool is put at the tail of the list. */
    method Insert(target: Bss, now: nat) returns (pnetwork: WlanNetwork)
      requires Valid() && freeBssPool != []
      requires target.WellFormed() && NoneIs(target)
      modifies this`freeBssPool, this`scannedQueue, this`numOfScanned, pool
      ensures Valid() && [pnetwork] + freeBssPool == old(freeBssPool) && scannedQueue == old(scannedQueue) + [pnetwork]
      ensures pnetwork in pool && forall x :: x in pool && x != pnetwork ==> unchanged(x)
      ensures IsEntry(pnetwork, old(pnetwork.network), target, now)
      ensures old(NoTwins()) && CapsCopied(old(pnetwork.network), target) ==> NoTwins()
      ensures old(NoTwins()) ==> (NoTwins() <==> Alone(scannedQueue, pnetwork))
    {
      PartedOnce(freeBssPool, scannedQueue, pool);
      var node := Take(target, now);
      pnetwork := node;
      ghost var was := old(node.network);
      if Twinless(scannedQueue) {
        TwinlessAppended(scannedQueue, pnetwork);
        if CapsCopied(was, target) {
          TwinlessGrows(scannedQueue, pnetwork, was, target);
        }
      }
      AppendedStaysParted(pnetwork, freeBssPool, scannedQueue, pool);
      scannedQueue := scannedQueue + [pnetwork];
    }

    lemma NoTwinsAlone(node: WlanNetwork)
      requires NoTwins() && node in scannedQueue
      ensures Alone(scannedQueue, node)
    {
      assert Look(0);
    }

    /** `rtw_update_scanned_network`.  A node is in the list afterwards for the network reported: the one it
        had, brought up to date; a new one while there is room; otherwise that of the oldest entry.  No other
        entry changes.  The node is an entry of that network exactly if the capabilities come with the report or
        were the same in the node before; then no network has two.  Otherwise one has exactly if what the node
        holds is the network of another entry. */
    method UpdateScannedNetwork(target: Bss, now: nat, link: Link, ghost stamps: seq<nat>)
      returns (ghost how: Outcome, ghost node: WlanNetwork)
      requires Valid() && NoTwins() && target.WellFormed()
      requires link.Linked? ==> link.current.WellFormed()
      requires |stamps| == |scannedQueue| && forall i :: 0 <= i < |stamps| ==> stamps[i] == scannedQueue[i].lastScanned
      modifies this`freeBssPool, this`scannedQueue, this`numOfScanned, pool
      ensures Valid() && node in scannedQueue && node in pool && node.lastScanned == Stamp(now)
      ensures CapsCopied(old(node.network), target) ==> NoTwins()
      ensures NoTwins() <==> Alone(scannedQueue, node)
      ensures IsSameNetwork(node.network, target) <==> CapsCopied(old(node.network), target)
      ensures forall x :: x in pool && x != node ==> unchanged(x)
      ensures how == if old(!NoneIs(target)) then Refreshed else if old(freeBssPool) == [] then Evicted else Inserted
      ensures how != Inserted ==> scannedQueue == old(scannedQueue) && freeBssPool == old(freeBssPool)
      ensures how == Inserted ==> [node] + freeBssPool == old(freeBssPool) && scannedQueue == old(scannedQueue) + [node]
      ensures how == Refreshed ==> node.network == Updated(old(node.network), target, link, UpdateIe(old(node.network), target))
      ensures how == Evicted ==> scannedQueue != [] && node == scannedQueue[Oldest(stamps, word)]
      ensures how != Refreshed ==> IsEntry(node, old(node.network), target, now)
      ensures how != Refreshed || (target.frameType != 2 && target.frameType >= old(node.network.frameType)) ==>
                HoldsReport(node.network, old(node.network), target)
      ensures how == Refreshed && !(target.frameType != 2 && target.frameType >= old(node.network.frameType)) ==>
                KeepsElements(node.network, old(node.network))
      ensures if how == Refreshed then SignalRefreshed(node.network, old(node.network), target, link)
              else SignalEntered(node.network, target)
    {
      PartedOnce(freeBssPool, scannedQueue, pool);
      var found, k := Search(target, stamps);
      if !found {
        if freeBssPool == [] {
          var oldest := scannedQueue[k];
          how, node := Evicted, oldest;
          ghost var was := oldest.network;
          Evict(oldest, target, now);
          EnteredIsSameIff(was, target);
          EnteredHoldsReport(was, target);
        } else {
          how := Inserted;
          node := Insert(target, now);
          EnteredIsSameIff(old(node.network), target);
          EnteredHoldsReport(old(node.network), target);
        }
      } else {
        var pnetwork := scannedQueue[k];
        how, node := Refreshed, pnetwork;
        ghost var was := pnetwork.network;
        Refresh(pnetwork, target, now, link);
        RefreshedIsSame(was, target, link);
        UpdatedHoldsReport(was, target, link);
        NoTwinsAlone(pnetwork);
      }
    }
  }

  lemma EnteredIsSameIff(was: Bss, target: Bss)
    requires was.WellFormed() && target.WellFormed()
    ensures IsSameNetwork(Entered(was, target), target) <==> CapsCopied(was, target)
  {
    CopyIsSameIff(was, target);
  }

  lemma RefreshedIsSame(was: Bss, target: Bss, link: Link)
    requires was.WellFormed() && target.WellFormed() && (link.Linked? ==> link.current.WellFormed())
    requires IsSameNetwork(was, target)
    ensures CapsCopied(was, target)
    ensures IsSameNetwork(Updated(was, target, link, UpdateIe(was, target)), target)
  {
    UpdatedIsSame(was, target, link, UpdateIe(was, target));
  }

  datatype Outcome = Refreshed | Evicted | Inserted

  /** What a node holds once a network has been entered in it, whose old content was `was`. */
  ghost predicate IsEntry(node: WlanNetwork, was: Bss, target: Bss, now: nat)
    requires was.WellFormed() && target.WellFormed()
    reads node
  {
    && node.network == Entered(was, target) && node.lastScanned == Stamp(now)
    && !node.fixed && node.networkType == 0 && node.aid == 0 && node.joinRes == 0
  }

  /** Freeing a node twice takes it off the scanned list only once. */
  lemma FreedTwice(free: seq<WlanNetwork>, scanned: seq<WlanNetwork>, pool: set<WlanNetwork>, x: WlanNetwork)
    requires Parted(free, scanned, pool) && x in scanned
    ensures x in pool && Remove(Remove(scanned, x), x) == Remove(scanned, x)
    ensures |Remove(scanned, x)| == |scanned| - 1
  {
    InPool(free, scanned, pool, x);
    OnOneList(free, scanned, pool, x);
    RemoveTakesOne(scanned, x);
    assert multiset(scanned)[x] == 1;
    assert x !in multiset(Remove(scanned, x));
    RemoveAbsent(Remove(scanned, x), x);
  }
}
