/** The NAT2.5 address table of core/rtw_br_ext.c: hash chains of entries linked by a forward pointer
    and a pointer to the link that reaches them, refining a finite map from network address to
    (MAC address, time stamp, use count). */
module Nat25Table {
  import opened Bytes

  const HASH_SIZE: nat := 16
  /** One more than the largest `unsigned long`; `jiffies` wraps around here. */
  const WORD: nat := 0x1_0000_0000_0000_0000
  const HALF: nat := 0x8000_0000_0000_0000

  const IPV4: byte := 1
  const IPV6: byte := 2
  const IPX: byte := 3
  const APPLE: byte := 4
  const PPPOE: byte := 5

  type NetAddr = a: seq<byte> | |a| == 17 witness seq(17, _ => 0)
  type Mac = m: seq<byte> | |m| == 6 witness seq(6, _ => 0)

  const NO_MAC: Mac := [0, 0, 0, 0, 0, 0]
  type Ip = i: seq<byte> | |i| == 4 witness [0, 0, 0, 0]

  const NO_IP: Ip := [0, 0, 0, 0]

  /** `__nat25_generate_ipv4_network_addr` */
  function Ipv4Addr(ip: Ip): NetAddr {
    [IPV4, 0, 0, 0, 0, 0, 0] + ip + [0, 0, 0, 0, 0, 0]
  }

  /** `a` is the key of that IP address; folded like `At`. */
  ghost predicate OfIp(a: NetAddr, ip: Ip) {
    forall k {:trigger Look(k)} :: Look(k) ==> a == Ipv4Addr(ip)
  }

  lemma OfIpIff(a: NetAddr, ip: Ip, other: Ip)
    requires OfIp(a, ip)
    ensures a == Ipv4Addr(ip) && (a == Ipv4Addr(other) <==> other == ip)
  {
    assert Look(0);
    assert ip == Ipv4Addr(ip)[7..11] && other == Ipv4Addr(other)[7..11];
  }

  // ----- the hash

  function Xor(a: NetAddr, lo: nat, hi: nat): bv8
    requires lo <= hi <= |a|
    decreases hi - lo
  {
    if lo == hi then 0 else (a[lo] as bv8) ^ Xor(a, lo + 1, hi)
  }

  function Folded(a: NetAddr): bv8 {
    if a[0] == IPV4 then Xor(a, 7, 11)
    else if a[0] == IPX then Xor(a, 1, 11)
    else if a[0] == APPLE then Xor(a, 1, 4)
    else if a[0] == PPPOE then Xor(a, 0, 9)
    else if a[0] == IPV6 then Xor(a, 1, 17)
    else Xor(a, 0, 17)
  }

  function Hash(a: NetAddr): (h: nat)
    ensures h < HASH_SIZE
  {
    var x := Folded(a) & 0x0F;
    assert x <= 0x0F;
    x as nat
  }

  /** Where the octets of a key begin that the bucket depends on. */
  function HashedFrom(kind: byte): nat {
    if kind == IPV4 then 7 else if kind == IPX || kind == APPLE || kind == IPV6 then 1 else 0
  }

  function HashedTo(kind: byte): nat {
    if kind == IPV4 || kind == IPX then 11 else if kind == APPLE then 4 else if kind == PPPOE then 9 else 17
  }

  function LowHalf(v: byte): bv8 {
    (v as bv8) & 0x0F
  }

  /** `o` is the octet `v`; folded like `At`. */
  ghost predicate IsBits(v: byte, o: bv8) {
    forall j {:trigger Look(j)} :: Look(j) ==> o == v as bv8
  }

  /** Changing one octet of a key moves it to another bucket exactly if the octet is hashed and its low half changes. */
  lemma HashChangesIff(a: NetAddr, k: nat, v: byte)
    requires 1 <= k < 17
    ensures Hash(a[k := v]) != Hash(a) <==> HashedFrom(a[0]) <= k < HashedTo(a[0]) && LowHalf(v) != LowHalf(a[k])
  {
    LowHalvesDiffer(a, a[k := v], k, a[k] as bv8, v as bv8);
    SameBucketIff(a, a[k := v], Folded(a), Folded(a[k := v]));
    assert Look(0);
  }

  ghost predicate SameLow(x: bv8, y: bv8) {
    forall j {:trigger Look(j)} :: Look(j) ==> y & 0x0F == x & 0x0F
  }

  ghost predicate Toggled(x: bv8, y: bv8, o: bv8, w: bv8) {
    forall j {:trigger Look(j)} :: Look(j) ==> y == x ^ o ^ w
  }

  lemma LowHalvesDiffer(a: NetAddr, b: NetAddr, k: nat, o: bv8, w: bv8)
    requires 1 <= k < 17 && IsBits(a[k], o) && IsBits(b[k], w)
    requires forall i :: 0 <= i < 17 && i != k ==> b[i] == a[i]
    ensures SameLow(Folded(a), Folded(b)) <==> !(HashedFrom(a[0]) <= k < HashedTo(a[0])) || SameLow(o, w)
  {
    FoldedChanges(a, b, k, o, w, HashedFrom(a[0]), HashedTo(a[0]));
    LowHalves(Folded(a), Folded(b), o, w);
  }

  lemma FoldedChanges(a: NetAddr, b: NetAddr, k: nat, o: bv8, w: bv8, lo: nat, hi: nat)
    requires 1 <= k < 17 && IsBits(a[k], o) && IsBits(b[k], w) && lo == HashedFrom(a[0]) && hi == HashedTo(a[0])
    requires forall i :: 0 <= i < 17 && i != k ==> b[i] == a[i]
    ensures if lo <= k < hi then Toggled(Folded(a), Folded(b), o, w) else Folded(b) == Folded(a)
  {
    FoldedIsXor(a, lo, hi);
    FoldedIsXor(b, lo, hi);
    if lo <= k < hi {
      XorChanges(a, b, k, o, w, lo, hi);
    } else {
      XorKept(a, b, lo, hi);
    }
  }

  lemma FoldedIsXor(a: NetAddr, lo: nat, hi: nat)
    requires lo == HashedFrom(a[0]) && hi == HashedTo(a[0])
    ensures lo <= hi <= 17 && Folded(a) == Xor(a, lo, hi)
  {
  }

  lemma SameBucketIff(a: NetAddr, b: NetAddr, x: bv8, y: bv8)
    requires x == Folded(a) && y == Folded(b)
    ensures Hash(b) == Hash(a) <==> SameLow(x, y)
  {
    assert Look(0);
  }

  lemma {:induction false} XorKept(a: NetAddr, b: NetAddr, lo: nat, hi: nat)
    requires lo <= hi <= 17 && forall i :: lo <= i < hi ==> b[i] == a[i]
    ensures Xor(b, lo, hi) == Xor(a, lo, hi)
    decreases hi - lo
  {
    if lo < hi {
      XorKept(a, b, lo + 1, hi);
    }
  }

  lemma {:induction false} XorChanges(a: NetAddr, b: NetAddr, k: nat, o: bv8, w: bv8, lo: nat, hi: nat)
    requires lo <= k < hi <= 17 && IsBits(a[k], o) && IsBits(b[k], w)
    requires forall i :: 0 <= i < 17 && i != k ==> b[i] == a[i]
    ensures Xor(b, lo, hi) == Xor(a, lo, hi) ^ o ^ w
    decreases hi - lo
  {
    if lo == k {
      assert Look(0);
      XorKept(a, b, lo + 1, hi);
      Swapped(o, w, Xor(a, lo + 1, hi));
    } else {
      XorChanges(a, b, k, o, w, lo + 1, hi);
      Carried(a[lo] as bv8, Xor(a, lo + 1, hi), o, w);
    }
  }

  lemma Swapped(o: bv8, w: bv8, rest: bv8)
    ensures w ^ rest == o ^ rest ^ o ^ w
  {
  }

  lemma Carried(first: bv8, rest: bv8, o: bv8, w: bv8)
    ensures first ^ (rest ^ o ^ w) == first ^ rest ^ o ^ w
  {
  }

  lemma LowHalves(x: bv8, y: bv8, o: bv8, w: bv8)
    ensures Toggled(x, y, o, w) ==> (SameLow(x, y) <==> SameLow(o, w))
    ensures SameLow(x, x)
  {
    assert Look(0);
  }

  ghost predicate UnfoldHash(k: nat) {
    true
  }

  /** `h` is the bucket of `a`; folded, so that the bit operations stay out of the pointer proofs. */
  ghost predicate IsHash(a: NetAddr, h: nat) {
    forall k {:trigger UnfoldHash(k)} :: UnfoldHash(k) ==> h == Hash(a)
  }

  lemma SameHash(a: NetAddr, h: nat, g: nat)
    requires IsHash(a, h) && IsHash(a, g)
    ensures h == g
  {
    assert UnfoldHash(0);
  }

  method NetworkHash(a: NetAddr) returns (h: nat)
    ensures IsHash(a, h) && h < HASH_SIZE
  {
    h := Hash(a);
  }

  // ----- the abstract table

  datatype Info = Info(mac: Mac, stamp: nat, uses: int)

  type Table = map<NetAddr, Info>

  /** `time_before_eq(stamp, now - ageing)` on a wrapping clock. */
  predicate Expired(now: nat, stamp: nat, ageing: nat) {
    (now - ageing - stamp) % WORD < HALF
  }

  /** What one sweep does to the entries whose address is in `which`. */
  function SweptOn(t: Table, now: nat, ageing: nat, which: set<NetAddr>): Table {
    map a | a in t && !(a in which && Expired(now, t[a].stamp, ageing) && t[a].uses <= 1) ::
      if a in which && Expired(now, t[a].stamp, ageing) then t[a].(uses := t[a].uses - 1) else t[a]
  }

  function Swept(t: Table, now: nat, ageing: nat): Table {
    SweptOn(t, now, ageing, t.Keys)
  }

  predicate Fresh(t: Table, addr: NetAddr, now: nat, ageing: nat) {
    addr in t && !Expired(now, t[addr].stamp, ageing)
  }

  /** A lookup counts one more use of an unexpired entry. */
  function LookedUp(t: Table, addr: NetAddr, now: nat, ageing: nat): Table {
    if Fresh(t, addr, now, ageing) then t[addr := t[addr].(uses := t[addr].uses + 1)] else t
  }

  /** A lookup rewrites the destination of the frame from an unexpired entry. */
  function Redirected(t: Table, addr: NetAddr, now: nat, ageing: nat, frame: seq<byte>): seq<byte>
    requires |frame| >= 6
  {
    if Fresh(t, addr, now, ageing) then t[addr].mac + frame[6..] else frame
  }

  lemma SweptOne(t: Table, now: nat, ageing: nat, a: NetAddr)
    requires a in t
    ensures SweptOn(t, now, ageing, {a}) ==
            if !Expired(now, t[a].stamp, ageing) then t
            else if t[a].uses <= 1 then t - {a}
            else t[a := t[a].(uses := t[a].uses - 1)]
  {
  }

  lemma SweptNone(t: Table, now: nat, ageing: nat)
    ensures SweptOn(t, now, ageing, {}) == t
  {
  }

  lemma SweptTwice(t: Table, now: nat, ageing: nat, d: set<NetAddr>, e: set<NetAddr>)
    requires d !! e
    ensures SweptOn(SweptOn(t, now, ageing, d), now, ageing, e) == SweptOn(t, now, ageing, d + e)
  {
  }

  // ----- the linked representation

  /** What `pprev_hash` points at: a bucket of `nethash`, or the `next_hash` field of an entry. */
  datatype Link = Nowhere | Bucket(index: nat) | NextOf(entry: Entry)

  method SetDestination(frame: array<byte>, mac: Mac)
    requires frame.Length >= 6
    modifies frame
    ensures frame[..] == mac + old(frame[6..])
  {
    forall i | 0 <= i < 6 {
      frame[i] := mac[i];
    }
  }

  class Entry {
    var next: Entry?
    var pprev: Link
    var useCount: int
    var mac: Mac
    var stamp: nat
    const addr: NetAddr
    ghost const bucket: nat // the hash of `addr`

    constructor (addr: NetAddr, mac: Mac, stamp: nat, ghost hash: nat)
      ensures this.addr == addr && this.mac == mac && this.stamp == stamp && useCount == 1
      ensures bucket == hash
    {
      this.addr, this.mac, this.stamp := addr, mac, stamp;
      bucket := hash;
      useCount := 1;
      next := null;
      pprev := Nowhere;
    }
  }

  ghost function InfoOf(e: Entry): Info
    reads e
  {
    Info(e.mac, e.stamp, e.useCount)
  }

  ghost function Nth(c: seq<Entry>, k: nat): Entry? {
    if k < |c| then c[k] else null
  }

  ghost function LinkAt(c: seq<Entry>, bucket: nat, k: nat): Link
    requires k <= |c|
  {
    if k == 0 then Bucket(bucket) else NextOf(c[k - 1])
  }

  /** `c` is reached from `head`, and every entry points back at the link that reaches it. */
  ghost predicate Chained(head: Entry?, b: nat, c: seq<Entry>)
    reads c
  {
    && head == Nth(c, 0)
    && (forall k {:trigger c[k].next} :: 0 <= k < |c| ==> c[k].next == Nth(c, k + 1))
    && (forall k {:trigger c[k].pprev} :: 0 <= k < |c| ==> c[k].pprev == LinkAt(c, b, k))
  }

  ghost predicate UniqueKeys(c: seq<Entry>) {
    forall j, k {:trigger c[j].addr, c[k].addr} :: 0 <= j < k < |c| ==> c[j].addr != c[k].addr
  }

  ghost predicate InBucket(c: seq<Entry>, b: nat) {
    forall e :: e in c ==> e.bucket == b
  }

  /** The chains hold exactly `entries`, each in the bucket of its own hash, no key twice. */
  ghost predicate Indexed(chains: seq<seq<Entry>>, entries: set<Entry>) {
    && |chains| == HASH_SIZE
    && (forall e :: e in entries ==> e.bucket < HASH_SIZE && e in chains[e.bucket])
    && (forall b :: 0 <= b < HASH_SIZE ==> UniqueKeys(chains[b]) && InBucket(chains[b], b))
    && (forall b, e :: 0 <= b < HASH_SIZE && e in chains[b] ==> e in entries)
  }

  function Without(c: seq<Entry>, k: nat): seq<Entry>
    requires k < |c|
  {
    c[..k] + c[k + 1..]
  }

  lemma WithoutElements(c: seq<Entry>, k: nat)
    requires k < |c| && UniqueKeys(c)
    ensures forall e :: e in Without(c, k) <==> e in c && e != c[k]
    ensures UniqueKeys(Without(c, k))
  {
    var d := Without(c, k);
    forall e | e in c && e != c[k] ensures e in d {
      var j :| 0 <= j < |c| && c[j] == e;
      assert d[if j < k then j else j - 1] == e;
    }
    forall e | e in d ensures e in c && e != c[k] {
      var j :| 0 <= j < |d| && d[j] == e;
      var m := if j < k then j else j + 1;
      assert c[m] == e;
      assert c[m].addr != c[k].addr;
    }
  }

  lemma LinksWithout(c: seq<Entry>, k: nat, b: nat, i: nat)
    requires k < |c| && i < |c| - 1
    ensures var d, m := Without(c, k), if i < k then i else i + 1;
            && d[i] == c[m]
            && Nth(d, i + 1) == (if m + 1 == k then Nth(c, k + 1) else Nth(c, m + 1))
            && LinkAt(d, b, i) == if m == k + 1 then LinkAt(c, b, k) else LinkAt(c, b, m)
  {
  }

  lemma IndexedWithout(chains: seq<seq<Entry>>, entries: set<Entry>, b: nat, k: nat)
    requires Indexed(chains, entries) && b < HASH_SIZE && k < |chains[b]|
    ensures Indexed(chains[b := Without(chains[b], k)], entries - {chains[b][k]})
  {
    WithoutElements(chains[b], k);
    assert chains[b][k] in chains[b];
  }

  lemma IndexedFront(chains: seq<seq<Entry>>, entries: set<Entry>, ent: Entry)
    requires Indexed(chains, entries)
    requires ent.bucket < HASH_SIZE && forall e :: e in entries ==> e.addr != ent.addr
    ensures var b := ent.bucket; Indexed(chains[b := [ent] + chains[b]], entries + {ent})
  {
    var b := ent.bucket;
    var d := [ent] + chains[b];
    assert forall e :: e in d <==> e == ent || e in chains[b];
    forall j, k {:trigger d[j].addr, d[k].addr} | 0 <= j < k < |d| ensures d[j].addr != d[k].addr {
      assert d[k] == chains[b][k - 1];
      if j > 0 {
        assert d[j] == chains[b][j - 1];
      } else {
        assert chains[b][k - 1] in chains[b];
      }
    }
  }

  ghost function AddrsBelow(chains: seq<seq<Entry>>, n: nat): set<NetAddr>
    requires n <= |chains|
  {
    if n == 0 then {} else AddrsBelow(chains, n - 1) + Addrs(chains[n - 1])
  }

  lemma {:induction false} AddrsBelowBuckets(chains: seq<seq<Entry>>, entries: set<Entry>, index: map<NetAddr, Entry>, n: nat)
    requires Indexed(chains, entries) && n <= HASH_SIZE
    requires forall e :: e in entries ==> e.addr in index && index[e.addr] == e
    requires forall a :: a in index ==> index[a] in entries && index[a].addr == a
    ensures forall a :: a in AddrsBelow(chains, n) <==> a in index && index[a].bucket < n
  {
    if n > 0 {
      AddrsBelowBuckets(chains, entries, index, n - 1);
      assert InBucket(chains[n - 1], n - 1);
      forall a | a in index && index[a].bucket == n - 1 ensures a in Addrs(chains[n - 1]) {
        assert index[a] in chains[n - 1];
      }
    }
  }

  lemma StepOver(s: seq<Entry>, p: nat, c: seq<Entry>, k: nat)
    requires p <= |s| && k < |c| && s[p..] == c[k..]
    ensures p < |s| && s[p] == c[k] && Nth(s, p + 1) == Nth(c, k + 1)
    ensures s[p + 1..] == c[k + 1..] && Without(s, p)[p..] == c[k + 1..]
  {
    assert |s[p..]| == |c[k..]|;
    assert s[p] == s[p..][0] && s[p + 1..] == s[p..][1..] && c[k + 1..] == c[k..][1..];
    if k + 1 < |c| {
      assert s[p + 1] == s[p..][1];
    }
  }

  ghost predicate Unfold(k: nat) {
    true
  }

  ghost predicate UnfoldMap(k: nat) {
    true
  }

  ghost function Addrs(c: seq<Entry>): set<NetAddr> {
    set e | e in c :: e.addr
  }

  lemma AddrsNext(c: seq<Entry>, k: nat)
    requires k < |c| && UniqueKeys(c)
    ensures Addrs(c[..k + 1]) == Addrs(c[..k]) + {c[k].addr} && c[k].addr !in Addrs(c[..k])
  {
    forall e | e in c[..k] ensures e.addr != c[k].addr {
      var j :| 0 <= j < k && c[j] == e;
    }
    assert c[..k + 1] == c[..k] + [c[k]];
  }

  class Bridge {
    const ageing: nat
    const nethash: array<Entry?>
    var scdbEntry: Entry?
    var scdbMac: Mac
    var scdbIp: Ip

    ghost var chains: seq<seq<Entry>>
    ghost var entries: set<Entry>
    ghost var index: map<NetAddr, Entry>
    ghost var table: Table // the map the chains stand for

    /** The chains are well formed.  The definition stays folded: its parts come into view only where
        an `Unfold` term does, which keeps the reasoning about the map apart from the pointers. */
    ghost predicate Linked()
      reads `chains, `entries, nethash, entries
    {
      && |chains| == HASH_SIZE
      && (forall b, e :: 0 <= b < HASH_SIZE && e in chains[b] ==> e in entries)
      && (forall k {:trigger Unfold(k)} :: Unfold(k) ==> LinkedChains())
    }

    ghost predicate LinkedChains()
      reads `chains, `entries, nethash, entries
    {
      && 0 < ageing < HALF
      && nethash.Length == HASH_SIZE
      && Indexed(chains, entries)
      && (forall b :: 0 <= b < HASH_SIZE ==> Chained(nethash[b], b, chains[b]))
    }

    /** `index` finds each entry by its key, and `table` shows what it holds.  Folded like `Linked`. */
    ghost predicate Mapped()
      reads `entries, `index, `table, entries
    {
      forall k {:trigger UnfoldMap(k)} :: UnfoldMap(k) ==> MappedEntries()
    }

    ghost predicate MappedEntries()
      reads `entries, `index, `table, entries
    {
      && table.Keys == index.Keys
      && (forall e :: e in entries ==> e.addr in index && index[e.addr] == e)
      && (forall a :: a in index ==> index[a] in entries && index[a].addr == a && table[a] == InfoOf(index[a]))
      && (forall e :: e in entries ==> IsHash(e.addr, e.bucket))
    }

    ghost predicate Valid()
      reads this, nethash, entries
    {
      && Linked() && Mapped()
      && (forall a :: a in table ==> table[a].uses >= 1)
      && (scdbEntry != null ==> scdbEntry in entries && OfIp(scdbEntry.addr, scdbIp))
    }

    lemma EntryFacts(e: Entry)
      requires Mapped() && e in entries
      ensures e.addr in table && table[e.addr] == InfoOf(e) && IsHash(e.addr, e.bucket)
    {
      assert UnfoldMap(0);
    }

    lemma KeysUnused(ent: Entry)
      requires Mapped() && ent.addr !in table
      ensures forall e :: e in entries ==> e.addr != ent.addr
    {
      assert UnfoldMap(0);
    }

    constructor (ageing: nat)
      requires 0 < ageing < HALF
      ensures Valid() && fresh(nethash) && entries == {} && table == map[] && this.ageing == ageing
      ensures scdbEntry == null && scdbMac == NO_MAC
    {
      this.ageing := ageing;
      nethash := new Entry?[HASH_SIZE](_ => null);
      scdbEntry, scdbMac, scdbIp := null, NO_MAC, NO_IP;
      chains := seq(HASH_SIZE, _ => []);
      entries, index, table := {}, map[], map[];
    }

    /** Inserts `ent` in front of the chain `c` of one bucket. */
    method HashLink(ent: Entry, b: nat, ghost c: seq<Entry>)
      requires b < nethash.Length && Chained(nethash[b], b, c) && ent !in c
      modifies nethash, ent`next, ent`pprev, c`pprev
      ensures Chained(nethash[b], b, [ent] + c)
      ensures forall j :: 0 <= j < nethash.Length && j != b ==> nethash[j] == old(nethash[j])
    {
      ent.next := nethash[b];
      if ent.next != null {
        ent.next.pprev := NextOf(ent);
      }
      nethash[b] := ent;
      ent.pprev := Bucket(b);
      ghost var d := [ent] + c;
      assert forall k :: 1 <= k < |d| ==> d[k] == c[k - 1];
      forall k | 0 <= k < |d| ensures d[k].pprev == LinkAt(d, b, k) && d[k].next == Nth(d, k + 1) {
        if k > 0 {
          assert old(c[k - 1].pprev) == LinkAt(c, b, k - 1);
          assert old(c[k - 1].next) == Nth(c, k);
        }
      }
    }

    /** Takes `ent`, the `k`-th entry of the chain `c` of bucket `b`, out of the chain through its
        back pointer alone. */
    method HashUnlink(ent: Entry, ghost b: nat, ghost c: seq<Entry>, ghost k: nat)
      requires b < nethash.Length && k < |c| && c[k] == ent && UniqueKeys(c)
      requires Chained(nethash[b], b, c)
      modifies nethash, c`next, c`pprev
      ensures Chained(nethash[b], b, Without(c, k))
      ensures forall j :: 0 <= j < nethash.Length && j != b ==> nethash[j] == old(nethash[j])
      ensures ent.next == null && ent.pprev == Nowhere
    {
      ghost var d := Without(c, k);
      assert ent.pprev == LinkAt(c, b, k) && ent.next == Nth(c, k + 1);
      forall i, j | 0 <= i < j < |c| ensures c[i] != c[j] {
        assert c[i].addr != c[j].addr;
      }
      match ent.pprev {
        case Bucket(i) => nethash[i] := ent.next;
        case NextOf(e) => e.next := ent.next;
      }
      if ent.next != null {
        ent.next.pprev := ent.pprev;
      }
      ent.next := null;
      ent.pprev := Nowhere;
      forall i | 0 <= i < |d| ensures d[i].next == Nth(d, i + 1) && d[i].pprev == LinkAt(d, b, i) {
        var m := if i < k then i else i + 1;
        LinksWithout(c, k, b, i);
        assert old(c[m].next) == Nth(c, m + 1) && old(c[m].pprev) == LinkAt(c, b, m);
        assert d[i].next == if m + 1 == k then Nth(c, k + 1) else Nth(c, m + 1);
        assert d[i].pprev == if m == k + 1 then LinkAt(c, b, k) else LinkAt(c, b, m);
      }
    }

    /** Links a new entry into the bucket of its own hash. */
    method Attach(ent: Entry, b: nat)
      requires Linked() && b == ent.bucket < HASH_SIZE && forall e :: e in entries ==> e.addr != ent.addr
      modifies this`chains, this`entries, nethash, ent`next, ent`pprev, entries`pprev
      ensures Linked() && entries == old(entries) + {ent}
    {
      assert Unfold(0);
      ghost var c := chains[b];
      assert forall e :: e in c ==> e in entries;
      HashLink(ent, b, c);
      IndexedFront(chains, entries, ent);
      forall j | 0 <= j < HASH_SIZE && j != b ensures Chained(nethash[j], j, chains[j]) {
        assert old(Chained(nethash[j], j, chains[j]));
        forall k | 0 <= k < |chains[j]| ensures chains[j][k] !in c && chains[j][k] != ent {
          assert chains[j][k] in chains[j];
        }
      }
      chains := chains[b := [ent] + c];
      entries := entries + {ent};
    }

    /** Unlinks an entry that is about to be freed. */
    method Detach(f: Entry, ghost b: nat, ghost k: nat)
      requires Linked() && b < HASH_SIZE && k < |chains[b]| && chains[b][k] == f
      modifies this`chains, this`entries, nethash, entries`next, entries`pprev
      ensures Linked() && entries == old(entries) - {f}
      ensures chains == old(chains)[b := Without(old(chains)[b], k)]
    {
      assert Unfold(0);
      ghost var c := chains[b];
      IndexedWithout(chains, entries, b, k);
      HashUnlink(f, b, c, k);
      forall j | 0 <= j < HASH_SIZE && j != b ensures Chained(nethash[j], j, chains[j]) {
        assert old(Chained(nethash[j], j, chains[j]));
        forall k | 0 <= k < |chains[j]| ensures chains[j][k] !in c {
          assert chains[j][k] in chains[j];
        }
      }
      chains := chains[b := Without(c, k)];
      entries := entries - {f};
    }

    /** A store into the other fields leaves every chain as it was. */
    twostate lemma StillLinked()
      requires old(Linked()) && unchanged(`chains, `entries) && unchanged(nethash)
      requires forall e :: e in entries ==> e.next == old(e.next) && e.pprev == old(e.pprev)
      ensures Linked()
    {
      assert Unfold(0);
      forall b | 0 <= b < HASH_SIZE ensures Chained(nethash[b], b, chains[b]) {
        assert old(Chained(nethash[b], b, chains[b]));
        assert forall k {:trigger chains[b][k]} :: 0 <= k < |chains[b]| ==> chains[b][k] in chains[b];
      }
    }

    /** The map follows an update of one entry, old or new. */
    twostate lemma StillMapped(new e: Entry)
      requires old(Mapped()) && entries == old(entries) + {e} && IsHash(e.addr, e.bucket)
      requires e in old(entries) || e.addr !in old(table)
      requires index == old(index)[e.addr := e] && table == old(table)[e.addr := InfoOf(e)]
      requires forall d :: d in old(entries) && d != e ==> InfoOf(d) == old(InfoOf(d))
      ensures Mapped()
    {
      assert UnfoldMap(0);
    }

    /** Links do not depend on the other fields. */
    method Store(db: Entry, mac: Mac, stamp: nat, uses: int)
      requires Linked() && Mapped() && db in entries
      modifies db`mac, db`stamp, db`useCount, this`index, this`table
      ensures Linked() && Mapped() && db.useCount == uses
      ensures db.addr in old(table) && table == old(table)[db.addr := Info(mac, stamp, uses)]
    {
      EntryFacts(db);
      db.mac, db.stamp, db.useCount := mac, stamp, uses;
      index := index[db.addr := db];
      table := table[db.addr := Info(mac, stamp, uses)];
      StillLinked();
      StillMapped(db);
    }

    /** Links a freshly allocated entry and makes it part of the table. */
    method Add(ent: Entry, b: nat)
      requires Linked() && Mapped() && ent.addr !in table && b == ent.bucket < HASH_SIZE && IsHash(ent.addr, b)
      modifies this`chains, this`entries, this`index, this`table, nethash, ent`next, ent`pprev, entries`pprev
      ensures Linked() && Mapped() && entries == old(entries) + {ent}
      ensures table == old(table)[ent.addr := InfoOf(ent)]
    {
      KeysUnused(ent);
      Attach(ent, b);
      index := index[ent.addr := ent];
      table := table[ent.addr := InfoOf(ent)];
      StillMapped(ent);
    }

    /** Unlinks an entry, takes it out of the table and frees it. */
    method Free(f: Entry, ghost b: nat, ghost k: nat)
      requires Linked() && Mapped() && b < HASH_SIZE && k < |chains[b]| && chains[b][k] == f
      modifies this`chains, this`entries, this`index, this`table, nethash, entries`next, entries`pprev
      ensures Linked() && Mapped() && entries == old(entries) - {f}
      ensures chains == old(chains)[b := Without(old(chains)[b], k)]
      ensures table == old(table) - {f.addr}
    {
      assert f in chains[b];
      Detach(f, b, k);
      index := index - {f.addr};
      table := table - {f.addr};
      MappedWithout(f);
    }

    /** The map follows the removal of one entry. */
    twostate lemma MappedWithout(f: Entry)
      requires old(Mapped()) && f in old(entries) && entries == old(entries) - {f}
      requires index == old(index) - {f.addr} && table == old(table) - {f.addr}
      requires forall d :: d in old(entries) ==> InfoOf(d) == old(InfoOf(d))
      ensures Mapped()
    {
      assert UnfoldMap(0);
    }

    /** The chain walk shared by lookup, insertion and `scdb_findEntry`. */
    method FindEntry(addr: NetAddr) returns (db: Entry?)
      requires Valid()
      ensures db != null ==> db in entries && db.addr == addr
      ensures db == null <==> addr !in table
      ensures db != null ==> table[addr] == InfoOf(db)
    {
      assert Unfold(0) && UnfoldMap(0);
      var b := NetworkHash(addr);
      ghost var c := chains[b];
      assert Chained(nethash[b], b, c);
      db := nethash[b];
      ghost var k := 0;
      while db != null
        invariant k <= |c| && db == Nth(c, k)
        invariant forall j {:trigger c[j].addr} :: 0 <= j < k ==> c[j].addr != addr
        decreases |c| - k
      {
        if db.addr == addr {
          assert c[k] in c;
          return;
        }
        assert c[k].next == Nth(c, k + 1);
        db := db.next;
        k := k + 1;
      }
      if addr in index {
        SameHash(addr, b, index[addr].bucket);
      }
      assert forall e :: e in c ==> e.addr != addr;
    }

    /** `__nat25_db_network_lookup_and_replace`: `dst` is the frame whose destination may be rewritten. */
    method LookupAndReplace(dst: array<byte>, addr: NetAddr, now: nat) returns (found: bool)
      requires Valid() && dst.Length >= 6
      modifies entries, dst, `index, `table
      ensures Valid()
      ensures found == (addr in old(table))
      ensures table == LookedUp(old(table), addr, now, ageing)
      ensures dst[..] == Redirected(old(table), addr, now, ageing, old(dst[..]))
    {
      var db := FindEntry(addr);
      found := db != null;
      if db != null && !Expired(now, db.stamp, ageing) {
        SetDestination(dst, db.mac);
        Store(db, db.mac, db.stamp, db.useCount + 1);
      }
    }

    /** `__nat25_db_network_insert`, when the allocation succeeds. */
    method Insert(mac: Mac, addr: NetAddr, now: nat)
      requires Valid()
      modifies this`chains, this`entries, this`index, this`table, nethash, entries
      ensures Valid() && fresh(entries - old(entries))
      ensures var t := old(table);
              table == t[addr := if addr in t then t[addr].(mac := mac, stamp := now) else Info(mac, now, 1)]
      ensures scdbEntry == old(scdbEntry)
    {
      var db := FindEntry(addr);
      if db != null {
        Store(db, mac, now, db.useCount);
      } else {
        var hash := NetworkHash(addr);
        var ent := new Entry(addr, mac, now, hash);
        Add(ent, hash);
      }
    }

    /** Unlinks and frees an expired entry, clearing the shortcut if it points there. */
    method Drop(f: Entry, ghost b: nat, ghost k: nat)
      requires Linked() && Mapped() && b < HASH_SIZE && k < |chains[b]| && chains[b][k] == f
      modifies this, nethash, entries`next, entries`pprev
      ensures Linked() && Mapped() && entries == old(entries) - {f}
      ensures chains == old(chains)[b := Without(old(chains)[b], k)]
      ensures table == old(table) - {f.addr}
      ensures if old(scdbEntry) == f then scdbEntry == null && scdbMac == NO_MAC && scdbIp == NO_IP
              else scdbEntry == old(scdbEntry) && scdbMac == old(scdbMac) && scdbIp == old(scdbIp)
    {
      if scdbEntry == f {
        scdbMac := NO_MAC;
        scdbIp := NO_IP;
        scdbEntry := null;
      }
      Free(f, b, k);
    }

    /** The body of the sweep for one entry. */
    method ExpireOne(f: Entry, now: nat, ghost b: nat, ghost k: nat) returns (ghost gone: bool)
      requires Valid() && b < HASH_SIZE && k < |chains[b]| && chains[b][k] == f
      modifies this, nethash, entries
      ensures Valid() && entries <= old(entries)
      ensures table == SweptOn(old(table), now, ageing, {f.addr})
      ensures chains == if gone then old(chains)[b := Without(old(chains)[b], k)] else old(chains)
      ensures old(scdbEntry) != null && old(scdbEntry) in entries ==> scdbEntry == old(scdbEntry)
    {
      assert f in chains[b];
      ghost var t := table;
      EntryFacts(f);
      SweptOne(t, now, ageing, f.addr);
      gone := false;
      if Expired(now, f.stamp, ageing) {
        Store(f, f.mac, f.stamp, f.useCount - 1);
        if f.useCount == 0 {
          gone := true;
          Drop(f, b, k);
          assert t[f.addr := t[f.addr].(uses := t[f.addr].uses - 1)] - {f.addr} == t - {f.addr};
        }
      }
    }

    /** What a walk along bucket `b` may rely on. */
    lemma ChainFacts(b: nat)
      requires Linked() && b < HASH_SIZE
      ensures b < nethash.Length && nethash[b] == Nth(chains[b], 0)
      ensures forall k {:trigger chains[b][k]} :: 0 <= k < |chains[b]| ==> chains[b][k].next == Nth(chains[b], k + 1)
      ensures UniqueKeys(chains[b]) && InBucket(chains[b], b)
    {
      assert Unfold(0);
      assert Chained(nethash[b], b, chains[b]);
      forall k {:trigger chains[b][k]} | 0 <= k < |chains[b]| ensures chains[b][k].next == Nth(chains[b], k + 1) {
      }
    }

    /** The sweep of bucket `i`, which held `c`, has dealt with the first `k` entries and left `p` of them. */
    ghost predicate SweepAt(t: Table, c: seq<Entry>, i: nat, now: nat, p: nat, k: nat, f: Entry?)
      reads this, nethash, entries
    {
      && Valid() && i < HASH_SIZE && UniqueKeys(c)
      && k <= |c| && f == Nth(c, k)
      && p <= |chains[i]| && chains[i][p..] == c[k..]
      && table == SweptOn(t, now, ageing, Addrs(c[..k]))
    }

    /** One round of the inner loop. */
    method ExpireStep(f: Entry, now: nat, ghost t: Table, ghost c: seq<Entry>, ghost i: nat, ghost p: nat, ghost k: nat)
      returns (g: Entry?, ghost q: nat)
      requires SweepAt(t, c, i, now, p, k, f)
      modifies this, nethash, entries
      ensures k < |c| && SweepAt(t, c, i, now, q, k + 1, g)
      ensures entries <= old(entries)
      ensures forall j :: 0 <= j < HASH_SIZE && j != i ==> chains[j] == old(chains)[j]
      ensures old(scdbEntry) != null && old(scdbEntry) in entries ==> scdbEntry == old(scdbEntry)
    {
      ChainFacts(i);
      StepOver(chains[i], p, c, k);
      g := f.next;
      AddrsNext(c, k);
      ghost var gone := ExpireOne(f, now, i, p);
      SweptTwice(t, now, ageing, Addrs(c[..k]), {f.addr});
      q := if gone then p else p + 1;
    }

    /** The inner loop of the sweep. */
    method ExpireBucket(i: nat, now: nat)
      requires Valid() && i < HASH_SIZE
      modifies this, nethash, entries
      ensures Valid() && entries <= old(entries)
      ensures table == SweptOn(old(table), now, ageing, Addrs(old(chains)[i]))
      ensures forall j :: 0 <= j < HASH_SIZE && j != i ==> chains[j] == old(chains)[j]
      ensures old(scdbEntry) != null && old(scdbEntry) in entries ==> scdbEntry == old(scdbEntry)
    {
      ghost var t := table;
      ghost var c := chains[i];
      ghost var p, k := 0, 0;
      ChainFacts(i);
      SweptNone(t, now, ageing);
      var f := nethash[i];
      while f != null
        invariant SweepAt(t, c, i, now, p, k, f) && entries <= old(entries)
        invariant forall j :: 0 <= j < HASH_SIZE && j != i ==> chains[j] == old(chains)[j]
        invariant old(scdbEntry) != null && old(scdbEntry) in entries ==> scdbEntry == old(scdbEntry)
        decreases |c| - k
      {
        f, p := ExpireStep(f, now, t, c, i, p, k);
        k := k + 1;
      }
      assert c[..k] == c;
    }

    /** The chains together hold exactly the keys of the table, and no two buckets share one. */
    lemma EveryKeyChained()
      requires Linked() && Mapped()
      ensures AddrsBelow(chains, HASH_SIZE) == table.Keys
      ensures forall i :: 0 <= i < HASH_SIZE ==> AddrsBelow(chains, i) !! Addrs(chains[i])
    {
      assert Unfold(0) && UnfoldMap(0);
      forall i | 0 <= i <= HASH_SIZE
        ensures forall a :: a in AddrsBelow(chains, i) <==> a in index && index[a].bucket < i
      {
        AddrsBelowBuckets(chains, entries, index, i);
      }
      forall i, e | 0 <= i < HASH_SIZE && e in chains[i] ensures e.addr in index && index[e.addr].bucket == i {
        assert InBucket(chains[i], i);
      }
    }

    /** `nat25_db_expire`: one sweep over all buckets. */
    method Expire(now: nat)
      requires Valid()
      modifies this, nethash, entries
      ensures Valid() && entries <= old(entries)
      ensures table == Swept(old(table), now, ageing)
      ensures old(scdbEntry) != null && old(scdbEntry) in entries ==> scdbEntry == old(scdbEntry)
    {
      ghost var t := table;
      ghost var c := chains;
      SweptNone(t, now, ageing);
      EveryKeyChained();
      for i := 0 to HASH_SIZE
        invariant Valid() && entries <= old(entries)
        invariant forall j :: i <= j < HASH_SIZE ==> chains[j] == c[j]
        invariant table == SweptOn(t, now, ageing, AddrsBelow(c, i))
        invariant old(scdbEntry) != null && old(scdbEntry) in entries ==> scdbEntry == old(scdbEntry)
      {
        ExpireBucket(i, now);
        SweptTwice(t, now, ageing, AddrsBelow(c, i), Addrs(c[i]));
      }
    }

    lemma NoneLeft()
      requires Linked() && Mapped() && forall j :: 0 <= j < HASH_SIZE ==> chains[j] == []
      ensures entries == {} && table == map[]
    {
      assert Unfold(0) && UnfoldMap(0);
      forall e | e in entries ensures false {
      }
      assert table.Keys == {};
    }

    /** `nat25_db_cleanup`: unlinks and frees everything. */
    method Cleanup()
      requires Valid()
      modifies this, nethash, entries`next, entries`pprev
      ensures Valid() && entries == {} && table == map[] && scdbEntry == null
    {
      for i := 0 to HASH_SIZE
        invariant Valid() && entries <= old(entries)
        invariant forall j :: 0 <= j < i ==> chains[j] == []
      {
        ChainFacts(i);
        var f := nethash[i];
        while f != null
          invariant Valid() && entries <= old(entries)
          invariant f == Nth(chains[i], 0)
          invariant forall j :: 0 <= j < i ==> chains[j] == []
          decreases |chains[i]|
        {
          ChainFacts(i);
          assert chains[i][0] == f;
          var g := f.next;
          assert Without(chains[i], 0) == chains[i][1..];
          Drop(f, i, 0);
          f := g;
        }
      }
      NoneLeft();
    }

    /** `db->ageing_timer = jiffies` */
    method Refresh(db: Entry, now: nat)
      requires Valid() && db in entries
      modifies this`index, this`table, db`mac, db`stamp, db`useCount
      ensures Valid() && db.addr in old(table) && table == Stamped(old(table), db.addr, now)
    {
      EntryFacts(db);
      Store(db, db.mac, now, db.useCount);
    }

    /** What the transmit path does with an IP frame from `mac` and `ip` before the table is asked: with a
        new sender address the shortcut is looked up; with the same one as before it is taken as it stands.
        The entry refreshed is the one of `ip` exactly if the sender is new or has kept its IP address. */
    method TakeShortcut(mac: Mac, ip: Ip, now: nat) returns (doNat25: bool)
      requires Valid()
      modifies this`scdbEntry, this`scdbMac, this`scdbIp, this`index, this`table, entries
      ensures Valid() && doNat25 == (scdbEntry == null)
      ensures scdbEntry != null ==> scdbEntry.addr in old(table) && table == Stamped(old(table), scdbEntry.addr, now)
      ensures scdbEntry == null ==> table == old(table)
      ensures scdbEntry != null ==> (scdbEntry.addr == Ipv4Addr(ip) <==> mac != old(scdbMac) || ip == old(scdbIp))
      ensures if mac != old(scdbMac) then
                && (scdbEntry != null <==> Ipv4Addr(ip) in old(table))
                && (scdbEntry != null ==> scdbEntry.addr == Ipv4Addr(ip) && scdbMac == mac && scdbIp == ip)
                && (scdbEntry == null ==> scdbMac == old(scdbMac) && scdbIp == old(scdbIp))
              else
                && scdbEntry == old(scdbEntry)
                && if scdbEntry != null then scdbMac == old(scdbMac) && scdbIp == old(scdbIp)
                   else scdbMac == NO_MAC && scdbIp == NO_IP
    {
      doNat25 := true;
      if scdbEntry != null {
        OfIpIff(scdbEntry.addr, scdbIp, ip);
      }
      if mac != scdbMac {
        var db := FindEntry(Ipv4Addr(ip));
        scdbEntry := db;
        if db != null {
          scdbMac, scdbIp := mac, ip;
          Refresh(db, now);
          doNat25 := false;
        }
      } else if scdbEntry != null {
        Refresh(scdbEntry, now);
        doNat25 := false;
      } else {
        scdbMac, scdbIp := NO_MAC, NO_IP;
      }
    }
  }

  /** A sender that sends from one IP address and then from another: both are in the table, and the second
      frame refreshes the entry of the first address. */
  method ShortcutExample(mac: Mac, ip: Ip, other: Ip) returns (b: Bridge, ghost before: Table)
    requires mac != NO_MAC && ip != other
    ensures Ipv4Addr(ip) in before && Ipv4Addr(other) in before
    ensures b.Valid() && b.table == Stamped(before, Ipv4Addr(ip), 2)
    ensures before[Ipv4Addr(ip)].stamp == 1 && before[Ipv4Addr(other)].stamp == 0
  {
    var first, second := Ipv4Addr(ip), Ipv4Addr(other);
    Ipv4Differs(ip, other);
    b := new Bridge(300);
    b.Insert(mac, first, 0);
    b.Insert(mac, second, 0);
    var doNat25 := b.TakeShortcut(mac, ip, 1);
    before := b.table;
    doNat25 := b.TakeShortcut(mac, other, 2);
  }

  lemma Ipv4Differs(ip: Ip, other: Ip)
    requires ip != other
    ensures Ipv4Addr(ip) != Ipv4Addr(other)
  {
    assert ip == Ipv4Addr(ip)[7..11] && other == Ipv4Addr(other)[7..11];
  }

  // ----- what the table does over time

  /** On the wrapping clock, and for every age short of its range beyond the ageing time, the comparison
      answers whether the ageing time has passed exactly up to half the range beyond it: after that a dead
      entry looks alive again. */
  lemma ExpiredIffAged(born: nat, now: nat, ageing: nat)
    requires born <= now && 0 < ageing < HALF && now - born < ageing + WORD
    ensures (Expired(now % WORD, born % WORD, ageing) <==> now - born >= ageing) <==> now - born < ageing + HALF
  {
    var d := now % WORD - ageing - born % WORD;
    var m := now / WORD - born / WORD;
    assert now - born - ageing == d + m * WORD;
    ModShift(d, m);
    if now - born < ageing {
      assert now - born - ageing == (now - born - ageing + WORD) - WORD;
      ModShift(now - born - ageing, 1);
    }
  }

  /** What a lookup does goes by the true age of the entry: one that has not reached the ageing time redirects the
      frame and is used once more, and an older one, or none, changes nothing. */
  lemma LookupByAge(t: Table, addr: NetAddr, born: nat, now: nat, ageing: nat, frame: seq<byte>)
    requires born <= now && 0 < ageing < HALF && now - born < ageing + HALF && |frame| >= 6
    requires addr in t ==> t[addr].stamp == born % WORD
    ensures var u, r := LookedUp(t, addr, now % WORD, ageing), Redirected(t, addr, now % WORD, ageing, frame);
            if addr in t && now - born < ageing then
              && r[..6] == t[addr].mac && r[6..] == frame[6..]
              && u.Keys == t.Keys && u[addr] == t[addr].(uses := t[addr].uses + 1)
              && forall a :: a in t && a != addr ==> u[a] == t[a]
            else u == t && r == frame
  {
    ExpiredIffAged(born, now, ageing);
  }

  lemma ModShift(d: int, m: int)
    ensures (d + m * WORD) % WORD == d % WORD
  {
  }

  function Stamped(t: Table, a: NetAddr, now: nat): Table
    requires a in t
  {
    t[a := t[a].(stamp := now)]
  }

  function SweptAll(t: Table, nows: seq<nat>, ageing: nat): Table {
    if nows == [] then t else SweptAll(Swept(t, nows[0], ageing), nows[1..], ageing)
  }

  function CountExpired(nows: seq<nat>, stamp: nat, ageing: nat): nat {
    if nows == [] then 0 else (if Expired(nows[0], stamp, ageing) then 1 else 0) + CountExpired(nows[1..], stamp, ageing)
  }

  /** An entry nobody touches survives a series of sweeps exactly as long as fewer of them found it
      expired than its use count, and it has lost that many uses. */
  lemma {:induction false} SurvivesFewerSweepsThanUses(t: Table, a: NetAddr, nows: seq<nat>, ageing: nat)
    requires a in t && t[a].uses >= 1
    ensures var n := CountExpired(nows, t[a].stamp, ageing);
            && (a in SweptAll(t, nows, ageing) <==> n < t[a].uses)
            && (n < t[a].uses ==> SweptAll(t, nows, ageing)[a] == t[a].(uses := t[a].uses - n))
  {
    if nows != [] {
      var u := Swept(t, nows[0], ageing);
      if a in u {
        SurvivesFewerSweepsThanUses(u, a, nows[1..], ageing);
      } else {
        GoneStaysGone(u, a, nows[1..], ageing);
      }
    }
  }

  lemma {:induction false} GoneStaysGone(t: Table, a: NetAddr, nows: seq<nat>, ageing: nat)
    requires a !in t
    ensures a !in SweptAll(t, nows, ageing)
  {
    if nows != [] {
      GoneStaysGone(Swept(t, nows[0], ageing), a, nows[1..], ageing);
    }
  }

  /** Every lookup that found the entry alive buys it one more sweep. */
  lemma LookupBuysOneSweep(t: Table, a: NetAddr, now: nat, nows: seq<nat>, ageing: nat)
    requires Fresh(t, a, now, ageing) && t[a].uses >= 1
    ensures a in SweptAll(LookedUp(t, a, now, ageing), nows, ageing)
            <==> CountExpired(nows, t[a].stamp, ageing) <= t[a].uses
  {
    SurvivesFewerSweepsThanUses(LookedUp(t, a, now, ageing), a, nows, ageing);
  }
}
