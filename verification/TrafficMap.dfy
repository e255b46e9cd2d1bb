/** The traffic indication map in the beacon: core/rtw_ap.c, `update_BCNTIM`. */
module TrafficMap {
  import opened Bytes
  import opened Memory
  import opened Tlv
  import opened BssDescription
  import opened Beacon
  import opened Words
  import ElementParser

  // ----- the octets of the map

  const SSID: byte := 0
  const SUPPORTED_RATES: byte := 1
  const DS_PARAMETERS: byte := 3
  const TIM: byte := 5

  /** One more than the largest `uint`. */
  const WORD: nat := 0x1_0000_0000

  /** The octets of the DS parameter element. */
  const DS_LENGTH: nat := 3

  /** Bit `k` of a number. */
  predicate Bit(x: nat, k: nat) {
    if k == 0 then x % 2 == 1 else Bit(x / 2, k - 1)
  }

  type bitmap = b: int | 0 <= b < 65536

  /** The octets written behind the TIM header for the 16 bits of `tim_bitmap`, bit 0 standing for group
      traffic and bit `n` for association `n`.  `cpu_to_le16` swaps on a big-endian host. */
  function TimBody(tim: bitmap, littleEndian: bool): (body: seq<byte>)
    ensures |body| == if tim / 256 != 0 && tim % 256 / 2 != 0 then 5 else 4
  {
    var lo, hi := tim % 256, tim / 256;
    var group := tim % 2;
    if hi != 0 && lo / 2 != 0 then [0, 1, group, lo, hi]
    else
      var firstOctet, secondOctet := if littleEndian then lo else hi, if littleEndian then hi else lo;
      [0, 1, group, if lo / 2 != 0 then firstOctet else if hi != 0 then secondOctet else firstOctet]
  }

  /** Whether a TIM body announces traffic for an association (section 7.3.2.6 of IEEE 802.11-2007): the
      partial virtual bitmap begins with octet `2 * offset` of the whole, and what it leaves out is zero. */
  predicate Announces(body: seq<byte>, aid: nat)
    requires |body| >= 4
  {
    var first := 2 * (body[2] / 2);
    var octet := aid / 8;
    first <= octet && octet - first + 3 < |body| && Bit(body[3 + octet - first], aid % 8)
  }

  lemma {:induction false} BitsSplit(lo: nat, hi: nat, w: nat, k: nat)
    requires lo < Power(w)
    ensures Bit(lo + hi * Power(w), k) == if k < w then Bit(lo, k) else Bit(hi, k - w)
  {
    if w > 0 {
      var q := hi * Power(w - 1);
      assert hi * Power(w) == 2 * q;
      assert (lo + 2 * q) / 2 == lo / 2 + q;
      if k > 0 {
        BitsSplit(lo / 2, hi, w - 1, k - 1);
      }
    }
  }

  /** The bits of the two octets. */
  lemma BitOfOctet(tim: bitmap, k: nat)
    ensures Bit(tim, k) == if k < 8 then Bit(tim % 256, k) else Bit(tim / 256, k - 8)
  {
    PowersOfOctets();
    BitsSplit(tim % 256, tim / 256, 8, k);
  }

  lemma {:induction false} SomeBit(x: nat, w: nat) returns (k: nat)
    requires 0 < x < Power(w)
    ensures k < w && Bit(x, k)
  {
    if x % 2 == 1 {
      k := 0;
    } else {
      k := SomeBit(x / 2, w - 1);
      k := k + 1;
    }
  }

  lemma {:induction false} NoBit(k: nat)
    ensures !Bit(0, k) && (k > 0 ==> !Bit(1, k))
  {
    if k > 0 {
      NoBit(k - 1);
    }
  }

  predicate Faithful(tim: bitmap, littleEndian: bool) {
    forall aid :: 1 <= aid < 16 ==> Announces(TimBody(tim, littleEndian), aid) == Bit(tim, aid)
  }

  /** Group traffic, association 0, is announced by bit 0 of the bitmap control alone (section 7.3.2.6 of IEEE
      802.11-2007): on every host exactly if the map has it.  The count is 0 and the period 1: every beacon
      delivers group traffic. */
  lemma GroupTrafficIff(tim: bitmap, littleEndian: bool)
    ensures var body := TimBody(tim, littleEndian);
            && body[0] == 0 && body[1] == 1
            && (body[2] % 2 == 1 <==> Bit(tim, 0)) && body[2] / 2 == 0
  {
  }

  /** On a little-endian host the TIM announces exactly the associations 1 to 15 with traffic, unless it has
      traffic for some of 8 to 15 and none of 1 to 7. */
  lemma TimIsFaithfulIff(tim: bitmap)
    ensures Faithful(tim, true) <==> tim / 256 == 0 || tim % 256 / 2 != 0
  {
    var lo, hi := tim % 256, tim / 256;
    if hi == 0 || lo / 2 != 0 {
      forall aid | 1 <= aid < 16 ensures Announces(TimBody(tim, true), aid) == Bit(tim, aid) {
        BitOfOctet(tim, aid);
        NoBit(aid - if aid < 8 then 0 else 8);
      }
    } else {
      HighLost(tim, true);
    }
  }

  /** On a big-endian host it does exactly when both octets are used or none is. */
  lemma TimIsFaithfulBigEndianIff(tim: bitmap)
    ensures Faithful(tim, false) <==> (tim / 256 != 0 <==> tim % 256 / 2 != 0)
  {
    var lo, hi := tim % 256, tim / 256;
    if hi != 0 <==> lo / 2 != 0 {
      forall aid | 1 <= aid < 16 ensures Announces(TimBody(tim, false), aid) == Bit(tim, aid) {
        BitOfOctet(tim, aid);
        NoBit(aid - if aid < 8 then 0 else 8);
      }
    } else if hi != 0 {
      HighLost(tim, false);
    } else {
      assert Power(7) == 128 by {
        assert Power(4) == 16;
      }
      var k := SomeBit(lo / 2, 7);
      BitOfOctet(tim, k + 1);
      NoBit(k + 1);
      assert Bit(tim, k + 1) && !Announces(TimBody(tim, false), k + 1);
    }
  }

  lemma HighLost(tim: bitmap, littleEndian: bool)
    requires tim / 256 != 0 && tim % 256 / 2 == 0
    ensures !Faithful(tim, littleEndian)
  {
    PowersOfOctets();
    var k := SomeBit(tim / 256, 8);
    BitOfOctet(tim, 8 + k);
    assert Bit(tim, 8 + k) && !Announces(TimBody(tim, littleEndian), 8 + k);
  }

  // ----- the TIM in the list

  /** How far behind the fixed part a new TIM goes. */
  function HeadLength(es: seq<Item>): nat {
    LengthOfFirst(es, SSID) + LengthOfFirst(es, SUPPORTED_RATES) + DS_LENGTH
  }

  /** That is where element `n` begins. */
  predicate AtBoundary(es: seq<Item>, n: nat) {
    n <= |es| && |Encode(Element, es[..n])| == HeadLength(es)
  }

  /** And there is no TIM in front of it. */
  predicate Heads(es: seq<Item>, n: nat) {
    AtBoundary(es, n) && NoneCarries(es[..n], TIM, [])
  }

  /** The usual beginning of a beacon. */
  lemma LeadingThree(es: seq<Item>)
    requires |es| >= 3 && es[0].id == SSID && es[1].id == SUPPORTED_RATES
    requires es[2].id == DS_PARAMETERS && |es[2].body| == 1
    ensures Heads(es, 3)
  {
    FirstIs(es, 0, SSID, []);
    FirstIs(es, 1, SUPPORTED_RATES, []);
    assert es[..3] == [es[0]] + [es[1]] + [es[2]];
    ThreeParts([es[0]], [es[1]], [es[2]]);
    EncodeOne(Element, es[0]);
    EncodeOne(Element, es[1]);
    EncodeOne(Element, es[2]);
  }

  predicate HasTim(es: seq<Item>) {
    var k := FirstMatch(es, TIM, []);
    k < |es| && es[k].body != []
  }

  /** The first TIM is replaced, or a new one is put in front of element `n`. */
  function TimUpdated(es: seq<Item>, body: seq<byte>, n: nat): seq<Item>
    requires HasTim(es) || n <= |es|
  {
    var k := FirstMatch(es, TIM, []);
    if HasTim(es) then es[..k] + [Item(TIM, body)] + es[k + 1..] else es[..n] + [Item(TIM, body)] + es[n..]
  }

  /** Where the TIM stands afterwards. */
  function TimIndex(es: seq<Item>, n: nat): nat {
    if HasTim(es) then FirstMatch(es, TIM, []) else n
  }

  /** Afterwards the first TIM is the new one. */
  lemma TimIsFirst(es: seq<Item>, body: seq<byte>, n: nat)
    requires body != [] && (HasTim(es) || Heads(es, n))
    ensures var r := TimUpdated(es, body, n);
            && FirstMatch(r, TIM, []) == TimIndex(es, n) < |r|
            && HasTim(r) && r[TimIndex(es, n)].body == body
  {
    var r, k := TimUpdated(es, body, n), TimIndex(es, n);
    assert r[k] == Item(TIM, body);
    assert forall i :: 0 <= i < k ==> r[i] == es[..k][i];
    FirstIs(r, k, TIM, []);
  }

  /** All other elements are as they were, and in the same order. */
  lemma TimKeepsOthers(es: seq<Item>, body: seq<byte>, n: nat)
    requires HasTim(es) || n <= |es|
    ensures Without(TimUpdated(es, body, n), TIM, []) == Without(es, TIM, [])
  {
    var k, m := TimIndex(es, n), [Item(TIM, body)];
    assert Without(m, TIM, []) == [];
    if HasTim(es) {
      OthersReplaced(es, k, m, TIM);
    } else {
      OthersInserted(es, k, m, TIM);
    }
  }

  // ----- updating again

  /** A second update overwrites the first exactly if there was a TIM, or there is none in front of the place
      of the new one.  An empty one there is found first every time, and passed over. */
  lemma LastTimWinsIff(es: seq<Item>, body: seq<byte>, again: seq<byte>, n: nat, n': nat)
    requires body != [] && (HasTim(es) || AtBoundary(es, n))
    requires HasTim(TimUpdated(es, body, n)) || AtBoundary(TimUpdated(es, body, n), n')
    ensures TimUpdated(TimUpdated(es, body, n), again, n') == TimUpdated(es, again, n)
            <==> HasTim(es) || NoneCarries(es[..n], TIM, [])
  {
    var r := TimUpdated(es, body, n);
    if HasTim(es) || Heads(es, n) {
      TimIsFirst(es, body, n);
      Overwritten(es, r, body, again, n, n');
    } else {
      EmptyTimStays(es, body, n);
      assert |TimUpdated(r, again, n')| == |es| + 2 && |TimUpdated(es, again, n)| == |es| + 1;
    }
  }

  lemma Overwritten(es: seq<Item>, r: seq<Item>, body: seq<byte>, again: seq<byte>, n: nat, n': nat)
    requires HasTim(es) || Heads(es, n)
    requires r == TimUpdated(es, body, n) && HasTim(r) && FirstMatch(r, TIM, []) == TimIndex(es, n)
    ensures TimUpdated(r, again, n') == TimUpdated(es, again, n)
  {
    var k := TimIndex(es, n);
    assert r[..k] == es[..k];
    assert r[k + 1..] == es[if HasTim(es) then k + 1 else k..];
  }

  /** With an empty TIM in front the description has no TIM for the next update either, and the place stays
      the same. */
  lemma EmptyTimStays(es: seq<Item>, body: seq<byte>, n: nat)
    requires !HasTim(es) && AtBoundary(es, n) && !NoneCarries(es[..n], TIM, [])
    ensures var r := TimUpdated(es, body, n);
            !HasTim(r) && AtBoundary(r, n) && !NoneCarries(r[..n], TIM, [])
  {
    var r, it := TimUpdated(es, body, n), Item(TIM, body);
    assert r == es[..n] + [it] + es[n..];
    assert r[..n] == es[..n];
    var front := es[..n];
    assert front[..n] == front;
    var k := FirstMatch(front, TIM, []);
    FirstInFront(es, n, k, TIM);
    FirstInFront(r, n, k, TIM);
    SameFirst(es, n, it, SSID);
    SameFirst(es, n, it, SUPPORTED_RATES);
  }

  lemma FirstInFront(es: seq<Item>, n: nat, k: nat, id: byte)
    requires n <= |es| && k == FirstMatch(es[..n], id, []) < n
    ensures FirstMatch(es, id, []) == k
  {
    assert forall i :: 0 <= i < k ==> es[..n][..k][i] == es[i];
    FirstIs(es, k, id, []);
  }

  /** An element put in has no part in the first one of another identifier. */
  lemma SameFirst(es: seq<Item>, n: nat, it: Item, id: byte)
    requires n <= |es| && it.id != id
    ensures LengthOfFirst(es[..n] + [it] + es[n..], id) == LengthOfFirst(es, id)
  {
    var r, k := es[..n] + [it] + es[n..], FirstMatch(es, id, []);
    var at := if k < n then k else k + 1;
    if k < |es| {
      assert r[at] == es[k];
      forall i | 0 <= i < at ensures !Carries(r[i], id, []) {
        assert r[i] == if i < n then es[..k][i] else if i == n then it else es[..k][i - 1];
      }
      FirstIs(r, at, id, []);
    } else {
      assert es[..k] == es;
      forall i | 0 <= i < |r| ensures !Carries(r[i], id, []) {
        assert r[i] == if i < n then es[i] else if i == n then it else es[i - 1];
      }
      var f := FirstMatch(r, id, []);
    }
  }

  function UpdatedTimes(es: seq<Item>, bodies: seq<seq<byte>>, n: nat): (r: seq<Item>)
    requires n <= |es|
    decreases |bodies|
  {
    if bodies == [] then es else
      var r := TimUpdated(es, bodies[0], n);
      UpdatedTimes(r, bodies[1..], n)
  }

  /** So one more TIM is put in by every update. */
  lemma {:induction false} TimsPileUp(es: seq<Item>, bodies: seq<seq<byte>>, n: nat)
    requires !HasTim(es) && AtBoundary(es, n) && !NoneCarries(es[..n], TIM, [])
    ensures |UpdatedTimes(es, bodies, n)| == |es| + |bodies| && AtBoundary(UpdatedTimes(es, bodies, n), n)
    decreases |bodies|
  {
    if bodies != [] {
      EmptyTimStays(es, bodies[0], n);
      TimsPileUp(TimUpdated(es, bodies[0], n), bodies[1..], n);
    }
  }

  /** Such a list. */
  lemma EmptyTimExample()
    ensures var es := [Item(SSID, []), Item(TIM, []), Item(48, [7, 7]), Item(SUPPORTED_RATES, [2])];
            !HasTim(es) && AtBoundary(es, 3) && !NoneCarries(es[..3], TIM, [])
  {
    var e0, e1, e2, e3 := Item(SSID, []), Item(TIM, []), Item(48, [7, 7]), Item(SUPPORTED_RATES, [2]);
    var es := [e0, e1, e2, e3];
    FirstIs(es, 0, SSID, []);
    FirstIs(es, 3, SUPPORTED_RATES, []);
    FirstIs(es, 1, TIM, []);
    assert es[..3] == [e0] + [e1] + [e2] && Carries(es[..3][1], TIM, []);
    EncodeThree(e0, e1, e2);
  }

  // ----- when the list takes the TIM

  /** Where element `m` begins, behind the fixed part. */
  function Start(es: seq<Item>, m: nat): (p: nat)
    requires m <= |es|
    ensures p <= |Encode(Element, es)|
  {
    EncodeAppend(Element, es[..m], es[m..]);
    assert es == es[..m] + es[m..];
    |Encode(Element, es[..m])|
  }

  /** Between the place of the new TIM and one where an element begins stands nothing but copies of its own
      octets `s`: nothing at all, as a rule. */
  predicate TakesTim(es: seq<Item>, s: seq<byte>)
    requires s != []
  {
    var w := Encode(Element, es);
    HeadLength(es) <= |w| && exists m :: 0 <= m <= |es| && Copies(Between(w, HeadLength(es), Start(es, m)), s)
  }

  /** From the fixed part to `end` stands the list with the TIM put in somewhere. */
  ghost predicate HasTimPut(buf: seq<byte>, end: nat, es: seq<Item>, body: seq<byte>)
    requires !HasTim(es)
  {
    exists m: nat :: m <= |es| && Lies(Element, buf, FIXED, end, TimUpdated(es, body, m))
  }

  lemma PutEncodes(es: seq<Item>, m: nat, it: Item)
    requires m <= |es|
    ensures Encode(Element, es[..m] + [it] + es[m..]) == Inserted(Encode(Element, es), Start(es, m), EncodeItem(Element, it))
  {
    var a, b := es[..m], es[m..];
    assert es == a + b;
    EncodeAppend(Element, a, b);
    JoinEncodes(a, it, b);
    InsertedBetween(Encode(Element, a), Encode(Element, b), EncodeItem(Element, it));
  }

  lemma JoinEncodes(a: seq<Item>, it: Item, b: seq<Item>)
    ensures Encode(Element, a + [it] + b) == Encode(Element, a) + EncodeItem(Element, it) + Encode(Element, b)
  {
    EncodeAppend(Element, a + [it], b);
    EncodeAppend(Element, a, [it]);
    EncodeOne(Element, it);
  }

  /** What the octets of any TIM have in common. */
  predicate TimShape(s: seq<byte>) {
    6 <= |s| <= 7 && s[0] == TIM && s[1] == |s| - 2 && s[2] == 0 && s[3] == 1 && s[4] <= 1
  }

  lemma TimHasShape(tim: bitmap, littleEndian: bool)
    ensures TimShape(TimOctets(tim, littleEndian))
    ensures EncodeItem(Element, Item(TIM, TimBody(tim, littleEndian))) == TimOctets(tim, littleEndian)
  {
  }

  lemma TimIsPrimitive(s: seq<byte>)
    requires TimShape(s)
    ensures Primitive(s)
  {
    forall c {:trigger s[c..]} | 0 < c < |s| ensures s[c..] + s[..c] != s {
      NotRotated(s, c);
    }
  }

  lemma NotRotated(s: seq<byte>, c: nat)
    requires TimShape(s) && 0 < c < |s|
    ensures s[c..] + s[..c] != s
  {
    var r := s[c..] + s[..c];
    assert r[0] == s[c] && r[1] == (if c + 1 < |s| then s[c + 1] else s[0]) && r[2] == if c + 2 < |s| then s[c + 2] else s[c + 2 - |s|];
  }

  /** The TIM's octets at the place computed are the TIM put in front of element `m` exactly if only copies of
      them are in between. */
  lemma PutThereIff(es: seq<Item>, m: nat, it: Item, s: seq<byte>)
    requires m <= |es| && HeadLength(es) <= |Encode(Element, es)| && TimShape(s) && s == EncodeItem(Element, it)
    ensures Inserted(Encode(Element, es), HeadLength(es), s) == Encode(Element, es[..m] + [it] + es[m..])
            <==> Copies(Between(Encode(Element, es), HeadLength(es), Start(es, m)), s)
  {
    var w, at, p := Encode(Element, es), HeadLength(es), Start(es, m);
    PutEncodes(es, m, it);
    TimIsPrimitive(s);
    InsertedAlikeIff(w, at, p, s);
    CommutesIff(Between(w, at, p), s);
  }

  lemma TakesTimIff(z: seq<byte>, buf: seq<byte>, end: nat, newEnd: nat, es: seq<Item>, body: seq<byte>, s: seq<byte>)
    requires !HasTim(es) && Lies(Element, buf, FIXED, end, es) && FIXED + HeadLength(es) <= end
    requires TimShape(s) && s == EncodeItem(Element, Item(TIM, body)) && newEnd == end + |s|
    requires Spliced(z, buf, FIXED + HeadLength(es), FIXED + HeadLength(es), end, s)
    ensures HasTimPut(z, newEnd, es, body) <==> TakesTim(es, s)
  {
    var w, it := Encode(Element, es), Item(TIM, body);
    SplicedIsInserted(z, buf, end, newEnd, es, s);
    forall m: nat | m <= |es|
      ensures Lies(Element, z, FIXED, newEnd, TimUpdated(es, body, m)) <==> Copies(Between(w, HeadLength(es), Start(es, m)), s)
    {
      LiesEncoded(Element, z, FIXED, newEnd, TimUpdated(es, body, m));
      PutThereIff(es, m, it, s);
    }
  }

  lemma SplicedIsInserted(z: seq<byte>, buf: seq<byte>, end: nat, newEnd: nat, es: seq<Item>, s: seq<byte>)
    requires Lies(Element, buf, FIXED, end, es) && FIXED + HeadLength(es) <= end && newEnd == end + |s|
    requires Spliced(z, buf, FIXED + HeadLength(es), FIXED + HeadLength(es), end, s)
    ensures newEnd <= |z| && HeadLength(es) <= |Encode(Element, es)|
    ensures z[FIXED..newEnd] == Inserted(Encode(Element, es), HeadLength(es), s)
  {
    var at, w := FIXED + HeadLength(es), buf[FIXED..end];
    LiesEncoded(Element, buf, FIXED, end, es);
    assert Look(0);
    AtSlice(z, at, s);
    SamePart(z, buf, FIXED, at);
    assert z[FIXED..newEnd] == z[FIXED..at] + z[at..at + |s|] + z[at + |s|..newEnd];
    assert w[..at - FIXED] == buf[FIXED..at] && w[at - FIXED..] == buf[at..end];
  }

  // ----- a place beyond the description

  lemma {:induction false} FirstInside(es: seq<Item>, id: byte)
    ensures LengthOfFirst(es, id) <= |Encode(Element, es)|
  {
    if es != [] && es[0].id != id {
      FirstInside(es[1..], id);
    }
  }

  lemma {:induction false} BothInside(es: seq<Item>, a: byte, b: byte)
    requires a != b
    ensures LengthOfFirst(es, a) + LengthOfFirst(es, b) <= |Encode(Element, es)|
  {
    if es != [] {
      FirstInside(es[1..], a);
      FirstInside(es[1..], b);
      BothInside(es[1..], a, b);
    }
  }

  /** At most a DS element's octets separate them. */
  lemma HeadNearEnd(es: seq<Item>)
    ensures HeadLength(es) <= |Encode(Element, es)| + DS_LENGTH
  {
    BothInside(es, SSID, SUPPORTED_RATES);
  }

  /** What stands behind the old end once the length is adjusted: octets `junk` nobody has written, and the TIM
      without its last ones. */
  function Overhang(junk: seq<byte>, s: seq<byte>): (x: seq<byte>)
    ensures |x| == |s|
  {
    (junk + s)[..|s|]
  }

  /** No list of elements followed by that is the TIM followed by the list. */
  lemma {:induction false} OverhangNever(b: seq<Item>, junk: seq<byte>, s: seq<byte>)
    requires AllFit(Element, b) && 0 < |junk| <= DS_LENGTH && TimShape(s)
    ensures Encode(Element, b) + Overhang(junk, s) != s + Encode(Element, b)
    decreases |b|
  {
    var u, x := Encode(Element, b), Overhang(junk, s);
    if b == [] {
      OverhangDiffers(junk, s);
      assert u + x == x && s + u == s;
    } else if u + x == s + u {
      StartsAlike(b, x, s);
      OverhangNever(b[1..], junk, s);
    }
  }

  lemma OverhangDiffers(junk: seq<byte>, s: seq<byte>)
    requires 0 < |junk| <= DS_LENGTH && TimShape(s)
    ensures Overhang(junk, s) != s
  {
    var x := Overhang(junk, s);
    assert x[|junk|] == s[0] && (|junk| == 1 ==> x[2] == s[1]);
  }

  lemma StartsAlike(b: seq<Item>, x: seq<byte>, s: seq<byte>)
    requires b != [] && AllFit(Element, b) && TimShape(s) && |x| == |s|
    requires Encode(Element, b) + x == s + Encode(Element, b)
    ensures Encode(Element, b[1..]) + x == s + Encode(Element, b[1..])
  {
    var e, rest := EncodeItem(Element, b[0]), Encode(Element, b[1..]);
    var u := e + rest;
    assert (u + x)[1] == e[1] && (s + u)[1] == s[1];
    Peeled(e, rest, x, s);
  }

  lemma Peeled(e: seq<byte>, rest: seq<byte>, x: seq<byte>, s: seq<byte>)
    requires |e| == |s| && (e + rest) + x == s + (e + rest)
    ensures rest + x == s + rest
  {
    assert ((e + rest) + x)[..|s|] == e && (s + (e + rest))[..|s|] == s;
    assert ((e + rest) + x)[|s|..] == rest + x && (s + (e + rest))[|s|..] == e + rest;
  }

  /** The TIM written beyond the end is never in the list. */
  lemma BeyondNever(z: seq<byte>, buf: seq<byte>, end: nat, newEnd: nat, es: seq<Item>, body: seq<byte>, s: seq<byte>)
    requires !HasTim(es) && AllFit(Element, es) && Lies(Element, buf, FIXED, end, es) && end < FIXED + HeadLength(es)
    requires TimShape(s) && s == EncodeItem(Element, Item(TIM, body)) && newEnd == end + |s|
    requires FIXED + HeadLength(es) + |s| <= |buf| && z == Written(buf, FIXED + HeadLength(es), s)
    ensures !HasTimPut(z, newEnd, es, body)
  {
    var at := FIXED + HeadLength(es);
    LiesEncoded(Element, buf, FIXED, end, es);
    HeadNearEnd(es);
    WrittenBeyond(z, buf, end, at, newEnd, s);
    forall m: nat | m <= |es| ensures !Lies(Element, z, FIXED, newEnd, TimUpdated(es, body, m)) {
      LiesEncoded(Element, z, FIXED, newEnd, TimUpdated(es, body, m));
      NotPutThere(es, m, buf[end..at], Item(TIM, body), s);
    }
  }

  lemma WrittenBeyond(z: seq<byte>, buf: seq<byte>, end: nat, at: nat, newEnd: nat, s: seq<byte>)
    requires FIXED <= end < at && at + |s| <= |buf| && z == Written(buf, at, s) && newEnd == end + |s|
    ensures z[FIXED..newEnd] == buf[FIXED..end] + Overhang(buf[end..at], s)
  {
    var v := buf[end..at] + s;
    assert z[end..at + |s|] == v;
    assert z[end..newEnd] == v[..|s|];
    assert z[FIXED..end] == buf[FIXED..end];
    assert z[FIXED..newEnd] == z[FIXED..end] + z[end..newEnd];
  }

  lemma NotPutThere(es: seq<Item>, m: nat, junk: seq<byte>, it: Item, s: seq<byte>)
    requires m <= |es| && AllFit(Element, es) && 0 < |junk| <= DS_LENGTH && TimShape(s) && s == EncodeItem(Element, it)
    ensures Encode(Element, es) + Overhang(junk, s) != Encode(Element, es[..m] + [it] + es[m..])
  {
    var a, b := es[..m], es[m..];
    OverhangNever(b, junk, s);
    assert es == a + b;
    EncodeAppend(Element, a, b);
    JoinEncodes(a, it, b);
    SameFront(Encode(Element, a), Encode(Element, b), s, Overhang(junk, s));
  }

  lemma SameFront(a: seq<byte>, b: seq<byte>, s: seq<byte>, x: seq<byte>)
    ensures a + b + x == a + s + b <==> b + x == s + b
  {
    assert (a + b + x)[|a|..] == b + x && (a + s + b)[|a|..] == s + b;
    assert a + (b + x) == a + b + x && a + (s + b) == a + s + b;
  }

  // ----- the update

  /** The place for a new TIM, as it is computed when there is none. */
  method HeadOffset(bss: Bss, ghost es: seq<Item>) returns (offset: nat)
    requires bss.Holds(es) && bss.IELength + 2 <= bss.IEs.Length
    ensures offset == FIXED + HeadLength(es)
  {
    offset := FIXED;
    var p, tmpLen := LengthFound(bss, SSID, es);
    if p.Found? {
      offset := offset + (tmpLen + 2);
    }
    p, tmpLen := LengthFound(bss, SUPPORTED_RATES, es);
    if p.Found? {
      offset := offset + (tmpLen + 2);
    }
    offset := offset + DS_LENGTH;
  }

  /** Where the TIM is written, and what stands behind the octets that give way to it. */
  function TimAt(buf: seq<byte>, end: nat, es: seq<Item>): nat {
    var r := Scan(Element, buf, FIXED, end, TIM, []);
    if HasTim(es) && r.Found? then r.at else FIXED + HeadLength(es)
  }

  function TimNext(buf: seq<byte>, end: nat, es: seq<Item>): nat {
    TimAt(buf, end, es) + if HasTim(es) then LengthOfFirst(es, TIM) else 0
  }

  /** What the octets are split into around the TIM. */
  lemma TimPlace(buf: seq<byte>, end: nat, es: seq<Item>, n: nat, at: nat, next: nat) returns (a: seq<Item>, b: seq<Item>)
    requires AllFit(Element, es) && Lies(Element, buf, FIXED, end, es) && (HasTim(es) || AtBoundary(es, n))
    requires at == TimAt(buf, end, es) && next == TimNext(buf, end, es)
    ensures forall body :: a + [Item(TIM, body)] + b == TimUpdated(es, body, n)
    ensures Lies(Element, buf, FIXED, at, a) && Lies(Element, buf, next, end, b)
  {
    if HasTim(es) {
      var k, at', next' := FindMatch(Element, buf, FIXED, end, es, TIM);
      a, b := es[..k], es[k + 1..];
    } else {
      a, b := es[..n], es[n..];
      assert es == a + b;
      var mid := LiesSplit(Element, buf, FIXED, end, a, b);
      EncodedLength(Element, buf, FIXED, mid, a);
    }
  }

  lemma TimFits(es: seq<Item>, body: seq<byte>, n: nat)
    requires AllFit(Element, es) && |body| < 256 && (HasTim(es) || n <= |es|)
    ensures AllFit(Element, TimUpdated(es, body, n))
  {
  }

  /** From where to where the octets give way to the TIM. */
  method TimSpan(bss: Bss, ghost es: seq<Item>) returns (dst: nat, remainder: nat)
    requires bss.Holds(es) && bss.IELength + 2 <= bss.IEs.Length
    ensures dst == TimAt(bss.IEs[..], bss.IELength, es) && remainder == TimNext(bss.IEs[..], bss.IELength, es)
    ensures FIXED <= dst <= remainder && (HasTim(es) ==> remainder <= bss.IELength)
    ensures !HasTim(es) ==> dst == remainder == FIXED + HeadLength(es)
  {
    var p, timIelen := LengthFound(bss, TIM, es);
    if p.Found? && timIelen > 0 {
      ghost var k, at, next := FindMatch(Element, bss.IEs[..], FIXED, bss.IELength, es, TIM);
      dst, remainder := p.at, p.at + (timIelen + 2);
    } else {
      dst := HeadOffset(bss, es);
      remainder := dst;
    }
  }

  /** Writes the TIM; what stood behind the octets that give way to it follows.  If that is beyond the
      description the length of the remainder wraps around, so that there is no memory for a backup of it and
      nothing is moved. */
  method PutTim(bss: Bss, dst: nat, remainder: nat, s: seq<byte>)
    requires dst <= remainder && bss.IELength + 7 <= bss.IEs.Length && dst + 7 <= bss.IEs.Length <= MAX_IE_SZ && |s| <= 7
    requires remainder > bss.IELength ==> dst == remainder
    modifies bss, bss.IEs
    ensures bss.IELength == dst + |s| + (old(bss.IELength) - remainder)
    ensures if remainder <= old(bss.IELength) then Spliced(bss.IEs[..], old(bss.IEs[..]), dst, remainder, old(bss.IELength), s)
            else bss.IEs[..] == Written(old(bss.IEs[..]), dst, s)
  {
    if remainder <= bss.IELength {
      Splice(bss, dst, remainder, s);
    } else {
      var remainderIelen := (bss.IELength - remainder) % WORD;
      Write(bss.IEs, dst, s);
      bss.IELength := (dst + |s| + remainderIelen) % WORD;
    }
  }

  /** `update_BCNTIM` on a description with room for a TIM.  What stands behind the place computed moves up.
      With no TIM to replace, the list takes the new one if its place is where an element begins, and
      otherwise exactly if only copies of its octets separate the two. */
  method UpdateBcnTim(bss: Bss, tim: bitmap, littleEndian: bool, ghost es: seq<Item>, ghost n: nat)
    requires bss.Holds(es) && bss.IELength + 7 <= bss.IEs.Length <= MAX_IE_SZ
    requires HasTim(es) || FIXED + HeadLength(es) + 7 <= bss.IEs.Length
    modifies bss, bss.IEs
    ensures var b, end, s := old(bss.IEs[..]), old(bss.IELength), TimOctets(tim, littleEndian);
            var at, next := TimAt(b, end, es), TimNext(b, end, es);
            && bss.IELength == at + |s| + (end - next)
            && if next <= end then Spliced(bss.IEs[..], b, at, next, end, s)
               else at + |s| <= |b| && bss.IEs[..] == Written(b, at, s)
    ensures HasTim(es) || AtBoundary(es, n) ==> bss.Holds(TimUpdated(es, TimBody(tim, littleEndian), n))
    ensures !HasTim(es) ==>
              (HasTimPut(bss.IEs[..], bss.IELength, es, TimBody(tim, littleEndian)) <==> TakesTim(es, TimOctets(tim, littleEndian)))
    ensures var at := TimAt(old(bss.IEs[..]), old(bss.IELength), es);
            && at + 6 <= bss.IEs.Length && bss.IEs[at] == TIM
            && (bss.IEs[at + 4] % 2 == 1 <==> Bit(tim, 0))
    ensures bss.IEs[..FIXED] == old(bss.IEs[..FIXED])
  {
    ghost var b, end := bss.IEs[..], bss.IELength;
    var dst, remainder := TimSpan(bss, es);
    var s := TimOctets(tim, littleEndian);
    PutTim(bss, dst, remainder, s);
    ghost var z, newEnd := bss.IEs[..], bss.IELength;
    TimPutKeepsFront(z, b, dst, remainder, end, s);
    ControlWritten(z, b, dst, remainder, end, tim, littleEndian, s);
    if HasTim(es) || AtBoundary(es, n) {
      BoundaryInside(b, end, es, n, remainder);
      TimPutInList(z, b, dst, remainder, end, newEnd, es, n, tim, littleEndian, s);
    }
    if !HasTim(es) {
      TakesTimAfter(z, b, dst, end, newEnd, es, tim, littleEndian, s);
    }
  }

  /** Where the bitmap control stands. */
  lemma ControlWritten(z: seq<byte>, buf: seq<byte>, at: nat, next: nat, end: nat, tim: bitmap, littleEndian: bool, s: seq<byte>)
    requires s == TimOctets(tim, littleEndian) && at + |s| <= |buf|
    requires if next <= end then Spliced(z, buf, at, next, end, s) else z == Written(buf, at, s)
    ensures at + 6 <= |z| && z[at] == TIM && (z[at + 4] % 2 == 1 <==> Bit(tim, 0))
  {
    GroupTrafficIff(tim, littleEndian);
    var body := TimBody(tim, littleEndian);
    assert s[0] == TIM && s[4] == body[2];
    if next <= end {
      assert Look(0);
      AtSlice(z, at, s);
    }
    assert z[at..at + |s|] == s;
    assert z[at] == z[at..at + |s|][0] && z[at + 4] == z[at..at + |s|][4];
  }

  lemma BoundaryInside(buf: seq<byte>, end: nat, es: seq<Item>, n: nat, remainder: nat)
    requires AllFit(Element, es) && Lies(Element, buf, FIXED, end, es) && (HasTim(es) || AtBoundary(es, n))
    requires remainder == TimNext(buf, end, es) && (HasTim(es) ==> remainder <= end)
    ensures remainder <= end
  {
    LiesEncoded(Element, buf, FIXED, end, es);
    if !HasTim(es) {
      var p := Start(es, n);
    }
  }

  lemma TakesTimAfter(z: seq<byte>, buf: seq<byte>, at: nat, end: nat, newEnd: nat, es: seq<Item>, tim: bitmap, littleEndian: bool,
                      s: seq<byte>)
    requires !HasTim(es) && AllFit(Element, es) && Lies(Element, buf, FIXED, end, es)
    requires s == TimOctets(tim, littleEndian) && at == FIXED + HeadLength(es) && newEnd == end + |s| && at + |s| <= |buf|
    requires if at <= end then Spliced(z, buf, at, at, end, s) else z == Written(buf, at, s)
    ensures HasTimPut(z, newEnd, es, TimBody(tim, littleEndian)) <==> TakesTim(es, s)
  {
    var body := TimBody(tim, littleEndian);
    TimHasShape(tim, littleEndian);
    if at <= end {
      TakesTimIff(z, buf, end, newEnd, es, body, s);
    } else {
      LiesEncoded(Element, buf, FIXED, end, es);
      BeyondNever(z, buf, end, newEnd, es, body, s);
    }
  }

  /** `TimBody` with its header. */
  function TimOctets(tim: bitmap, littleEndian: bool): (s: seq<byte>)
    ensures |s| <= 7
  {
    [TIM, |TimBody(tim, littleEndian)|] + TimBody(tim, littleEndian)
  }

  lemma TimPutKeepsFront(z: seq<byte>, buf: seq<byte>, at: nat, next: nat, end: nat, s: seq<byte>)
    requires FIXED <= at && at + |s| <= |buf|
    requires if next <= end then Spliced(z, buf, at, next, end, s) else z == Written(buf, at, s)
    ensures z[..FIXED] == buf[..FIXED]
  {
    assert Look(0);
    assert z[..FIXED] == z[..at][..FIXED] && buf[..FIXED] == buf[..at][..FIXED];
  }

  lemma TimPutInList(z: seq<byte>, buf: seq<byte>, at: nat, next: nat, end: nat, newEnd: nat, es: seq<Item>, n: nat,
                     tim: bitmap, littleEndian: bool, s: seq<byte>)
    requires AllFit(Element, es) && Lies(Element, buf, FIXED, end, es) && (HasTim(es) || AtBoundary(es, n))
    requires s == TimOctets(tim, littleEndian) && at == TimAt(buf, end, es) && next == TimNext(buf, end, es)
    requires Spliced(z, buf, at, next, end, s) && newEnd == at + |s| + (end - next)
    ensures var r := TimUpdated(es, TimBody(tim, littleEndian), n);
            AllFit(Element, r) && Lies(Element, z, FIXED, newEnd, r)
  {
    var body := TimBody(tim, littleEndian);
    var a, b := TimPlace(buf, end, es, n, at, next);
    PrintedElement(TIM, body);
    TimFits(es, body, n);
    SplicedLies(z, buf, at, next, end, newEnd, s, a, [Item(TIM, body)], b);
  }

  /** A list without TIM and DS parameters, as on a channel of the 5 GHz band: the TIM is written into the
      middle of the third element, and what results is no list of complete elements any more. */
  lemma TimInsideElement(z: seq<byte>, buf: seq<byte>)
    requires FIXED + 17 <= |buf|
    requires var es := [Item(SSID, []), Item(SUPPORTED_RATES, [2]), Item(48, [7, 7, 7, 7])];
             Lies(Element, buf, FIXED, FIXED + 11, es)
    requires Spliced(z, buf, FIXED + 8, FIXED + 8, FIXED + 11, TimOctets(0, true))
    ensures var es := [Item(SSID, []), Item(SUPPORTED_RATES, [2]), Item(48, [7, 7, 7, 7])];
            !HasTim(es) && HeadLength(es) == 8
    ensures !ElementParser.Complete(z, FIXED, FIXED + 17)
  {
    var e0, e1, e2 := Item(SSID, []), Item(SUPPORTED_RATES, [2]), Item(48, [7, 7, 7, 7]);
    var es := [e0, e1, e2];
    FirstIs(es, 0, SSID, []);
    FirstIs(es, 1, SUPPORTED_RATES, []);
    assert es == [e0] + [e1] + [e2];
    EncodeThree(e0, e1, e2);
    LiesEncoded(Element, buf, FIXED, FIXED + 11, es);
    var w := buf[FIXED..FIXED + 11];
    assert w == [0, 0, 1, 1, 2, 48, 4, 7, 7, 7, 7];
    InsertedOctets(z, buf, w);
    OctetsIncomplete(z);
  }

  lemma EncodeThree(a: Item, b: Item, c: Item)
    ensures Encode(Element, [a] + [b] + [c]) == EncodeItem(Element, a) + EncodeItem(Element, b) + EncodeItem(Element, c)
  {
    EncodeAppend(Element, [a] + [b], [c]);
    EncodeAppend(Element, [a], [b]);
    EncodeOne(Element, a);
    EncodeOne(Element, b);
    EncodeOne(Element, c);
  }

  lemma InsertedOctets(z: seq<byte>, buf: seq<byte>, w: seq<byte>)
    requires FIXED + 17 <= |buf| && w == buf[FIXED..FIXED + 11] && w == [0, 0, 1, 1, 2, 48, 4, 7, 7, 7, 7]
    requires Spliced(z, buf, FIXED + 8, FIXED + 8, FIXED + 11, TimOctets(0, true))
    ensures |z| == |buf| && z[FIXED..FIXED + 17] == [0, 0, 1, 1, 2, 48, 4, 7, 5, 4, 0, 1, 0, 0, 7, 7, 7]
  {
    var at, s := FIXED + 8, TimOctets(0, true);
    assert s == [5, 4, 0, 1, 0, 0];
    assert Look(0);
    AtSlice(z, at, s);
    assert z[FIXED..at] == z[..at][FIXED..] && buf[FIXED..at] == buf[..at][FIXED..];
    assert buf[FIXED..at] == w[..8] && buf[at..FIXED + 11] == w[8..];
    assert z[FIXED..FIXED + 17] == z[FIXED..at] + z[at..at + 6] + z[at + 6..at + 9];
  }

  lemma OctetsIncomplete(z: seq<byte>)
    requires FIXED + 17 <= |z| && z[FIXED..FIXED + 17] == [0, 0, 1, 1, 2, 48, 4, 7, 5, 4, 0, 1, 0, 0, 7, 7, 7]
    ensures !ElementParser.Complete(z, FIXED, FIXED + 17)
  {
    var read := OctetsRead();
    var w := z[FIXED..FIXED + 17];
    assert z[FIXED..FIXED + 13] == w[..13] == [0, 0, 1, 1, 2, 48, 4, 7, 5, 4, 0, 1, 0];
    LiesEncoded(Element, z, FIXED, FIXED + 13, read);
    assert z[FIXED + 14] == w[14];
    ElementParser.Incomplete(z, FIXED, FIXED + 13, FIXED + 17, read);
  }

  lemma OctetsRead() returns (read: seq<Item>)
    ensures AllFit(Element, read) && Encode(Element, read) == [0, 0, 1, 1, 2, 48, 4, 7, 5, 4, 0, 1, 0]
  {
    var first := FirstOctetsRead();
    var last := Item(1, []);
    read := first + [last];
    EncodeAppend(Element, first, [last]);
    EncodeOne(Element, last);
    assert EncodeItem(Element, last) == [1, 0];
  }

  lemma FirstOctetsRead() returns (read: seq<Item>)
    ensures AllFit(Element, read) && Encode(Element, read) == [0, 0, 1, 1, 2, 48, 4, 7, 5, 4, 0]
  {
    var e0, e1, e2 := Item(0, []), Item(1, [2]), Item(48, [7, 5, 4, 0]);
    read := [e0] + [e1] + [e2];
    EncodeThree(e0, e1, e2);
    assert EncodeItem(Element, e0) == [0, 0] && EncodeItem(Element, e1) == [1, 1, 2];
    assert EncodeItem(Element, e2) == [48, 4, 7, 5, 4, 0];
  }
}
