/** Lists of items with an identifier, a length and a body: 802.11 information elements (one octet of
    length) and P2P attributes (two octets, low octet first), and the cursor search over them. */
module Tlv {
  import opened Bytes
  import opened Memory

  datatype Format = Element | Attribute {
    function HeaderLength(): nat {
      if Element? then 2 else 3
    }

    /** One more than the longest body. */
    function Limit(): nat {
      if Element? then 256 else 65536
    }

    function Header(id: byte, n: nat): (h: seq<byte>)
      ensures |h| == HeaderLength()
    {
      if Element? then [id, n % 256] else [id, n % 256, n / 256 % 256]
    }

    /** The body length that stands in the header at `pos`. */
    function BodyLength(buf: seq<byte>, pos: nat): (n: nat)
      requires pos + HeaderLength() <= |buf|
      ensures n < Limit()
    {
      if Element? then buf[pos + 1] else (buf[pos + 1] as int) + (buf[pos + 2] as int) * 256
    }
  }

  datatype Item = Item(id: byte, body: seq<byte>)

  predicate Fits(f: Format, it: Item) {
    |it.body| < f.Limit()
  }

  predicate AllFit(f: Format, items: seq<Item>) {
    forall i :: 0 <= i < |items| ==> Fits(f, items[i])
  }

  function EncodeItem(f: Format, it: Item): (e: seq<byte>)
    ensures |e| == f.HeaderLength() + |it.body|
  {
    f.Header(it.id, |it.body|) + it.body
  }

  function Encode(f: Format, items: seq<Item>): seq<byte> {
    if items == [] then [] else EncodeItem(f, items[0]) + Encode(f, items[1..])
  }

  lemma {:induction false} EncodeAppend(f: Format, a: seq<Item>, b: seq<Item>)
    ensures Encode(f, a + b) == Encode(f, a) + Encode(f, b)
  {
    if a == [] {
      assert a + b == b;
    } else {
      assert (a + b)[1..] == a[1..] + b;
      EncodeAppend(f, a[1..], b);
      assert EncodeItem(f, a[0]) + (Encode(f, a[1..]) + Encode(f, b)) == Encode(f, a) + Encode(f, b);
    }
  }

  lemma EncodeOne(f: Format, it: Item)
    ensures Encode(f, [it]) == EncodeItem(f, it)
  {
  }

  // ----- items in a buffer

  ghost predicate Lay(k: nat) {
    true
  }

  /** `items` stand in `buf` from `pos` up to `end`.  Folded: their octets come into view only where a
      `Lay` term does, so that proofs about lists stay apart from proofs about octets. */
  ghost predicate Lies(f: Format, buf: seq<byte>, pos: nat, end: nat, items: seq<Item>) {
    pos <= end <= |buf| && forall k {:trigger Lay(k)} :: Lay(k) ==> buf[pos..end] == Encode(f, items)
  }

  lemma LiesEncoded(f: Format, buf: seq<byte>, pos: nat, end: nat, items: seq<Item>)
    requires pos <= end <= |buf|
    ensures Lies(f, buf, pos, end, items) <==> buf[pos..end] == Encode(f, items)
  {
    assert Lay(0);
  }

  lemma LiesNothing(f: Format, buf: seq<byte>, pos: nat, end: nat)
    requires pos <= |buf|
    ensures Lies(f, buf, pos, end, []) <==> end == pos
  {
    assert Lay(0);
  }

  lemma LiesJoin(f: Format, buf: seq<byte>, pos: nat, mid: nat, end: nat, a: seq<Item>, b: seq<Item>)
    requires Lies(f, buf, pos, mid, a) && Lies(f, buf, mid, end, b)
    ensures Lies(f, buf, pos, end, a + b)
  {
    assert Lay(0);
    EncodeAppend(f, a, b);
    assert buf[pos..end] == buf[pos..mid] + buf[mid..end];
  }

  lemma LiesSplit(f: Format, buf: seq<byte>, pos: nat, end: nat, a: seq<Item>, b: seq<Item>) returns (mid: nat)
    requires Lies(f, buf, pos, end, a + b)
    ensures Lies(f, buf, pos, mid, a) && Lies(f, buf, mid, end, b)
  {
    LiesEncoded(f, buf, pos, end, a + b);
    EncodeAppend(f, a, b);
    mid := pos + |Encode(f, a)|;
    var w := buf[pos..end];
    assert buf[pos..mid] == w[..|Encode(f, a)|] && buf[mid..end] == w[|Encode(f, a)|..];
    LiesEncoded(f, buf, pos, mid, a);
    LiesEncoded(f, buf, mid, end, b);
  }

  /** An item in a buffer reads back. */
  lemma LiesOne(f: Format, buf: seq<byte>, pos: nat, end: nat, it: Item)
    requires Lies(f, buf, pos, end, [it])
    ensures end == pos + f.HeaderLength() + |it.body|
    ensures buf[pos] == it.id && buf[pos + f.HeaderLength()..end] == it.body
    ensures Fits(f, it) ==> f.BodyLength(buf, pos) == |it.body|
  {
    LiesEncoded(f, buf, pos, end, [it]);
    EncodeOne(f, it);
    var h, w := f.Header(it.id, |it.body|), buf[pos..end];
    assert w == h + it.body;
    assert buf[pos] == w[0] && buf[pos + 1] == w[1] && (f.Attribute? ==> buf[pos + 2] == w[2]);
    assert buf[pos + |h|..end] == w[|h|..];
  }

  lemma LiesHere(f: Format, buf: seq<byte>, pos: nat, it: Item)
    requires pos + f.HeaderLength() + |it.body| <= |buf|
    requires buf[pos..pos + f.HeaderLength() + |it.body|] == EncodeItem(f, it)
    ensures Lies(f, buf, pos, pos + f.HeaderLength() + |it.body|, [it])
  {
    EncodeOne(f, it);
  }

  lemma LiesAt(f: Format, buf: seq<byte>, pos: nat, it: Item)
    requires At(buf, pos, EncodeItem(f, it))
    ensures Lies(f, buf, pos, pos + f.HeaderLength() + |it.body|, [it])
  {
    AtSlice(buf, pos, EncodeItem(f, it));
    LiesHere(f, buf, pos, it);
  }

  lemma LiesSame(f: Format, buf: seq<byte>, m: seq<byte>, pos: nat, end: nat, items: seq<Item>)
    requires Lies(f, buf, pos, end, items) && end <= |m| && m[pos..end] == buf[pos..end]
    ensures Lies(f, m, pos, end, items)
  {
    assert Lay(0);
  }

  /** The same octets somewhere else. */
  lemma LiesShifted(f: Format, buf: seq<byte>, m: seq<byte>, pos: nat, end: nat, to: nat, items: seq<Item>)
    requires Lies(f, buf, pos, end, items) && to + (end - pos) <= |m|
    requires m[to..to + (end - pos)] == buf[pos..end]
    ensures Lies(f, m, to, to + (end - pos), items)
  {
    assert Lay(0);
  }

  // ----- the cursor search

  /** The test of the search loops: the identifier, then the first octets behind the header, however
      long the item itself is. */
  predicate Hit(f: Format, buf: seq<byte>, pos: nat, id: byte, prefix: seq<byte>) {
    && pos + f.HeaderLength() + |prefix| <= |buf|
    && buf[pos] == id
    && buf[pos + f.HeaderLength()..pos + f.HeaderLength() + |prefix|] == prefix
  }

  /** What the test is meant to find. */
  predicate Carries(it: Item, id: byte, prefix: seq<byte>) {
    it.id == id && prefix <= it.body
  }

  /** An item too short to hold the prefix, but agreeing with it as far as it goes. */
  predicate Stump(it: Item, id: byte, prefix: seq<byte>) {
    it.id == id && it.body < prefix
  }

  /** The search from below `end` stays inside the buffer: the test may look past the last item. */
  predicate EndsBefore(f: Format, buf: seq<byte>, end: nat, prefix: seq<byte>) {
    end <= |buf| && (prefix == [] || end + f.HeaderLength() + |prefix| <= |buf|)
  }

  datatype Search = Found(at: nat) | Absent

  /** The first hit at or after `pos`, stepping by the items' own lengths while the cursor is below `end`. */
  function Scan(f: Format, buf: seq<byte>, pos: nat, end: nat, id: byte, prefix: seq<byte>): (r: Search)
    ensures r.Found? ==> pos <= r.at < end && Hit(f, buf, r.at, id, prefix)
    decreases |buf| - pos
  {
    if pos >= end || pos + f.HeaderLength() > |buf| then Absent
    else if Hit(f, buf, pos, id, prefix) then Found(pos)
    else Scan(f, buf, pos + f.HeaderLength() + f.BodyLength(buf, pos), end, id, prefix)
  }

  ghost predicate Ask(k: nat) {
    true
  }

  /** One step of the search. */
  lemma ScanHere(f: Format, buf: seq<byte>, pos: nat, end: nat, id: byte, prefix: seq<byte>)
    requires pos < end && pos + f.HeaderLength() <= |buf|
    ensures Scan(f, buf, pos, end, id, prefix)
            == if Hit(f, buf, pos, id, prefix) then Found(pos)
               else Scan(f, buf, pos + f.HeaderLength() + f.BodyLength(buf, pos), end, id, prefix)
  {
  }

  /** `r` is what the search returns.  Folded: the search comes into view only where an `Ask` term does. */
  ghost predicate Finds(r: Search, f: Format, buf: seq<byte>, pos: nat, end: nat, id: byte, prefix: seq<byte>) {
    forall k {:trigger Ask(k)} :: Ask(k) ==> r == Scan(f, buf, pos, end, id, prefix)
  }

  /** The test answers the right question about an item in every surrounding exactly when the item is
      not a stump: what follows a stump can complete the prefix. */
  lemma HitIsExactIff(f: Format, it: Item, id: byte, prefix: seq<byte>)
    requires Fits(f, it)
    ensures (forall rest :: |prefix| <= |rest| ==>
               (Hit(f, EncodeItem(f, it) + rest, 0, id, prefix) <==> Carries(it, id, prefix)))
            <==> !Stump(it, id, prefix)
  {
    if Stump(it, id, prefix) {
      var rest := StumpFooled(f, it, id, prefix);
    } else {
      forall rest | |prefix| <= |rest|
        ensures Hit(f, EncodeItem(f, it) + rest, 0, id, prefix) <==> Carries(it, id, prefix)
      {
        var buf := EncodeItem(f, it) + rest;
        assert buf[0..|EncodeItem(f, it)|] == EncodeItem(f, it);
        LiesHere(f, buf, 0, it);
        HitExact(f, buf, 0, |EncodeItem(f, it)|, it, id, prefix);
      }
    }
  }

  lemma StumpFooled(f: Format, it: Item, id: byte, prefix: seq<byte>) returns (rest: seq<byte>)
    requires Fits(f, it) && Stump(it, id, prefix)
    ensures |prefix| <= |rest| && Hit(f, EncodeItem(f, it) + rest, 0, id, prefix) && !Carries(it, id, prefix)
  {
    var h, tail := f.Header(it.id, |it.body|), prefix[|it.body|..];
    rest := tail + prefix;
    assert it.body + tail == prefix;
    assert EncodeItem(f, it) + rest == h + (prefix + prefix);
    assert (h + (prefix + prefix))[|h|..|h| + |prefix|] == prefix;
  }

  lemma HitExact(f: Format, buf: seq<byte>, pos: nat, end: nat, it: Item, id: byte, prefix: seq<byte>)
    requires Fits(f, it) && Lies(f, buf, pos, end, [it]) && !Stump(it, id, prefix)
    requires pos + f.HeaderLength() + |prefix| <= |buf|
    ensures Hit(f, buf, pos, id, prefix) <==> Carries(it, id, prefix)
  {
    LiesOne(f, buf, pos, end, it);
    var p, n := pos + f.HeaderLength(), |it.body|;
    var w := buf[p..p + |prefix|];
    if |prefix| <= n {
      assert w == buf[p..p + n][..|prefix|];
      assert it.body[..|prefix|] == prefix <==> prefix <= it.body;
    } else if w == prefix {
      assert prefix[..n] == w[..n] == buf[p..p + n];
      assert it.body < prefix;
    }
  }

  // ----- what is to be removed

  predicate NoneCarries(items: seq<Item>, id: byte, prefix: seq<byte>) {
    forall i :: 0 <= i < |items| ==> !Carries(items[i], id, prefix)
  }

  /** The items that do not carry what is to be removed, in order. */
  function Without(items: seq<Item>, id: byte, prefix: seq<byte>): (r: seq<Item>)
    ensures |r| <= |items|
  {
    if items == [] then []
    else (if Carries(items[0], id, prefix) then [] else [items[0]]) + Without(items[1..], id, prefix)
  }

  lemma {:induction false} WithoutAppend(a: seq<Item>, b: seq<Item>, id: byte, prefix: seq<byte>)
    ensures Without(a + b, id, prefix) == Without(a, id, prefix) + Without(b, id, prefix)
  {
    if a == [] {
      assert a + b == b;
    } else {
      assert (a + b)[1..] == a[1..] + b;
      WithoutAppend(a[1..], b, id, prefix);
    }
  }

  lemma {:induction false} WithoutFits(f: Format, items: seq<Item>, id: byte, prefix: seq<byte>)
    requires AllFit(f, items)
    ensures AllFit(f, Without(items, id, prefix))
    ensures NoneCarries(Without(items, id, prefix), id, prefix)
  {
    if items != [] {
      WithoutFits(f, items[1..], id, prefix);
    }
  }

  lemma {:induction false} WithoutNone(items: seq<Item>, id: byte, prefix: seq<byte>)
    ensures if NoneCarries(items, id, prefix) then Without(items, id, prefix) == items
            else |Without(items, id, prefix)| < |items|
  {
    if items != [] {
      WithoutNone(items[1..], id, prefix);
      assert forall i :: 0 <= i < |items| - 1 ==> items[1..][i] == items[i + 1];
    }
  }

  /** Where the first match stands, if there is one. */
  function FirstMatch(items: seq<Item>, id: byte, prefix: seq<byte>): (k: nat)
    ensures k <= |items| && NoneCarries(items[..k], id, prefix)
    ensures k < |items| ==> Carries(items[k], id, prefix)
  {
    if items == [] || Carries(items[0], id, prefix) then 0
    else
      var k := FirstMatch(items[1..], id, prefix);
      assert items[..k + 1] == [items[0]] + items[1..][..k];
      k + 1
  }

  lemma {:induction false} FirstIs(items: seq<Item>, k: nat, id: byte, prefix: seq<byte>)
    requires k < |items| && Carries(items[k], id, prefix)
    requires forall i :: 0 <= i < k ==> !Carries(items[i], id, prefix)
    ensures FirstMatch(items, id, prefix) == k
  {
    if k > 0 {
      FirstIs(items[1..], k - 1, id, prefix);
    }
  }

  // ----- where the search stops

  /** The octets behind the header of item `i` begin with the prefix: its own, those of the items after it
      and those `behind` the list, taken together.  That is what the test looks at. */
  predicate Passes(f: Format, items: seq<Item>, i: nat, id: byte, prefix: seq<byte>, behind: seq<byte>)
    requires i < |items|
  {
    items[i].id == id && prefix <= items[i].body + Encode(f, items[i + 1..]) + behind
  }

  /** What carries the prefix passes, and what passes without carrying it is a stump. */
  lemma CarriesOrStump(f: Format, items: seq<Item>, i: nat, id: byte, prefix: seq<byte>, behind: seq<byte>)
    requires i < |items|
    ensures Carries(items[i], id, prefix) ==> Passes(f, items, i, id, prefix, behind)
    ensures Passes(f, items, i, id, prefix, behind) ==> Carries(items[i], id, prefix) || Stump(items[i], id, prefix)
  {
    var body, rest := items[i].body, Encode(f, items[i + 1..]) + behind;
    assert body + Encode(f, items[i + 1..]) + behind == body + rest;
    if |prefix| <= |body| {
      assert prefix <= body + rest <==> prefix <= body;
    } else if prefix <= body + rest {
      assert body == (body + rest)[..|body|] == prefix[..|body|];
    }
  }

  /** What stands behind the list matters only to an item with fewer octets than the prefix up to its end. */
  lemma PassesAlone(f: Format, items: seq<Item>, i: nat, id: byte, prefix: seq<byte>, behind: seq<byte>)
    requires i < |items| && |prefix| <= |items[i].body| + |Encode(f, items[i + 1..])|
    ensures Passes(f, items, i, id, prefix, behind) <==> Passes(f, items, i, id, prefix, [])
  {
    var w := items[i].body + Encode(f, items[i + 1..]);
    assert w + [] == w && (w + behind)[..|prefix|] == w[..|prefix|];
  }

  lemma PassesInBuffer(f: Format, buf: seq<byte>, pos: nat, end: nat, items: seq<Item>, id: byte, prefix: seq<byte>)
    requires items != [] && Lies(f, buf, pos, end, items)
    ensures Hit(f, buf, pos, id, prefix) <==> Passes(f, items, 0, id, prefix, buf[end..])
  {
    BehindHeader(f, buf, pos, end, items);
    PrefixOf(buf, pos + f.HeaderLength(), prefix);
  }

  lemma BehindHeader(f: Format, buf: seq<byte>, pos: nat, end: nat, items: seq<Item>)
    requires items != [] && Lies(f, buf, pos, end, items)
    ensures pos + f.HeaderLength() <= |buf| && buf[pos] == items[0].id
    ensures buf[pos + f.HeaderLength()..] == items[0].body + Encode(f, items[1..]) + buf[end..]
  {
    LiesEncoded(f, buf, pos, end, items);
    var h, tail, w := f.Header(items[0].id, |items[0].body|), items[0].body + Encode(f, items[1..]), buf[pos..end];
    assert w == h + tail;
    assert buf[pos] == w[0];
    assert buf[pos + |h|..] == w[|h|..] + buf[end..];
  }

  lemma PrefixOf(buf: seq<byte>, pos: nat, prefix: seq<byte>)
    requires pos <= |buf|
    ensures prefix <= buf[pos..] <==> pos + |prefix| <= |buf| && buf[pos..pos + |prefix|] == prefix
  {
    if pos + |prefix| <= |buf| {
      assert buf[pos..][..|prefix|] == buf[pos..pos + |prefix|];
    }
  }

  lemma {:induction false} EncodeLonger(f: Format, items: seq<Item>, k: nat)
    requires k < |items|
    ensures |Encode(f, items)| >= f.HeaderLength() + |items[k].body|
  {
    if k > 0 {
      EncodeLonger(f, items[1..], k - 1);
    }
  }

  predicate NonePasses(f: Format, items: seq<Item>, j: nat, id: byte, prefix: seq<byte>, behind: seq<byte>)
    requires j <= |items|
  {
    forall i :: 0 <= i < j ==> !Passes(f, items, i, id, prefix, behind)
  }

  /** The search passes over the first `j` items and stops at `at`, where item `j` stands; folded like
      `Finds`. */
  ghost predicate Stops(f: Format, buf: seq<byte>, pos: nat, end: nat, items: seq<Item>, id: byte, prefix: seq<byte>,
                        j: nat, at: nat, next: nat)
  {
    && j <= |items| && end <= |buf| && Lies(f, buf, pos, at, items[..j])
    && (j < |items| ==> Lies(f, buf, at, next, [items[j]]) && Lies(f, buf, next, end, items[j + 1..]))
    && forall k {:trigger Ask(k)} :: Ask(k) ==>
         && NonePasses(f, items, j, id, prefix, buf[end..])
         && (j < |items| ==> Passes(f, items, j, id, prefix, buf[end..]))
         && Scan(f, buf, pos, end, id, prefix) == if j < |items| then Found(at) else Absent
  }

  /** Where the search stops in any list of complete items: at an item that carries what is looked for, or
      at a stump that is completed by what follows. */
  lemma {:induction false} ScanNearest(f: Format, buf: seq<byte>, pos: nat, end: nat, items: seq<Item>, id: byte, prefix: seq<byte>)
    returns (j: nat, at: nat, next: nat)
    requires AllFit(f, items) && Lies(f, buf, pos, end, items)
    ensures Stops(f, buf, pos, end, items, id, prefix, j, at, next)
    decreases |items|
  {
    if items == [] {
      LiesNothing(f, buf, pos, end);
      j, at, next := 0, pos, pos;
      return;
    }
    assert items == [items[0]] + items[1..];
    var mid := LiesSplit(f, buf, pos, end, [items[0]], items[1..]);
    if Hit(f, buf, pos, id, prefix) {
      StopsHere(f, buf, pos, mid, end, items, id, prefix);
      j, at, next := 0, pos, mid;
    } else {
      j, at, next := ScanNearest(f, buf, mid, end, items[1..], id, prefix);
      StopsLater(f, buf, pos, mid, end, items, id, prefix, j, at, next);
      j := j + 1;
    }
  }

  lemma StopsHere(f: Format, buf: seq<byte>, pos: nat, mid: nat, end: nat, items: seq<Item>, id: byte, prefix: seq<byte>)
    requires items != [] && Lies(f, buf, pos, mid, [items[0]]) && Lies(f, buf, mid, end, items[1..])
    requires Lies(f, buf, pos, end, items) && Hit(f, buf, pos, id, prefix)
    ensures Stops(f, buf, pos, end, items, id, prefix, 0, pos, mid)
  {
    LiesNothing(f, buf, pos, pos);
    LiesOne(f, buf, pos, mid, items[0]);
    PassesInBuffer(f, buf, pos, end, items, id, prefix);
  }

  lemma StopsLater(f: Format, buf: seq<byte>, pos: nat, mid: nat, end: nat, items: seq<Item>, id: byte, prefix: seq<byte>,
                   j: nat, at: nat, next: nat)
    requires items != [] && Fits(f, items[0]) && Lies(f, buf, pos, mid, [items[0]])
    requires Lies(f, buf, pos, end, items) && Lies(f, buf, mid, end, items[1..])
    requires Stops(f, buf, mid, end, items[1..], id, prefix, j, at, next) && !Hit(f, buf, pos, id, prefix)
    ensures Stops(f, buf, pos, end, items, id, prefix, j + 1, at, next)
  {
    assert Ask(0);
    var tail := items[1..];
    assert items[..j + 1] == [items[0]] + tail[..j];
    LiesJoin(f, buf, pos, mid, at, [items[0]], tail[..j]);
    if j < |tail| {
      assert tail[j + 1..] == items[j + 1 + 1..];
    }
    PassesOn(f, items, j, id, prefix, buf[end..]);
    PassesInBuffer(f, buf, pos, end, items, id, prefix);
    ScanMoves(f, buf, pos, mid, items[0], end, id, prefix);
  }

  lemma ScanMoves(f: Format, buf: seq<byte>, pos: nat, next: nat, it: Item, end: nat, id: byte, prefix: seq<byte>)
    requires Fits(f, it) && Lies(f, buf, pos, next, [it]) && !Hit(f, buf, pos, id, prefix) && next <= end
    ensures Scan(f, buf, pos, end, id, prefix) == Scan(f, buf, next, end, id, prefix)
  {
    LiesOne(f, buf, pos, next, it);
  }

  lemma PassesOn(f: Format, items: seq<Item>, j: nat, id: byte, prefix: seq<byte>, behind: seq<byte>)
    requires j < |items| && NonePasses(f, items[1..], j, id, prefix, behind)
    ensures !Passes(f, items, 0, id, prefix, behind) ==> NonePasses(f, items, j + 1, id, prefix, behind)
    ensures j + 1 < |items| && Passes(f, items[1..], j, id, prefix, behind) ==> Passes(f, items, j + 1, id, prefix, behind)
  {
    forall i | 1 <= i < |items|
      ensures Passes(f, items[1..], i - 1, id, prefix, behind) <==> Passes(f, items, i, id, prefix, behind)
    {
      assert items[1..][i - 1 + 1..] == items[i + 1..];
    }
  }

  /** Searching by the identifier alone finds the first item of that identifier. */
  lemma FindMatch(f: Format, buf: seq<byte>, start: nat, end: nat, items: seq<Item>, id: byte) returns (k: nat, at: nat, next: nat)
    requires AllFit(f, items) && Lies(f, buf, start, end, items)
    ensures k == FirstMatch(items, id, []) && Lies(f, buf, start, at, items[..k])
    ensures k == |items| ==> Scan(f, buf, start, end, id, []) == Absent
    ensures k < |items| ==>
              && Scan(f, buf, start, end, id, []) == Found(at)
              && at + f.HeaderLength() <= |buf| && f.BodyLength(buf, at) == |items[k].body|
              && next == at + f.BodyLength(buf, at) + f.HeaderLength()
              && Lies(f, buf, next, end, items[k + 1..])
  {
    k, at, next := ScanNearest(f, buf, start, end, items, id, []);
    assert Ask(0);
    if k < |items| {
      LiesOne(f, buf, at, next, items[k]);
      assert forall i :: 0 <= i < k ==> (Carries(items[i], id, []) ==> Passes(f, items, i, id, [], buf[end..]));
      FirstIs(items, k, id, []);
    } else {
      StopsNowhere(f, items, id, buf[end..]);
    }
  }

  lemma StopsNowhere(f: Format, items: seq<Item>, id: byte, behind: seq<byte>)
    requires NonePasses(f, items, |items|, id, [], behind)
    ensures FirstMatch(items, id, []) == |items|
  {
    var k := FirstMatch(items, id, []);
    if k < |items| {
      assert Passes(f, items, k, id, [], behind);
    }
  }

  /** What the search found is one of the items, which stands there completely. */
  lemma FoundItem(f: Format, buf: seq<byte>, pos: nat, end: nat, items: seq<Item>, id: byte, prefix: seq<byte>, at: nat)
    returns (j: nat, next: nat)
    requires AllFit(f, items) && Lies(f, buf, pos, end, items) && Finds(Found(at), f, buf, pos, end, id, prefix)
    ensures j < |items| && Stops(f, buf, pos, end, items, id, prefix, j, at, next)
    ensures at + f.HeaderLength() <= |buf| && next == at + f.BodyLength(buf, at) + f.HeaderLength() <= end
    ensures next - at == |EncodeItem(f, items[j])|
  {
    assert Ask(0);
    var at';
    j, at', next := ScanNearest(f, buf, pos, end, items, id, prefix);
    LiesOne(f, buf, at', next, items[j]);
  }

  // ----- removal by searching, closing the gap, and searching on

  /** What stands behind the items after the first when they move down over it: its length in octets from
      the end of the list stays where it was. */
  function Stale(f: Format, items: seq<Item>, behind: seq<byte>): (s: seq<byte>)
    requires items != []
  {
    Encode(f, items)[|Encode(f, items[1..])|..] + behind
  }

  /** What the removal leaves of a list with the octets `behind` it. */
  function Surviving(f: Format, items: seq<Item>, id: byte, prefix: seq<byte>, behind: seq<byte>): (r: seq<Item>)
    ensures |r| <= |items|
  {
    if items == [] then []
    else if Passes(f, items, 0, id, prefix, behind) then Surviving(f, items[1..], id, prefix, Stale(f, items, behind))
    else [items[0]] + Surviving(f, items[1..], id, prefix, behind)
  }

  /** None that carries the prefix survives. */
  lemma {:induction false} SurvivingFits(f: Format, items: seq<Item>, id: byte, prefix: seq<byte>, behind: seq<byte>)
    requires AllFit(f, items)
    ensures AllFit(f, Surviving(f, items, id, prefix, behind))
    ensures NoneCarries(Surviving(f, items, id, prefix, behind), id, prefix)
    decreases |items|
  {
    if items != [] {
      CarriesOrStump(f, items, 0, id, prefix, behind);
      SurvivingFits(f, items[1..], id, prefix, Stale(f, items, behind));
      SurvivingFits(f, items[1..], id, prefix, behind);
    }
  }

  /** Up to the first item that passes everything survives. */
  lemma {:induction false} SurvivingSplit(f: Format, items: seq<Item>, j: nat, id: byte, prefix: seq<byte>, behind: seq<byte>)
    requires j <= |items| && NonePasses(f, items, j, id, prefix, behind)
    ensures Surviving(f, items, id, prefix, behind) == items[..j] + Surviving(f, items[j..], id, prefix, behind)
    decreases j
  {
    if j == 0 {
      assert items[0..] == items && items[..0] + Surviving(f, items, id, prefix, behind) == Surviving(f, items, id, prefix, behind);
    } else {
      NonePassesTail(f, items, j, id, prefix, behind);
      SurvivingSplit(f, items[1..], j - 1, id, prefix, behind);
      Prepended(items, j, Surviving(f, items[j..], id, prefix, behind));
    }
  }

  lemma NonePassesTail(f: Format, items: seq<Item>, j: nat, id: byte, prefix: seq<byte>, behind: seq<byte>)
    requires 0 < j <= |items| && NonePasses(f, items, j, id, prefix, behind)
    ensures !Passes(f, items, 0, id, prefix, behind) && NonePasses(f, items[1..], j - 1, id, prefix, behind)
  {
    forall i | 0 <= i < j - 1 ensures !Passes(f, items[1..], i, id, prefix, behind) {
      assert items[1..][i + 1..] == items[i + 1 + 1..];
      assert !Passes(f, items, i + 1, id, prefix, behind);
    }
  }

  lemma Prepended(items: seq<Item>, j: nat, out: seq<Item>)
    requires 0 < j <= |items|
    ensures items[1..][j - 1..] == items[j..]
    ensures [items[0]] + (items[1..][..j - 1] + out) == items[..j] + out
  {
  }

  /** What stands behind the list when the search reaches item `i`, if so far exactly the items that carry
      the prefix have been removed. */
  function Behind(f: Format, items: seq<Item>, i: nat, id: byte, prefix: seq<byte>, behind: seq<byte>): seq<byte>
    requires i <= |items|
  {
    if i == 0 then behind
    else Behind(f, items[1..], i - 1, id, prefix, if Carries(items[0], id, prefix) then Stale(f, items, behind) else behind)
  }

  /** A stump that is completed by the octets behind it. */
  predicate Completed(f: Format, items: seq<Item>, i: nat, id: byte, prefix: seq<byte>, behind: seq<byte>)
    requires i < |items|
  {
    Stump(items[i], id, prefix) && Passes(f, items, i, id, prefix, Behind(f, items, i, id, prefix, behind))
  }

  predicate NoneCompleted(f: Format, items: seq<Item>, id: byte, prefix: seq<byte>, behind: seq<byte>) {
    forall i :: 0 <= i < |items| ==> !Completed(f, items, i, id, prefix, behind)
  }

  /** Exactly the items that carry the prefix go if and only if no stump is completed by what follows it. */
  lemma {:induction false} SurvivingIsWithoutIff(f: Format, items: seq<Item>, id: byte, prefix: seq<byte>, behind: seq<byte>)
    ensures Surviving(f, items, id, prefix, behind) == Without(items, id, prefix) <==> NoneCompleted(f, items, id, prefix, behind)
    ensures |Surviving(f, items, id, prefix, behind)| <= |Without(items, id, prefix)|
    decreases |items|
  {
    if items != [] {
      var gone, stale := Carries(items[0], id, prefix), Stale(f, items, behind);
      FirstSurvives(f, items, id, prefix, behind);
      CompletedLater(f, items, id, prefix, behind, if gone then stale else behind);
      if gone || Completed(f, items, 0, id, prefix, behind) {
        SurvivingIsWithoutIff(f, items[1..], id, prefix, stale);
      } else {
        SurvivingIsWithoutIff(f, items[1..], id, prefix, behind);
        Cancels(items[0], Surviving(f, items[1..], id, prefix, behind), Without(items[1..], id, prefix));
      }
    }
  }

  lemma Cancels(it: Item, a: seq<Item>, b: seq<Item>)
    ensures [it] + a == [it] + b <==> a == b
  {
    assert ([it] + a)[1..] == a && ([it] + b)[1..] == b;
  }

  lemma FirstSurvives(f: Format, items: seq<Item>, id: byte, prefix: seq<byte>, behind: seq<byte>)
    requires items != []
    ensures Carries(items[0], id, prefix) || Completed(f, items, 0, id, prefix, behind) ==>
              Surviving(f, items, id, prefix, behind) == Surviving(f, items[1..], id, prefix, Stale(f, items, behind))
    ensures !Carries(items[0], id, prefix) && !Completed(f, items, 0, id, prefix, behind) ==>
              Surviving(f, items, id, prefix, behind) == [items[0]] + Surviving(f, items[1..], id, prefix, behind)
    ensures Carries(items[0], id, prefix) ==> !Completed(f, items, 0, id, prefix, behind)
    ensures Without(items, id, prefix)
            == (if Carries(items[0], id, prefix) then [] else [items[0]]) + Without(items[1..], id, prefix)
  {
    CarriersOrStumps(f, items, id, prefix, behind);
  }

  lemma CarriersOrStumps(f: Format, items: seq<Item>, id: byte, prefix: seq<byte>, behind: seq<byte>)
    requires items != []
    ensures Passes(f, items, 0, id, prefix, behind)
            <==> Carries(items[0], id, prefix) || Completed(f, items, 0, id, prefix, behind)
    ensures !(Carries(items[0], id, prefix) && Stump(items[0], id, prefix))
  {
    CarriesOrStump(f, items, 0, id, prefix, behind);
  }

  lemma CompletedLater(f: Format, items: seq<Item>, id: byte, prefix: seq<byte>, behind: seq<byte>, behind': seq<byte>)
    requires items != [] && behind' == if Carries(items[0], id, prefix) then Stale(f, items, behind) else behind
    ensures NoneCompleted(f, items, id, prefix, behind)
            <==> !Completed(f, items, 0, id, prefix, behind) && NoneCompleted(f, items[1..], id, prefix, behind')
  {
    forall i | 0 <= i < |items[1..]|
      ensures Completed(f, items[1..], i, id, prefix, behind') <==> Completed(f, items, i + 1, id, prefix, behind)
    {
      assert items[1..][i + 1..] == items[i + 1 + 1..];
    }
    if !Completed(f, items, 0, id, prefix, behind) && NoneCompleted(f, items[1..], id, prefix, behind') {
      forall i | 0 <= i < |items| ensures !Completed(f, items, i, id, prefix, behind) {
        if i > 0 {
          assert !Completed(f, items[1..], i - 1, id, prefix, behind');
        }
      }
    }
  }

  /** If every stump has as many octets up to the end of the list as the prefix, the list alone decides. */
  lemma SurvivingIsWithoutInside(f: Format, items: seq<Item>, id: byte, prefix: seq<byte>, behind: seq<byte>)
    requires forall i :: 0 <= i < |items| && Stump(items[i], id, prefix) ==> |prefix| <= |items[i].body| + |Encode(f, items[i + 1..])|
    ensures Surviving(f, items, id, prefix, behind) == Without(items, id, prefix)
            <==> forall i :: 0 <= i < |items| && Stump(items[i], id, prefix) ==> !Passes(f, items, i, id, prefix, [])
  {
    SurvivingIsWithoutIff(f, items, id, prefix, behind);
    forall i | 0 <= i < |items| && Stump(items[i], id, prefix)
      ensures Completed(f, items, i, id, prefix, behind) <==> Passes(f, items, i, id, prefix, [])
    {
      PassesAlone(f, items, i, id, prefix, Behind(f, items, i, id, prefix, behind));
    }
  }

  /** `kept` stands between `offset` and `start`, and the octets from there up to `end` hold `todo`. */
  ghost predicate RemovalAt(f: Format, buf: seq<byte>, offset: nat, start: nat, end: nat, kept: seq<Item>, todo: seq<Item>) {
    AllFit(f, todo) && Lies(f, buf, offset, start, kept) && Lies(f, buf, start, end, todo)
  }

  /** `r` is what the removal leaves of `items` standing up to `end` in `buf`; folded like `Finds`. */
  ghost predicate Survives(r: seq<Item>, f: Format, buf: seq<byte>, end: nat, items: seq<Item>, id: byte, prefix: seq<byte>) {
    end <= |buf| && forall k {:trigger Ask(k)} :: Ask(k) ==> r == Surviving(f, items, id, prefix, buf[end..])
  }

  /** The state between two rounds: `out` is what the removal leaves of `todo`, and `all` what it leaves of
      the whole list. */
  ghost predicate Round(f: Format, buf: seq<byte>, offset: nat, start: nat, end: nat, kept: seq<Item>, todo: seq<Item>, out: seq<Item>,
                        all: seq<Item>, id: byte, prefix: seq<byte>)
  {
    RemovalAt(f, buf, offset, start, end, kept, todo) && Survives(out, f, buf, end, todo, id, prefix) && kept + out == all
  }

  lemma RemovalBegins(f: Format, buf: seq<byte>, offset: nat, end: nat, items: seq<Item>, id: byte, prefix: seq<byte>)
    requires AllFit(f, items) && Lies(f, buf, offset, end, items)
    ensures var all := Surviving(f, items, id, prefix, buf[end..]);
            Round(f, buf, offset, offset, end, [], items, all, all, id, prefix) && AllFit(f, all)
  {
    LiesNothing(f, buf, offset, offset);
    SurvivingFits(f, items, id, prefix, buf[end..]);
  }

  /** One round: the gap left by the item found is closed, and the removal goes on behind it. */
  lemma RemovalGoesOn(f: Format, m: seq<byte>, buf: seq<byte>, offset: nat, start: nat, at: nat, next: nat, n: nat, end: nat, last: nat,
                      kept: seq<Item>, todo: seq<Item>, out: seq<Item>, all: seq<Item>, id: byte, prefix: seq<byte>)
    returns (kept': seq<Item>, todo': seq<Item>, out': seq<Item>)
    requires Round(f, buf, offset, start, end, kept, todo, out, all, id, prefix)
    requires Finds(Found(at), f, buf, start, end, id, prefix)
    requires at + f.HeaderLength() <= |buf| && next == at + f.BodyLength(buf, at) + f.HeaderLength()
    requires next + n == end && at + n == last && Closed(m, buf, at, next, n) && KeptBehind(m, buf, last)
    ensures Round(f, m, offset, at, last, kept', todo', out', all, id, prefix) && |kept'| + |todo'| < |kept| + |todo|
    ensures offset <= last && m[..offset] == buf[..offset]
  {
    var a;
    a, todo', out' := FoundGoes(f, m, buf, start, at, next, end, last, todo, id, prefix, out);
    kept' := kept + a;
    GapCloses(f, m, buf, offset, start, at, next, n, kept, a, todo');
    assert (kept + a) + out' == kept + (a + out');
  }

  /** What stands in front of the item found and behind it. */
  lemma FoundGoes(f: Format, m: seq<byte>, buf: seq<byte>, start: nat, at: nat, next: nat, end: nat, last: nat, todo: seq<Item>,
                  id: byte, prefix: seq<byte>, out: seq<Item>)
    returns (a: seq<Item>, b: seq<Item>, out': seq<Item>)
    requires AllFit(f, todo) && Lies(f, buf, start, end, todo) && Survives(out, f, buf, end, todo, id, prefix)
    requires Finds(Found(at), f, buf, start, end, id, prefix)
    requires at + f.HeaderLength() <= |buf| && next == at + f.BodyLength(buf, at) + f.HeaderLength()
    requires last - at == end - next && KeptBehind(m, buf, last)
    ensures Lies(f, buf, start, at, a) && Lies(f, buf, next, end, b) && AllFit(f, b) && |a| + |b| < |todo|
    ensures Survives(out', f, m, last, b, id, prefix) && out == a + out'
  {
    var j, next' := FoundItem(f, buf, start, end, todo, id, prefix, at);
    a, b := todo[..j], todo[j + 1..];
    out' := SurvivingBehind(f, m, buf, start, at, next, end, last, todo, j, id, prefix, out);
    FewerToDo(f, todo, j);
  }

  lemma FewerToDo(f: Format, todo: seq<Item>, j: nat)
    requires AllFit(f, todo) && j < |todo|
    ensures AllFit(f, todo[j + 1..]) && |todo[..j]| + |todo[j + 1..]| < |todo|
  {
  }

  /** The octets from `at` on are as they were; folded like `At`. */
  ghost predicate KeptBehind(m: seq<byte>, buf: seq<byte>, at: nat) {
    at <= |buf| == |m| && forall k {:trigger Look(k)} :: Look(k) ==> m[at..] == buf[at..]
  }

  lemma SurvivingBehind(f: Format, m: seq<byte>, buf: seq<byte>, start: nat, at: nat, next: nat, end: nat, last: nat, todo: seq<Item>, j: nat,
                        id: byte, prefix: seq<byte>, out: seq<Item>)
    returns (out': seq<Item>)
    requires j < |todo| && Stops(f, buf, start, end, todo, id, prefix, j, at, next)
    requires Survives(out, f, buf, end, todo, id, prefix) && KeptBehind(m, buf, last)
    requires last - at == end - next
    ensures Survives(out', f, m, last, todo[j + 1..], id, prefix) && out == todo[..j] + out'
  {
    var from := todo[j..];
    assert from[1..] == todo[j + 1..] && from == [todo[j]] + todo[j + 1..];
    LiesJoin(f, buf, at, next, end, [todo[j]], todo[j + 1..]);
    StaleOctets(f, m, buf, at, next, end, last, from);
    assert Ask(0);
    SurvivingSplit(f, todo, j, id, prefix, buf[end..]);
    assert Passes(f, from, 0, id, prefix, buf[end..]);
    out' := Surviving(f, from[1..], id, prefix, Stale(f, from, buf[end..]));
  }

  lemma StaleOctets(f: Format, m: seq<byte>, buf: seq<byte>, at: nat, next: nat, end: nat, last: nat, items: seq<Item>)
    requires items != [] && Lies(f, buf, at, end, items) && Lies(f, buf, next, end, items[1..])
    requires KeptBehind(m, buf, last) && last - at == end - next
    ensures m[last..] == Stale(f, items, buf[end..])
  {
    LiesEncoded(f, buf, at, end, items);
    EncodedLength(f, buf, next, end, items[1..]);
    SliceFrom(m, buf, at, end, last);
  }

  lemma EncodedLength(f: Format, buf: seq<byte>, pos: nat, end: nat, items: seq<Item>)
    requires Lies(f, buf, pos, end, items)
    ensures end - pos == |Encode(f, items)|
  {
    assert Lay(0);
  }

  lemma SliceFrom(m: seq<byte>, buf: seq<byte>, at: nat, end: nat, last: nat)
    requires at <= last <= end <= |buf| && KeptBehind(m, buf, last)
    ensures m[last..] == buf[at..end][last - at..] + buf[end..]
  {
    assert Look(0);
  }

  lemma GapCloses(f: Format, m: seq<byte>, buf: seq<byte>, offset: nat, start: nat, at: nat, next: nat, n: nat,
                  kept: seq<Item>, a: seq<Item>, b: seq<Item>)
    requires Lies(f, buf, offset, start, kept) && Lies(f, buf, start, at, a) && Lies(f, buf, next, next + n, b)
    requires Closed(m, buf, at, next, n)
    ensures Lies(f, m, offset, at, kept + a) && Lies(f, m, at, at + n, b)
    ensures m[..offset] == buf[..offset]
  {
    assert Look(0);
    LiesJoin(f, buf, offset, start, at, kept, a);
    assert m[offset..at] == m[..at][offset..] && buf[offset..at] == buf[..at][offset..];
    assert m[..offset] == m[..at][..offset] && buf[..offset] == buf[..at][..offset];
    LiesSame(f, buf, m, offset, at, kept + a);
    LiesShifted(f, buf, m, next, next + n, at, b);
  }

  /** The search finds nothing: nothing is left to remove. */
  lemma RemovalEnds(f: Format, buf: seq<byte>, offset: nat, start: nat, end: nat, kept: seq<Item>, todo: seq<Item>, out: seq<Item>,
                    all: seq<Item>, id: byte, prefix: seq<byte>)
    requires Round(f, buf, offset, start, end, kept, todo, out, all, id, prefix)
    requires Finds(Absent, f, buf, start, end, id, prefix)
    ensures Lies(f, buf, offset, end, all) && all == kept + todo
  {
    var j, at, next := ScanNearest(f, buf, start, end, todo, id, prefix);
    assert Ask(0);
    SurvivingSplit(f, todo, j, id, prefix, buf[end..]);
    assert out == todo;
    LiesJoin(f, buf, offset, start, end, kept, todo);
  }

  // ----- replacing a stretch of the list

  /** `a` and `b` keep their octets around the new `c`. */
  lemma LiesSpliced(f: Format, m: seq<byte>, buf: seq<byte>, pos: nat, at: nat, next: nat, end: nat, mid: nat,
                    a: seq<Item>, c: seq<Item>, b: seq<Item>)
    requires Lies(f, buf, pos, at, a) && Lies(f, buf, next, end, b)
    requires at <= |m| && m[..at] == buf[..at] && Lies(f, m, at, mid, c)
    requires mid + (end - next) <= |m| && m[mid..mid + (end - next)] == buf[next..end]
    ensures Lies(f, m, pos, mid + (end - next), a + c + b)
  {
    SamePart(m, buf, pos, at);
    LiesSame(f, buf, m, pos, at, a);
    LiesShifted(f, buf, m, next, end, mid, b);
    LiesJoin(f, m, pos, at, mid, a, c);
    LiesJoin(f, m, pos, mid, mid + (end - next), a + c, b);
  }

  lemma SamePart(m: seq<byte>, buf: seq<byte>, pos: nat, at: nat)
    requires pos <= at <= |m| && at <= |buf| && m[..at] == buf[..at]
    ensures m[pos..at] == buf[pos..at]
  {
    assert m[pos..at] == m[..at][pos..] && buf[pos..at] == buf[..at][pos..];
  }
}
