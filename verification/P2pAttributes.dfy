/** Removing a P2P attribute from the elements of a BSS description: core/rtw_ieee80211.c. */
module P2pAttributes {
  import opened Bytes
  import opened Memory
  import opened Tlv
  import opened BssDescription

  const VENDOR_SPECIFIC: byte := 221
  const P2P_OUI: seq<byte> := [0x50, 0x6F, 0x9A, 0x09]

  /** Identifier, length and OUI with its type in front of the first attribute. */
  const ATTRS: nat := 6

  /** The element at `ie` passes for a P2P element; folded like `At`. */
  ghost predicate LooksP2p(buf: seq<byte>, ie: nat) {
    && ie + ATTRS <= |buf|
    && forall k {:trigger Look(k)} :: Look(k) ==> buf[ie] == VENDOR_SPECIFIC && buf[ie + 2..ie + ATTRS] == P2P_OUI
  }

  /** The loop of `rtw_get_p2p_attr` over complete attributes; the attribute length is kept in 16 bits. */
  method FindAttr(buf: array<byte>, pos: nat, end: nat, attrId: byte, ghost attrs: seq<Item>)
    returns (r: Search, lenAttr: nat)
    requires Lies(Attribute, buf[..], pos, end, attrs) && AllFit(Attribute, attrs) && end - pos < 65536
    ensures Finds(r, Attribute, buf[..], pos, end, attrId, [])
    ensures r.Found? ==> r.at + 3 <= buf.Length && lenAttr == Attribute.BodyLength(buf[..], r.at) + 3
  {
    ghost var b := buf[..];
    lenAttr := 0;
    var attr := pos;
    ghost var todo := attrs;
    while attr < end
      invariant b == buf[..] && pos <= attr && AttributesAt(b, attr, end, todo)
      invariant Scan(Attribute, b, pos, end, attrId, []) == Scan(Attribute, b, attr, end, attrId, [])
    {
      AttributeHere(b, attr, end, todo, attrId);
      var attrLen := AttrLen(buf, attr);
      if buf[attr] == attrId {
        return Found(attr), attrLen;
      }
      ghost var attr0, todo0 := attr, todo;
      attr := attr + attrLen;
      todo := todo[1..];
      AttributeBehind(b, attr0, end, todo0, attrId, attr, todo);
    }
    r := Absent;
  }

  /** `RTW_GET_LE16(attr_ptr + 1) + 3`, in 16 bits. */
  method AttrLen(buf: array<byte>, attr: nat) returns (attrLen: nat)
    requires attr + 3 <= buf.Length
    ensures attrLen == (Attribute.BodyLength(buf[..], attr) + 3) % 65536
  {
    var attrDataLen := (buf[attr + 1] as int) + (buf[attr + 2] as int) * 256;
    attrLen := (attrDataLen + 3) % 65536;
  }

  /** `rtw_get_p2p_attr` */
  method GetP2pAttr(buf: array<byte>, ie: nat, ielen: nat, attrId: byte, ghost attrs: seq<Item>)
    returns (r: Search, lenAttr: nat)
    requires ie + ATTRS <= buf.Length && ielen < 65536
    requires ielen > ATTRS ==> Lies(Attribute, buf[..], ie + ATTRS, ie + ielen, attrs) && AllFit(Attribute, attrs)
    ensures if LooksP2p(buf[..], ie) then Finds(r, Attribute, buf[..], ie + ATTRS, ie + ielen, attrId, []) else r == Absent
    ensures r.Found? ==> r.at + 3 <= buf.Length && lenAttr == Attribute.BodyLength(buf[..], r.at) + 3
  {
    assert Look(0);
    assert buf[ie + 2..ie + ATTRS] == buf[..][ie + 2..ie + ATTRS];
    if buf[ie] != VENDOR_SPECIFIC || buf[ie + 2..ie + ATTRS] != P2P_OUI {
      return Absent, 0;
    }
    if ielen <= ATTRS {
      return Absent, 0;
    }
    r, lenAttr := FindAttr(buf, ie + ATTRS, ie + ielen, attrId, attrs);
  }

  /** Complete attributes from `pos` to `end`. */
  ghost predicate AttributesAt(b: seq<byte>, pos: nat, end: nat, todo: seq<Item>) {
    pos <= end && AllFit(Attribute, todo) && Lies(Attribute, b, pos, end, todo)
  }

  lemma AttributeHere(b: seq<byte>, pos: nat, end: nat, todo: seq<Item>, id: byte)
    requires AttributesAt(b, pos, end, todo) && pos < end && end - pos < 65536
    ensures todo != [] && pos + 3 <= end <= |b| && Attribute.BodyLength(b, pos) + 3 < 65536
    ensures b[pos] == id ==> Scan(Attribute, b, pos, end, id, []) == Found(pos)
  {
    var next := AttributeSplit(b, pos, end, todo);
  }

  lemma AttributeSplit(b: seq<byte>, pos: nat, end: nat, todo: seq<Item>) returns (next: nat)
    requires AttributesAt(b, pos, end, todo) && pos < end && end - pos < 65536
    ensures todo != [] && pos + 3 <= end <= |b| && next == pos + (Attribute.BodyLength(b, pos) + 3) <= end
    ensures Lies(Attribute, b, next, end, todo[1..])
  {
    if todo == [] {
      LiesNothing(Attribute, b, pos, end);
    }
    assert todo == [todo[0]] + todo[1..];
    next := LiesSplit(Attribute, b, pos, end, [todo[0]], todo[1..]);
    LiesOne(Attribute, b, pos, next, todo[0]);
  }

  lemma AttributeBehind(b: seq<byte>, pos: nat, end: nat, todo: seq<Item>, id: byte, next: nat, rest: seq<Item>)
    requires AttributesAt(b, pos, end, todo) && pos < end && end - pos < 65536 && pos + 3 <= |b| && b[pos] != id
    requires todo != [] && next == pos + (Attribute.BodyLength(b, pos) + 3) % 65536 && rest == todo[1..]
    ensures AttributesAt(b, next, end, rest)
    ensures Scan(Attribute, b, pos, end, id, []) == Scan(Attribute, b, next, end, id, [])
  {
    var next' := AttributeSplit(b, pos, end, todo);
    assert next == next';
  }

  /** Takes the attribute at `at` out: cleared, overwritten by what follows, and the octets set free at
      the end cleared. */
  method CloseAttr(buf: array<byte>, at: nat, cut: nat, remainLen: nat)
    requires at + cut + remainLen <= buf.Length
    modifies buf
    ensures Closed(buf[..], old(buf[..]), at, at + cut, remainLen)
    ensures buf[..][at + cut + remainLen..] == old(buf[..])[at + cut + remainLen..]
  {
    ghost var b := buf[..];
    Zero(buf, at, cut);
    Move(buf, at, at + cut, remainLen);
    Zero(buf, at + remainLen, cut);
    ClosedInSteps(b, at, cut, remainLen);
  }

  lemma ClosedInSteps(b: seq<byte>, at: nat, cut: nat, n: nat)
    requires at + cut + n <= |b|
    ensures var b1 := Written(b, at, seq(cut, _ => 0));
            var b2 := Memory.Moved(b1, at, at + cut, n);
            var b3 := Written(b2, at + n, seq(cut, _ => 0));
            Closed(b3, b, at, at + cut, n) && b3[at + cut + n..] == b[at + cut + n..]
  {
    var b1 := Written(b, at, seq(cut, _ => 0));
    var b2 := Memory.Moved(b1, at, at + cut, n);
    var b3 := Written(b2, at + n, seq(cut, _ => 0));
    assert b1[at + cut..at + cut + n] == b[at + cut..at + cut + n];
    assert b2[at..at + n] == b1[at + cut..at + cut + n];
    assert b3[at..at + n] == b2[at..at + n];
    assert b3[..at] == b2[..at] == b1[..at] == b[..at];
  }

  /** Dropping the first attribute of that identifier leaves the same ones to keep. */
  lemma DropFirst(m: seq<byte>, buf: seq<byte>, pos: nat, end: nat, items: seq<Item>, at: nat, cut: nat, n: nat, id: byte)
    returns (rest: seq<Item>)
    requires AllFit(Attribute, items) && Lies(Attribute, buf, pos, end, items)
    requires Finds(Found(at), Attribute, buf, pos, end, id, [])
    requires at + 3 <= |buf| && cut == Attribute.BodyLength(buf, at) + 3 && at + cut + n == end
    requires Closed(m, buf, at, at + cut, n)
    ensures AllFit(Attribute, rest) && Lies(Attribute, m, pos, end - cut, rest)
    ensures Without(rest, id, []) == Without(items, id, []) && |rest| < |items|
  {
    var a, b := AroundFound(buf, pos, end, items, at, at + cut, id);
    rest := a + b;
    LiesNothing(Attribute, buf, pos, pos);
    GapCloses(Attribute, m, buf, pos, pos, at, at + cut, n, [], a, b);
    assert [] + a == a;
    LiesJoin(Attribute, m, pos, at, at + n, a, b);
  }

  /** What stands in front of the attribute found and behind it. */
  lemma AroundFound(buf: seq<byte>, pos: nat, end: nat, items: seq<Item>, at: nat, next: nat, id: byte)
    returns (a: seq<Item>, b: seq<Item>)
    requires AllFit(Attribute, items) && Lies(Attribute, buf, pos, end, items)
    requires Finds(Found(at), Attribute, buf, pos, end, id, [])
    requires at + 3 <= |buf| && next == at + Attribute.BodyLength(buf, at) + 3
    ensures Lies(Attribute, buf, pos, at, a) && Lies(Attribute, buf, next, end, b) && AllFit(Attribute, a + b)
    ensures Without(a + b, id, []) == Without(items, id, []) && |a + b| < |items|
  {
    var j, next' := FoundItem(Attribute, buf, pos, end, items, id, [], at);
    a, b := items[..j], items[j + 1..];
    StopsAtIt(buf, pos, end, items, id, j, at, next);
    ListWithout(items, j, id);
  }

  lemma StopsAtIt(buf: seq<byte>, pos: nat, end: nat, items: seq<Item>, id: byte, j: nat, at: nat, next: nat)
    requires Stops(Attribute, buf, pos, end, items, id, [], j, at, next) && j < |items|
    ensures Carries(items[j], id, [])
  {
    assert Ask(0);
  }

  /** Dropping an attribute of that identifier leaves the same ones to keep. */
  lemma ListWithout(items: seq<Item>, k: nat, id: byte)
    requires k < |items| && Carries(items[k], id, [])
    ensures Without(items[..k] + items[k + 1..], id, []) == Without(items, id, [])
  {
    assert items == items[..k] + ([items[k]] + items[k + 1..]);
    WithoutAppend(items[..k], items[k + 1..], id, []);
    WithoutAppend(items[..k], [items[k]] + items[k + 1..], id, []);
    WithoutAppend([items[k]], items[k + 1..], id, []);
  }

  /** An element of `ielen` octets that passes for a P2P element stands at `ie`, and its attributes are
      `attrs`: none if it is too short to be one. */
  ghost predicate P2pAt(buf: seq<byte>, ie: nat, ielen: nat, attrs: seq<Item>) {
    && 2 <= ielen <= 257 && ie + ielen <= |buf|
    && LooksP2p(buf, ie) && buf[ie + 1] == ielen - 2 && AllFit(Attribute, attrs)
    && if ielen < ATTRS then attrs == [] else Lies(Attribute, buf, ie + ATTRS, ie + ielen, attrs)
  }

  lemma AttrInside(buf: seq<byte>, ie: nat, ielen: nat, items: seq<Item>, at: nat, id: byte)
    requires P2pAt(buf, ie, ielen, items)
    requires Finds(Found(at), Attribute, buf, ie + ATTRS, ie + ielen, id, [])
    ensures ATTRS <= ielen && ie + ATTRS <= at && at + 3 <= |buf|
    ensures at + Attribute.BodyLength(buf, at) + 3 <= ie + ielen
  {
    assert Ask(0);
    if ielen >= ATTRS {
      var j, next := FoundItem(Attribute, buf, ie + ATTRS, ie + ielen, items, id, [], at);
    }
  }

  lemma NoneLeft(buf: seq<byte>, ie: nat, ielen: nat, items: seq<Item>, id: byte)
    requires P2pAt(buf, ie, ielen, items)
    requires Finds(Absent, Attribute, buf, ie + ATTRS, ie + ielen, id, [])
    ensures Without(items, id, []) == items
  {
    if ielen >= ATTRS {
      var pos, end := ie + ATTRS, ie + ielen;
      var k, at, next := FindMatch(Attribute, buf, pos, end, items, id);
      assert Ask(0);
      assert items[..k] == items;
      WithoutNone(items, id, []);
    }
  }

  /** The attribute at `at` is gone, and the length octet of the element is not yet adjusted. */
  method TakeAttr(buf: array<byte>, ie: nat, ielen: nat, at: nat, cut: nat, attrId: byte, ghost attrs: seq<Item>)
    returns (ghost rest: seq<Item>)
    requires P2pAt(buf[..], ie, ielen, attrs)
    requires Finds(Found(at), Attribute, buf[..], ie + ATTRS, ie + ielen, attrId, [])
    requires ie + ATTRS <= at && at + 3 <= buf.Length && cut == Attribute.BodyLength(buf[..], at) + 3 && at + cut <= ie + ielen
    modifies buf
    ensures LooksP2p(buf[..], ie) && buf[ie + 1] == old(buf[ie + 1])
    ensures AllFit(Attribute, rest) && Lies(Attribute, buf[..], ie + ATTRS, ie + ielen - cut, rest)
    ensures Without(rest, attrId, []) == Without(attrs, attrId, []) && |rest| < |attrs|
    ensures Outside(buf[..], old(buf[..]), ie + ATTRS, ie + ielen)
  {
    ghost var b := buf[..];
    var remainLen := ielen - (at + cut - ie);
    CloseAttr(buf, at, cut, remainLen);
    rest := AttrTaken(buf[..], b, ie, ielen, at, cut, remainLen, attrId, attrs);
  }

  lemma AttrTaken(m: seq<byte>, b: seq<byte>, ie: nat, ielen: nat, at: nat, cut: nat, n: nat, attrId: byte, attrs: seq<Item>)
    returns (rest: seq<Item>)
    requires P2pAt(b, ie, ielen, attrs) && Finds(Found(at), Attribute, b, ie + ATTRS, ie + ielen, attrId, [])
    requires ie + ATTRS <= at && at + 3 <= |b| && cut == Attribute.BodyLength(b, at) + 3 && at + cut + n == ie + ielen
    requires Closed(m, b, at, at + cut, n) && m[at + cut + n..] == b[at + cut + n..]
    ensures LooksP2p(m, ie) && m[ie + 1] == b[ie + 1]
    ensures AllFit(Attribute, rest) && Lies(Attribute, m, ie + ATTRS, ie + ielen - cut, rest)
    ensures Without(rest, attrId, []) == Without(attrs, attrId, []) && |rest| < |attrs|
    ensures Outside(m, b, ie + ATTRS, ie + ielen)
  {
    rest := DropFirst(m, b, ie + ATTRS, ie + ielen, attrs, at, cut, n, attrId);
    HeaderKept(m, b, ie, at, at + cut, n);
  }

  /** One round of `rtw_p2p_attr_remove`, the length octet of the element included. */
  method RemoveAttr(buf: array<byte>, ie: nat, ielen: nat, at: nat, cut: nat, attrId: byte, ghost attrs: seq<Item>)
    returns (ghost rest: seq<Item>)
    requires P2pAt(buf[..], ie, ielen, attrs)
    requires Finds(Found(at), Attribute, buf[..], ie + ATTRS, ie + ielen, attrId, [])
    requires ie + ATTRS <= at && at + 3 <= buf.Length && cut == Attribute.BodyLength(buf[..], at) + 3 && at + cut <= ie + ielen
    modifies buf
    ensures P2pAt(buf[..], ie, ielen - cut, rest)
    ensures Without(rest, attrId, []) == Without(attrs, attrId, []) && |rest| < |attrs|
    ensures Outside(buf[..], old(buf[..]), ie + 1, ie + ielen)
  {
    ghost var b := buf[..];
    rest := TakeAttr(buf, ie, ielen, at, cut, attrId, attrs);
    ghost var m := buf[..];
    assert m[ie + 1] == b[ie + 1];
    buf[ie + 1] := buf[ie + 1] - cut;
    LengthAdjusted(buf[..], m, b, ie, ielen, cut, rest);
  }

  /** With its length octet adjusted the shortened element is one again. */
  lemma LengthAdjusted(z: seq<byte>, m: seq<byte>, b: seq<byte>, ie: nat, ielen: nat, cut: nat, rest: seq<Item>)
    requires ATTRS + cut <= ielen <= 257 && ie + ielen <= |m| && LooksP2p(m, ie)
    requires m[ie + 1] == ielen - 2 && z == m[ie + 1 := m[ie + 1] - cut]
    requires AllFit(Attribute, rest) && Lies(Attribute, m, ie + ATTRS, ie + ielen - cut, rest)
    requires Outside(m, b, ie + ATTRS, ie + ielen)
    ensures P2pAt(z, ie, ielen - cut, rest) && Outside(z, b, ie + 1, ie + ielen)
  {
    LiesSame(Attribute, m, z, ie + ATTRS, ie + ielen - cut, rest);
    assert z[ie + 2..ie + ATTRS] == m[ie + 2..ie + ATTRS];
    assert Look(0);
    assert m[..ie + 1] == m[..ie + ATTRS][..ie + 1] && b[..ie + 1] == b[..ie + ATTRS][..ie + 1];
  }

  lemma HeaderKept(m: seq<byte>, b: seq<byte>, ie: nat, at: nat, next: nat, n: nat)
    requires Closed(m, b, at, next, n) && ie + ATTRS <= at && m[next + n..] == b[next + n..]
    ensures m[ie + 1] == b[ie + 1] && Outside(m, b, ie + ATTRS, next + n)
    ensures LooksP2p(b, ie) ==> LooksP2p(m, ie)
  {
    assert Look(0);
    var h := m[..ie + ATTRS];
    assert h == m[..at][..ie + ATTRS] && b[..ie + ATTRS] == b[..at][..ie + ATTRS];
    assert m[ie + 2..ie + ATTRS] == h[ie + 2..] && b[ie + 2..ie + ATTRS] == b[..ie + ATTRS][ie + 2..];
    assert m[ie] == h[ie] && m[ie + 1] == h[ie + 1];
    assert b[ie] == b[..ie + ATTRS][ie] && b[ie + 1] == b[..ie + ATTRS][ie + 1];
  }

  /** `rtw_p2p_attr_remove`: searches from the front again after every removal. */
  method AttrRemove(buf: array<byte>, ie: nat, ielenOri: nat, attrId: byte, ghost attrs: seq<Item>) returns (ielen: nat)
    requires P2pAt(buf[..], ie, ielenOri, attrs)
    modifies buf
    ensures ielen <= ielenOri && P2pAt(buf[..], ie, ielen, Without(attrs, attrId, []))
    ensures Outside(buf[..], old(buf[..]), ie + 1, ie + ielenOri)
    ensures ielen < ATTRS ==> ielen == ielenOri
    ensures if ielen == ielenOri then buf[..] == old(buf[..]) && Without(attrs, attrId, []) == attrs
            else Without(attrs, attrId, []) != attrs
  {
    ielen := ielenOri;
    ghost var b, rest := buf[..], attrs;
    while true
      invariant ielen <= ielenOri && P2pAt(buf[..], ie, ielen, rest) && (ielen < ATTRS ==> ielen == ielenOri)
      invariant Without(rest, attrId, []) == Without(attrs, attrId, [])
      invariant Outside(buf[..], b, ie + 1, ie + ielenOri)
      invariant if ielen == ielenOri then buf[..] == b && rest == attrs else |rest| < |attrs|
      decreases ielen
    {
      ghost var m := buf[..];
      var target, targetLen := GetP2pAttr(buf, ie, ielen, attrId, rest);
      if target == Absent || targetLen == 0 {
        NoneLeft(m, ie, ielen, rest, attrId);
        break;
      }
      AttrInside(m, ie, ielen, rest, target.at, attrId);
      rest := RemoveAttr(buf, ie, ielen, target.at, targetLen, attrId, rest);
      OutsideStill(buf[..], m, b, ie + 1, ie + ielen, ie + ielenOri);
      ielen := ielen - targetLen;
    }
  }

  // ----- the P2P element in the list

  /** `rtw_get_p2p_ie` */
  method GetP2pIe(buf: array<byte>, base: nat, inLen: int) returns (r: Search, ielen: nat)
    requires base + 6 <= buf.Length
    requires inLen >= 0 ==> inLen <= MAX_IE_SZ && EndsBefore(Element, buf[..], base + inLen, P2P_OUI)
    ensures if inLen < 0 then r == Absent
            else Finds(r, Element, buf[..], base, base + inLen, VENDOR_SPECIFIC, P2P_OUI)
    ensures r.Found? ==> r.at + 2 <= buf.Length && ielen == Element.BodyLength(buf[..], r.at) + 2
    ensures r.Found? ==> LooksP2p(buf[..], r.at)
  {
    ghost var b := buf[..];
    var cnt := 0;
    ielen := 0;
    // A negative length compares as a large unsigned one: the loop is entered, and left at once.
    while inLen < 0 || cnt < inLen
      invariant b == buf[..] && (inLen < 0 ==> cnt == 0)
      invariant inLen >= 0 ==> Scan(Element, b, base, base + inLen, VENDOR_SPECIFIC, P2P_OUI)
                               == Scan(Element, b, base + cnt, base + inLen, VENDOR_SPECIFIC, P2P_OUI)
      decreases inLen - cnt
    {
      if inLen < 0 || cnt > MAX_IE_SZ {
        return Absent, 0;
      }
      var p := base + cnt;
      var same := IsP2p(buf, p);
      if same {
        return Found(p), (buf[p + 1] as int) + 2;
      }
      cnt := cnt + (buf[p + 1] as int) + 2;
    }
    r := Absent;
  }

  method IsP2p(buf: array<byte>, ie: nat) returns (b: bool)
    requires ie + ATTRS <= buf.Length
    ensures b == Hit(Element, buf[..], ie, VENDOR_SPECIFIC, P2P_OUI)
    ensures b == LooksP2p(buf[..], ie)
  {
    assert Look(0);
    assert buf[..][ie + 2..ie + ATTRS] == buf[ie + 2..ie + ATTRS];
    b := buf[ie] == VENDOR_SPECIFIC && buf[ie + 2..ie + ATTRS] == P2P_OUI;
  }

  function FirstP2p(es: seq<Item>): nat {
    FirstMatch(es, VENDOR_SPECIFIC, P2P_OUI)
  }

  function P2pElement(attrs: seq<Item>): Item {
    Item(VENDOR_SPECIFIC, P2P_OUI + Encode(Attribute, attrs))
  }

  /** The body of the first P2P element is the OUI and the attributes `attrs`, all complete. */
  predicate HasAttrs(es: seq<Item>, attrs: seq<Item>) {
    FirstP2p(es) < |es| ==> es[FirstP2p(es)] == P2pElement(attrs) && AllFit(Attribute, attrs)
  }

  /** What the removal is for: the first P2P element without the attributes of that identifier, and
      everything else as it was. */
  function Promised(es: seq<Item>, attrs: seq<Item>, attrId: byte): seq<Item> {
    var k := FirstP2p(es);
    if k == |es| then es else es[..k] + [P2pElement(Without(attrs, attrId, []))] + es[k + 1..]
  }

  /** In front of the first P2P element stands a vendor element too short for the OUI, whose octets form
      it together with the octets behind. */
  predicate Shadowed(es: seq<Item>) {
    FirstP2p(es) < |es| && exists j :: 0 <= j < FirstP2p(es) && Passes(Element, es, j, VENDOR_SPECIFIC, P2P_OUI, [])
  }

  function Outcome(es: seq<Item>, attrs: seq<Item>, attrId: byte): seq<Item> {
    if Shadowed(es) then es else Promised(es, attrs, attrId)
  }

  /** The removal does what it is for exactly when no stump stands in the way, or there was nothing to
      remove. */
  lemma RemovesIff(es: seq<Item>, attrs: seq<Item>, attrId: byte)
    requires HasAttrs(es, attrs)
    ensures Outcome(es, attrs, attrId) == Promised(es, attrs, attrId)
            <==> !Shadowed(es) || NoneCarries(attrs, attrId, [])
  {
    var k, kept := FirstP2p(es), Without(attrs, attrId, []);
    WithoutNone(attrs, attrId, []);
    if Shadowed(es) {
      assert es == es[..k] + [es[k]] + es[k + 1..];
      if |kept| < |attrs| {
        WithoutShorter(attrs, attrId);
        assert |P2pElement(kept).body| < |P2pElement(attrs).body|;
        assert Promised(es, attrs, attrId)[k] == P2pElement(kept);
      }
    }
  }

  lemma {:induction false} WithoutShorter(attrs: seq<Item>, attrId: byte)
    ensures |Encode(Attribute, Without(attrs, attrId, []))| + 3 * (|attrs| - |Without(attrs, attrId, [])|)
            <= |Encode(Attribute, attrs)|
  {
    if attrs != [] {
      WithoutShorter(attrs[1..], attrId);
      var head := if Carries(attrs[0], attrId, []) then [] else [attrs[0]];
      EncodeAppend(Attribute, head, Without(attrs[1..], attrId, []));
      EncodeOne(Attribute, attrs[0]);
    }
  }

  /** Such a list: the stump's octets and the header of the element behind it make up the OUI. */
  lemma ShadowedExample(attrs: seq<Item>)
    ensures Shadowed([Item(VENDOR_SPECIFIC, [0x50, 0x6F]), Item(0x9A, [0, 0, 0, 0, 0, 0, 0, 0, 0]), P2pElement(attrs)])
  {
    var short, other, p2p := Item(VENDOR_SPECIFIC, [0x50, 0x6F]), Item(0x9A, [0, 0, 0, 0, 0, 0, 0, 0, 0]), P2pElement(attrs);
    var es := [short, other, p2p];
    assert es[1..] == [other] + [p2p] && es[2..] == [p2p];
    EncodeAppend(Element, [other], [p2p]);
    EncodeOne(Element, other);
    var w := Encode(Element, [p2p]);
    assert EncodeItem(Element, other) == [0x9A, 9] + other.body;
    OuiInPieces(short.body, [0x9A, 9], other.body, w);
    assert Passes(Element, es, 0, VENDOR_SPECIFIC, P2P_OUI, []);
    assert P2P_OUI <= p2p.body;
    assert Carries(es[2], VENDOR_SPECIFIC, P2P_OUI);
  }

  lemma OuiInPieces(a: seq<byte>, b: seq<byte>, c: seq<byte>, w: seq<byte>)
    requires a + b == P2P_OUI
    ensures P2P_OUI <= a + (b + c + w) + []
  {
    assert a + (b + c + w) + [] == (a + b) + (c + w);
  }

  /** What stands where the search stops: the first P2P element, or a stump that hides it. */
  lemma Located(buf: seq<byte>, end: nat, es: seq<Item>, attrs: seq<Item>, j: nat, at: nat, next: nat)
    returns (found: seq<Item>)
    requires Stops(Element, buf, FIXED, end, es, VENDOR_SPECIFIC, P2P_OUI, j, at, next) && j < |es|
    requires AllFit(Element, es) && HasAttrs(es, attrs) && LooksP2p(buf, at)
    ensures P2pAt(buf, at, next - at, found) && next == at + Element.BodyLength(buf, at) + 2
    ensures if Carries(es[j], VENDOR_SPECIFIC, P2P_OUI) then found == attrs && j == FirstP2p(es) && !Shadowed(es)
            else found == [] && (FirstP2p(es) == |es| || Shadowed(es))
  {
    LiesOne(Element, buf, at, next, es[j]);
    FirstOrShadow(buf, end, es, j, at, next);
    if |es[j].body| >= 4 {
      LooksCarries(buf, at, es[j]);
    }
    found := [];
    if Carries(es[j], VENDOR_SPECIFIC, P2P_OUI) {
      found := attrs;
      var whole := buf[at + 2..next];
      assert whole == P2P_OUI + Encode(Attribute, attrs);
      assert buf[at + ATTRS..next] == whole[4..];
      LiesEncoded(Attribute, buf, at + ATTRS, next, attrs);
    }
  }

  /** Element `j` stands at `at`, passes for a P2P element and has the attributes `found`; folded like `At`. */
  ghost predicate FoundAt(at: nat, buf: seq<byte>, end: nat, es: seq<Item>, j: nat, found: seq<Item>) {
    && j < |es| && FIXED <= at && at + 2 <= |buf|
    && forall k {:trigger Look(k)} :: Look(k) ==>
         && P2pAt(buf, at, Element.BodyLength(buf, at) + 2, found)
         && Lies(Element, buf, FIXED, at, es[..j])
         && Lies(Element, buf, at + Element.BodyLength(buf, at) + 2, end, es[j + 1..])
  }

  lemma FoundParts(at: nat, buf: seq<byte>, end: nat, es: seq<Item>, j: nat, found: seq<Item>, ielen: nat, next: nat)
    requires FoundAt(at, buf, end, es, j, found) && ielen == Element.BodyLength(buf, at) + 2 && next == at + ielen
    ensures P2pAt(buf, at, ielen, found) && next <= end
    ensures Lies(Element, buf, FIXED, at, es[..j]) && Lies(Element, buf, next, end, es[j + 1..])
  {
    assert Look(0);
  }

  /** What the removal makes of the list when the search stops at element `j`. */
  function Rewritten(es: seq<Item>, j: nat, found: seq<Item>, attrId: byte): seq<Item>
    requires j < |es|
  {
    var kept := Without(found, attrId, []);
    if kept == found then es else es[..j] + [P2pElement(kept)] + es[j + 1..]
  }

  lemma OutcomeAt(es: seq<Item>, attrs: seq<Item>, attrId: byte, j: nat, found: seq<Item>)
    requires j < |es| && HasAttrs(es, attrs)
    requires if Carries(es[j], VENDOR_SPECIFIC, P2P_OUI) then found == attrs && j == FirstP2p(es) && !Shadowed(es)
             else found == [] && (FirstP2p(es) == |es| || Shadowed(es))
    ensures Outcome(es, attrs, attrId) == Rewritten(es, j, found, attrId)
  {
    assert es == es[..j] + [es[j]] + es[j + 1..];
  }

  lemma OutcomeFits(es: seq<Item>, attrs: seq<Item>, attrId: byte)
    requires AllFit(Element, es) && HasAttrs(es, attrs)
    ensures AllFit(Element, Outcome(es, attrs, attrId))
  {
    if FirstP2p(es) < |es| {
      WithoutShorter(attrs, attrId);
      assert Fits(Element, es[FirstP2p(es)]);
    }
  }

  /** Where the search for the element ended, and what the removal will make of the list. */
  lemma Reached(r: Search, buf: seq<byte>, end: nat, es: seq<Item>, attrs: seq<Item>, attrId: byte)
    returns (j: nat, found: seq<Item>)
    requires AllFit(Element, es) && HasAttrs(es, attrs) && Lies(Element, buf, FIXED, end, es)
    requires Finds(r, Element, buf, FIXED, end, VENDOR_SPECIFIC, P2P_OUI)
    requires r.Found? ==> LooksP2p(buf, r.at)
    ensures r == Absent ==> Outcome(es, attrs, attrId) == es
    ensures r.Found? ==> FoundAt(r.at, buf, end, es, j, found) && Outcome(es, attrs, attrId) == Rewritten(es, j, found, attrId)
  {
    var at, next;
    j, at, next := ScanNearest(Element, buf, FIXED, end, es, VENDOR_SPECIFIC, P2P_OUI);
    StopAnswers(r, buf, end, es, j, at, next);
    found := [];
    if r.Found? {
      found := Located(buf, end, es, attrs, j, at, next);
      StopIsFound(buf, end, es, j, at, next, found);
      OutcomeAt(es, attrs, attrId, j, found);
    }
  }

  lemma StopIsFound(buf: seq<byte>, end: nat, es: seq<Item>, j: nat, at: nat, next: nat, found: seq<Item>)
    requires Stops(Element, buf, FIXED, end, es, VENDOR_SPECIFIC, P2P_OUI, j, at, next) && j < |es|
    requires at + 2 <= |buf| && P2pAt(buf, at, next - at, found) && next == at + Element.BodyLength(buf, at) + 2
    ensures FoundAt(at, buf, end, es, j, found)
  {
  }

  lemma StopAnswers(r: Search, buf: seq<byte>, end: nat, es: seq<Item>, j: nat, at: nat, next: nat)
    requires Stops(Element, buf, FIXED, end, es, VENDOR_SPECIFIC, P2P_OUI, j, at, next)
    requires Finds(r, Element, buf, FIXED, end, VENDOR_SPECIFIC, P2P_OUI)
    ensures if r == Absent then FirstP2p(es) == |es| else j < |es| && r == Found(at)
  {
    assert Ask(0);
    CarriersPass(es, j, buf[end..]);
  }

  lemma LooksCarries(buf: seq<byte>, at: nat, it: Item)
    requires LooksP2p(buf, at) && 4 <= |it.body| && at + 2 + |it.body| <= |buf| && buf[at] == it.id
    requires buf[at + 2..at + 2 + |it.body|] == it.body
    ensures Carries(it, VENDOR_SPECIFIC, P2P_OUI)
  {
    assert Look(0);
    assert it.body[..4] == buf[at + 2..at + ATTRS];
  }

  lemma FirstOrShadow(buf: seq<byte>, end: nat, es: seq<Item>, j: nat, at: nat, next: nat)
    requires Stops(Element, buf, FIXED, end, es, VENDOR_SPECIFIC, P2P_OUI, j, at, next) && j < |es|
    requires LooksP2p(buf, at)
    ensures if Carries(es[j], VENDOR_SPECIFIC, P2P_OUI) then j == FirstP2p(es) && !Shadowed(es)
            else FirstP2p(es) == |es| || Shadowed(es)
  {
    assert Ask(0);
    var k := FirstP2p(es);
    CarriersPass(es, j, buf[end..]);
    if k < |es| {
      PassesInFront(es, k, buf[end..]);
    }
  }

  /** The octets in front of a P2P element are enough to tell, whatever stands behind the list. */
  lemma PassesInFront(es: seq<Item>, k: nat, behind: seq<byte>)
    requires k < |es| && |es[k].body| >= 4
    ensures forall i :: 0 <= i < k ==>
              (Passes(Element, es, i, VENDOR_SPECIFIC, P2P_OUI, behind) <==> Passes(Element, es, i, VENDOR_SPECIFIC, P2P_OUI, []))
  {
    forall i | 0 <= i < k
      ensures Passes(Element, es, i, VENDOR_SPECIFIC, P2P_OUI, behind) <==> Passes(Element, es, i, VENDOR_SPECIFIC, P2P_OUI, [])
    {
      EncodeLonger(Element, es[i + 1..], k - i - 1);
      PassesAlone(Element, es, i, VENDOR_SPECIFIC, P2P_OUI, behind);
    }
  }

  lemma CarriersPass(es: seq<Item>, j: nat, behind: seq<byte>)
    requires j <= |es| && NonePasses(Element, es, j, VENDOR_SPECIFIC, P2P_OUI, behind)
    ensures FirstP2p(es) >= j
  {
    var k := FirstP2p(es);
    if k < j {
      CarriesOrStump(Element, es, k, VENDOR_SPECIFIC, P2P_OUI, behind);
    }
  }

  /** `newLen` octets of `z` end with the elements `out`; up to `end` the octets set free are zero, and
      nothing else has changed. */
  ghost predicate Reduced(z: seq<byte>, buf: seq<byte>, newLen: nat, end: nat, out: seq<Item>) {
    && newLen <= end && Lies(Element, z, FIXED, newLen, out) && Outside(z, buf, FIXED, end)
    && z[newLen..end] == seq(end - newLen, _ => 0)
  }

  /** The octets from `nextIeOri` up to `end` have moved to `nextIe`, and those set free are zero; folded
      like `At`. */
  ghost predicate Slid(z: seq<byte>, m: seq<byte>, nextIe: nat, nextIeOri: nat, end: nat) {
    && nextIe <= nextIeOri <= end <= |m| == |z|
    && forall k {:trigger Look(k)} :: Look(k) ==>
         && z[..nextIe] == m[..nextIe] && z[end..] == m[end..]
         && z[nextIe..nextIe + (end - nextIeOri)] == m[nextIeOri..end]
         && z[nextIe + (end - nextIeOri)..end] == seq(nextIeOri - nextIe, _ => 0)
  }

  /** Closes the gap behind a shortened element, and clears the octets set free. */
  method CloseElement(buf: array<byte>, nextIe: nat, nextIeOri: nat, remainLen: nat)
    requires nextIe <= nextIeOri && nextIeOri + remainLen <= buf.Length
    modifies buf
    ensures Slid(buf[..], old(buf[..]), nextIe, nextIeOri, nextIeOri + remainLen)
  {
    ghost var b := buf[..];
    Move(buf, nextIe, nextIeOri, remainLen);
    Zero(buf, nextIe + remainLen, nextIeOri - nextIe);
    SlidInSteps(b, nextIe, nextIeOri, remainLen);
  }

  lemma SlidInSteps(b: seq<byte>, nextIe: nat, nextIeOri: nat, n: nat)
    requires nextIe <= nextIeOri && nextIeOri + n <= |b|
    ensures var m := Memory.Moved(b, nextIe, nextIeOri, n);
            var z := Written(m, nextIe + n, seq(nextIeOri - nextIe, _ => 0));
            Slid(z, b, nextIe, nextIeOri, nextIeOri + n)
  {
    var m := Memory.Moved(b, nextIe, nextIeOri, n);
    var z := Written(m, nextIe + n, seq(nextIeOri - nextIe, _ => 0));
    assert m[nextIe..nextIe + n] == b[nextIeOri..nextIeOri + n];
    assert z[nextIe..nextIe + n] == m[nextIe..nextIe + n];
    assert z[..nextIe] == m[..nextIe] == b[..nextIe];
  }

  /** The list after the gap behind the shortened element is closed. */
  lemma ElementShortened(z: seq<byte>, m: seq<byte>, buf: seq<byte>, at: nat, nextIe: nat, next: nat, end: nat, newLen: nat,
                         a: seq<Item>, kept: seq<Item>, b: seq<Item>)
    requires Lies(Element, buf, FIXED, at, a) && Lies(Element, buf, next, end, b)
    requires at + ATTRS <= nextIe <= next && P2pAt(m, at, nextIe - at, kept)
    requires Outside(m, buf, at + 1, next) && Slid(z, m, nextIe, next, end) && newLen - nextIe == end - next
    ensures Reduced(z, buf, newLen, end, a + [P2pElement(kept)] + b)
  {
    SlidOutside(z, m, buf, at, nextIe, next, end);
    P2pElementAt(m, at, nextIe, kept);
    LiesSame(Element, m, z, at, nextIe, [P2pElement(kept)]);
    LiesSpliced(Element, z, buf, FIXED, at, next, end, nextIe, a, [P2pElement(kept)], b);
  }

  /** What of the original octets is where. */
  lemma SlidOutside(z: seq<byte>, m: seq<byte>, buf: seq<byte>, at: nat, nextIe: nat, next: nat, end: nat)
    requires FIXED <= at < nextIe && Outside(m, buf, at + 1, next) && Slid(z, m, nextIe, next, end)
    ensures z[at..nextIe] == m[at..nextIe] && z[..at] == buf[..at]
    ensures z[nextIe..nextIe + (end - next)] == buf[next..end]
    ensures Outside(z, buf, FIXED, end) && z[nextIe + (end - next)..end] == seq(next - nextIe, _ => 0)
  {
    assert Look(0);
    OutsideParts(m, buf, at + 1, next);
    OutsideParts(z, buf, FIXED, end);
    assert z[at..nextIe] == z[..nextIe][at..] && m[at..nextIe] == m[..nextIe][at..];
    assert z[..at] == z[..nextIe][..at] && m[..at] == m[..nextIe][..at];
    assert m[..at] == m[..at + 1][..at] && buf[..at] == buf[..at + 1][..at];
    assert m[next..end] == m[next..][..end - next] && buf[next..end] == buf[next..][..end - next];
    assert z[..FIXED] == z[..at][..FIXED] && buf[..FIXED] == buf[..at][..FIXED];
    assert z[end..] == m[end..] == m[next..][end - next..] && buf[end..] == buf[next..][end - next..];
  }

  lemma P2pElementAt(m: seq<byte>, at: nat, nextIe: nat, kept: seq<Item>)
    requires at + ATTRS <= nextIe && P2pAt(m, at, nextIe - at, kept)
    ensures Lies(Element, m, at, nextIe, [P2pElement(kept)])
  {
    BodyAt(m, at, nextIe, kept);
    LooksAre(m, at);
    var it := P2pElement(kept);
    AtParts(m, at, Element.Header(it.id, |it.body|), it.body);
    LiesAt(Element, m, at, it);
  }

  lemma BodyAt(m: seq<byte>, at: nat, nextIe: nat, kept: seq<Item>)
    requires at + ATTRS <= nextIe && P2pAt(m, at, nextIe - at, kept)
    ensures At(m, at + 2, P2pElement(kept).body) && nextIe == at + 2 + |P2pElement(kept).body|
  {
    LiesEncoded(Attribute, m, at + ATTRS, nextIe, kept);
    LooksAre(m, at);
    AtParts(m, at + 2, P2P_OUI, Encode(Attribute, kept));
  }

  lemma LooksAre(m: seq<byte>, at: nat)
    requires LooksP2p(m, at)
    ensures At(m, at + 2, P2P_OUI) && m[at] == VENDOR_SPECIFIC && m[at..at + 2] == [VENDOR_SPECIFIC, m[at + 1]]
  {
    assert Look(0);
  }

  /** What `rtw_WLAN_BSSID_EX_remove_p2p_attr` does once it has found element `j`. */
  method RemoveFrom(bss: Bss, p2pIe: nat, ielenOri: nat, attrId: byte, ghost es: seq<Item>, ghost j: nat, ghost found: seq<Item>)
    requires FIXED <= p2pIe && p2pIe + 2 <= bss.IEs.Length && ielenOri == Element.BodyLength(bss.IEs[..], p2pIe) + 2
    requires Lies(Element, bss.IEs[..], FIXED, bss.IELength, es)
    requires FoundAt(p2pIe, bss.IEs[..], bss.IELength, es, j, found)
    modifies bss, bss.IEs
    ensures Reduced(bss.IEs[..], old(bss.IEs[..]), bss.IELength, old(bss.IELength), Rewritten(es, j, found, attrId))
  {
    ghost var b, end := bss.IEs[..], bss.IELength;
    var nextIeOri := p2pIe + ielenOri;
    FoundParts(p2pIe, b, end, es, j, found, ielenOri, nextIeOri);
    var ielen := AttrRemove(bss.IEs, p2pIe, ielenOri, attrId, found);
    ghost var m := bss.IEs[..];
    if ielen != ielenOri {
      ghost var kept := Without(found, attrId, []);
      Shorten(bss, p2pIe, p2pIe + ielen, nextIeOri, b, es[..j], kept, es[j + 1..]);
    } else {
      NothingReduced(b, end, es);
    }
  }

  /** What stands behind the element moves up to its new end. */
  method Shorten(bss: Bss, ghost at: nat, nextIe: nat, nextIeOri: nat, ghost b: seq<byte>,
                 ghost front: seq<Item>, ghost kept: seq<Item>, ghost back: seq<Item>)
    requires at + ATTRS <= nextIe <= nextIeOri <= bss.IELength <= bss.IEs.Length
    requires Lies(Element, b, FIXED, at, front) && Lies(Element, b, nextIeOri, bss.IELength, back)
    requires P2pAt(bss.IEs[..], at, nextIe - at, kept) && Outside(bss.IEs[..], b, at + 1, nextIeOri)
    modifies bss, bss.IEs
    ensures Reduced(bss.IEs[..], b, bss.IELength, old(bss.IELength), front + [P2pElement(kept)] + back)
  {
    ghost var m, end := bss.IEs[..], bss.IELength;
    var remainLen := bss.IELength - nextIeOri;
    CloseElement(bss.IEs, nextIe, nextIeOri, remainLen);
    bss.IELength := bss.IELength - (nextIeOri - nextIe);
    ElementShortened(bss.IEs[..], m, b, at, nextIe, nextIeOri, end, bss.IELength, front, kept, back);
  }

  lemma NothingReduced(buf: seq<byte>, end: nat, es: seq<Item>)
    requires Lies(Element, buf, FIXED, end, es)
    ensures Reduced(buf, buf, end, end, es)
  {
    OutsideParts(buf, buf, FIXED, end);
  }

  /** `rtw_WLAN_BSSID_EX_remove_p2p_attr` on complete elements `es`, the first P2P one of them holding the
      complete attributes `attrs`.  The search for the element looks up to six octets past the last one. */
  method RemoveP2pAttr(bss: Bss, attrId: byte, ghost es: seq<Item>, ghost attrs: seq<Item>)
    requires bss.IEs.Length == MAX_IE_SZ
    requires FIXED <= bss.IELength ==> bss.IELength + 6 <= MAX_IE_SZ && bss.Holds(es) && HasAttrs(es, attrs)
    modifies bss, bss.IEs
    ensures old(bss.IELength) < FIXED ==> bss.IELength == old(bss.IELength) && bss.IEs[..] == old(bss.IEs[..])
    ensures FIXED <= old(bss.IELength) ==> AllFit(Element, Outcome(es, attrs, attrId))
    ensures FIXED <= old(bss.IELength) ==>
              Reduced(bss.IEs[..], old(bss.IEs[..]), bss.IELength, old(bss.IELength), Outcome(es, attrs, attrId))
  {
    ghost var b, end := bss.IEs[..], bss.IELength;
    var r, ielenOri := GetP2pIe(bss.IEs, FIXED, bss.IELength - FIXED);
    ghost var j, found := 0, [];
    if FIXED <= end {
      j, found := Reached(r, b, end, es, attrs, attrId);
      OutcomeFits(es, attrs, attrId);
      OutsideParts(b, b, FIXED, end);
    }
    if r.Found? {
      RemoveFrom(bss, r.at, ielenOri, attrId, es, j, found);
    }
  }
}
