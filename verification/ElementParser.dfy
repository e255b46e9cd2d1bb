/** `rtw_ieee802_11_parse_elems` of core/rtw_ieee80211.c: one pass over a buffer of information elements. */
module ElementParser {
  import opened Bytes
  import opened Memory
  import opened Tlv
  import ElementEdit

  const VENDOR_SPECIFIC: byte := 221
  const OUI_MICROSOFT: nat := 0x0050f2
  const OUI_BROADCOM: nat := 0x00904c

  /** The identifiers with a pair of fields of their own in `struct rtw_ieee802_11_elems`. */
  predicate IsKnown(id: byte) {
    id <= 6 || id == 16 || id == 33 || id == 36 || id == 42 || id == 45 || id == 48 || id == 50 ||
    id == 54 || id == 55 || id == 56 || id == 61 || id == 191 || id == 192 || id == 199
  }

  datatype Slot = Known(id: byte) | Wpa | Wme | WmeTspec | Wps | VendorHtCap

  datatype Option<T> = None | Some(value: T)

  /** A pointer to a body and its length. */
  datatype Span = Span(at: nat, len: nat)

  datatype ParseRes = ParseOK | ParseUnknown | ParseFailed

  /** `rtw_ieee802_11_parse_vendor_specific` */
  function VendorSlot(body: seq<byte>): Option<Slot> {
    if |body| < 4 then None
    else
      var oui := (body[0] as int) * 65536 + (body[1] as int) * 256 + body[2] as int;
      if oui == OUI_MICROSOFT then
        if body[3] == 1 then Some(Wpa)
        else if body[3] == 2 then
          if |body| < 5 then None
          else if body[4] == 0 || body[4] == 1 then Some(Wme)
          else if body[4] == 2 then Some(WmeTspec)
          else None
        else if body[3] == 4 then Some(Wps)
        else None
      else if oui == OUI_BROADCOM && body[3] == 0x33 then Some(VendorHtCap)
      else None
  }

  /** The vendor fields by the octets a body begins with. */
  lemma VendorSlotIff(body: seq<byte>)
    ensures VendorSlot(body) == Some(Wpa) <==> [0x00, 0x50, 0xF2, 1] <= body
    ensures VendorSlot(body) == Some(Wme) <==> [0x00, 0x50, 0xF2, 2, 0] <= body || [0x00, 0x50, 0xF2, 2, 1] <= body
    ensures VendorSlot(body) == Some(WmeTspec) <==> [0x00, 0x50, 0xF2, 2, 2] <= body
    ensures VendorSlot(body) == Some(Wps) <==> [0x00, 0x50, 0xF2, 4] <= body
    ensures VendorSlot(body) == Some(VendorHtCap) <==> [0x00, 0x90, 0x4C, 0x33] <= body
    ensures forall id :: VendorSlot(body) != Some(Known(id))
  {
  }

  /** The field an element is recorded in, if any. */
  function SlotOf(it: Item): Option<Slot> {
    if it.id == VENDOR_SPECIFIC then VendorSlot(it.body)
    else if IsKnown(it.id) then Some(Known(it.id))
    else None
  }

  /** Where each field points after the elements `es` at `pos` have been recorded in order. */
  function Recorded(es: seq<Item>, pos: nat): map<Slot, Span> {
    if es == [] then map[]
    else
      var n := |es| - 1;
      var before := Recorded(es[..n], pos);
      match SlotOf(es[n])
      case None => before
      case Some(slot) => before[slot := Span(pos + |Encode(Element, es[..n])| + 2, |es[n].body|)]
  }

  predicate SomeUnknown(es: seq<Item>) {
    exists i :: 0 <= i < |es| && SlotOf(es[i]) == None
  }

  ghost predicate Complete(buf: seq<byte>, start: nat, end: nat) {
    exists es :: AllFit(Element, es) && Lies(Element, buf, start, end, es)
  }

  /** The elements `es` between `start` and `pos` have been recorded in `elems`. */
  ghost predicate ReadTo(buf: seq<byte>, start: nat, pos: nat, es: seq<Item>, elems: map<Slot, Span>, unknown: nat) {
    && AllFit(Element, es) && Lies(Element, buf, start, pos, es)
    && elems == Recorded(es, start) && (unknown > 0 <==> SomeUnknown(es))
  }

  function Record(elems: map<Slot, Span>, slot: Option<Slot>, span: Span): map<Slot, Span> {
    match slot
    case None => elems
    case Some(s) => elems[s := span]
  }

  lemma RecordNext(buf: seq<byte>, start: nat, pos: nat, es: seq<Item>, elems: map<Slot, Span>, unknown: nat, it: Item, next: nat)
    requires ReadTo(buf, start, pos, es, elems, unknown) && next == pos + 2 + |it.body| <= |buf|
    requires Fits(Element, it) && buf[pos] == it.id && buf[pos + 1] == |it.body| && buf[pos + 2..next] == it.body
    ensures ReadTo(buf, start, next, es + [it], Record(elems, SlotOf(it), Span(pos + 2, |it.body|)),
                   if SlotOf(it) == None then unknown + 1 else unknown)
  {
    assert buf[pos..next] == Element.Header(it.id, |it.body|) + it.body;
    LiesHere(Element, buf, pos, it);
    LiesJoin(Element, buf, start, pos, next, es, [it]);
    LiesEncoded(Element, buf, start, pos, es);
    RecordedNext(es, it, start);
  }

  lemma RecordedNext(es: seq<Item>, it: Item, start: nat)
    ensures Recorded(es + [it], start) ==
            Record(Recorded(es, start), SlotOf(it), Span(start + |Encode(Element, es)| + 2, |it.body|))
    ensures SomeUnknown(es + [it]) <==> SomeUnknown(es) || SlotOf(it) == None
    ensures AllFit(Element, es) && Fits(Element, it) ==> AllFit(Element, es + [it])
  {
    assert (es + [it])[..|es|] == es && (es + [it])[|es|] == it;
    assert forall i :: 0 <= i < |es| ==> (es + [it])[i] == es[i];
  }

  method Parse(buf: array<byte>, start: nat, len: nat)
    returns (res: ParseRes, elems: map<Slot, Span>, ghost es: seq<Item>)
    requires start + len <= buf.Length
    ensures res == ParseFailed <==> !Complete(buf[..], start, start + len)
    ensures res != ParseFailed ==>
              && AllFit(Element, es) && Lies(Element, buf[..], start, start + len, es)
              && elems == Recorded(es, start)
              && res == if SomeUnknown(es) then ParseUnknown else ParseOK
  {
    ghost var b := buf[..];
    var left: nat := len;
    var pos: nat := start;
    var unknown: nat := 0;
    elems := map[];
    es := [];
    LiesNothing(Element, b, start, start);
    while left >= 2
      invariant pos + left == start + len
      invariant ReadTo(b, start, pos, es, elems, unknown)
    {
      var id, elen: nat := buf[pos], buf[pos + 1];
      if elen > left - 2 {
        Incomplete(b, start, pos, start + len, es);
        return ParseFailed, elems, es;
      }
      var next := pos + 2 + elen;
      var it := Item(id, buf[pos + 2..next]);
      assert b[pos + 2..next] == it.body;
      RecordNext(b, start, pos, es, elems, unknown, it, next);
      var slot := SlotOf(it);
      elems := Record(elems, slot, Span(pos + 2, elen));
      unknown := if slot == None then unknown + 1 else unknown;
      left := left - 2 - elen;
      pos := next;
      es := es + [it];
    }
    if left != 0 {
      Incomplete(b, start, pos, start + len, es);
      return ParseFailed, elems, es;
    }
    res := if unknown != 0 then ParseUnknown else ParseOK;
  }

  /** Any list of elements from `start` begins with the elements already read. */
  lemma {:induction false} StripRead(buf: seq<byte>, start: nat, pos: nat, end: nat, read: seq<Item>, es: seq<Item>)
    requires AllFit(Element, read) && Lies(Element, buf, start, pos, read) && pos <= end
    requires AllFit(Element, es) && Lies(Element, buf, start, end, es)
    ensures |read| <= |es| && es[..|read|] == read && Lies(Element, buf, pos, end, es[|read|..])
    decreases |read|
  {
    if read == [] {
      LiesNothing(Element, buf, start, pos);
      assert es[0..] == es;
    } else {
      assert read == [read[0]] + read[1..];
      var mid := LiesSplit(Element, buf, start, pos, [read[0]], read[1..]);
      LiesOne(Element, buf, start, mid, read[0]);
      if es == [] {
        LiesNothing(Element, buf, start, end);
      } else {
        assert es == [es[0]] + es[1..];
        var mid' := LiesSplit(Element, buf, start, end, [es[0]], es[1..]);
        LiesOne(Element, buf, start, mid', es[0]);
        StripRead(buf, mid, pos, end, read[1..], es[1..]);
        assert es[|read|..] == es[1..][|read| - 1..];
        assert es[..|read|] == [es[0]] + es[1..][..|read| - 1];
      }
    }
  }

  /** With an element that runs past the end, or a single octet left over, no list of complete elements
      fills the buffer. */
  lemma Incomplete(buf: seq<byte>, start: nat, pos: nat, end: nat, read: seq<Item>)
    requires AllFit(Element, read) && Lies(Element, buf, start, pos, read)
    requires pos < end <= |buf| && (pos + 1 == end || pos + 2 + buf[pos + 1] > end)
    ensures !Complete(buf, start, end)
  {
    forall es | AllFit(Element, es) && Lies(Element, buf, start, end, es) ensures false {
      StripRead(buf, start, pos, end, read, es);
      NoRest(buf, pos, end, es[|read|..]);
    }
  }

  lemma NoRest(buf: seq<byte>, pos: nat, end: nat, rest: seq<Item>)
    requires AllFit(Element, rest) && pos < end <= |buf| && (pos + 1 == end || pos + 2 + buf[pos + 1] > end)
    ensures !Lies(Element, buf, pos, end, rest)
  {
    if Lies(Element, buf, pos, end, rest) {
      if rest == [] {
        LiesNothing(Element, buf, pos, end);
      } else {
        assert rest == [rest[0]] + rest[1..];
        var mid := LiesSplit(Element, buf, pos, end, [rest[0]], rest[1..]);
        LiesOne(Element, buf, pos, mid, rest[0]);
      }
      assert false;
    }
  }

  // ----- what a caller can rely on

  /** `k` is the last element with identifier `id`. */
  predicate IsLast(es: seq<Item>, id: byte, k: nat) {
    k < |es| && es[k].id == id && forall i :: k < i < |es| ==> es[i].id != id
  }

  predicate IsFirst(es: seq<Item>, id: byte, k: nat) {
    k < |es| && es[k].id == id && forall i :: 0 <= i < k ==> es[i].id != id
  }

  /** `k` is the last element for that field. */
  predicate IsLastFor(es: seq<Item>, slot: Slot, k: nat) {
    k < |es| && SlotOf(es[k]) == Some(slot) && forall i :: k < i < |es| ==> SlotOf(es[i]) != Some(slot)
  }

  /** Every field, those for vendor elements included, reports the last element for it. */
  lemma {:induction false} ReportsLastFor(es: seq<Item>, start: nat, slot: Slot, k: nat)
    requires IsLastFor(es, slot, k)
    ensures slot in Recorded(es, start)
    ensures Recorded(es, start)[slot] == Span(start + |Encode(Element, es[..k])| + 2, |es[k].body|)
  {
    var n := |es| - 1;
    if k < n {
      assert SlotOf(es[n]) != Some(slot);
      assert es[..n][..k] == es[..k];
      ReportsLastFor(es[..n], start, slot, k);
    }
  }

  /** For an identifier with a field of its own the parser reports the last element that carries it. */
  lemma ReportsLast(es: seq<Item>, start: nat, id: byte, k: nat)
    requires IsKnown(id) && IsLast(es, id, k)
    ensures Known(id) in Recorded(es, start)
    ensures Recorded(es, start)[Known(id)] == Span(start + |Encode(Element, es[..k])| + 2, |es[k].body|)
  {
    forall i | k < i < |es| ensures SlotOf(es[i]) != Some(Known(id)) {
      VendorSlotIff(es[i].body);
    }
    ReportsLastFor(es, start, Known(id), k);
  }

  /** Nothing is reported for one that does not occur. */
  lemma {:induction false} ReportsNothing(es: seq<Item>, start: nat, id: byte)
    requires IsKnown(id) && forall i :: 0 <= i < |es| ==> es[i].id != id
    ensures Known(id) !in Recorded(es, start)
  {
    if es != [] {
      ReportsNothing(es[..|es| - 1], start, id);
    }
  }

  lemma PrefixGrows(es: seq<Item>, i: nat, j: nat)
    requires i < j <= |es|
    ensures |Encode(Element, es[..i])| < |Encode(Element, es[..j])|
  {
    assert es[..j] == es[..i] + ([es[i]] + es[i + 1..j]);
    EncodeAppend(Element, es[..i], [es[i]] + es[i + 1..j]);
    EncodeAppend(Element, [es[i]], es[i + 1..j]);
    EncodeOne(Element, es[i]);
  }

  /** The search of `rtw_get_ie` reports the first. */
  lemma SearchReportsFirst(buf: seq<byte>, start: nat, end: nat, es: seq<Item>, id: byte, k: nat)
    requires AllFit(Element, es) && Lies(Element, buf, start, end, es) && end + 2 <= |buf| && IsFirst(es, id, k)
    ensures Scan(Element, buf, start, end, id, []) == Found(start + |Encode(Element, es[..k])|)
  {
    assert k == FirstMatch(es, id, []) by {
      var m := FirstMatch(es, id, []);
      assert m < k ==> Carries(es[m], id, []);
      assert k < m ==> !Carries(es[..m][k], id, []);
    }
    var k', at, next := FindMatch(Element, buf, start, end, es, id);
    LiesEncoded(Element, buf, start, at, es[..k]);
  }

  /** So the two agree on an identifier exactly when it occurs once. */
  lemma SearchAndParserAgreeIff(buf: seq<byte>, start: nat, end: nat, es: seq<Item>, id: byte, first: nat, last: nat)
    requires AllFit(Element, es) && Lies(Element, buf, start, end, es) && end + 2 <= |buf|
    requires IsKnown(id) && IsFirst(es, id, first) && IsLast(es, id, last)
    ensures Scan(Element, buf, start, end, id, []).Found? && Known(id) in Recorded(es, start)
    ensures Scan(Element, buf, start, end, id, []).at + 2 == Recorded(es, start)[Known(id)].at <==> first == last
  {
    SearchReportsFirst(buf, start, end, es, id, first);
    ReportsLast(es, start, id, last);
    if first < last {
      PrefixGrows(es, first, last);
    }
  }

  /** Printing one more element behind a list of elements gives a list of elements again. */
  lemma PrintedBehind(m: seq<byte>, buf: seq<byte>, start: nat, at: nat, es: seq<Item>, index: int, body: seq<byte>)
    requires AllFit(Element, es) && Lies(Element, buf, start, at, es) && |body| < 256
    requires at + 2 + |body| <= |buf| && m == Written(buf, at, ElementEdit.Printed(index, body))
    ensures Lies(Element, m, start, at + 2 + |body|, es + [Item(index % 256, body)])
    ensures AllFit(Element, es + [Item(index % 256, body)])
  {
    var it, next := Item(index % 256, body), at + 2 + |body|;
    ElementEdit.PrintsElementIff(index, body);
    assert m[start..at] == buf[start..at] && m[at..next] == EncodeItem(Element, it);
    LiesSame(Element, buf, m, start, at, es);
    LiesHere(Element, m, at, it);
    LiesJoin(Element, m, start, at, next, es, [it]);
  }

  /** One call of `rtw_set_ie`. */
  datatype Call = Call(index: int, body: seq<byte>)

  function Room(calls: seq<Call>): nat {
    if calls == [] then 0 else 2 + |calls[0].body| + Room(calls[1..])
  }

  /** The buffer after these calls, each at the place the one before returned. */
  function PrintedAll(buf: seq<byte>, at: nat, calls: seq<Call>): (m: seq<byte>)
    requires at + Room(calls) <= |buf|
    ensures |m| == |buf|
    decreases |calls|
  {
    if calls == [] then buf
    else
      var c := calls[0];
      PrintedAll(Written(buf, at, ElementEdit.Printed(c.index, c.body)), at + 2 + |c.body|, calls[1..])
  }

  function ItemsOf(calls: seq<Call>): (items: seq<Item>)
    ensures |items| == |calls|
  {
    if calls == [] then [] else [Item(calls[0].index % 256, calls[0].body)] + ItemsOf(calls[1..])
  }

  predicate BodiesFit(calls: seq<Call>) {
    forall i :: 0 <= i < |calls| ==> |calls[i].body| < 256
  }

  /** Whatever is printed with bodies of at most 255 octets parses, as the elements printed. */
  lemma PrintedParses(buf: seq<byte>, start: nat, calls: seq<Call>)
    requires start + Room(calls) <= |buf| && BodiesFit(calls)
    ensures var m, end := PrintedAll(buf, start, calls), start + Room(calls);
            Lies(Element, m, start, end, ItemsOf(calls)) && Complete(m, start, end)
  {
    LiesNothing(Element, buf, start, start);
    PrintedFrom(buf, start, start, [], calls);
    assert [] + ItemsOf(calls) == ItemsOf(calls);
  }

  lemma {:induction false} PrintedFrom(buf: seq<byte>, start: nat, at: nat, es: seq<Item>, calls: seq<Call>)
    requires at + Room(calls) <= |buf| && BodiesFit(calls)
    requires AllFit(Element, es) && Lies(Element, buf, start, at, es)
    ensures Lies(Element, PrintedAll(buf, at, calls), start, at + Room(calls), es + ItemsOf(calls))
    ensures AllFit(Element, es + ItemsOf(calls))
    decreases |calls|
  {
    if calls == [] {
      assert es + ItemsOf(calls) == es;
    } else {
      var c, it, rest := calls[0], Item(calls[0].index % 256, calls[0].body), calls[1..];
      var m := Written(buf, at, ElementEdit.Printed(c.index, c.body));
      PrintedBehind(m, buf, start, at, es, c.index, c.body);
      FewerBodies(calls);
      PrintedFrom(m, start, at + 2 + |c.body|, es + [it], rest);
      Regrouped(es, it, ItemsOf(rest));
    }
  }

  lemma FewerBodies(calls: seq<Call>)
    requires calls != [] && BodiesFit(calls)
    ensures BodiesFit(calls[1..]) && |calls[0].body| < 256
  {
  }

  lemma Regrouped(es: seq<Item>, it: Item, rest: seq<Item>)
    ensures es + [it] + rest == es + ([it] + rest)
  {
  }
}
