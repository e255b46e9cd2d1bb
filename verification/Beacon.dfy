/** Editing the beacon's elements in place: core/rtw_ap.c. */
module Beacon {
  import opened Bytes
  import opened Memory
  import opened Tlv
  import opened BssDescription
  import ElementEdit

  // ----- replacing octets and moving the remainder behind them

  /** `z` is `buf` with the octets in [`at`, `next`) replaced by `s` and those up to `end` moved behind it;
      folded like `At`. */
  ghost predicate Spliced(z: seq<byte>, buf: seq<byte>, at: nat, next: nat, end: nat, s: seq<byte>) {
    && at <= next <= end <= |buf| == |z| && at + |s| + (end - next) <= |buf|
    && forall k {:trigger Look(k)} :: Look(k) ==>
         z[..at] == buf[..at] && At(z, at, s) && z[at + |s|..at + |s| + (end - next)] == buf[next..end]
  }

  /** The tail of all three editors: the remainder is backed up, the new octets are written and the
      remainder is put behind them. */
  method Splice(bss: Bss, at: nat, next: nat, s: seq<byte>)
    requires at <= next <= bss.IELength <= bss.IEs.Length && at + |s| + (bss.IELength - next) <= bss.IEs.Length
    modifies bss, bss.IEs
    ensures Spliced(bss.IEs[..], old(bss.IEs[..]), at, next, old(bss.IELength), s)
    ensures bss.IELength == at + |s| + (old(bss.IELength) - next)
  {
    var backup := bss.IEs[next..bss.IELength];
    Write(bss.IEs, at, s);
    ghost var m := bss.IEs[..];
    Write(bss.IEs, at + |s|, backup);
    bss.IELength := at + |s| + |backup|;
    assert bss.IEs[..][at..at + |s|] == m[at..at + |s|] == s;
    assert bss.IEs[..][..at] == m[..at];
  }

  lemma SplicedLies(z: seq<byte>, buf: seq<byte>, at: nat, next: nat, end: nat, last: nat, s: seq<byte>,
                    a: seq<Item>, c: seq<Item>, b: seq<Item>)
    requires Spliced(z, buf, at, next, end, s) && s == Encode(Element, c) && last == at + |s| + (end - next)
    requires Lies(Element, buf, FIXED, at, a) && Lies(Element, buf, next, end, b)
    ensures Lies(Element, z, FIXED, last, a + c + b) && FIXED <= |buf| && z[..FIXED] == buf[..FIXED]
  {
    assert Look(0);
    AtSlice(z, at, s);
    LiesEncoded(Element, z, at, at + |s|, c);
    LiesSpliced(Element, z, buf, FIXED, at, next, end, at + |s|, a, c, b);
    assert z[..FIXED] == z[..at][..FIXED] && buf[..FIXED] == buf[..at][..FIXED];
  }

  /** The elements `c` take the place of the octets in [`at`, `next`). */
  method Replace(bss: Bss, at: nat, next: nat, s: seq<byte>, ghost a: seq<Item>, ghost c: seq<Item>, ghost b: seq<Item>)
    requires at <= next <= bss.IELength <= bss.IEs.Length && at + |s| + (bss.IELength - next) <= bss.IEs.Length
    requires s == Encode(Element, c) && AllFit(Element, a + c + b)
    requires Lies(Element, bss.IEs[..], FIXED, at, a) && Lies(Element, bss.IEs[..], next, bss.IELength, b)
    modifies bss, bss.IEs
    ensures bss.Holds(a + c + b) && bss.IEs[..FIXED] == old(bss.IEs[..FIXED])
  {
    ghost var buf, end := bss.IEs[..], bss.IELength;
    Splice(bss, at, next, s);
    SplicedLies(bss.IEs[..], buf, at, next, end, bss.IELength, s, a, c, b);
  }

  // ----- adding an element

  /** The elements with a smaller identifier come first. */
  function Slot(es: seq<Item>, index: byte): (k: nat)
    ensures k <= |es| && (forall i :: 0 <= i < k ==> es[i].id < index) && (k < |es| ==> es[k].id >= index)
  {
    if es == [] || es[0].id >= index then 0 else
      var k := Slot(es[1..], index);
      assert forall i :: 1 <= i <= |es[1..]| ==> es[i] == es[1..][i - 1];
      k + 1
  }

  lemma SlotIs(es: seq<Item>, index: byte, k: nat)
    requires Below(es, k, index) && (k < |es| ==> es[k].id >= index)
    ensures Slot(es, index) == k
  {
    var s := Slot(es, index);
  }

  predicate Matched(es: seq<Item>, index: byte) {
    Slot(es, index) < |es| && es[Slot(es, index)].id == index
  }

  /** The element that is replaced, or the one behind which the new one goes, has a body. */
  predicate Anchored(es: seq<Item>, index: byte) {
    var k := Slot(es, index);
    if Matched(es, index) then es[k].body != [] else k > 0 && es[k - 1].body != []
  }

  /** What adding is for: the element replaces the one with its identifier or goes to its place in the
      order of identifiers. */
  function Put(es: seq<Item>, index: byte, data: seq<byte>): seq<Item> {
    var k := Slot(es, index);
    es[..k] + [Item(index, data)] + es[if Matched(es, index) then k + 1 else k..]
  }

  function Added(es: seq<Item>, index: byte, data: seq<byte>): seq<Item> {
    if Anchored(es, index) then Put(es, index, data) else es
  }

  predicate Sorted(es: seq<Item>) {
    forall i, j :: 0 <= i < j < |es| ==> es[i].id <= es[j].id
  }

  /** Adding does what it is for exactly when there is something to anchor the element to, or an empty
      element is to replace an empty one. */
  lemma AddsIff(es: seq<Item>, index: byte, data: seq<byte>)
    ensures Added(es, index, data) == Put(es, index, data)
            <==> Anchored(es, index) || (Matched(es, index) && data == [])
  {
    var k := Slot(es, index);
    if !Anchored(es, index) {
      if Matched(es, index) {
        assert Put(es, index, data)[k] == Item(index, data);
        assert data == [] ==> es[k] == Item(index, data);
        assert es == es[..k] + [es[k]] + es[k + 1..];
      } else {
        assert |Put(es, index, data)| == |es| + 1;
      }
    }
  }

  lemma PutSorted(es: seq<Item>, index: byte, data: seq<byte>)
    requires Sorted(es)
    ensures Sorted(Put(es, index, data))
  {
    var k := Slot(es, index);
    var a, it, b := es[..k], Item(index, data), es[if Matched(es, index) then k + 1 else k..];
    SortedJoin(a, [it]);
    SortedJoin(a + [it], b);
  }

  lemma SortedJoin(a: seq<Item>, b: seq<Item>)
    requires Sorted(a) && Sorted(b)
    requires forall i, j :: 0 <= i < |a| && 0 <= j < |b| ==> a[i].id <= b[j].id
    ensures Sorted(a + b)
  {
  }

  /** The new element is the first of its identifier. */
  lemma PutIsFirst(es: seq<Item>, index: byte, data: seq<byte>)
    ensures FirstMatch(Put(es, index, data), index, []) == Slot(es, index)
    ensures Put(es, index, data)[Slot(es, index)] == Item(index, data)
  {
    var k, r := Slot(es, index), Put(es, index, data);
    assert r[k] == Item(index, data) && forall i :: 0 <= i < k ==> r[i] == es[i];
    FirstIs(r, k, index, []);
  }

  /** No element with another identifier is touched. */
  lemma PutKeepsOthers(es: seq<Item>, index: byte, data: seq<byte>)
    ensures Without(Put(es, index, data), index, []) == Without(es, index, [])
  {
    var k, m := Slot(es, index), [Item(index, data)];
    assert Without(m, index, []) == [];
    if Matched(es, index) {
      OthersReplaced(es, k, m, index);
    } else {
      OthersInserted(es, k, m, index);
    }
  }

  lemma OthersReplaced(es: seq<Item>, k: nat, m: seq<Item>, id: byte)
    requires k < |es| && Carries(es[k], id, []) && Without(m, id, []) == []
    ensures Without(es[..k] + m + es[k + 1..], id, []) == Without(es, id, [])
  {
    assert es == es[..k] + [es[k]] + es[k + 1..];
    OthersAlike(es[..k], m, [es[k]], es[k + 1..], id);
  }

  lemma OthersInserted(es: seq<Item>, k: nat, m: seq<Item>, id: byte)
    requires k <= |es| && Without(m, id, []) == []
    ensures Without(es[..k] + m + es[k..], id, []) == Without(es, id, [])
  {
    assert es == es[..k] + [] + es[k..];
    OthersAlike(es[..k], m, [], es[k..], id);
  }

  lemma OthersAlike(a: seq<Item>, m: seq<Item>, n: seq<Item>, b: seq<Item>, id: byte)
    requires Without(m, id, []) == [] && Without(n, id, []) == []
    ensures Without(a + m + b, id, []) == Without(a + n + b, id, [])
  {
    OthersAround(a, m, b, id);
    OthersAround(a, n, b, id);
  }

  lemma OthersAround(a: seq<Item>, m: seq<Item>, b: seq<Item>, index: byte)
    requires Without(m, index, []) == []
    ensures Without(a + m + b, index, []) == Without(a, index, []) + Without(b, index, [])
  {
    WithoutAppend(a + m, b, index, []);
    WithoutAppend(a, m, index, []);
  }

  // ----- removing it again

  /** `rtw_remove_bcn_ie` takes out the first element of that identifier, if it has a body. */
  function Removed(es: seq<Item>, index: byte): seq<Item> {
    var k := FirstMatch(es, index, []);
    if k < |es| && es[k].body != [] then es[..k] + es[k + 1..] else es
  }

  /** Of several elements with the identifier the first goes, and only if it has a body. */
  lemma RemovesFirst(a: seq<Item>, it: Item, b: seq<Item>)
    requires NoneCarries(a, it.id, [])
    ensures Removed(a + [it] + b, it.id) == if it.body == [] then a + [it] + b else a + b
  {
    var es := a + [it] + b;
    assert es[|a|] == it && forall i :: 0 <= i < |a| ==> es[i] == a[i];
    FirstIs(es, |a|, it.id, []);
    assert es[..|a|] == a && es[|a| + 1..] == b;
  }

  /** An element that was absent is gone after adding and removing exactly when it was never added or has
      a body; then the list is the old one. */
  lemma RemoveUndoesAddIff(es: seq<Item>, index: byte, data: seq<byte>)
    requires NoneCarries(es, index, []) && Sorted(es)
    ensures Removed(Added(es, index, data), index) == es <==> !Anchored(es, index) || data != []
  {
    var k := Slot(es, index);
    assert Matched(es, index) ==> Carries(es[k], index, []);
    PutIsFirst(es, index, data);
    var r := Put(es, index, data);
    assert es == es[..k] + es[k..];
    assert r[..k] == es[..k] && r[k + 1..] == es[k..];
    if !Anchored(es, index) {
      var f := FirstMatch(es, index, []);
      assert f == |es|;
    }
  }

  /** Two descriptions with the same fixed part and the same elements are the same octets. */
  lemma SameOctets(buf: seq<byte>, end: nat, z: seq<byte>, newEnd: nat, es: seq<Item>)
    requires Lies(Element, buf, FIXED, end, es) && Lies(Element, z, FIXED, newEnd, es) && buf[..FIXED] == z[..FIXED]
    ensures newEnd == end && z[..newEnd] == buf[..end]
  {
    LiesEncoded(Element, buf, FIXED, end, es);
    LiesEncoded(Element, z, FIXED, newEnd, es);
    assert z[..newEnd] == z[..FIXED] + z[FIXED..newEnd] && buf[..end] == buf[..FIXED] + buf[FIXED..end];
  }

  // ----- the methods

  /** The cursor stands at `i`, in front of element `k`. */
  ghost predicate Cursor(buf: seq<byte>, i: nat, end: nat, es: seq<Item>, k: nat) {
    k <= |es| && Lies(Element, buf, FIXED, i, es[..k]) && Lies(Element, buf, i, end, es[k..])
  }

  lemma CursorStarts(buf: seq<byte>, end: nat, es: seq<Item>)
    requires Lies(Element, buf, FIXED, end, es)
    ensures Cursor(buf, FIXED, end, es, 0)
  {
    LiesNothing(Element, buf, FIXED, FIXED);
    assert es[0..] == es;
  }

  lemma CursorEnds(buf: seq<byte>, end: nat, es: seq<Item>, k: nat)
    requires Cursor(buf, end, end, es, k)
    ensures k == |es|
  {
    LiesEncoded(Element, buf, end, end, es[k..]);
    EncodesSomething(es[k..]);
  }

  lemma EncodesSomething(items: seq<Item>)
    ensures Encode(Element, items) == [] <==> items == []
  {
    if items != [] {
      EncodeLonger(Element, items, 0);
    }
  }

  lemma CursorMoves(buf: seq<byte>, i: nat, end: nat, es: seq<Item>, k: nat)
    requires Cursor(buf, i, end, es, k) && i < end && AllFit(Element, es)
    ensures k < |es| && i + 1 < |buf| && buf[i] == es[k].id && buf[i + 1] == |es[k].body|
    ensures Cursor(buf, i + |es[k].body| + 2, end, es, k + 1)
  {
    if k == |es| {
      LiesNothing(Element, buf, i, end);
    }
    assert es[k..] == [es[k]] + es[k + 1..];
    var next := LiesSplit(Element, buf, i, end, [es[k]], es[k + 1..]);
    LiesOne(Element, buf, i, next, es[k]);
    LiesJoin(Element, buf, FIXED, i, next, es[..k], [es[k]]);
    assert es[..k] + [es[k]] == es[..k + 1];
  }

  /** The first `k` elements have smaller identifiers. */
  predicate Below(es: seq<Item>, k: nat, index: byte) {
    k <= |es| && forall x :: 0 <= x < k ==> es[x].id < index
  }

  lemma BelowNext(es: seq<Item>, k: nat, index: byte)
    requires k < |es| && Below(es, k, index) && es[k].id < index
    ensures Below(es, k + 1, index)
  {
  }

  /** With the cursor at `i` in front of element `k`, `p` and `ielen` tell of the element in front of it. */
  predicate Previous(es: seq<Item>, k: nat, i: nat, p: Search, ielen: nat)
    requires k <= |es|
  {
    if k == 0 then p == Absent else p.Found? && p.at + ielen + 2 == i && ielen == |es[k - 1].body|
  }

  /** The search loop of `rtw_add_bcn_ie`: the match or the last element in front of the slot, and where
      the cursor stopped. */
  method FindSlot(bss: Bss, index: byte, ghost es: seq<Item>) returns (p: Search, ielen: nat, bmatch: bool, ghost i: nat)
    requires bss.Holds(es)
    ensures Cursor(bss.IEs[..], i, bss.IELength, es, Slot(es, index)) && bmatch == Matched(es, index)
    ensures if bmatch then p == Found(i) && ielen == |es[Slot(es, index)].body| else Previous(es, Slot(es, index), i, p, ielen)
  {
    ghost var b, end := bss.IEs[..], bss.IELength;
    p, ielen, bmatch := Absent, 0, false;
    var c := FIXED;
    ghost var k := 0;
    CursorStarts(b, end, es);
    while c < bss.IELength
      invariant Cursor(b, c, end, es, k) && Below(es, k, index) && Previous(es, k, c, p, ielen)
      decreases end - c
    {
      CursorMoves(b, c, end, es, k);
      if bss.IEs[c] > index {
        SlotIs(es, index, k);
        i := c;
        return;
      } else if bss.IEs[c] == index {
        SlotIs(es, index, k);
        i := c;
        return Found(c), bss.IEs[c + 1] as int, true, c;
      }
      BelowNext(es, k, index);
      p := Found(c);
      ielen := bss.IEs[c + 1];
      c := c + (bss.IEs[c + 1] as int + 2);
      k := k + 1;
    }
    CursorEnds(b, end, es, k);
    SlotIs(es, index, k);
    i := c;
  }

  lemma ThreeParts(a: seq<Item>, c: seq<Item>, b: seq<Item>)
    ensures |Encode(Element, a + c + b)| == |Encode(Element, a)| + |Encode(Element, c)| + |Encode(Element, b)|
  {
    EncodeAppend(Element, a + c, b);
    EncodeAppend(Element, a, c);
  }

  /** Where the new element goes, what stands behind it, and that there is room. */
  lemma AddRoom(buf: seq<byte>, end: nat, es: seq<Item>, index: byte, data: seq<byte>, i: nat) returns (next: nat, rest: seq<Item>)
    requires AllFit(Element, es) && Cursor(buf, i, end, es, Slot(es, index)) && Anchored(es, index) && |data| < 256
    requires FIXED + |Encode(Element, Added(es, index, data))| <= |buf|
    ensures next == if Matched(es, index) then i + |es[Slot(es, index)].body| + 2 else i
    ensures i <= next && Lies(Element, buf, FIXED, i, es[..Slot(es, index)]) && Lies(Element, buf, next, end, rest)
    ensures i + 2 + |data| + (end - next) <= |buf|
    ensures Added(es, index, data) == es[..Slot(es, index)] + [Item(index, data)] + rest
  {
    var k, c := Slot(es, index), [Item(index, data)];
    next, rest := AddRest(buf, end, es, index, i);
    EncodeOne(Element, Item(index, data));
    RoomFor(buf, i, next, end, es[..k], c, rest);
  }

  /** What stays behind the new element. */
  lemma AddRest(buf: seq<byte>, end: nat, es: seq<Item>, index: byte, i: nat) returns (next: nat, rest: seq<Item>)
    requires AllFit(Element, es) && Cursor(buf, i, end, es, Slot(es, index))
    ensures next == if Matched(es, index) then i + |es[Slot(es, index)].body| + 2 else i
    ensures Lies(Element, buf, next, end, rest) && rest == es[if Matched(es, index) then Slot(es, index) + 1 else Slot(es, index)..]
  {
    var k := Slot(es, index);
    next, rest := i, es[k..];
    if Matched(es, index) {
      if i == end {
        CursorEnds(buf, end, es, k);
      }
      CursorMoves(buf, i, end, es, k);
      next, rest := i + |es[k].body| + 2, es[k + 1..];
    }
  }

  lemma RoomFor(buf: seq<byte>, i: nat, next: nat, end: nat, a: seq<Item>, c: seq<Item>, b: seq<Item>)
    requires Lies(Element, buf, FIXED, i, a) && Lies(Element, buf, next, end, b)
    ensures FIXED + |Encode(Element, a + c + b)| == i + |Encode(Element, c)| + (end - next)
  {
    EncodedLength(Element, buf, FIXED, i, a);
    EncodedLength(Element, buf, next, end, b);
    ThreeParts(a, c, b);
  }

  lemma AddedFits(es: seq<Item>, index: byte, data: seq<byte>)
    requires AllFit(Element, es) && |data| < 256
    ensures AllFit(Element, Added(es, index, data))
  {
  }

  /** `rtw_add_bcn_ie` */
  method AddBcnIe(bss: Bss, index: byte, data: seq<byte>, ghost es: seq<Item>)
    requires |data| < 256 && bss.Holds(es)
    requires FIXED + |Encode(Element, Added(es, index, data))| <= bss.IEs.Length
    modifies bss, bss.IEs
    ensures bss.Holds(Added(es, index, data)) && bss.IEs[..FIXED] == old(bss.IEs[..FIXED])
  {
    ghost var b, end := bss.IEs[..], bss.IELength;
    var p, ielen, bmatch, i := FindSlot(bss, index, es);
    AddedFits(es, index, data);
    if p.Found? && ielen > 0 {
      ielen := ielen + 2;
      var next := p.at + ielen;
      var dst := if bmatch then p.at else p.at + ielen;
      ghost var next', rest := AddRoom(b, end, es, index, data, i);
      var s := [index, |data|] + data;
      PrintedElement(index, data);
      ghost var a, c := es[..Slot(es, index)], [Item(index, data)];
      assert next == next' && a + c + rest == Added(es, index, data);
      Replace(bss, dst, next, s, a, c, rest);
    }
  }

  lemma PrintedElement(index: byte, data: seq<byte>)
    requires |data| < 256
    ensures [index, |data|] + data == Encode(Element, [Item(index, data)])
  {
    EncodeOne(Element, Item(index, data));
  }

  lemma RemoveParts(buf: seq<byte>, end: nat, es: seq<Item>, at: nat, k: nat, index: byte) returns (next: nat)
    requires AllFit(Element, es) && Lies(Element, buf, FIXED, end, es)
    requires k == FirstMatch(es, index, []) < |es| && Scan(Element, buf, FIXED, end, index, []) == Found(at)
    ensures at + 2 <= |buf| && next == at + Element.BodyLength(buf, at) + 2 && Element.BodyLength(buf, at) == |es[k].body|
    ensures Lies(Element, buf, FIXED, at, es[..k]) && Lies(Element, buf, next, end, es[k + 1..])
  {
    var k', at';
    k', at', next := FindMatch(Element, buf, FIXED, end, es, index);
  }

  /** The first of an absent identifier is not found. */
  lemma NotThere(buf: seq<byte>, end: nat, es: seq<Item>, index: byte)
    requires AllFit(Element, es) && Lies(Element, buf, FIXED, end, es)
    ensures FirstMatch(es, index, []) == |es| <==> Scan(Element, buf, FIXED, end, index, []) == Absent
  {
    var k, at, next := FindMatch(Element, buf, FIXED, end, es, index);
  }

  function LengthOfFirst(es: seq<Item>, id: byte): nat {
    var k := FirstMatch(es, id, []);
    if k < |es| then |es[k].body| + 2 else 0
  }

  /** `rtw_get_ie` on the elements of a description. */
  method LengthFound(bss: Bss, id: byte, ghost es: seq<Item>) returns (p: Search, len: nat)
    requires bss.Holds(es) && bss.IELength + 2 <= bss.IEs.Length
    ensures p == Scan(Element, bss.IEs[..], FIXED, bss.IELength, id, [])
    ensures p.Found? <==> FirstMatch(es, id, []) < |es|
    ensures p.Found? ==> len + 2 == LengthOfFirst(es, id)
  {
    p, len := ElementEdit.GetIe(bss.IEs, FIXED, id, bss.IELength - FIXED, 0);
    NotThere(bss.IEs[..], bss.IELength, es, id);
    if p.Found? {
      ghost var next := RemoveParts(bss.IEs[..], bss.IELength, es, p.at, FirstMatch(es, id, []), id);
    }
  }

  /** `rtw_remove_bcn_ie`; the search reads the length octet of whatever stands below the end. */
  method RemoveBcnIe(bss: Bss, index: byte, ghost es: seq<Item>)
    requires bss.Holds(es) && bss.IELength + 2 <= bss.IEs.Length
    modifies bss, bss.IEs
    ensures bss.Holds(Removed(es, index)) && bss.IEs[..FIXED] == old(bss.IEs[..FIXED])
  {
    var p, ielen := LengthFound(bss, index, es);
    if p.Found? {
      ghost var next, front, back := RemovePlace(bss.IEs[..], bss.IELength, es, p.at, index);
      if ielen > 0 {
        var remain := p.at + (ielen + 2);
        Replace(bss, p.at, remain, [], front, [], back);
      }
    }
  }

  /** What stands around the first element of that identifier. */
  lemma RemovePlace(buf: seq<byte>, end: nat, es: seq<Item>, at: nat, index: byte) returns (next: nat, a: seq<Item>, b: seq<Item>)
    requires AllFit(Element, es) && Lies(Element, buf, FIXED, end, es) && Scan(Element, buf, FIXED, end, index, []) == Found(at)
    requires FirstMatch(es, index, []) < |es|
    ensures next == at + LengthOfFirst(es, index)
    ensures Lies(Element, buf, FIXED, at, a) && Lies(Element, buf, next, end, b) && AllFit(Element, a + [] + b)
    ensures Removed(es, index) == if LengthOfFirst(es, index) > 2 then a + [] + b else es
  {
    var k := FirstMatch(es, index, []);
    next := RemoveParts(buf, end, es, at, k, index);
    a, b := es[..k], es[k + 1..];
    assert a + [] + b == a + b;
  }
}
