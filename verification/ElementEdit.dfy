/** Searching, printing and removing information elements in a flat buffer: core/rtw_ieee80211.c. */
module ElementEdit {
  import opened Bytes
  import opened Memory
  import opened Tlv
  import opened BssDescription

  /** `rtw_set_ie`: identifier and length are cut to one octet each, the copied body is not. */
  method SetIe(buf: array<byte>, at: nat, index: int, source: seq<byte>, frlen: nat) returns (next: nat, newLen: nat)
    requires at + 2 + |source| <= buf.Length
    modifies buf
    ensures buf[..] == Written(old(buf[..]), at, Printed(index, source))
    ensures next == at + |source| + 2 && newLen == frlen + |source| + 2
  {
    buf[at] := index % 256;
    buf[at + 1] := |source| % 256;
    if |source| > 0 {
      Write(buf, at + 2, source);
    }
    newLen := frlen + (|source| + 2);
    next := at + |source| + 2;
  }

  function Printed(index: int, source: seq<byte>): seq<byte> {
    [index % 256, |source| % 256] + source
  }

  /** What is printed is one element exactly when the body fits the one-octet length. */
  lemma PrintsElementIff(index: int, source: seq<byte>)
    ensures (exists it :: Fits(Element, it) && Printed(index, source) == EncodeItem(Element, it)) <==> |source| < 256
    ensures |source| < 256 ==> Printed(index, source) == EncodeItem(Element, Item(index % 256, source))
  {
    if |source| < 256 {
      var it := Item(index % 256, source);
      assert Fits(Element, it) && Printed(index, source) == EncodeItem(Element, it);
    } else {
      forall it | Fits(Element, it) ensures Printed(index, source) != EncodeItem(Element, it) {
        assert |EncodeItem(Element, it)| < 258;
      }
    }
  }

  /** `rtw_get_ie` */
  method GetIe(buf: array<byte>, base: nat, index: byte, limit: int, lenIn: nat) returns (r: Search, len: nat)
    requires limit >= 1 ==> base + limit + 2 <= buf.Length
    ensures r == Scan(Element, buf[..], base, base + if limit < 1 then 0 else limit, index, [])
    ensures len == if limit < 1 then lenIn else if r.Found? then Element.BodyLength(buf[..], r.at) else 0
  {
    if limit < 1 {
      return Absent, lenIn;
    }
    var p := base;
    var i := 0;
    len := 0;
    while true
      invariant p == base + i && i < limit && len == 0
      invariant Scan(Element, buf[..], base, base + limit, index, []) == Scan(Element, buf[..], p, base + limit, index, [])
      decreases limit - i
    {
      if buf[p] == index {
        len := buf[p + 1];
        return Found(p), len;
      }
      var tmp: int := buf[p + 1] as int;
      p := p + (tmp + 2);
      i := i + (tmp + 2);
      if i >= limit {
        break;
      }
    }
    r := Absent;
  }

  /** The comparison of identifier and leading octets, `memcmp` included. */
  method Matches(buf: array<byte>, pos: nat, eid: byte, oui: seq<byte>) returns (b: bool)
    requires pos + 2 + |oui| <= buf.Length
    ensures b == Hit(Element, buf[..], pos, eid, oui)
  {
    assert buf[..][pos + 2..pos + 2 + |oui|] == buf[pos + 2..pos + 2 + |oui|];
    b := eid == buf[pos] && buf[pos + 2..pos + 2 + |oui|] == oui;
  }

  /** `rtw_get_ie_ex`; an absent OUI is an empty prefix. */
  method GetIeEx(buf: array<byte>, base: nat, inLen: nat, eid: byte, oui: seq<byte>) returns (r: Search, ielen: nat)
    requires base + inLen + 2 + |oui| <= buf.Length
    ensures Finds(r, Element, buf[..], base, base + inLen, eid, oui)
    ensures r.Found? ==> r.at + 2 <= buf.Length
    ensures ielen == if r.Found? then Element.BodyLength(buf[..], r.at) + 2 else 0
  {
    ghost var b, end := buf[..], base + inLen;
    ielen := 0;
    if inLen <= 0 {
      return Absent, 0;
    }
    var cnt := 0;
    while cnt < inLen
      invariant b == buf[..]
      invariant Scan(Element, b, base, end, eid, oui) == Scan(Element, b, base + cnt, end, eid, oui)
    {
      var p := base + cnt;
      ScanHere(Element, b, p, end, eid, oui);
      var same := Matches(buf, p, eid, oui);
      if same {
        return Found(p), (buf[p + 1] as int) + 2;
      }
      cnt := cnt + (buf[p + 1] as int) + 2;
    }
    r := Absent;
  }

  /** One round of the loop of `rtw_ies_remove_ie`. */
  method RemoveNext(ies: array<byte>, ghost offset: nat, start: nat, searchLen: nat, eid: byte, oui: seq<byte>,
                    ghost kept: seq<Item>, ghost todo: seq<Item>, ghost out: seq<Item>, ghost all: seq<Item>)
    returns (hit: bool, at: nat, cut: nat, ghost last: nat,
             ghost kept': seq<Item>, ghost todo': seq<Item>, ghost out': seq<Item>)
    requires start + searchLen + 2 + |oui| <= ies.Length && searchLen <= MAX_IE_SZ
    requires Round(Element, ies[..], offset, start, start + searchLen, kept, todo, out, all, eid, oui)
    modifies ies
    ensures Outside(ies[..], old(ies[..]), offset, start + searchLen)
    ensures hit ==> start <= at && at + cut <= start + searchLen && cut > 0 && last == start + searchLen - cut
    ensures hit ==> Round(Element, ies[..], offset, at, last, kept', todo', out', all, eid, oui)
    ensures hit ==> |kept'| + |todo'| < |kept| + |todo|
    ensures !hit ==> Lies(Element, ies[..], offset, start + searchLen, all) && all == kept + todo
  {
    hit, at, cut, last, kept', todo', out' := false, 0, 0, 0, [], [], [];
    ghost var b, end := ies[..], start + searchLen;
    assert Outside(b, b, offset, end);
    var target, targetLen := GetIeEx(ies, start, searchLen, eid, oui);
    if target == Absent || targetLen == 0 {
      RemovalEnds(Element, b, offset, start, end, kept, todo, out, all, eid, oui);
      return;
    }
    at, cut := target.at, targetLen;
    ghost var j, next := FoundItem(Element, b, start, end, todo, eid, oui, at);
    var remain := at + cut;
    var remainLen := searchLen - (remain - start);
    last := at + remainLen;
    CloseGap(ies, at, remain, remainLen);
    ghost var m := ies[..];
    kept', todo', out' := RemovalGoesOn(Element, m, b, offset, start, at, remain, remainLen, end, last, kept, todo, out, all, eid, oui);
    BehindKept(m, b, offset, last, end);
    hit := true;
  }

  lemma BehindKept(m: seq<byte>, b: seq<byte>, offset: nat, last: nat, end: nat)
    requires offset <= last <= end <= |b| && KeptBehind(m, b, last) && m[..offset] == b[..offset]
    ensures Outside(m, b, offset, end)
  {
    assert Look(0);
    assert m[end..] == m[last..][end - last..] && b[end..] == b[last..][end - last..];
    OutsideParts(m, b, offset, end);
  }

  /** Moves the remaining octets down, through a local buffer of MAX_IE_SZ octets. */
  method CloseGap(ies: array<byte>, at: nat, remain: nat, remainLen: nat)
    requires at <= remain && remain + remainLen <= ies.Length && remainLen <= MAX_IE_SZ
    modifies ies
    ensures Closed(ies[..], old(ies[..]), at, remain, remainLen)
    ensures KeptBehind(ies[..], old(ies[..]), at + remainLen)
  {
    var local := ies[remain..remain + remainLen];
    Write(ies, at, local);
  }

  /** `rtw_ies_remove_ie` on a buffer that holds the complete elements `es` from `offset` to `iesLen`, at
      most as many octets as its local buffer.  `Surviving` says what is left of them, in order; nothing in
      front of `offset` or behind the list changes. */
  method RemoveIe(ies: array<byte>, iesLen: nat, offset: nat, eid: byte, oui: seq<byte>, ghost es: seq<Item>)
    returns (ret: bool, newLen: nat)
    requires iesLen + 2 + |oui| <= ies.Length
    requires offset < iesLen ==> iesLen - offset <= MAX_IE_SZ && AllFit(Element, es) && Lies(Element, ies[..], offset, iesLen, es)
    modifies ies
    ensures iesLen <= offset ==> !ret && newLen == iesLen && ies[..] == old(ies[..])
    ensures offset < iesLen ==>
              && AllFit(Element, Surviving(Element, es, eid, oui, old(ies[iesLen..])))
              && Lies(Element, ies[..], offset, newLen, Surviving(Element, es, eid, oui, old(ies[iesLen..])))
              && ret == (Surviving(Element, es, eid, oui, old(ies[iesLen..])) != es)
              && Outside(ies[..], old(ies[..]), offset, iesLen)
  {
    ret := false;
    newLen := iesLen;
    if iesLen <= offset {
      return;
    }
    var start := offset;
    var searchLen: nat := iesLen - offset;
    ghost var b := ies[..];
    ghost var all := Surviving(Element, es, eid, oui, ies[iesLen..]);
    ghost var kept, todo, out: seq<Item> := [], es, all;
    assert b[iesLen..] == ies[iesLen..] && Outside(b, b, offset, iesLen);
    RemovalBegins(Element, b, offset, iesLen, es, eid, oui);
    while true
      invariant offset <= start && start + searchLen == newLen <= iesLen && searchLen <= MAX_IE_SZ
      invariant Round(Element, ies[..], offset, start, newLen, kept, todo, out, all, eid, oui)
      invariant Outside(ies[..], b, offset, iesLen)
      invariant if ret then |kept| + |todo| < |es| else kept + todo == es
      decreases searchLen
    {
      ghost var m := ies[..];
      var hit, at, cut, last, kept', todo', out' := RemoveNext(ies, offset, start, searchLen, eid, oui, kept, todo, out, all);
      OutsideStill(ies[..], m, b, offset, newLen, iesLen);
      if !hit {
        break;
      }
      searchLen := searchLen - cut - (at - start);
      newLen := newLen - cut;
      assert newLen == last;
      ret := true;
      start := at;
      kept, todo, out := kept', todo', out';
    }
  }

  /** A list with a stump that is completed: the octets of the vendor element and the header of the one behind it make up the OUI, so
      that an element of another vendor goes. */
  lemma StumpGoes(behind: seq<byte>)
    ensures var es := [Item(221, [0x50, 0x6F]), Item(0x9A, [0, 0, 0, 0, 0, 0, 0, 0, 0])];
            var oui := [0x50, 0x6F, 0x9A, 0x09];
            Without(es, 221, oui) == es && Surviving(Element, es, 221, oui, behind) == [es[1]]
  {
    var short, other := Item(221, [0x50, 0x6F]), Item(0x9A, [0, 0, 0, 0, 0, 0, 0, 0, 0]);
    var es, oui := [short, other], [0x50, 0x6F, 0x9A, 0x09];
    assert es[1..] == [other] && [other][1..] == [];
    EncodeOne(Element, other);
    assert short.body + Encode(Element, [other]) + behind == oui + (other.body + behind);
    assert Passes(Element, es, 0, 221, oui, behind);
  }
}
