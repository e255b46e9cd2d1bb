/** Byte-level editing of PPPoE discovery frames in core/rtw_br_ext.c: the client's MAC address travels
    to the access concentrator and back inside a Relay-Session-Id tag (RFC 2516, section 5 and
    appendix A). */
module PppoeRelay {
  import opened Bytes

  const ETH_ALEN: nat := 6
  /** Offset of the length field and of the first tag, counted from the Ethernet header. */
  const LENGTH_AT: nat := 18
  const TAGS: nat := 20
  const TAG_HDR_LEN: nat := 4
  const RELAY_SID: nat := 0x0110
  const MAGIC_CODE: nat := 0x8186
  /** Magic code and client address in front of a relayed value. */
  const STAMP_LEN: nat := 8
  const TAG_BUF: nat := 40

  /** A socket buffer: `len` octets of frame at the front of `buf`, the rest is tailroom. */
  datatype Skb = Skb(buf: seq<byte>, len: nat) {
    predicate Valid() {
      TAGS <= len <= |buf|
    }

    function PayloadLength(): (n: nat)
      requires Valid()
      ensures n < 65536
    {
      ReadBe16(buf, LENGTH_AT)
    }

    function WithPayloadLength(n: nat): Skb
      requires Valid() && n < 65536
    {
      Skb(buf[LENGTH_AT := n / 256][LENGTH_AT + 1 := n % 256], len)
    }
  }

  datatype Search = Found(at: nat) | Absent | OutOfBounds

  /** `Fault`: the C code reads or writes outside the buffer it works on. */
  datatype Verdict = Done | Refused | Fault

  datatype Outcome = Outcome(verdict: Verdict, skb: Skb)

  // ----- the code's steps on values

  /** The first tag of type `kind` at or after `pos`, stepping by the tags' own lengths up to `end`. */
  function Find(buf: seq<byte>, pos: nat, end: nat, kind: nat): (r: Search)
    ensures r.Found? ==> pos <= r.at < end && r.at + TAG_HDR_LEN <= |buf|
    decreases |buf| - pos
  {
    if pos >= end then Absent
    else if pos + TAG_HDR_LEN > |buf| then OutOfBounds
    else if ReadBe16(buf, pos) == kind then Found(pos)
    else Find(buf, pos + TAG_HDR_LEN + ReadBe16(buf, pos + 2), end, kind)
  }

  /** `skb_pull_and_merge`: cuts `n` octets at `src`; the octets behind the new end stay as they were. */
  predicate CanPull(s: Skb, src: nat, n: nat) {
    src + n <= s.len && n <= s.len
  }

  function Pull(s: Skb, src: nat, n: nat): (r: Skb)
    requires s.Valid() && CanPull(s, src, n) && src >= TAGS
    ensures r.Valid() && |r.buf| == |s.buf|
  {
    Skb(s.buf[..src] + s.buf[src + n..s.len] + s.buf[s.len - n..], s.len - n)
  }

  /** The frame without `n` octets of payload at `src`. */
  function Cut(s: Skb, src: nat, n: nat): (r: Skb)
    requires s.Valid() && CanPull(s, src, n) && src >= TAGS
    ensures r.Valid() && |r.buf| == |s.buf| && r.len == s.len - n
  {
    Pull(s, src, n).WithPayloadLength((s.PayloadLength() - n) % 65536)
  }

  /** A two-octet field written with `htons(n)` and read back without `ntohs`. */
  function HostRead(bigEndian: bool, n: nat): nat
    requires n < 65536
  {
    if bigEndian then n else n % 256 * 256 + n / 256
  }

  /** The octets of a relay tag carrying `mac` and an earlier relay value. */
  function RelayTag(mac: seq<byte>, value: seq<byte>): (r: seq<byte>)
    requires |mac| == ETH_ALEN && |value| + STAMP_LEN < 65536
    ensures |r| == TAG_HDR_LEN + STAMP_LEN + |value|
  {
    Be16(RELAY_SID) + Be16(STAMP_LEN + |value|) + (Be16(MAGIC_CODE) + mac + value)
  }

  /** The frame with room for `tag` made in front of its payload, and `tag` copied there. */
  function Prepended(s: Skb, tag: seq<byte>): (r: Skb)
    requires s.Valid() && s.len + |tag| <= |s.buf| && TAGS + |tag| + s.PayloadLength() <= |s.buf|
    ensures r.Valid() && |r.buf| == |s.buf|
  {
    var length := s.PayloadLength();
    Skb(s.buf[..TAGS] + tag + s.buf[TAGS..TAGS + length] + s.buf[TAGS + |tag| + length..], s.len + |tag|)
  }

  /** `__nat25_add_pppoe_tag`: prepends a tag that the caller has built in a 40-octet buffer and whose
      length it takes to be `n`. */
  function AddTag(s: Skb, tag: seq<byte>, n: nat): (r: Outcome)
    requires s.Valid() && (n <= TAG_BUF ==> n == |tag|)
    ensures r.skb.Valid() && |r.skb.buf| == |s.buf|
  {
    var length := s.PayloadLength();
    if |s.buf| - s.len < n then Outcome(Refused, s)
    else if TAGS + n + length > |s.buf| || n > TAG_BUF then Outcome(Fault, s)
    else Outcome(Done, Prepended(s, tag).WithPayloadLength((length + n) % 65536))
  }

  /** Prepends the relay tag.  Its length field is in network order but is read in host order. */
  function AddRelay(s: Skb, value: seq<byte>, bigEndian: bool): (r: Outcome)
    requires s.Valid() && TAG_HDR_LEN + STAMP_LEN + |value| <= TAG_BUF
    ensures r.skb.Valid() && |r.skb.buf| == |s.buf|
  {
    AddTag(s, RelayTag(s.buf[ETH_ALEN..2 * ETH_ALEN], value), HostRead(bigEndian, STAMP_LEN + |value|) + TAG_HDR_LEN)
  }

  /** The discovery branch of `NAT25_INSERT` with relay tags switched on. */
  function Insert(s: Skb, bigEndian: bool): (r: Outcome)
    requires s.Valid()
    ensures r.skb.Valid() && |r.skb.buf| == |s.buf|
  {
    InsertAt(s, Find(s.buf, TAGS, TAGS + s.PayloadLength(), RELAY_SID), bigEndian)
  }

  /** INSERT once the search for an old relay tag has returned. */
  function InsertAt(s: Skb, earlier: Search, bigEndian: bool): (r: Outcome)
    requires s.Valid() && (earlier.Found? ==> TAGS <= earlier.at && earlier.at + TAG_HDR_LEN <= |s.buf|)
    ensures r.skb.Valid() && |r.skb.buf| == |s.buf|
  {
    match earlier
    case OutOfBounds => Outcome(Fault, s)
    case Absent => AddRelay(s, [], bigEndian)
    case Found(p) =>
      var n := ReadBe16(s.buf, p + 2);
      if n + TAG_HDR_LEN + STAMP_LEN > TAG_BUF then Outcome(Refused, s)
      else if p + TAG_HDR_LEN + n > |s.buf| then Outcome(Fault, s)
      else if !CanPull(s, p, TAG_HDR_LEN + n) then Outcome(Refused, s)
      else InsertOver(s, p, n, bigEndian)
  }

  /** The new tag takes up the old one's value. */
  function InsertOver(s: Skb, p: nat, n: nat, bigEndian: bool): (r: Outcome)
    requires s.Valid() && TAGS <= p && p + TAG_HDR_LEN + n <= |s.buf| && CanPull(s, p, TAG_HDR_LEN + n)
    requires TAG_HDR_LEN + STAMP_LEN + n <= TAG_BUF
    ensures r.skb.Valid() && |r.skb.buf| == |s.buf|
  {
    AddRelay(Cut(s, p, TAG_HDR_LEN + n), s.buf[p + TAG_HDR_LEN..p + TAG_HDR_LEN + n], bigEndian)
  }

  /** The discovery branch of `NAT25_LOOKUP` with relay tags switched on. */
  function Lookup(s: Skb): (r: Outcome)
    requires s.Valid()
    ensures r.skb.Valid() && |r.skb.buf| == |s.buf|
  {
    LookupAt(s, Find(s.buf, TAGS, TAGS + s.PayloadLength(), RELAY_SID))
  }

  function LookupAt(s: Skb, relay: Search): (r: Outcome)
    requires s.Valid() && (relay.Found? ==> TAGS <= relay.at && relay.at + TAG_HDR_LEN <= |s.buf|)
    ensures r.skb.Valid() && |r.skb.buf| == |s.buf|
  {
    match relay
    case OutOfBounds => Outcome(Fault, s)
    case Absent => Outcome(Refused, s)
    case Found(p) =>
      var n := ReadBe16(s.buf, p + 2);
      if n < STAMP_LEN then Outcome(Refused, s)
      else if p + TAG_HDR_LEN + 2 > |s.buf| then Outcome(Fault, s)
      else if ReadBe16(s.buf, p + TAG_HDR_LEN) != MAGIC_CODE then Outcome(Refused, s)
      else if p + TAG_HDR_LEN + STAMP_LEN > |s.buf| then Outcome(Fault, s)
      else
        var d := Skb(s.buf[p + TAG_HDR_LEN + 2..p + TAG_HDR_LEN + STAMP_LEN] + s.buf[ETH_ALEN..], s.len);
        WithoutStamp(d, p, n)
  }

  /** The two octets of a length field, rewritten in place. */
  function Rewritten(s: Skb, at: nat, n: nat): (r: Skb)
    requires s.Valid() && TAGS <= at && at + 2 <= |s.buf| && n < 65536
    ensures r.Valid() && |r.buf| == |s.buf| && r.len == s.len
  {
    Skb(s.buf[at := n / 256][at + 1 := n % 256], s.len)
  }

  /** The relay tag at `p`, of length `n`, loses its stamp, or disappears if there is nothing behind it. */
  function WithoutStamp(d: Skb, p: nat, n: nat): (r: Outcome)
    requires d.Valid() && TAGS <= p && p + TAG_HDR_LEN + STAMP_LEN <= |d.buf| && STAMP_LEN <= n < 65536
    ensures r.skb.Valid() && |r.skb.buf| == |d.buf|
  {
    var offset := if n > STAMP_LEN then TAG_HDR_LEN else 0;
    var cut := TAG_HDR_LEN + STAMP_LEN - offset;
    if !CanPull(d, p + offset, cut) then Outcome(Refused, d)
    else
      var t := Cut(d, p + offset, cut);
      Outcome(Done, if offset == 0 then t else Rewritten(t, p + 2, n - STAMP_LEN))
  }

  // ----- tag lists

  type Word = n: nat | n < 65536
  type Value = v: seq<byte> | |v| < 65536

  datatype Tag = Tag(kind: Word, value: Value)

  function EncodeTag(t: Tag): (e: seq<byte>)
    ensures |e| == TAG_HDR_LEN + |t.value|
  {
    Be16(t.kind) + Be16(|t.value|) + t.value
  }

  function Encode(tags: seq<Tag>): seq<byte> {
    if tags == [] then [] else EncodeTag(tags[0]) + Encode(tags[1..])
  }

  /** The payload of the frame is `e`; whatever follows it inside `len` is Ethernet padding. */
  ghost predicate Holds(s: Skb, e: seq<byte>) {
    s.Valid() && s.PayloadLength() == |e| && TAGS + |e| <= s.len && At(s.buf, TAGS, e)
  }

  ghost predicate Carries(s: Skb, tags: seq<Tag>) {
    Holds(s, Encode(tags))
  }

  predicate NoRelay(tags: seq<Tag>) {
    forall t | t in tags :: t.kind != RELAY_SID
  }

  /** A tag in the buffer reads back as its type, length and value. */
  lemma ReadTag(buf: seq<byte>, pos: nat, t: Tag)
    requires At(buf, pos, EncodeTag(t))
    ensures ReadBe16(buf, pos) == t.kind && ReadBe16(buf, pos + 2) == |t.value|
    ensures At(buf, pos + TAG_HDR_LEN, t.value)
  {
    assert Look(0);
    AtParts(buf, pos, Be16(t.kind) + Be16(|t.value|), t.value);
    AtParts(buf, pos, Be16(t.kind), Be16(|t.value|));
    ReadWrittenBe16(buf, pos, t.kind);
    ReadWrittenBe16(buf, pos + 2, |t.value|);
  }

  lemma {:induction false} EncodeAppend(a: seq<Tag>, b: seq<Tag>)
    ensures Encode(a + b) == Encode(a) + Encode(b)
  {
    if a == [] {
      assert a + b == b;
    } else {
      assert (a + b)[1..] == a[1..] + b;
      EncodeAppend(a[1..], b);
    }
  }

  /** The search walks over foreign tags to whatever comes behind them. */
  lemma {:induction false} FindSkips(buf: seq<byte>, pos: nat, tags: seq<Tag>, end: nat)
    requires NoRelay(tags) && At(buf, pos, Encode(tags)) && pos + |Encode(tags)| <= end
    ensures Find(buf, pos, end, RELAY_SID) == Find(buf, pos + |Encode(tags)|, end, RELAY_SID)
    decreases |tags|
  {
    if tags != [] {
      var next := pos + |EncodeTag(tags[0])|;
      AtParts(buf, pos, EncodeTag(tags[0]), Encode(tags[1..]));
      assert tags[0] in tags;
      FindPast(buf, pos, tags[0], next, end);
      FindSkips(buf, next, tags[1..], end);
    }
  }

  lemma FindPast(buf: seq<byte>, pos: nat, t: Tag, next: nat, end: nat)
    requires t.kind != RELAY_SID && At(buf, pos, EncodeTag(t)) && next == pos + |EncodeTag(t)| <= end
    ensures Find(buf, pos, end, RELAY_SID) == Find(buf, next, end, RELAY_SID)
  {
    ReadTag(buf, pos, t);
  }

  lemma FindHere(buf: seq<byte>, pos: nat, r: Tag, end: nat)
    requires r.kind == RELAY_SID && At(buf, pos, EncodeTag(r)) && pos < end
    ensures Find(buf, pos, end, RELAY_SID) == Found(pos)
  {
    ReadTag(buf, pos, r);
  }

  lemma FindAbsent(s: Skb, tags: seq<Tag>)
    requires Carries(s, tags) && NoRelay(tags)
    ensures Find(s.buf, TAGS, TAGS + s.PayloadLength(), RELAY_SID) == Absent
  {
    FindSkips(s.buf, TAGS, tags, TAGS + s.PayloadLength());
  }

  /** The search stops at the first relay tag. */
  lemma FindFirst(s: Skb, a: seq<Tag>, r: Tag, eb: seq<byte>)
    requires r.kind == RELAY_SID && NoRelay(a) && Holds(s, Encode(a) + EncodeTag(r) + eb)
    ensures Find(s.buf, TAGS, TAGS + s.PayloadLength(), RELAY_SID) == Found(TAGS + |Encode(a)|)
  {
    var ea, end := Encode(a), TAGS + s.PayloadLength();
    AtParts(s.buf, TAGS, ea + EncodeTag(r), eb);
    AtParts(s.buf, TAGS, ea, EncodeTag(r));
    FindSkips(s.buf, TAGS, a, end);
    FindHere(s.buf, TAGS + |ea|, r, end);
  }

  lemma SplitEncode(a: seq<Tag>, r: Tag, b: seq<Tag>)
    ensures Encode(a + [r] + b) == Encode(a) + EncodeTag(r) + Encode(b)
  {
    EncodeAppend(a, [r]);
    EncodeAppend(a + [r], b);
    assert Encode([r]) == EncodeTag(r);
  }

  // ----- editing a tag list

  /** Cutting octets out of a frame leaves the front alone and pulls the rest of the frame up. */
  lemma PullMoves(s: Skb, src: nat, n: nat, pos: nat, e: seq<byte>)
    requires s.Valid() && src >= TAGS && CanPull(s, src, n)
    requires At(s.buf, pos, e)
    ensures pos + |e| <= src ==> At(Pull(s, src, n).buf, pos, e)
    ensures src + n <= pos && pos + |e| <= s.len ==> At(Pull(s, src, n).buf, pos - n, e)
  {
    assert Look(0);
    var t := Pull(s, src, n);
    if pos + |e| <= src {
      assert t.buf[pos..pos + |e|] == s.buf[pos..pos + |e|];
    }
    if src + n <= pos && pos + |e| <= s.len {
      MovedPart(s, src, n, pos, |e|);
    }
  }

  lemma MovedPart(s: Skb, src: nat, n: nat, pos: nat, k: nat)
    requires s.Valid() && src >= TAGS && CanPull(s, src, n) && src + n <= pos && pos + k <= s.len
    ensures Pull(s, src, n).buf[pos - n..pos - n + k] == s.buf[pos..pos + k]
  {
    var b, w := Pull(s, src, n).buf, s.buf[src + n..s.len];
    var x := pos - n - src;
    assert b[src..src + |w|] == w;
    PartOfPart(b, src, src + |w|, x, x + k);
    PartOfPart(s.buf, src + n, s.len, x, x + k);
  }

  lemma PartOfPart(b: seq<byte>, i: nat, j: nat, x: nat, y: nat)
    requires i <= j <= |b| && x <= y <= j - i
    ensures b[i..j][x..y] == b[i + x..i + y]
  {
    var w := b[i..j];
    assert forall k :: 0 <= k < |w| ==> w[k] == b[i + k];
    assert w[x..y] == b[i + x..i + y];
  }

  lemma LengthApart(s: Skb, n: nat, pos: nat, e: seq<byte>)
    requires s.Valid() && n < 65536 && At(s.buf, pos, e) && (pos + |e| <= LENGTH_AT || pos >= TAGS)
    ensures At(s.WithPayloadLength(n).buf, pos, e) && s.WithPayloadLength(n).PayloadLength() == n
  {
    assert Look(0);
    var t := s.WithPayloadLength(n);
    assert t.buf[pos..pos + |e|] == s.buf[pos..pos + |e|];
  }

  predicate SameHeader(s: Skb, t: Skb)
    requires s.Valid() && t.Valid()
  {
    s.buf[..LENGTH_AT] == t.buf[..LENGTH_AT]
  }

  lemma PrependHolds(s: Skb, e: seq<byte>, tag: seq<byte>)
    requires Holds(s, e) && |e| + |tag| < 65536 && s.len + |tag| <= |s.buf|
    ensures var t := Prepended(s, tag).WithPayloadLength(|e| + |tag|);
            Holds(t, tag + e) && SameHeader(t, s)
  {
    assert Look(0);
    var m := Prepended(s, tag);
    assert m.buf[TAGS..TAGS + |tag + e|] == tag + e;
    LengthApart(m, |e| + |tag|, TAGS, tag + e);
  }

  /** `out` is what becomes of a frame with payload `e` when the relay tag is put in front: it needs room
      for the tag, and nothing else can go wrong. */
  ghost predicate Prepends(out: Outcome, s: Skb, e: seq<byte>, value: Value)
    requires s.Valid() && |value| + STAMP_LEN < 65536
  {
    var n := TAG_HDR_LEN + STAMP_LEN + |value|;
    if |s.buf| - s.len < n then out == Outcome(Refused, s)
    else
      && out.verdict == Done && Holds(out.skb, RelayTag(s.buf[ETH_ALEN..2 * ETH_ALEN], value) + e)
      && SameHeader(out.skb, s) && out.skb.len == s.len + n
  }

  lemma AddRelayPrepends(s: Skb, e: seq<byte>, value: Value)
    requires Holds(s, e) && TAG_HDR_LEN + STAMP_LEN + |value| <= TAG_BUF
    requires |e| + TAG_HDR_LEN + STAMP_LEN + |value| < 65536
    ensures Prepends(AddRelay(s, value, true), s, e, value)
  {
    if |s.buf| - s.len >= TAG_HDR_LEN + STAMP_LEN + |value| {
      PrependHolds(s, e, RelayTag(s.buf[ETH_ALEN..2 * ETH_ALEN], value));
    }
  }

  /** The relay tag that carries a client address in front of an earlier relay value. */
  function Stamped(mac: seq<byte>, value: seq<byte>): Tag
    requires |mac| == ETH_ALEN && |value| + STAMP_LEN < 65536
  {
    Tag(RELAY_SID, Be16(MAGIC_CODE) + mac + value)
  }

  lemma CutMoves(s: Skb, src: nat, n: nat, pos: nat, e: seq<byte>)
    requires s.Valid() && src >= TAGS && CanPull(s, src, n)
    requires At(s.buf, pos, e)
    ensures pos + |e| <= LENGTH_AT || (TAGS <= pos && pos + |e| <= src) ==> At(Cut(s, src, n).buf, pos, e)
    ensures src + n <= pos && pos + |e| <= s.len ==> At(Cut(s, src, n).buf, pos - n, e)
    ensures n <= s.PayloadLength() ==> Cut(s, src, n).PayloadLength() == s.PayloadLength() - n
  {
    PullMoves(s, src, n, pos, e);
    var m := Pull(s, src, n);
    var length := (s.PayloadLength() - n) % 65536;
    LengthApart(m, length, 0, []);
    if pos + |e| <= src && (pos + |e| <= LENGTH_AT || TAGS <= pos) {
      LengthApart(m, length, pos, e);
    }
    if src + n <= pos && pos + |e| <= s.len {
      LengthApart(m, length, pos - n, e);
    }
  }

  /** Cutting `er` out of the payload. */
  lemma CutMiddle(s: Skb, ea: seq<byte>, er: seq<byte>, eb: seq<byte>)
    requires Holds(s, ea + er + eb)
    ensures CanPull(s, TAGS + |ea|, |er|)
    ensures Holds(Cut(s, TAGS + |ea|, |er|), ea + eb)
    ensures SameHeader(Cut(s, TAGS + |ea|, |er|), s)
  {
    var p, n := TAGS + |ea|, |er|;
    AtParts(s.buf, TAGS, ea + er, eb);
    AtParts(s.buf, TAGS, ea, er);
    CutMoves(s, p, n, TAGS, ea);
    CutMoves(s, p, n, p + n, eb);
    AtParts(Cut(s, p, n).buf, TAGS, ea, eb);
    assert Look(0);
    CutMoves(s, p, n, 0, s.buf[..LENGTH_AT]);
  }

  predicate HasRelay(tags: seq<Tag>) {
    exists t | t in tags :: t.kind == RELAY_SID
  }

  function FirstRelay(tags: seq<Tag>): (k: nat)
    requires HasRelay(tags)
    ensures k < |tags| && tags[k].kind == RELAY_SID && NoRelay(tags[..k])
  {
    if tags[0].kind == RELAY_SID then 0
    else
      var k := FirstRelay(tags[1..]);
      assert tags[..k + 1] == [tags[0]] + tags[1..][..k];
      k + 1
  }

  /** The relay value a frame already carries, and its other tags. */
  function RelayValue(tags: seq<Tag>): Value {
    if HasRelay(tags) then tags[FirstRelay(tags)].value else []
  }

  function Others(tags: seq<Tag>): seq<Tag> {
    if HasRelay(tags) then tags[..FirstRelay(tags)] + tags[FirstRelay(tags) + 1..] else tags
  }

  // ----- INSERT

  /** `out` is what becomes of a frame that already carries the relay value `value` among `others`. */
  ghost predicate Restamps(out: Outcome, s: Skb, others: seq<byte>, value: Value)
    requires s.Valid()
  {
    if |value| > 28 then out == Outcome(Refused, s)
    else if |s.buf| - s.len < STAMP_LEN then out.verdict == Refused && Holds(out.skb, others) && SameHeader(out.skb, s)
    else
      && out.verdict == Done && Holds(out.skb, RelayTag(s.buf[ETH_ALEN..2 * ETH_ALEN], value) + others)
      && SameHeader(out.skb, s) && out.skb.len == s.len + STAMP_LEN
  }

  /** INSERT over a frame whose first relay tag stands behind `ea`. */
  lemma InsertOverRelay(s: Skb, ea: seq<byte>, r: Tag, eb: seq<byte>)
    requires Holds(s, ea + EncodeTag(r) + eb) && |ea| + |eb| + TAG_HDR_LEN + STAMP_LEN + |r.value| < 65536
    ensures TAGS + |ea| + TAG_HDR_LEN <= |s.buf|
    ensures Restamps(InsertAt(s, Found(TAGS + |ea|), true), s, ea + eb, r.value)
  {
    var p, n, value := TAGS + |ea|, |r.value|, r.value;
    OldRelayReads(s, ea, r, eb);
    CutMiddle(s, ea, EncodeTag(r), eb);
    if n <= 28 {
      RestampsOverCut(s, Cut(s, p, TAG_HDR_LEN + n), ea + eb, value);
    }
    InsertFound(s, p, n, value, ea + eb);
  }

  lemma OldRelayReads(s: Skb, ea: seq<byte>, r: Tag, eb: seq<byte>)
    requires Holds(s, ea + EncodeTag(r) + eb)
    ensures var p, n := TAGS + |ea|, |r.value|;
            && p + TAG_HDR_LEN + n <= |s.buf| && ReadBe16(s.buf, p + 2) == n
            && s.buf[p + TAG_HDR_LEN..p + TAG_HDR_LEN + n] == r.value
  {
    var p := TAGS + |ea|;
    AtParts(s.buf, TAGS, ea + EncodeTag(r), eb);
    AtParts(s.buf, TAGS, ea, EncodeTag(r));
    ReadTag(s.buf, p, r);
    AtSlice(s.buf, p + TAG_HDR_LEN, r.value);
  }

  lemma RestampsOverCut(s: Skb, t: Skb, others: seq<byte>, value: Value)
    requires s.Valid() && Holds(t, others) && |value| <= 28
    requires |others| + TAG_HDR_LEN + STAMP_LEN + |value| < 65536
    requires |t.buf| == |s.buf| && t.len == s.len - TAG_HDR_LEN - |value| && SameHeader(t, s)
    ensures Restamps(AddRelay(t, value, true), s, others, value)
  {
    AddRelayPrepends(t, others, value);
    RestampsAfterCut(AddRelay(t, value, true), t, s, others, value);
  }

  lemma RestampsAfterCut(out: Outcome, t: Skb, s: Skb, others: seq<byte>, value: Value)
    requires s.Valid() && Holds(t, others) && |value| <= 28 && Prepends(out, t, others, value)
    requires |t.buf| == |s.buf| && t.len == s.len - TAG_HDR_LEN - |value| && SameHeader(t, s)
    ensures Restamps(out, s, others, value)
  {
    SameMac(t, s);
  }

  lemma InsertFound(s: Skb, p: nat, n: nat, value: Value, others: seq<byte>)
    requires s.Valid() && TAGS <= p && p + TAG_HDR_LEN + n <= |s.buf| && CanPull(s, p, TAG_HDR_LEN + n)
    requires n == |value| && n == ReadBe16(s.buf, p + 2) && value == s.buf[p + TAG_HDR_LEN..p + TAG_HDR_LEN + n]
    requires n <= 28 ==> Restamps(AddRelay(Cut(s, p, TAG_HDR_LEN + n), value, true), s, others, value)
    ensures Restamps(InsertAt(s, Found(p), true), s, others, value)
  {
    if n > 28 {
      OldTooLong(s, p, value);
    } else {
      InsertAtOld(s, p, n, value);
    }
  }

  lemma OldTooLong(s: Skb, p: nat, value: Value)
    requires s.Valid() && TAGS <= p && p + TAG_HDR_LEN <= |s.buf| && ReadBe16(s.buf, p + 2) == |value| > 28
    ensures InsertAt(s, Found(p), true) == Outcome(Refused, s)
  {
  }

  lemma InsertAtOld(s: Skb, p: nat, n: nat, value: Value)
    requires s.Valid() && TAGS <= p && p + TAG_HDR_LEN + n <= |s.buf| && CanPull(s, p, TAG_HDR_LEN + n)
    requires n == ReadBe16(s.buf, p + 2) && value == s.buf[p + TAG_HDR_LEN..p + TAG_HDR_LEN + n] && n <= 28
    ensures InsertAt(s, Found(p), true) == AddRelay(Cut(s, p, TAG_HDR_LEN + n), value, true)
  {
    InsertAtIsOver(s, p, n, true);
    InsertOverIs(s, p, n, value);
  }

  lemma InsertAtIsOver(s: Skb, p: nat, n: nat, bigEndian: bool)
    requires s.Valid() && TAGS <= p && p + TAG_HDR_LEN + n <= |s.buf| && CanPull(s, p, TAG_HDR_LEN + n)
    requires n == ReadBe16(s.buf, p + 2) && n <= 28
    ensures InsertAt(s, Found(p), bigEndian) == InsertOver(s, p, n, bigEndian)
  {
  }

  lemma InsertOverIs(s: Skb, p: nat, n: nat, value: Value)
    requires s.Valid() && TAGS <= p && p + TAG_HDR_LEN + n <= |s.buf| && CanPull(s, p, TAG_HDR_LEN + n)
    requires value == s.buf[p + TAG_HDR_LEN..p + TAG_HDR_LEN + n] && n <= 28
    ensures InsertOver(s, p, n, true) == AddRelay(Cut(s, p, TAG_HDR_LEN + n), value, true)
  {
  }

  lemma SameMac(s: Skb, t: Skb)
    requires s.Valid() && t.Valid() && SameHeader(s, t)
    ensures s.buf[..ETH_ALEN] == t.buf[..ETH_ALEN]
    ensures s.buf[ETH_ALEN..2 * ETH_ALEN] == t.buf[ETH_ALEN..2 * ETH_ALEN]
  {
    SliceOfPrefix(s.buf, 0, ETH_ALEN, LENGTH_AT);
    SliceOfPrefix(t.buf, 0, ETH_ALEN, LENGTH_AT);
    SliceOfPrefix(s.buf, ETH_ALEN, 2 * ETH_ALEN, LENGTH_AT);
    SliceOfPrefix(t.buf, ETH_ALEN, 2 * ETH_ALEN, LENGTH_AT);
  }

  lemma SliceOfPrefix(b: seq<byte>, i: nat, j: nat, k: nat)
    requires i <= j <= k <= |b|
    ensures b[..k][i..j] == b[i..j]
  {
  }

  /** The outcome of INSERT on a frame that carries `tags`: it succeeds exactly when the old relay value
      fits the 40-octet buffer and the frame has room, and then the client's address and the old value
      stand in one relay tag in front of the other tags.  A frame refused is unchanged, except that an old
      relay tag has gone if there was no room for the new one. */
  ghost predicate Stamps(out: Outcome, s: Skb, tags: seq<Tag>)
    requires s.Valid()
  {
    var value := RelayValue(tags);
    var grow := STAMP_LEN + if HasRelay(tags) then 0 else TAG_HDR_LEN;
    if |value| > 28 then out == Outcome(Refused, s)
    else if |s.buf| - s.len < grow then out.verdict == Refused && Carries(out.skb, Others(tags)) && SameHeader(out.skb, s)
    else
      && out.verdict == Done && Carries(out.skb, [Stamped(s.buf[ETH_ALEN..2 * ETH_ALEN], value)] + Others(tags))
      && SameHeader(out.skb, s) && out.skb.len == s.len + grow
  }

  /** INSERT on a big-endian host. */
  lemma InsertStamps(s: Skb, tags: seq<Tag>)
    requires Carries(s, tags) && |Encode(tags)| + TAG_HDR_LEN + STAMP_LEN < 65536
    ensures Stamps(Insert(s, true), s, tags)
  {
    var mac := s.buf[ETH_ALEN..2 * ETH_ALEN];
    if HasRelay(tags) {
      var k := FirstRelay(tags);
      var a, r, b := tags[..k], tags[k], tags[k + 1..];
      assert tags == a + [r] + b;
      SplitEncode(a, r, b);
      FindFirst(s, a, r, Encode(b));
      InsertOverRelay(s, Encode(a), r, Encode(b));
      EncodeAppend(a, b);
      StampsOverRelay(Insert(s, true), s, tags);
    } else {
      FindAbsent(s, tags);
      AddRelayPrepends(s, Encode(tags), []);
      StampedInFront(mac, [], tags);
    }
  }

  lemma StampsOverRelay(out: Outcome, s: Skb, tags: seq<Tag>)
    requires s.Valid() && HasRelay(tags) && Restamps(out, s, Encode(Others(tags)), RelayValue(tags))
    ensures Stamps(out, s, tags)
  {
    if |RelayValue(tags)| <= 28 {
      StampedInFront(s.buf[ETH_ALEN..2 * ETH_ALEN], RelayValue(tags), Others(tags));
    }
  }

  lemma StampedInFront(mac: seq<byte>, value: Value, tags: seq<Tag>)
    requires |mac| == ETH_ALEN && |value| + STAMP_LEN < 65536
    ensures Encode([Stamped(mac, value)] + tags) == RelayTag(mac, value) + Encode(tags)
  {
    assert ([Stamped(mac, value)] + tags)[1..] == tags;
  }

  // ----- LOOKUP

  /** What is left of a relay tag once the client's address has been taken out: an empty tag disappears. */
  function Restored(value: Value): seq<Tag> {
    if value == [] then [] else [Tag(RELAY_SID, value)]
  }

  function WithDestination(s: Skb, mac: seq<byte>): (r: Skb)
    requires s.Valid() && |mac| == ETH_ALEN
    ensures r.Valid() && |r.buf| == |s.buf| && r.len == s.len
  {
    Skb(mac + s.buf[ETH_ALEN..], s.len)
  }

  lemma DestinationApart(s: Skb, mac: seq<byte>, e: seq<byte>)
    requires |mac| == ETH_ALEN && Holds(s, e)
    ensures Holds(WithDestination(s, mac), e)
  {
    assert Look(0);
    var d := WithDestination(s, mac);
    assert d.buf[TAGS..TAGS + |e|] == s.buf[TAGS..TAGS + |e|];
    assert d.buf[LENGTH_AT] == s.buf[LENGTH_AT] && d.buf[LENGTH_AT + 1] == s.buf[LENGTH_AT + 1];
  }

  lemma RewriteHolds(s: Skb, x: seq<byte>, m: nat, y: seq<byte>, n: nat)
    requires m < 65536 && n < 65536 && Holds(s, x + Be16(m) + y)
    ensures Holds(Rewritten(s, TAGS + |x|, n), x + Be16(n) + y)
    ensures SameHeader(Rewritten(s, TAGS + |x|, n), s)
  {
    assert Look(0);
    var t := Rewritten(s, TAGS + |x|, n);
    var e := x + Be16(m) + y;
    assert s.buf[TAGS..TAGS + |e|] == e;
    assert t.buf[TAGS..TAGS + |e|] == x + Be16(n) + y;
  }

  /** How the relay tag in front of `eb` reads. */
  lemma ReadRelay(s: Skb, ea: seq<byte>, mac: seq<byte>, value: Value, eb: seq<byte>)
    requires |mac| == ETH_ALEN && |value| + STAMP_LEN < 65536 && Holds(s, ea + RelayTag(mac, value) + eb)
    ensures var p := TAGS + |ea|;
            && p + TAG_HDR_LEN + STAMP_LEN + |value| + |eb| <= s.len
            && ReadBe16(s.buf, p + 2) == STAMP_LEN + |value|
            && ReadBe16(s.buf, p + TAG_HDR_LEN) == MAGIC_CODE
            && s.buf[p + TAG_HDR_LEN + 2..p + TAG_HDR_LEN + STAMP_LEN] == mac
  {
    var p := TAGS + |ea|;
    AtParts(s.buf, TAGS, ea + RelayTag(mac, value), eb);
    AtParts(s.buf, TAGS, ea, RelayTag(mac, value));
    assert EncodeTag(Stamped(mac, value)) == RelayTag(mac, value);
    ReadTag(s.buf, p, Stamped(mac, value));
    AtParts(s.buf, p + TAG_HDR_LEN, Be16(MAGIC_CODE) + mac, value);
    AtParts(s.buf, p + TAG_HDR_LEN, Be16(MAGIC_CODE), mac);
    AtSlice(s.buf, p + TAG_HDR_LEN, Be16(MAGIC_CODE));
    AtSlice(s.buf, p + TAG_HDR_LEN + 2, mac);
    ReadWrittenBe16(s.buf, p + TAG_HDR_LEN, MAGIC_CODE);
  }

  /** The frame after LOOKUP has found a stamped relay tag at `p`. */
  function Unstamped(s: Skb, p: nat, mac: seq<byte>, value: Value): (r: Skb)
    requires s.Valid() && |mac| == ETH_ALEN && |value| + STAMP_LEN < 65536
    requires TAGS <= p && p + TAG_HDR_LEN + STAMP_LEN + |value| <= s.len
    ensures r.Valid()
  {
    var d := WithDestination(s, mac);
    if value == [] then Cut(d, p, TAG_HDR_LEN + STAMP_LEN)
    else Rewritten(Cut(d, p + TAG_HDR_LEN, STAMP_LEN), p + 2, |value|)
  }

  lemma LookupFound(s: Skb, p: nat, mac: seq<byte>, value: Value)
    requires s.Valid() && |mac| == ETH_ALEN && |value| + STAMP_LEN < 65536
    requires TAGS <= p && p + TAG_HDR_LEN + STAMP_LEN + |value| <= s.len
    requires ReadBe16(s.buf, p + 2) == STAMP_LEN + |value| && ReadBe16(s.buf, p + TAG_HDR_LEN) == MAGIC_CODE
    requires s.buf[p + TAG_HDR_LEN + 2..p + TAG_HDR_LEN + STAMP_LEN] == mac
    ensures LookupAt(s, Found(p)) == Outcome(Done, Unstamped(s, p, mac, value))
  {
    assert LookupAt(s, Found(p)) == WithoutStamp(WithDestination(s, mac), p, STAMP_LEN + |value|);
    StampComesOff(WithDestination(s, mac), p, |value|);
  }

  lemma StampComesOff(d: Skb, p: nat, n: nat)
    requires d.Valid() && n + STAMP_LEN < 65536 && TAGS <= p && p + TAG_HDR_LEN + STAMP_LEN + n <= d.len
    ensures WithoutStamp(d, p, STAMP_LEN + n) ==
            Outcome(Done, if n == 0 then Cut(d, p, TAG_HDR_LEN + STAMP_LEN)
                          else Rewritten(Cut(d, p + TAG_HDR_LEN, STAMP_LEN), p + 2, n))
  {
  }

  lemma UnstampedHolds(s: Skb, ea: seq<byte>, mac: seq<byte>, value: Value, eb: seq<byte>)
    requires |mac| == ETH_ALEN && |value| + STAMP_LEN < 65536 && Holds(s, ea + RelayTag(mac, value) + eb)
    ensures var r := Unstamped(s, TAGS + |ea|, mac, value);
            && Holds(r, ea + Encode(Restored(value)) + eb)
            && SameHeader(r, WithDestination(s, mac))
            && r.len == s.len - STAMP_LEN - (if value == [] then TAG_HDR_LEN else 0)
  {
    var d, tag := WithDestination(s, mac), RelayTag(mac, value);
    DestinationApart(s, mac, ea + tag + eb);
    if value == [] {
      CutMiddle(d, ea, tag, eb);
      assert ea + [] + eb == ea + eb;
    } else {
      StampInside(ea, mac, value, eb);
      ShortenedHolds(d, ea + Be16(RELAY_SID), Be16(MAGIC_CODE) + mac, value + eb, |value|);
    }
  }

  /** `stamp` is cut out behind the length in front of it, and that is set to `n`. */
  lemma ShortenedHolds(d: Skb, x: seq<byte>, stamp: seq<byte>, y: seq<byte>, n: nat)
    requires |stamp| == STAMP_LEN && STAMP_LEN + n < 65536 && Holds(d, (x + Be16(STAMP_LEN + n)) + stamp + y)
    ensures CanPull(d, TAGS + |x| + 2, STAMP_LEN)
    ensures var r := Rewritten(Cut(d, TAGS + |x| + 2, STAMP_LEN), TAGS + |x|, n);
            Holds(r, x + Be16(n) + y) && SameHeader(r, d) && r.len == d.len - STAMP_LEN
  {
    var front := x + Be16(STAMP_LEN + n);
    CutMiddle(d, front, stamp, y);
    var t := Cut(d, TAGS + |front|, STAMP_LEN);
    RewriteHolds(t, x, STAMP_LEN + n, y, n);
  }

  /** The stamp in the octets around it, and those octets once it is gone. */
  lemma StampInside(ea: seq<byte>, mac: seq<byte>, value: Value, eb: seq<byte>)
    requires |mac| == ETH_ALEN && |value| + STAMP_LEN < 65536 && value != []
    ensures var x, len0 := ea + Be16(RELAY_SID), Be16(STAMP_LEN + |value|);
            ea + RelayTag(mac, value) + eb == (x + len0) + (Be16(MAGIC_CODE) + mac) + (value + eb)
    ensures ea + Be16(RELAY_SID) + Be16(|value|) + (value + eb) == ea + Encode(Restored(value)) + eb
  {
    assert Encode(Restored(value)) == EncodeTag(Tag(RELAY_SID, value));
  }

  // ----- main results

  /** The reply a frame turns into once the stamped relay tag between `a` and `b` has been undone. */
  ghost predicate Unstamps(out: Outcome, s: Skb, a: seq<Tag>, mac: seq<byte>, value: Value, b: seq<Tag>)
    requires s.Valid() && |mac| == ETH_ALEN
  {
    && out.verdict == Done && Carries(out.skb, a + Restored(value) + b)
    && SameHeader(out.skb, WithDestination(s, mac))
    && out.skb.len == s.len - STAMP_LEN - (if value == [] then TAG_HDR_LEN else 0)
  }

  /** LOOKUP on any reply whose first relay tag is a stamped one: the frame goes to the stamped address,
      the relay tag gets its old value back, or vanishes if there was none, and nothing else changes. */
  lemma LookupUnstamps(s: Skb, a: seq<Tag>, mac: seq<byte>, value: Value, b: seq<Tag>)
    requires |mac| == ETH_ALEN && |value| + STAMP_LEN < 65536 && NoRelay(a)
    requires Carries(s, a + [Stamped(mac, value)] + b)
    ensures Unstamps(Lookup(s), s, a, mac, value, b)
  {
    var r, ea, eb := Stamped(mac, value), Encode(a), Encode(b);
    SplitEncode(a, r, b);
    assert EncodeTag(r) == RelayTag(mac, value);
    FindFirst(s, a, r, eb);
    ReadRelay(s, ea, mac, value, eb);
    LookupFound(s, TAGS + |ea|, mac, value);
    UnstampedHolds(s, ea, mac, value, eb);
    EncodeAppend(a, Restored(value));
    EncodeAppend(a + Restored(value), b);
  }

  /** The value of a relay tag that INSERT has made: the magic code and an address come first. */
  predicate IsStamped(value: Value) {
    |value| >= STAMP_LEN && value[..2] == Be16(MAGIC_CODE)
  }

  /** LOOKUP refuses any other reply, and leaves it as it is. */
  lemma LookupRefuses(s: Skb, tags: seq<Tag>)
    requires Carries(s, tags) && !IsStamped(RelayValue(tags))
    ensures Lookup(s) == Outcome(Refused, s)
  {
    if HasRelay(tags) {
      var k := FirstRelay(tags);
      assert tags == tags[..k] + [tags[k]] + tags[k + 1..];
      var p := RelayPlace(s, tags[..k], tags[k], tags[k + 1..]);
      NotStamped(s, p, tags[k].value);
    } else {
      FindAbsent(s, tags);
    }
  }

  lemma RelayPlace(s: Skb, a: seq<Tag>, r: Tag, b: seq<Tag>) returns (p: nat)
    requires Carries(s, a + [r] + b) && NoRelay(a) && r.kind == RELAY_SID
    ensures s.Valid() && TAGS <= p && p + TAG_HDR_LEN + |r.value| <= |s.buf|
    ensures Find(s.buf, TAGS, TAGS + s.PayloadLength(), RELAY_SID) == Found(p)
    ensures ReadBe16(s.buf, p + 2) == |r.value| && s.buf[p + TAG_HDR_LEN..p + TAG_HDR_LEN + |r.value|] == r.value
  {
    var ea, eb := Encode(a), Encode(b);
    p := TAGS + |ea|;
    SplitEncode(a, r, b);
    FindFirst(s, a, r, eb);
    OldRelayReads(s, ea, r, eb);
  }

  lemma NotStamped(s: Skb, p: nat, value: Value)
    requires s.Valid() && TAGS <= p && p + TAG_HDR_LEN + |value| <= |s.buf| && !IsStamped(value)
    requires ReadBe16(s.buf, p + 2) == |value| && s.buf[p + TAG_HDR_LEN..p + TAG_HDR_LEN + |value|] == value
    ensures LookupAt(s, Found(p)) == Outcome(Refused, s)
  {
    var at := p + TAG_HDR_LEN;
    if |value| >= STAMP_LEN {
      assert value[0] == s.buf[at..at + |value|][0] == s.buf[at] && value[1] == s.buf[at..at + |value|][1] == s.buf[at + 1];
      assert value[..2] == [s.buf[at], s.buf[at + 1]];
    }
  }

  /** The relay round trip: whatever reply carries the tag that INSERT put into the request, LOOKUP sends
      it to the client that made the request and gives the relay tag its old value back. */
  lemma RelayRoundTrip(s: Skb, tags: seq<Tag>, reply: Skb, a: seq<Tag>, b: seq<Tag>)
    requires Carries(s, tags) && |Encode(tags)| + TAG_HDR_LEN + STAMP_LEN < 65536
    requires Insert(s, true).verdict == Done && NoRelay(a)
    requires var client := s.buf[ETH_ALEN..2 * ETH_ALEN];
             |RelayValue(tags)| <= 28 ==> Carries(reply, a + [Stamped(client, RelayValue(tags))] + b)
    ensures reply.Valid()
    ensures Unstamps(Lookup(reply), reply, a, s.buf[ETH_ALEN..2 * ETH_ALEN], RelayValue(tags), b)
    ensures Lookup(reply).skb.buf[..ETH_ALEN] == s.buf[ETH_ALEN..2 * ETH_ALEN]
  {
    InsertStamps(s, tags);
    var client := s.buf[ETH_ALEN..2 * ETH_ALEN];
    LookupUnstamps(reply, a, client, RelayValue(tags), b);
    SameMac(Lookup(reply).skb, WithDestination(reply, client));
    assert WithDestination(reply, client).buf[..ETH_ALEN] == client;
  }

  /** The reply has the payload of `request`, octet for octet. */
  ghost predicate Echoes(reply: Skb, request: Skb) {
    && request.Valid() && TAGS + request.PayloadLength() <= |request.buf|
    && Holds(reply, request.buf[TAGS..TAGS + request.PayloadLength()])
  }

  /** A reply that echoes the very tags of the request: the other tags come back in order behind the
      restored relay tag. */
  lemma EchoRoundTrip(s: Skb, tags: seq<Tag>, request: Skb, reply: Skb)
    requires Carries(s, tags) && |Encode(tags)| + TAG_HDR_LEN + STAMP_LEN < 65536
    requires Insert(s, true) == Outcome(Done, request) && Echoes(reply, request)
    ensures Lookup(reply).verdict == Done
    ensures Lookup(reply).skb.buf[..ETH_ALEN] == s.buf[ETH_ALEN..2 * ETH_ALEN]
    ensures Carries(Lookup(reply).skb, Restored(RelayValue(tags)) + Others(tags))
  {
    InsertStamps(s, tags);
    EchoHasStamp(s, tags, request, reply);
    RelayRoundTrip(s, tags, reply, [], Others(tags));
    assert [] + Restored(RelayValue(tags)) + Others(tags) == Restored(RelayValue(tags)) + Others(tags);
  }

  lemma EchoHasStamp(s: Skb, tags: seq<Tag>, request: Skb, reply: Skb)
    requires s.Valid() && Stamps(Outcome(Done, request), s, tags) && Echoes(reply, request)
    ensures |RelayValue(tags)| <= 28
    ensures Carries(reply, [] + [Stamped(s.buf[ETH_ALEN..2 * ETH_ALEN], RelayValue(tags))] + Others(tags))
  {
    var stamped := Stamped(s.buf[ETH_ALEN..2 * ETH_ALEN], RelayValue(tags));
    AtSlice(request.buf, TAGS, Encode([stamped] + Others(tags)));
    assert [] + [stamped] + Others(tags) == [stamped] + Others(tags);
  }

  /** That is the original payload, tag for tag, exactly when there was no relay tag, or a non-empty one
      in front. */
  lemma EchoIsExactIff(tags: seq<Tag>)
    ensures Restored(RelayValue(tags)) + Others(tags) == tags
            <==> !HasRelay(tags) || (tags[0].kind == RELAY_SID && tags[0].value != [])
  {
    var back := Restored(RelayValue(tags)) + Others(tags);
    if HasRelay(tags) {
      var k := FirstRelay(tags);
      if tags[k].value == [] {
        assert |back| < |tags|;
        assert k > 0 ==> tags[0] in tags[..k];
      } else {
        assert back[0] == Tag(RELAY_SID, tags[k].value);
        if k > 0 {
          assert tags[0] in tags[..k];
        }
      }
    }
  }

  /** On a little-endian host the octet-swapped length never lets INSERT succeed: it stands for a tag of
      over 2000 octets, more than the frame or at any rate the 40-octet tag buffer has. */
  lemma InsertFailsLittleEndian(s: Skb)
    requires s.Valid()
    ensures Insert(s, false).verdict != Done
    ensures |s.buf| - s.len < 2052 && !Find(s.buf, TAGS, TAGS + s.PayloadLength(), RELAY_SID).OutOfBounds?
            && !Find(s.buf, TAGS, TAGS + s.PayloadLength(), RELAY_SID).Found?
            ==> Insert(s, false).verdict == Refused
  {
    InsertAtFailsLittleEndian(s, Find(s.buf, TAGS, TAGS + s.PayloadLength(), RELAY_SID));
  }

  lemma InsertAtFailsLittleEndian(s: Skb, r: Search)
    requires s.Valid() && (r.Found? ==> TAGS <= r.at && r.at + TAG_HDR_LEN <= |s.buf|)
    ensures InsertAt(s, r, false).verdict != Done
    ensures |s.buf| - s.len < 2052 && r.Absent? ==> InsertAt(s, r, false).verdict == Refused
  {
    match r
    case OutOfBounds =>
    case Absent => AddRelayFailsLittleEndian(s, []);
    case Found(p) => InsertFoundFailsLittleEndian(s, p, ReadBe16(s.buf, p + 2));
  }

  lemma InsertFoundFailsLittleEndian(s: Skb, p: nat, n: nat)
    requires s.Valid() && TAGS <= p && p + TAG_HDR_LEN <= |s.buf| && n == ReadBe16(s.buf, p + 2)
    ensures InsertAt(s, Found(p), false).verdict != Done
  {
    if n <= 28 && p + TAG_HDR_LEN + n <= |s.buf| && CanPull(s, p, TAG_HDR_LEN + n) {
      InsertAtIsOver(s, p, n, false);
      InsertOverFailsLittleEndian(s, p, n);
    }
  }

  lemma InsertOverFailsLittleEndian(s: Skb, p: nat, n: nat)
    requires s.Valid() && TAGS <= p && p + TAG_HDR_LEN + n <= |s.buf| && CanPull(s, p, TAG_HDR_LEN + n) && n <= 28
    ensures InsertOver(s, p, n, false).verdict != Done
  {
    AddRelayFailsLittleEndian(Cut(s, p, TAG_HDR_LEN + n), s.buf[p + TAG_HDR_LEN..p + TAG_HDR_LEN + n]);
  }

  lemma AddRelayFailsLittleEndian(s: Skb, value: Value)
    requires s.Valid() && TAG_HDR_LEN + STAMP_LEN + |value| <= TAG_BUF
    ensures AddRelay(s, value, false).verdict != Done
    ensures |s.buf| - s.len < 2052 ==> AddRelay(s, value, false).verdict == Refused
  {
  }
}
