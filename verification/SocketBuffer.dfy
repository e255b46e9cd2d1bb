/** The in-place form of the relay-tag editing: a socket buffer whose octets are moved by `memmove` and
    whose length field is rewritten, refining the steps of module `PppoeRelay`. */
module SocketBuffer {
  import opened Bytes
  import opened PppoeRelay
  import Memory

  class SkBuff {
    const buf: array<byte>
    var len: nat

    ghost predicate Valid()
      reads this, buf
    {
      TAGS <= len <= buf.Length
    }

    ghost function Contents(): (s: Skb)
      reads this, buf
      requires Valid()
      ensures s.Valid()
    {
      Skb(buf[..], len)
    }

    constructor (capacity: nat, len: nat)
      requires TAGS <= len <= capacity
      ensures Valid() && fresh(buf) && buf.Length == capacity && this.len == len
    {
      buf := new byte[capacity](_ => 0);
      this.len := len;
    }

    method Read16(at: nat) returns (n: nat)
      requires at + 2 <= buf.Length
      ensures n == ReadBe16(buf[..], at)
    {
      n := (buf[at] as int) * 256 + buf[at + 1] as int;
    }

    method Write16(at: nat, n: nat)
      requires at + 2 <= buf.Length && n < 65536
      modifies buf
      ensures buf[..] == old(buf[..])[at := n / 256][at + 1 := n % 256]
    {
      buf[at] := n / 256;
      buf[at + 1] := n % 256;
    }

    /** `__nat25_find_pppoe_tag` */
    method FindTag(kind: nat) returns (r: Search)
      requires Valid()
      ensures r == Find(buf[..], TAGS, TAGS + Contents().PayloadLength(), kind)
    {
      var length := Read16(LENGTH_AT);
      var cur := TAGS;
      while cur < TAGS + length
        invariant TAGS <= cur
        invariant Find(buf[..], TAGS, TAGS + length, kind) == Find(buf[..], cur, TAGS + length, kind)
        decreases TAGS + length - cur
      {
        if cur + TAG_HDR_LEN > buf.Length {
          return OutOfBounds;
        }
        var tagType := Read16(cur);
        var tagLen := Read16(cur + 2);
        if tagType == kind {
          return Found(cur);
        }
        cur := cur + TAG_HDR_LEN + tagLen;
      }
      r := Absent;
    }

    /** `skb_pull_and_merge` */
    method PullAndMerge(src: nat, n: nat) returns (ok: bool)
      requires Valid() && TAGS <= src
      modifies this, buf
      ensures Valid() && ok == CanPull(old(Contents()), src, n)
      ensures Contents() == if ok then Pull(old(Contents()), src, n) else old(Contents())
    {
      if src + n > len || len < n {
        return false;
      }
      ghost var s := Contents();
      Memory.Move(buf, src, src + n, len - (src + n));
      len := len - n;
      MovedDown(s, src, n, Contents());
      ok := true;
    }

    /** `ph->length = htons(n)` */
    method SetPayloadLength(n: nat)
      requires Valid() && n < 65536
      modifies buf
      ensures Valid() && Contents() == old(Contents()).WithPayloadLength(n)
    {
      Write16(LENGTH_AT, n);
    }

    /** `*(unsigned short *)at = htons(n)` for a length inside the payload. */
    method Rewrite(at: nat, n: nat)
      requires Valid() && TAGS <= at && at + 2 <= buf.Length && n < 65536
      modifies buf
      ensures Valid() && Contents() == Rewritten(old(Contents()), at, n)
    {
      Write16(at, n);
    }

    /** `skb_pull_and_merge` followed by the correction of `ph->length`. */
    method CutPayload(src: nat, n: nat) returns (ok: bool)
      requires Valid() && TAGS <= src
      modifies this, buf
      ensures Valid() && ok == CanPull(old(Contents()), src, n)
      ensures Contents() == if ok then Cut(old(Contents()), src, n) else old(Contents())
    {
      var length := Read16(LENGTH_AT);
      ok := PullAndMerge(src, n);
      if ok {
        SetPayloadLength((length - n) % 65536);
      }
    }

    /** Makes room in front of the payload and copies the tag there. */
    method Prepend(tag: array<byte>, n: nat, length: nat)
      requires Valid() && tag != buf && n <= tag.Length
      requires length == Contents().PayloadLength()
      requires len + n <= buf.Length && TAGS + n + length <= buf.Length
      modifies this, buf
      ensures Valid() && Contents() == Prepended(old(Contents()), tag[..n])
    {
      ghost var s, e := Contents(), tag[..n];
      Memory.Move(buf, TAGS + n, TAGS, length);
      Memory.Write(buf, TAGS, tag[..n]);
      len := len + n;
      MovedThenCopied(s, e, length, Contents());
    }

    /** `__nat25_add_pppoe_tag`: the tag stands at the front of the caller's 40-octet buffer, and its
        length field is read as the host sees it. */
    method AddTag(tag: array<byte>, bigEndian: bool) returns (v: Verdict)
      requires Valid() && tag != buf && tag.Length == TAG_BUF
      modifies this, buf
      ensures Valid()
      ensures var n := HostWord(tag[2], tag[3], bigEndian) + TAG_HDR_LEN;
              Outcome(v, Contents()) == PppoeRelay.AddTag(old(Contents()), if n <= TAG_BUF then tag[..n] else [], n)
    {
      var dataLen := HostWord(tag[2], tag[3], bigEndian) + TAG_HDR_LEN;
      if buf.Length - len < dataLen {
        return Refused;
      }
      var length := Read16(LENGTH_AT);
      if TAGS + dataLen + length > buf.Length || dataLen > tag.Length {
        return Fault;
      }
      ghost var s, e := Contents(), tag[..dataLen];
      Prepend(tag, dataLen, length);
      var newLength := (length + dataLen) % 65536;
      SetPayloadLength(newLength);
      v := Done;
      TagAdded(s, e, dataLen, length, newLength, Contents());
    }

    /** Builds the relay tag in front of the old value and adds it. */
    method AddRelayTag(tag: array<byte>, valueLen: nat, bigEndian: bool, ghost value: seq<byte>) returns (v: Verdict)
      requires Valid() && tag != buf && tag.Length == TAG_BUF
      requires TAG_HDR_LEN + STAMP_LEN + valueLen <= TAG_BUF
      requires tag[TAG_HDR_LEN + STAMP_LEN..TAG_HDR_LEN + STAMP_LEN + valueLen] == value
      modifies this, buf, tag
      ensures |value| == valueLen
      ensures Valid() && Outcome(v, Contents()) == AddRelay(old(Contents()), value, bigEndian)
    {
      FillTag(tag, valueLen, value);
      assert buf[..][ETH_ALEN..2 * ETH_ALEN] == buf[ETH_ALEN..2 * ETH_ALEN];
      assert tag[..][..TAG_HDR_LEN + STAMP_LEN + valueLen] == tag[..TAG_HDR_LEN + STAMP_LEN + valueLen];
      AddTagAddsRelay(Contents(), tag[..], value, bigEndian);
      v := AddTag(tag, bigEndian);
      assert forall n | 0 <= n <= TAG_BUF :: tag[..n] == tag[..][..n];
    }

    /** Takes the old relay tag at `p` out of the frame and keeps its value behind the place of the stamp. */
    method TakeOld(p: nat, valueLen: nat, tag: array<byte>, ghost value: seq<byte>) returns (ok: bool)
      requires Valid() && TAGS <= p && p + TAG_HDR_LEN + valueLen <= buf.Length
      requires tag != buf && tag.Length == TAG_BUF && TAG_HDR_LEN + STAMP_LEN + valueLen <= TAG_BUF
      requires value == Contents().buf[p + TAG_HDR_LEN..p + TAG_HDR_LEN + valueLen]
      modifies this, buf, tag
      ensures Valid()
      ensures tag[TAG_HDR_LEN + STAMP_LEN..TAG_HDR_LEN + STAMP_LEN + valueLen] == value
      ensures ok == CanPull(old(Contents()), p, TAG_HDR_LEN + valueLen)
      ensures Contents() == if ok then Cut(old(Contents()), p, TAG_HDR_LEN + valueLen) else old(Contents())
    {
      forall i | 0 <= i < valueLen {
        tag[TAG_HDR_LEN + STAMP_LEN + i] := buf[p + TAG_HDR_LEN + i];
      }
      ok := CutPayload(p, TAG_HDR_LEN + valueLen);
    }

    /** INSERT once an old relay tag has been found at `p`. */
    method InsertOver(p: nat, bigEndian: bool) returns (v: Verdict)
      requires Valid() && TAGS <= p && p + TAG_HDR_LEN <= buf.Length
      modifies this, buf
      ensures Valid() && Inserts(v, Contents(), old(Contents()), Found(p), bigEndian)
    {
      ghost var s := Contents();
      InsertAtFound(s, p, bigEndian);
      var valueLen := Read16(p + 2);
      if valueLen + TAG_HDR_LEN + STAMP_LEN > TAG_BUF {
        return Refused;
      }
      if p + TAG_HDR_LEN + valueLen > buf.Length {
        return Fault;
      }
      v := Replace(p, valueLen, bigEndian);
      ReplaceInserts(v, Contents(), s, p, valueLen, bigEndian);
    }

    /** The old relay tag at `p` gives way to the new one. */
    method Replace(p: nat, valueLen: nat, bigEndian: bool) returns (v: Verdict)
      requires Valid() && TAGS <= p && p + TAG_HDR_LEN + valueLen <= buf.Length
      requires TAG_HDR_LEN + STAMP_LEN + valueLen <= TAG_BUF
      modifies this, buf
      ensures Valid() && Replaces(v, Contents(), old(Contents()), p, valueLen, bigEndian)
    {
      var tag := new byte[TAG_BUF](_ => 0);
      v := ReplaceBy(tag, p, valueLen, bigEndian);
    }

    method ReplaceBy(tag: array<byte>, p: nat, valueLen: nat, bigEndian: bool) returns (v: Verdict)
      requires Valid() && TAGS <= p && p + TAG_HDR_LEN + valueLen <= buf.Length
      requires TAG_HDR_LEN + STAMP_LEN + valueLen <= TAG_BUF && tag != buf && tag.Length == TAG_BUF
      modifies this, buf, tag
      ensures Valid() && Replaces(v, Contents(), old(Contents()), p, valueLen, bigEndian)
    {
      ghost var s := Contents();
      ghost var value := s.buf[p + TAG_HDR_LEN..p + TAG_HDR_LEN + valueLen];
      var ok := TakeOld(p, valueLen, tag, value);
      ghost var t := Contents();
      if ok {
        v := AddOld(tag, valueLen, bigEndian, value);
      } else {
        v := Refused;
      }
      ReplacesInSteps(s, p, valueLen, bigEndian, ok, t, value, v, Contents());
    }

    method AddOld(tag: array<byte>, valueLen: nat, bigEndian: bool, ghost value: seq<byte>) returns (v: Verdict)
      requires Valid() && tag != buf && tag.Length == TAG_BUF
      requires TAG_HDR_LEN + STAMP_LEN + valueLen <= TAG_BUF
      requires tag[TAG_HDR_LEN + STAMP_LEN..TAG_HDR_LEN + STAMP_LEN + valueLen] == value
      modifies this, buf, tag
      ensures Valid() && Adds(v, Contents(), old(Contents()), value, bigEndian)
    {
      v := AddRelayTag(tag, valueLen, bigEndian, value);
    }

    /** The discovery branch of `NAT25_INSERT`. */
    method InsertRelay(bigEndian: bool) returns (v: Verdict)
      requires Valid()
      modifies this, buf
      ensures Valid() && Outcome(v, Contents()) == Insert(old(Contents()), bigEndian)
    {
      ghost var s := Contents();
      var relay := FindTag(RELAY_SID);
      match relay {
        case OutOfBounds =>
          v := Fault;
        case Found(p) =>
          v := InsertOver(p, bigEndian);
        case Absent =>
          var tag := new byte[TAG_BUF](_ => 0);
          v := AddOld(tag, 0, bigEndian, []);
          AddInserts(v, Contents(), s, bigEndian);
      }
      InsertsIs(v, Contents(), s, relay, bigEndian);
    }

    /** Header, magic code and client address of the new tag, in front of the old value. */
    method FillTag(tag: array<byte>, valueLen: nat, ghost value: seq<byte>)
      requires Valid() && tag != buf && tag.Length == TAG_BUF
      requires TAG_HDR_LEN + STAMP_LEN + valueLen <= TAG_BUF
      requires tag[TAG_HDR_LEN + STAMP_LEN..TAG_HDR_LEN + STAMP_LEN + valueLen] == value
      modifies tag
      ensures |value| == valueLen
      ensures tag[..TAG_HDR_LEN + STAMP_LEN + valueLen] == RelayTag(buf[ETH_ALEN..2 * ETH_ALEN], value)
    {
      tag[0], tag[1] := RELAY_SID / 256, RELAY_SID % 256;
      tag[2], tag[3] := (STAMP_LEN + valueLen) / 256, (STAMP_LEN + valueLen) % 256;
      tag[4], tag[5] := MAGIC_CODE / 256, MAGIC_CODE % 256;
      forall i | 0 <= i < ETH_ALEN {
        tag[6 + i] := buf[ETH_ALEN + i];
      }
      RelayTagParts(tag[..], buf[ETH_ALEN..2 * ETH_ALEN], value);
    }

    /** Takes the stamp out of the relay tag at `p`, or the whole tag if there is nothing behind it. */
    method TakeStamp(p: nat, tagLen: nat) returns (v: Verdict)
      requires Valid() && TAGS <= p && p + TAG_HDR_LEN + STAMP_LEN <= buf.Length && STAMP_LEN <= tagLen < 65536
      modifies this, buf
      ensures Valid() && Takes(v, Contents(), old(Contents()), p, tagLen)
    {
      ghost var d := Contents();
      var offset := if tagLen > STAMP_LEN then TAG_HDR_LEN else 0;
      var src, n := p + offset, TAG_HDR_LEN + STAMP_LEN - offset;
      var ok := CutPayload(src, n);
      ghost var t := Contents();
      v := Refused;
      if ok {
        if offset > 0 {
          Rewrite(p + 2, tagLen - STAMP_LEN);
        }
        v := Done;
      }
      StampTaken(d, p, tagLen, offset, src, n, ok, t, Contents());
    }

    /** Copies the address at `src` over the destination of the frame. */
    method Redirect(src: nat)
      requires Valid() && src + ETH_ALEN <= buf.Length
      modifies buf
      ensures Valid()
      ensures Contents() == Skb(old(buf[..])[src..src + ETH_ALEN] + old(buf[..])[ETH_ALEN..], len)
    {
      Memory.Move(buf, 0, src, ETH_ALEN);
    }

    /** LOOKUP once the relay tag has been found at `p`. */
    method LookupIn(p: nat) returns (v: Verdict)
      requires Valid() && TAGS <= p && p + TAG_HDR_LEN <= buf.Length
      modifies this, buf
      ensures Valid() && Outcome(v, Contents()) == LookupAt(old(Contents()), Found(p))
    {
      var tagLen := Read16(p + 2);
      if tagLen < STAMP_LEN {
        return Refused;
      }
      if p + TAG_HDR_LEN + 2 > buf.Length {
        return Fault;
      }
      var magic := Read16(p + TAG_HDR_LEN);
      if magic != MAGIC_CODE {
        return Refused;
      }
      if p + TAG_HDR_LEN + STAMP_LEN > buf.Length {
        return Fault;
      }
      Redirect(p + TAG_HDR_LEN + 2);
      v := TakeStamp(p, tagLen);
      assert Look(0);
    }

    /** The discovery branch of `NAT25_LOOKUP`. */
    method LookupRelay() returns (v: Verdict)
      requires Valid()
      modifies this, buf
      ensures Valid() && Outcome(v, Contents()) == Lookup(old(Contents()))
    {
      var relay := FindTag(RELAY_SID);
      match relay {
        case OutOfBounds => v := Fault;
        case Absent => v := Refused;
        case Found(p) => v := LookupIn(p);
      }
    }
  }

  /** The frame after the old relay tag at `p` has been taken out and the new one put in front. */
  function Replaced(s: Skb, p: nat, n: nat, bigEndian: bool): (r: Outcome)
    requires s.Valid() && TAGS <= p && p + TAG_HDR_LEN + n <= |s.buf| && TAG_HDR_LEN + STAMP_LEN + n <= TAG_BUF
  {
    if !CanPull(s, p, TAG_HDR_LEN + n) then Outcome(Refused, s) else PppoeRelay.InsertOver(s, p, n, bigEndian)
  }

  /** The relay tag has been added to `t`; folded like `At`. */
  ghost predicate Adds(v: Verdict, r: Skb, t: Skb, value: seq<byte>, bigEndian: bool) {
    && t.Valid() && TAG_HDR_LEN + STAMP_LEN + |value| <= TAG_BUF
    && forall k {:trigger Look(k)} :: Look(k) ==> Outcome(v, r) == AddRelay(t, value, bigEndian)
  }

  /** The relay tag at `p` of `s` has been replaced; folded like `At`. */
  ghost predicate Replaces(v: Verdict, r: Skb, s: Skb, p: nat, n: nat, bigEndian: bool) {
    && s.Valid() && TAGS <= p && p + TAG_HDR_LEN + n <= |s.buf| && TAG_HDR_LEN + STAMP_LEN + n <= TAG_BUF
    && forall k {:trigger Look(k)} :: Look(k) ==> Outcome(v, r) == Replaced(s, p, n, bigEndian)
  }

  /** The outcome of INSERT after the search; folded like `At`. */
  ghost predicate Inserts(v: Verdict, r: Skb, s: Skb, relay: Search, bigEndian: bool) {
    && s.Valid() && (relay.Found? ==> TAGS <= relay.at && relay.at + TAG_HDR_LEN <= |s.buf|)
    && forall k {:trigger Look(k)} :: Look(k) ==> Outcome(v, r) == InsertAt(s, relay, bigEndian)
  }

  lemma InsertsIs(v: Verdict, r: Skb, s: Skb, relay: Search, bigEndian: bool)
    requires Inserts(v, r, s, relay, bigEndian) && relay == Find(s.buf, TAGS, TAGS + s.PayloadLength(), RELAY_SID)
    ensures Outcome(v, r) == Insert(s, bigEndian)
  {
    assert Look(0);
  }

  lemma ReplaceInserts(v: Verdict, r: Skb, s: Skb, p: nat, n: nat, bigEndian: bool)
    requires Replaces(v, r, s, p, n, bigEndian) && n == ReadBe16(s.buf, p + 2)
    ensures Inserts(v, r, s, Found(p), bigEndian)
  {
    assert Look(0);
    InsertAtFound(s, p, bigEndian);
  }

  lemma AddInserts(v: Verdict, r: Skb, s: Skb, bigEndian: bool)
    requires Adds(v, r, s, [], bigEndian)
    ensures Inserts(v, r, s, Absent, bigEndian)
  {
    assert Look(0);
  }

  lemma ReplacesInSteps(s: Skb, p: nat, n: nat, bigEndian: bool, ok: bool, t: Skb, value: seq<byte>, v: Verdict, r: Skb)
    requires s.Valid() && TAGS <= p && p + TAG_HDR_LEN + n <= |s.buf| && TAG_HDR_LEN + STAMP_LEN + n <= TAG_BUF
    requires value == s.buf[p + TAG_HDR_LEN..p + TAG_HDR_LEN + n] && ok == CanPull(s, p, TAG_HDR_LEN + n)
    requires t == if ok then Cut(s, p, TAG_HDR_LEN + n) else s
    requires if ok then Adds(v, r, t, value, bigEndian) else v == Refused && r == t
    ensures Replaces(v, r, s, p, n, bigEndian)
  {
    assert Look(0);
  }

  lemma InsertAtFound(s: Skb, p: nat, bigEndian: bool)
    requires s.Valid() && TAGS <= p && p + TAG_HDR_LEN <= |s.buf|
    ensures var n := ReadBe16(s.buf, p + 2);
            InsertAt(s, Found(p), bigEndian) ==
              if n + TAG_HDR_LEN + STAMP_LEN > TAG_BUF then Outcome(Refused, s)
              else if p + TAG_HDR_LEN + n > |s.buf| then Outcome(Fault, s)
              else Replaced(s, p, n, bigEndian)
  {
  }

  lemma RelayTagParts(t: seq<byte>, mac: seq<byte>, value: seq<byte>)
    requires |mac| == ETH_ALEN && TAG_HDR_LEN + STAMP_LEN + |value| <= |t| == TAG_BUF
    requires t[..2] == Be16(RELAY_SID) && t[2..4] == Be16(STAMP_LEN + |value|) && t[4..6] == Be16(MAGIC_CODE)
    requires t[6..12] == mac && t[12..12 + |value|] == value
    ensures t[..TAG_HDR_LEN + STAMP_LEN + |value|] == RelayTag(mac, value)
  {
    assert t[..12 + |value|] == t[..2] + t[2..4] + (t[4..6] + t[6..12] + t[12..12 + |value|]);
  }

  lemma MovedThenCopied(s: Skb, tag: seq<byte>, length: nat, r: Skb)
    requires s.Valid() && length == s.PayloadLength()
    requires s.len + |tag| <= |s.buf| && TAGS + |tag| + length <= |s.buf|
    requires r.buf == Memory.Written(Memory.Moved(s.buf, TAGS + |tag|, TAGS, length), TAGS, tag)
    requires r.len == s.len + |tag|
    ensures r == Prepended(s, tag)
  {
  }

  lemma TagAdded(s: Skb, tag: seq<byte>, n: nat, length: nat, newLength: nat, r: Skb)
    requires s.Valid() && n == |tag| <= TAG_BUF && length == s.PayloadLength() && newLength == (length + n) % 65536
    requires s.len + n <= |s.buf| && TAGS + n + length <= |s.buf| && r == Prepended(s, tag).WithPayloadLength(newLength)
    ensures PppoeRelay.AddTag(s, tag, n) == Outcome(Done, r)
  {
  }

  lemma MovedDown(s: Skb, src: nat, n: nat, r: Skb)
    requires s.Valid() && CanPull(s, src, n) && src >= TAGS
    requires r.buf == Memory.Moved(s.buf, src, src + n, s.len - (src + n)) && r.len == s.len - n
    ensures r == Pull(s, src, n)
  {
  }

  lemma StampTaken(d: Skb, p: nat, tagLen: nat, offset: nat, src: nat, n: nat, ok: bool, t: Skb, r: Skb)
    requires d.Valid() && TAGS <= p && p + TAG_HDR_LEN + STAMP_LEN <= |d.buf| && STAMP_LEN <= tagLen < 65536
    requires offset == (if tagLen > STAMP_LEN then TAG_HDR_LEN else 0)
    requires src == p + offset && n == TAG_HDR_LEN + STAMP_LEN - offset && ok == CanPull(d, src, n)
    requires t == if ok then Cut(d, src, n) else d
    requires r == if ok && offset > 0 then Rewritten(t, p + 2, tagLen - STAMP_LEN) else t
    ensures Takes(if ok then Done else Refused, r, d, p, tagLen)
  {
  }

  /** The stamp has been taken out of the tag at `p` of `d`; folded like `At`. */
  ghost predicate Takes(v: Verdict, r: Skb, d: Skb, p: nat, tagLen: nat) {
    && d.Valid() && TAGS <= p && p + TAG_HDR_LEN + STAMP_LEN <= |d.buf| && STAMP_LEN <= tagLen < 65536
    && forall k {:trigger Look(k)} :: Look(k) ==> Outcome(v, r) == WithoutStamp(d, p, tagLen)
  }

  /** What the tag buffer says about itself: with the octets swapped, far more than it holds. */
  lemma AddTagAddsRelay(s: Skb, tag: seq<byte>, value: seq<byte>, bigEndian: bool)
    requires s.Valid() && |tag| == TAG_BUF && TAG_HDR_LEN + STAMP_LEN + |value| <= TAG_BUF
    requires tag[..TAG_HDR_LEN + STAMP_LEN + |value|] == RelayTag(s.buf[ETH_ALEN..2 * ETH_ALEN], value)
    ensures var n := HostWord(tag[2], tag[3], bigEndian) + TAG_HDR_LEN;
            PppoeRelay.AddTag(s, if n <= TAG_BUF then tag[..n] else [], n) == AddRelay(s, value, bigEndian)
  {
    var relay := RelayTag(s.buf[ETH_ALEN..2 * ETH_ALEN], value);
    TagLengthReads(s.buf[ETH_ALEN..2 * ETH_ALEN], value, bigEndian);
    assert tag[2] == tag[..TAG_HDR_LEN + STAMP_LEN + |value|][2] && tag[3] == tag[..TAG_HDR_LEN + STAMP_LEN + |value|][3];
    var n := HostRead(bigEndian, STAMP_LEN + |value|) + TAG_HDR_LEN;
    if n <= TAG_BUF {
      assert tag[..n] == relay;
    }
  }

  lemma TagLengthReads(mac: seq<byte>, value: seq<byte>, bigEndian: bool)
    requires |mac| == ETH_ALEN && |value| + STAMP_LEN < 65536
    ensures var t := RelayTag(mac, value);
            HostWord(t[2], t[3], bigEndian) == HostRead(bigEndian, STAMP_LEN + |value|)
  {
  }

  /** Two octets of memory as an unsigned short of the host. */
  function HostWord(first: byte, second: byte, bigEndian: bool): (n: nat)
    ensures n < 65536
  {
    if bigEndian then (first as int) * 256 + second as int else (second as int) * 256 + first as int
  }
}
