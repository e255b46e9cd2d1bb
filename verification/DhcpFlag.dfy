/** Asking for broadcast answers to DHCP requests, `dhcp_flag_bcast` in core/rtw_br_ext.c: a flag is set in
    the frame and the UDP checksum adjusted to it. */
module DhcpFlag {
  import opened Bytes

  type word = w: int | 0 <= w < 65536

  // ----- sixteen bits in the host's order

  function Word(b: seq<byte>, i: nat, little: bool): word
    requires i + 2 <= |b|
  {
    if little then (b[i] as int) + (b[i + 1] as int) * 256 else (b[i] as int) * 256 + (b[i + 1] as int)
  }

  function Put(b: seq<byte>, i: nat, w: word, little: bool): (r: seq<byte>)
    requires i + 2 <= |b|
    ensures |r| == |b| && Word(r, i, little) == w
    ensures forall k :: 0 <= k < |b| && k != i && k != i + 1 ==> r[k] == b[k]
  {
    if little then b[i := w % 256][i + 1 := w / 256] else b[i := w / 256][i + 1 := w % 256]
  }

  /** The sum of all words, an odd octet padded with zero (RFC 1071). */
  function Sum(b: seq<byte>, little: bool): nat {
    if b == [] then 0
    else if |b| == 1 then (if little then b[0] as int else (b[0] as int) * 256)
    else Word(b, 0, little) + Sum(b[2..], little)
  }

  lemma {:induction false} SumPut(b: seq<byte>, i: nat, w: word, little: bool)
    requires i + 2 <= |b| && i % 2 == 0
    ensures Sum(Put(b, i, w, little), little) == Sum(b, little) - Word(b, i, little) + w
  {
    var r := Put(b, i, w, little);
    if i == 0 {
      assert r[2..] == b[2..];
    } else {
      SumPut(b[2..], i - 2, w, little);
      assert r[2..] == Put(b[2..], i - 2, w, little);
    }
  }

  /** Summed in the other order the result is the same up to a factor: a datagram that sums to zero does so
      in either order. */
  lemma {:induction false} SumInEitherOrder(b: seq<byte>)
    ensures (256 * Sum(b, false)) % 65535 == Sum(b, true) % 65535
    ensures Sum(b, false) % 65535 == 0 <==> Sum(b, true) % 65535 == 0
  {
    Rotated(b);
    TimesZeroIff(Sum(b, false));
  }

  lemma TimesZero(n: nat)
    requires n % 65535 == 0
    ensures (256 * n) % 65535 == 0
  {
    var q := n / 65535;
    assert 256 * n == 0 + 65535 * (256 * q);
    Shifted(0, 256 * q);
  }

  lemma TimesZeroIff(n: nat)
    ensures (256 * n) % 65535 == 0 <==> n % 65535 == 0
  {
    if n % 65535 == 0 {
      TimesZero(n);
    } else if (256 * n) % 65535 == 0 {
      TimesZero(256 * n);
      assert 256 * (256 * n) == n + 65535 * n;
      Shifted(n, n);
    }
  }

  lemma {:induction false} Rotated(b: seq<byte>)
    ensures (256 * Sum(b, false)) % 65535 == Sum(b, true) % 65535
  {
    if |b| == 1 {
      assert 256 * ((b[0] as int) * 256) == (b[0] as int) + 65535 * (b[0] as int);
    } else if b != [] {
      Rotated(b[2..]);
      var hi, lo := b[0] as int, b[1] as int;
      assert 256 * (hi * 256 + lo) == (hi + lo * 256) + 65535 * hi;
      SameRest(256 * Sum(b[2..], false), Sum(b[2..], true), hi + lo * 256, hi);
      assert 256 * Sum(b, false) == 256 * (hi * 256 + lo) + 256 * Sum(b[2..], false);
    }
  }

  lemma SameRest(x: nat, y: nat, w: nat, q: nat)
    requires x % 65535 == y % 65535
    ensures (w + 65535 * q + x) % 65535 == (w + y) % 65535
  {
    var a, b := x / 65535, y / 65535;
    assert x == y + 65535 * (a - b);
    assert w + 65535 * q + x == (w + y) + 65535 * (q + a - b);
  }

  // ----- folding

  /** The one's-complement value of a sum: zero only for zero. */
  function Ones(sum: nat): (r: word)
    ensures r % 65535 == sum % 65535 && (r == 0 <==> sum == 0)
  {
    if sum == 0 then 0 else (sum - 1) % 65535 + 1
  }

  /** The folding loop ends with that value. */
  method Fold(sum: nat) returns (r: word)
    ensures r == Ones(sum)
  {
    var s := sum;
    while s / 65536 != 0
      invariant s >= 0 && Ones(s) == Ones(sum)
      decreases s
    {
      FoldStep(s);
      s := s % 65536 + s / 65536;
    }
    r := s;
  }

  lemma FoldStep(s: nat)
    requires s >= 65536
    ensures Ones(s % 65536 + s / 65536) == Ones(s) && s % 65536 + s / 65536 < s
  {
    var lo, hi := s % 65536, s / 65536;
    assert s - 1 == (lo + hi - 1) + 65535 * hi;
    Shifted(lo + hi - 1, hi);
  }

  // ----- the adjustment

  /** `htons(BROADCAST_FLAG)` */
  function BroadcastFlag(little: bool): word {
    if little then 0x80 else 0x8000
  }

  predicate HasFlag(flags: word, little: bool) {
    flags / BroadcastFlag(little) % 2 == 1
  }

  function Adjusted(check: word, flags: word): word {
    65535 - Ones(65535 - check + flags)
  }

  /** Setting the flag and adjusting the checksum keeps the sum of the datagram, whatever else it is made of
      and however long it is, exactly when no other flag was set: the old flags are not taken off. */
  lemma SumIsKeptIff(check: word, flags: word, rest: nat, little: bool)
    requires !HasFlag(flags, little)
    ensures var now := flags + BroadcastFlag(little);
            && now < 65536
            && ((rest + now + Adjusted(check, now)) % 65535 == (rest + flags + check) % 65535 <==> flags == 0)
  {
    var now := flags + BroadcastFlag(little);
    var s := 65535 - check + now;
    var adjusted := Adjusted(check, now);
    var k := (s - Ones(s)) / 65535;
    OnesDiffers(s);
    assert rest + now + adjusted == (rest + check) + 65535 * k;
    Shifted(rest + check, k);
    NotZero(rest + check, flags);
  }

  lemma OnesDiffers(s: nat)
    ensures s - Ones(s) == 65535 * ((s - Ones(s)) / 65535) && s >= Ones(s)
  {
    if s > 0 {
      assert s - 1 == 65535 * ((s - 1) / 65535) + (s - 1) % 65535;
    }
  }

  lemma Shifted(x: nat, k: nat)
    ensures (x + 65535 * k) % 65535 == x % 65535
  {
  }

  lemma NotZero(x: nat, d: nat)
    requires d < 65535
    ensures (x + d) % 65535 == x % 65535 <==> d == 0
  {
  }

  /** The adjusted checksum comes out as zero, which means none, for one value of the old one. */
  lemma AdjustedIsZeroIff(check: word, little: bool)
    ensures Adjusted(check, BroadcastFlag(little)) == 0 <==> check == BroadcastFlag(little)
  {
  }

  /** A datagram sent without a checksum gets one, whatever its contents. */
  lemma NoneBecomesSome(little: bool)
    ensures Adjusted(0, BroadcastFlag(little)) == 65535 - BroadcastFlag(little)
  {
  }

  // ----- the frame

  const ETH_HLEN: nat := 14
  const DHCP_MAGIC: seq<byte> := [0x63, 0x82, 0x53, 0x63]

  /** Where the flags, the checksum and the cookie stand behind the start of the UDP header. */
  const CHECK: nat := 6
  const FLAGS: nat := 18
  const COOKIE: nat := 244

  /** Behind the IP header of the length it gives in four-octet units. */
  function UdpAt(d: seq<byte>): nat
    requires |d| > ETH_HLEN
  {
    ETH_HLEN + (d[ETH_HLEN] as int) % 16 * 4
  }

  predicate IsUdp(d: seq<byte>)
    requires |d| >= ETH_HLEN + 10
  {
    d[12] == 8 && d[13] == 0 && d[ETH_HLEN + 9] == 17
  }

  /** From the client's port to the server's. */
  predicate ToServer(d: seq<byte>, udph: nat)
    requires udph + 4 <= |d|
  {
    d[udph] == 0 && d[udph + 1] == 68 && d[udph + 2] == 0 && d[udph + 3] == 67
  }

  /** The frame is as long as the function takes it to be. */
  predicate Readable(d: seq<byte>) {
    && |d| >= ETH_HLEN + 10
    && (IsUdp(d) ==> |d| >= UdpAt(d) + 4 && (ToServer(d, UdpAt(d)) ==> |d| >= UdpAt(d) + COOKIE + 4))
  }

  /** IP, UDP, from the client to the server port, with the cookie. */
  predicate IsRequest(d: seq<byte>)
    requires Readable(d)
  {
    IsUdp(d) && ToServer(d, UdpAt(d)) && d[UdpAt(d) + COOKIE..UdpAt(d) + COOKIE + 4] == DHCP_MAGIC
  }

  /** The frame after `dhcp_flag_bcast`. */
  function Patched(d: seq<byte>, disabled: bool, little: bool): (r: seq<byte>)
    requires Readable(d)
    ensures |r| == |d|
  {
    if disabled || !IsRequest(d) || HasFlag(Word(d, UdpAt(d) + FLAGS, little), little) then d
    else Flagged(d, UdpAt(d), little)
  }

  /** The flag set and the checksum adjusted behind a UDP header at `udph`. */
  function Flagged(d: seq<byte>, udph: nat, little: bool): (r: seq<byte>)
    requires udph + FLAGS + 2 <= |d| && !HasFlag(Word(d, udph + FLAGS, little), little)
    ensures |r| == |d|
  {
    var flags := Word(d, udph + FLAGS, little) + BroadcastFlag(little);
    FlagIsSet(Word(d, udph + FLAGS, little), little);
    Put(Put(d, udph + FLAGS, flags, little), udph + CHECK, Adjusted(Word(d, udph + CHECK, little), flags), little)
  }

  lemma FlagIsSet(flags: word, little: bool)
    requires !HasFlag(flags, little)
    ensures flags + BroadcastFlag(little) < 65536 && HasFlag(flags + BroadcastFlag(little), little)
  {
  }

  /** The flag in the octets of the frame: the highest bit of the first one, on every host. */
  lemma FlagInOctets(d: seq<byte>, i: nat, little: bool)
    requires i + 2 <= |d|
    ensures HasFlag(Word(d, i, little), little) <==> d[i] >= 128
  {
  }

  lemma FlaggedOctets(d: seq<byte>, at: nat, little: bool)
    requires at + FLAGS + 2 <= |d| && !HasFlag(Word(d, at + FLAGS, little), little)
    ensures var r := Flagged(d, at, little);
            && d[at + 18] < 128 && r[at + 18] == d[at + 18] + 128
            && forall i :: 0 <= i < |d| && i != at + 6 && i != at + 7 && i != at + 18 ==> r[i] == d[i]
  {
    FlagInOctets(d, at + FLAGS, little);
    var flags := Word(d, at + FLAGS, little);
    var m := Put(d, at + FLAGS, flags + BroadcastFlag(little), little);
    assert m[at + 18] == d[at + 18] + 128 && m[at + 19] == d[at + 19];
  }

  /** The request octet for octet. */
  predicate RequestOctets(d: seq<byte>)
    requires Readable(d)
  {
    var at := ETH_HLEN + (d[ETH_HLEN] as int) % 16 * 4;
    && d[12] == 8 && d[13] == 0 && d[23] == 17
    && d[at] == 0 && d[at + 1] == 68 && d[at + 2] == 0 && d[at + 3] == 67
    && d[at + 244] == 0x63 && d[at + 245] == 0x82 && d[at + 246] == 0x53 && d[at + 247] == 0x63
  }

  lemma IsRequestIff(d: seq<byte>)
    requires Readable(d)
    ensures IsRequest(d) <==> RequestOctets(d)
  {
    var at := UdpAt(d);
    if IsUdp(d) && ToServer(d, at) {
      var c := d[at + COOKIE..at + COOKIE + 4];
      assert c == [d[at + 244], d[at + 245], d[at + 246], d[at + 247]];
    }
  }

  /** A frame is changed exactly if the function is not switched off and it is a DHCP request without the flag;
      then the flag is set, and nothing else changes but the checksum. */
  lemma PatchedIff(d: seq<byte>, disabled: bool, little: bool)
    requires Readable(d)
    ensures var at, r := ETH_HLEN + (d[ETH_HLEN] as int) % 16 * 4, Patched(d, disabled, little);
            && (r != d <==> !disabled && RequestOctets(d) && d[at + 18] < 128)
            && (r != d ==>
                  && r[at + 18] == d[at + 18] + 128
                  && forall i :: 0 <= i < |d| && i != at + 6 && i != at + 7 && i != at + 18 ==> r[i] == d[i])
  {
    IsRequestIff(d);
    if IsRequest(d) {
      var at := UdpAt(d);
      FlagInOctets(d, at + FLAGS, little);
      if !HasFlag(Word(d, at + FLAGS, little), little) {
        FlaggedOctets(d, at, little);
      }
    }
  }

  /** `dhcp_flag_bcast` */
  method DhcpFlagBcast(data: array<byte>, disabled: bool, little: bool)
    requires Readable(data[..])
    modifies data
    ensures data[..] == Patched(old(data[..]), disabled, little)
  {
    if !disabled {
      var d := data[..];
      if IsUdp(d) {
        var udph := UdpAt(d);
        if ToServer(d, udph) && d[udph + COOKIE..udph + COOKIE + 4] == DHCP_MAGIC {
          if !HasFlag(Word(d, udph + FLAGS, little), little) {
            SetFlag(data, udph, little);
          }
        }
      }
    }
  }

  method SetFlag(data: array<byte>, udph: nat, little: bool)
    requires udph + FLAGS + 2 <= data.Length && !HasFlag(Word(data[..], udph + FLAGS, little), little)
    modifies data
    ensures data[..] == Flagged(old(data[..]), udph, little)
  {
    var d := data[..];
    var flags, check := Word(d, udph + FLAGS, little), Word(d, udph + CHECK, little);
    FlagIsSet(flags, little);
    flags := flags + BroadcastFlag(little);
    Store(data, udph + FLAGS, flags, little);
    var sum := (65535 - check) + flags;
    var folded := Fold(sum);
    var adjusted: word := 65535 - folded;
    assert adjusted == Adjusted(check, flags);
    Store(data, udph + CHECK, adjusted, little);
  }

  method Store(data: array<byte>, i: nat, w: word, little: bool)
    requires i + 2 <= data.Length
    modifies data
    ensures data[..] == Put(old(data[..]), i, w, little)
  {
    data[i] := if little then w % 256 else w / 256;
    data[i + 1] := if little then w / 256 else w % 256;
  }

  /** Over any datagram length that covers the flags, and any pseudo header, the receiver's sum is what it
      was exactly when the flags were zero before. */
  lemma PatchKeepsSumIff(d: seq<byte>, length: nat, pseudo: nat, little: bool)
    requires Readable(d) && IsRequest(d) && !HasFlag(Word(d, UdpAt(d) + FLAGS, little), little)
    requires FLAGS + 2 <= length && UdpAt(d) + length <= |d|
    ensures var at := UdpAt(d);
            SameSum(Patched(d, false, little)[at..at + length], d[at..at + length], pseudo, little)
            <==> Word(d, at + FLAGS, little) == 0
  {
    var at := UdpAt(d);
    assert Patched(d, false, little) == Flagged(d, at, little);
    FlaggedFrame(d, at, length, pseudo, little);
  }

  /** What the receiver computes over the datagram and the pseudo header. */
  predicate SameSum(r: seq<byte>, u: seq<byte>, pseudo: nat, little: bool) {
    (pseudo + Sum(r, little)) % 65535 == (pseudo + Sum(u, little)) % 65535
  }

  lemma FlaggedFrame(d: seq<byte>, at: nat, length: nat, pseudo: nat, little: bool)
    requires FLAGS + 2 <= length && at + length <= |d| && !HasFlag(Word(d, at + FLAGS, little), little)
    ensures SameSum(Flagged(d, at, little)[at..at + length], d[at..at + length], pseudo, little)
            <==> Word(d, at + FLAGS, little) == 0
  {
    FlaggedSlice(d, at, length, little);
    FlaggedSum(d[at..at + length], pseudo, little);
  }

  /** The frame's datagram is treated by itself. */
  lemma FlaggedSlice(d: seq<byte>, at: nat, length: nat, little: bool)
    requires FLAGS + 2 <= length && at + length <= |d| && !HasFlag(Word(d, at + FLAGS, little), little)
    ensures var u := d[at..at + length];
            Word(u, FLAGS, little) == Word(d, at + FLAGS, little)
            && Flagged(d, at, little)[at..at + length] == Flagged(u, 0, little)
  {
  }

  lemma FlaggedSum(u: seq<byte>, pseudo: nat, little: bool)
    requires FLAGS + 2 <= |u| && !HasFlag(Word(u, FLAGS, little), little)
    ensures SameSum(Flagged(u, 0, little), u, pseudo, little)
            <==> Word(u, FLAGS, little) == 0
  {
    var flags, check := Word(u, FLAGS, little), Word(u, CHECK, little);
    FlaggedSumIs(u, little);
    SumHolds(u, little);
    SumIsKeptIff(check, flags, pseudo + Sum(u, little) - flags - check, little);
  }

  lemma FlaggedSumIs(u: seq<byte>, little: bool)
    requires FLAGS + 2 <= |u| && !HasFlag(Word(u, FLAGS, little), little)
    ensures var flags, check := Word(u, FLAGS, little), Word(u, CHECK, little);
            var now := flags + BroadcastFlag(little);
            now < 65536 && Sum(Flagged(u, 0, little), little) == Sum(u, little) - flags - check + now + Adjusted(check, now)
  {
    var flags, check := Word(u, FLAGS, little), Word(u, CHECK, little);
    FlagIsSet(flags, little);
    var now := flags + BroadcastFlag(little);
    var r := Put(u, FLAGS, now, little);
    SumPut(u, FLAGS, now, little);
    assert Word(r, CHECK, little) == check;
    SumPut(r, CHECK, Adjusted(check, now), little);
  }

  /** Both words are part of the sum. */
  lemma SumHolds(u: seq<byte>, little: bool)
    requires FLAGS + 2 <= |u|
    ensures Sum(u, little) >= Word(u, FLAGS, little) + Word(u, CHECK, little)
  {
    SumPut(u, FLAGS, 0, little);
    SumPut(Put(u, FLAGS, 0, little), CHECK, 0, little);
  }
}
