/** Bit-banging the EEPROM, and reading octets from its words: core/rtw_eeprom.c, without surprise removal. */
module Eeprom {
  import opened Bytes

  /** The control register: clock, data to and from the EEPROM, and the remaining bits.  The masks of the
      lines are disjoint, so that setting or clearing one leaves the others alone. */
  datatype Lines = Lines(clock: bool, dataIn: bool, dataOut: bool, others: nat)

  // ----- what the EEPROM sees

  /** The data line at the rising edges of the clock, the register having held `before` first. */
  function Sampled(before: Lines, writes: seq<Lines>): seq<bool> {
    if writes == [] then []
    else
      var n := |writes| - 1;
      Sampled(before, writes[..n])
      + if writes[n].clock && !Held(before, writes[..n]).clock then [writes[n].dataIn] else []
  }

  /** What the register holds after the writes. */
  function Held(before: Lines, writes: seq<Lines>): Lines {
    if writes == [] then before else writes[|writes| - 1]
  }

  lemma SampledOne(before: Lines, writes: seq<Lines>, w: Lines)
    ensures Sampled(before, writes + [w]) ==
            Sampled(before, writes) + if w.clock && !Held(before, writes).clock then [w.dataIn] else []
    ensures Held(before, writes + [w]) == w
  {
    assert (writes + [w])[..|writes|] == writes;
  }

  // ----- numbers, most significant bit first

  /** `data >> k` */
  function Shifted(data: nat, k: nat): nat {
    if k == 0 then data else Shifted(data / 2, k - 1)
  }

  lemma {:induction false} ShiftedOnce(data: nat, k: nat)
    ensures Shifted(data, k) / 2 == Shifted(data, k + 1)
  {
    if k > 0 {
      ShiftedOnce(data / 2, k - 1);
    }
  }

  /** The low `count` bits. */
  function Bits(data: nat, count: nat): (b: seq<bool>)
    ensures |b| == count
  {
    if count == 0 then [] else Bits(data / 2, count - 1) + [data % 2 == 1]
  }

  function Value(bits: seq<bool>): nat {
    if bits == [] then 0 else 2 * Value(bits[..|bits| - 1]) + if bits[|bits| - 1] then 1 else 0
  }

  /** Bits taken in the order they were sent make up the number again. */
  lemma {:induction false} ValueOfBits(data: nat, count: nat)
    requires data < Power(count)
    ensures Value(Bits(data, count)) == data
  {
    if count > 0 {
      ValueOfBits(data / 2, count - 1);
      var b := Bits(data / 2, count - 1);
      assert (b + [data % 2 == 1])[..|b|] == b;
    }
  }

  lemma {:induction false} ValueFits(bits: seq<bool>)
    ensures Value(bits) < Power(|bits|)
  {
    if bits != [] {
      ValueFits(bits[..|bits| - 1]);
    }
  }

  // ----- the register

  /** `up_clk` */
  method UpClk(x: Lines, writes: seq<Lines>) returns (y: Lines, trace: seq<Lines>)
    ensures y == x.(clock := true) && trace == writes + [y]
  {
    y := x.(clock := true);
    trace := writes + [y];
  }

  /** `down_clk` */
  method DownClk(x: Lines, writes: seq<Lines>) returns (y: Lines, trace: seq<Lines>)
    ensures y == x.(clock := false) && trace == writes + [y]
  {
    y := x.(clock := false);
    trace := writes + [y];
  }

  /** `shift_out_bits`, the register holding `before` with the clock low.  `k` is the bit of `mask`; the mask
      becomes zero behind bit 0.  The EEPROM sees the low `count` bits, most significant first; in the end
      the clock and both data lines are low, and all other bits are as they were. */
  method ShiftOutBits(before: Lines, data: nat, count: nat) returns (trace: seq<Lines>)
    requires 1 <= count <= 16 && data < 65536 && !before.clock
    ensures Sampled(before, trace) == Bits(data, count)
    ensures Held(before, trace) == before.(dataIn := false, dataOut := false)
    ensures forall i :: 0 <= i < |trace| ==> trace[i].others == before.others
  {
    trace := [];
    var k := count;
    var x := before.(dataOut := false, dataIn := false);
    while k > 0
      invariant 0 <= k <= count && !x.clock && !x.dataOut && x.others == before.others
      invariant Sampled(before, trace) == Bits(Shifted(data, k), count - k)
      invariant !Held(before, trace).clock
      invariant forall i :: 0 <= i < |trace| ==> trace[i].others == before.others
    {
      k := k - 1;
      x := x.(dataIn := false);
      if Shifted(data, k) % 2 == 1 {
        x := x.(dataIn := true);
      }
      Pulse(before, trace, x);
      ShiftedOnce(data, k);
      trace := trace + [x];
      x, trace := UpClk(x, trace);
      x, trace := DownClk(x, trace);
    }
    x := x.(dataIn := false);
    SampledOne(before, trace, x);
    trace := trace + [x];
  }

  /** One bit: the data line is set while the clock is low, then the clock goes up and down. */
  lemma Pulse(before: Lines, writes: seq<Lines>, x: Lines)
    requires !x.clock
    ensures var t := writes + [x] + [x.(clock := true)] + [x];
            Sampled(before, t) == Sampled(before, writes) + [x.dataIn] && Held(before, t) == x
  {
    SampledOne(before, writes, x);
    SampledOne(before, writes + [x], x.(clock := true));
    SampledOne(before, writes + [x] + [x.(clock := true)], x);
  }

  /** `shift_in_bits`: `answers` are what the register reads as, the first time before the loop and then at
      every high clock.  Sixteen pulses are sent, and the bits the EEPROM answers are put together most
      significant first. */
  method ShiftInBits(before: Lines, answers: seq<Lines>) returns (d: nat, trace: seq<Lines>, ghost bits: seq<bool>)
    requires |answers| == 17 && !before.clock && answers[0] == before
    ensures |bits| == 16 && forall i :: 0 <= i < 16 ==> bits[i] == answers[i + 1].dataOut
    ensures d == Value(bits) < 65536
    ensures |Sampled(before, trace)| == 16 && !Held(before, trace).clock
  {
    trace, d, bits := [], 0, [];
    var x := answers[0].(dataOut := false, dataIn := false);
    var i := 0;
    while i < 16
      invariant 0 <= i <= 16 && |bits| == i && d == Value(bits)
      invariant forall j :: 0 <= j < i ==> bits[j] == answers[j + 1].dataOut
      invariant |Sampled(before, trace)| == i && !Held(before, trace).clock && !x.clock
    {
      ValueFits(bits);
      d := d * 2;
      SampledOne(before, trace, x.(clock := true));
      x, trace := UpClk(x, trace);
      x := answers[i + 1];
      x := x.(dataIn := false);
      if x.dataOut {
        d := d + 1;
      }
      assert (bits + [x.dataOut])[..|bits|] == bits;
      bits := bits + [x.dataOut];
      SampledOne(before, trace, x.(clock := false));
      x, trace := DownClk(x, trace);
      i := i + 1;
    }
    ValueFits(bits);
    PowersOfOctets();
  }

  // ----- octets

  type word = w: int | 0 <= w < 65536

  /** The octet at an address, the words in little-endian order and their numbers kept in 16 bits. */
  function OctetAt(words: nat -> word, addr: nat): byte {
    var w := words(addr / 2 % 65536);
    if addr % 2 == 0 then w % 256 else w / 256
  }

  /** Two octets from an even address on make up the word with that number, the first one lowest. */
  lemma OctetsMakeWord(words: nat -> word, k: nat)
    ensures OctetAt(words, 2 * k) + 256 * OctetAt(words, 2 * k + 1) == words(k % 65536)
  {
    assert 2 * k / 2 == k && (2 * k + 1) / 2 == k;
  }

  /** How many octets are read: none asked for at an odd address wraps the count around. */
  function Length(addrOff: nat, sz: byte): nat {
    if addrOff % 2 == 1 && sz == 0 then 256 else sz
  }

  /** `eeprom_read`; `words` is what `eeprom_read16` returns. */
  method EepromRead(words: nat -> word, addrOff: nat, sz: byte, rbuf: array<byte>)
    requires Length(addrOff, sz) <= rbuf.Length
    modifies rbuf
    ensures forall k :: 0 <= k < Length(addrOff, sz) ==> rbuf[k] == OctetAt(words, addrOff + k)
    ensures forall k :: Length(addrOff, sz) <= k < rbuf.Length ==> rbuf[k] == old(rbuf[k])
  {
    var reg: nat := addrOff / 2 % 65536;
    var idx: nat, left: nat := 0, sz;
    if addrOff % 2 == 1 {
      var stmp := words(reg);
      rbuf[idx] := stmp / 256;
      idx := idx + 1;
      left := (left - 1) % 256;
      NextWord(addrOff);
      reg := (reg + 1) % 65536;
    }
    ReadPairs(words, reg, addrOff + idx, left, rbuf, idx, addrOff);
  }

  lemma NextWord(addrOff: nat)
    requires addrOff % 2 == 1
    ensures (addrOff / 2 % 65536 + 1) % 65536 == (addrOff + 1) / 2 % 65536
  {
  }

  /** The part of `eeprom_read` that begins at an even address. */
  method ReadPairs(words: nat -> word, reg: nat, ghost first: nat, left: nat, rbuf: array<byte>, start: nat, ghost addrOff: nat)
    requires first % 2 == 0 && reg == first / 2 % 65536 && first == addrOff + start && start + left <= rbuf.Length
    requires forall k :: 0 <= k < start ==> rbuf[k] == OctetAt(words, addrOff + k)
    modifies rbuf
    ensures forall k :: 0 <= k < start + left ==> rbuf[k] == OctetAt(words, addrOff + k)
    ensures forall k :: start + left <= k < rbuf.Length ==> rbuf[k] == old(rbuf[k])
  {
    var quotient, remainder := left / 2, left % 2;
    var idx: nat, i: nat := start, 0;
    while i < quotient
      invariant i <= quotient && idx == start + 2 * i
      invariant forall k :: 0 <= k < idx ==> rbuf[k] == OctetAt(words, addrOff + k)
      invariant forall k :: idx <= k < rbuf.Length ==> rbuf[k] == old(rbuf[k])
    {
      WordOctets(words, reg, first, i);
      var stmp := words((reg + i) % 65536);
      rbuf[idx] := stmp % 256;
      idx := idx + 1;
      rbuf[idx] := stmp / 256;
      idx := idx + 1;
      i := i + 1;
    }
    if remainder == 1 {
      WordOctets(words, reg, first, i);
      var stmp := words((reg + i) % 65536);
      rbuf[idx] := stmp % 256;
    }
  }

  lemma WordOctets(words: nat -> word, reg: nat, first: nat, i: nat)
    requires first % 2 == 0 && reg == first / 2 % 65536
    ensures var w := words((reg + i) % 65536);
            w % 256 == OctetAt(words, first + 2 * i) && w / 256 == OctetAt(words, first + 2 * i + 1)
  {
    assert (first + 2 * i) / 2 == first / 2 + i && (first + 2 * i + 1) / 2 == first / 2 + i;
  }
}
