/** The variable part of a BSS description, `WLAN_BSSID_EX`. */
module BssDescription {
  import opened Bytes
  import opened Memory
  import opened Tlv

  /** `MAX_IE_SZ`, and `_FIXED_IE_LENGTH_`: time stamp, beacon interval and capabilities come first. */
  const MAX_IE_SZ: nat := 768
  const FIXED: nat := 12

  class Bss {
    const IEs: array<byte>
    var IELength: nat

    constructor (ies: array<byte>, length: nat)
      ensures IEs == ies && IELength == length
    {
      IEs := ies;
      IELength := length;
    }

    /** The elements `es`, complete and in this order, are what stands behind the fixed part. */
    ghost predicate Holds(es: seq<Item>)
      reads this, IEs
    {
      AllFit(Element, es) && Lies(Element, IEs[..], FIXED, IELength, es)
    }
  }

  /** Apart from the octets in [`from`, `to`) nothing has changed; folded like `At`. */
  ghost predicate Outside(m: seq<byte>, buf: seq<byte>, from: nat, to: nat) {
    && from <= to <= |buf| == |m|
    && forall k {:trigger Look(k)} :: Look(k) ==> m[..from] == buf[..from] && m[to..] == buf[to..]
  }

  lemma OutsideStill(z: seq<byte>, m: seq<byte>, buf: seq<byte>, from: nat, to: nat, last: nat)
    requires Outside(m, buf, from, last) && Outside(z, m, from, to) && to <= last
    ensures Outside(z, buf, from, last)
  {
    assert Look(0);
    assert z[last..] == z[to..][last - to..] && m[last..] == m[to..][last - to..];
  }

  lemma OutsideParts(m: seq<byte>, buf: seq<byte>, from: nat, to: nat)
    ensures Outside(m, buf, from, to) <==>
            from <= to <= |buf| == |m| && m[..from] == buf[..from] && m[to..] == buf[to..]
  {
    assert Look(0);
  }
}
