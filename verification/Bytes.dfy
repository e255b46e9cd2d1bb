/** Octets, and the two-octet numbers the wire formats use. */
module Bytes {

  type byte = b: int | 0 <= b < 256

  /** Network order, as `htons` leaves it in memory. */
  function Be16(n: nat): (b: seq<byte>)
    requires n < 65536
  {
    [n / 256, n % 256]
  }

  function ReadBe16(b: seq<byte>, i: nat): (n: nat)
    requires i + 2 <= |b|
    ensures n < 65536
  {
    (b[i] as int) * 256 + b[i + 1] as int
  }

  lemma ReadWrittenBe16(b: seq<byte>, i: nat, n: nat)
    requires n < 65536 && i + 2 <= |b| && b[i..i + 2] == Be16(n)
    ensures ReadBe16(b, i) == n
  {
    assert b[i] == b[i..i + 2][0] && b[i + 1] == b[i..i + 2][1];
  }

  /** `1 << k` */
  function Power(k: nat): (p: nat)
    ensures p >= 1
  {
    if k == 0 then 1 else 2 * Power(k - 1)
  }

  lemma PowerFour(k: nat)
    ensures Power(k + 4) == 16 * Power(k)
  {
    assert Power(k + 2) == 4 * Power(k);
  }

  lemma PowersOfOctets()
    ensures Power(8) == 256 && Power(16) == 65536
  {
    PowerFour(0);
    PowerFour(4);
    PowerFour(8);
    PowerFour(12);
  }

  // ----- a sequence at a place in a buffer

  /** `e` stands in `buf` at `pos`.  The octets come into view only where a `Look` term does. */
  ghost predicate At(buf: seq<byte>, pos: nat, e: seq<byte>) {
    pos + |e| <= |buf| && forall k {:trigger Look(k)} :: Look(k) ==> buf[pos..pos + |e|] == e
  }

  ghost predicate Look(k: nat) {
    true
  }

  lemma AtParts(buf: seq<byte>, pos: nat, e: seq<byte>, f: seq<byte>)
    ensures At(buf, pos, e + f) <==> At(buf, pos, e) && At(buf, pos + |e|, f)
  {
    assert Look(0);
    if At(buf, pos, e + f) {
      var w := buf[pos..pos + |e + f|];
      assert buf[pos..pos + |e|] == w[..|e|] && buf[pos + |e|..pos + |e| + |f|] == w[|e|..];
    }
    if At(buf, pos, e) && At(buf, pos + |e|, f) {
      assert buf[pos..pos + |e + f|] == buf[pos..pos + |e|] + buf[pos + |e|..pos + |e| + |f|];
    }
  }

  lemma AtSlice(buf: seq<byte>, pos: nat, e: seq<byte>)
    requires At(buf, pos, e)
    ensures buf[pos..pos + |e|] == e
  {
    assert Look(0);
  }
}
