/** The block operations of the C library on a buffer. */
module Memory {
  import opened Bytes

  /** `buf` with the `n` octets at `src` copied to `dst`. */
  function Moved(buf: seq<byte>, dst: nat, src: nat, n: nat): (m: seq<byte>)
    requires dst + n <= |buf| && src + n <= |buf|
    ensures |m| == |buf|
  {
    buf[..dst] + buf[src..src + n] + buf[dst + n..]
  }

  /** `memmove` inside a buffer. */
  method Move(buf: array<byte>, dst: nat, src: nat, n: nat)
    requires dst + n <= buf.Length && src + n <= buf.Length
    modifies buf
    ensures buf[..] == Moved(old(buf[..]), dst, src, n)
  {
    forall i | 0 <= i < n {
      buf[dst + i] := buf[src + i];
    }
  }

  /** `memset` to zero. */
  method Zero(buf: array<byte>, dst: nat, n: nat)
    requires dst + n <= buf.Length
    modifies buf
    ensures buf[..] == Written(old(buf[..]), dst, seq(n, _ => 0))
  {
    forall i | 0 <= i < n {
      buf[dst + i] := 0;
    }
  }

  /** `buf` with `s` written at `dst`. */
  function Written(buf: seq<byte>, dst: nat, s: seq<byte>): (m: seq<byte>)
    requires dst + |s| <= |buf|
    ensures |m| == |buf|
  {
    buf[..dst] + s + buf[dst + |s|..]
  }

  /** `memcpy` of `s` to `dst`. */
  method Write(buf: array<byte>, dst: nat, s: seq<byte>)
    requires dst + |s| <= buf.Length
    modifies buf
    ensures buf[..] == Written(old(buf[..]), dst, s)
  {
    forall i | 0 <= i < |s| {
      buf[dst + i] := s[i];
    }
  }

  /** The gap between `at` and `next` has been closed over the `n` octets from `next`; what is left behind
      them does not matter.  Folded like `At`. */
  ghost predicate Closed(m: seq<byte>, buf: seq<byte>, at: nat, next: nat, n: nat) {
    && at <= next && next + n <= |buf| && |m| == |buf|
    && forall k {:trigger Look(k)} :: Look(k) ==> m[..at] == buf[..at] && m[at..at + n] == buf[next..next + n]
  }
}
