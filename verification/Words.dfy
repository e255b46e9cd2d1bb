/** Words that commute, for telling where a stretch of octets has been inserted. */
module Words {

  /** `u` is made of copies of `s`, perhaps none. */
  predicate Copies<T(==)>(u: seq<T>, s: seq<T>)
    requires s != []
  {
    u == [] || (s <= u && Copies(u[|s|..], s))
  }

  /** No part of `s` moved from its front to its end gives `s` again. */
  ghost predicate Primitive<T>(s: seq<T>) {
    forall c {:trigger s[c..]} :: 0 < c < |s| ==> s[c..] + s[..c] != s
  }

  /** A word commutes with a primitive one exactly if it is made of copies of it. */
  lemma {:induction false} CommutesIff<T>(u: seq<T>, s: seq<T>)
    requires s != [] && Primitive(s)
    ensures u + s == s + u <==> Copies(u, s)
    decreases |u|
  {
    if u == [] {
      assert u + s == s + u;
    } else if |u| < |s| {
      ShortNeverCommutes(u, s);
    } else {
      var rest := u[|s|..];
      if s <= u {
        assert u == s + rest;
        CommutesIff(rest, s);
        Unshifted(s, rest);
      } else {
        FrontOf(u, s, u);
      }
    }
  }

  lemma ShortNeverCommutes<T>(u: seq<T>, s: seq<T>)
    requires 0 < |u| < |s| && Primitive(s)
    ensures u + s != s + u
  {
    if u + s == s + u {
      Rotates(u, s);
    }
  }

  lemma Rotates<T>(u: seq<T>, s: seq<T>)
    requires |u| <= |s| && u + s == s + u
    ensures s[|u|..] + s[..|u|] == s
  {
    var c := |u|;
    assert u == (u + s)[..c] == (s + u)[..c] == s[..c];
    assert s == (u + s)[c..] == (s + u)[c..] == s[c..] + u;
  }

  lemma Unshifted<T>(s: seq<T>, rest: seq<T>)
    ensures (s + rest) + s == s + (s + rest) <==> rest + s == s + rest
  {
    assert (s + rest) + s == s + (rest + s);
    assert (s + (rest + s))[|s|..] == rest + s && (s + (s + rest))[|s|..] == s + rest;
  }

  lemma FrontOf<T>(u: seq<T>, s: seq<T>, v: seq<T>)
    requires |s| <= |u| && !(s <= u)
    ensures u + s != s + v
  {
    assert (u + s)[..|s|] == u[..|s|] && (s + v)[..|s|] == s;
  }

  /** `w` with `s` put in at `at`. */
  function Inserted<T>(w: seq<T>, at: nat, s: seq<T>): (r: seq<T>)
    requires at <= |w|
    ensures |r| == |w| + |s|
  {
    w[..at] + s + w[at..]
  }

  lemma InsertedBetween<T>(a: seq<T>, b: seq<T>, s: seq<T>)
    ensures Inserted(a + b, |a|, s) == a + s + b
  {
    assert (a + b)[..|a|] == a && (a + b)[|a|..] == b;
  }

  /** What stands between the two places, whichever comes first. */
  function Between<T>(w: seq<T>, at: nat, p: nat): seq<T>
    requires at <= |w| && p <= |w|
  {
    if at <= p then w[at..p] else w[p..at]
  }

  /** It does not matter at which of two places `s` is put in exactly if it commutes with what is between. */
  lemma InsertedAlikeIff<T>(w: seq<T>, at: nat, p: nat, s: seq<T>)
    requires at <= |w| && p <= |w|
    ensures Inserted(w, at, s) == Inserted(w, p, s) <==> Between(w, at, p) + s == s + Between(w, at, p)
  {
    if at <= p {
      AlikeInOrder(w[..at], w[at..p], w[p..], s);
      Parts(w, at, p, s);
    } else {
      AlikeInOrder(w[..p], w[p..at], w[at..], s);
      Parts(w, p, at, s);
    }
  }

  lemma Parts<T>(w: seq<T>, at: nat, p: nat, s: seq<T>)
    requires at <= p <= |w|
    ensures Inserted(w, at, s) == w[..at] + (s + w[at..p]) + w[p..]
    ensures Inserted(w, p, s) == w[..at] + (w[at..p] + s) + w[p..]
  {
    assert w[at..] == w[at..p] + w[p..] && w[..p] == w[..at] + w[at..p];
  }

  lemma AlikeInOrder<T>(a: seq<T>, u: seq<T>, b: seq<T>, s: seq<T>)
    ensures a + (s + u) + b == a + (u + s) + b <==> u + s == s + u
  {
    var n := |u| + |s|;
    assert (a + (s + u) + b)[|a|..|a| + n] == s + u;
    assert (a + (u + s) + b)[|a|..|a| + n] == u + s;
  }

  lemma Regrouped<T>(a: seq<T>, b: seq<T>, c: seq<T>)
    ensures (a + b) + c == a + (b + c)
  {
  }
}
