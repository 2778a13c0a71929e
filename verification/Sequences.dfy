/** Sequences seen from their end. */
module Sequences {

  function Init<T>(s: seq<T>): seq<T>
    requires s != []
  {
    s[..|s| - 1]
  }

  function Last<T>(s: seq<T>): T
    requires s != []
  {
    s[|s| - 1]
  }

  /** JavaScript's slice(-n) for positive n. */
  function LastN<T>(s: seq<T>, n: nat): seq<T> {
    if |s| <= n then s else s[|s| - n..]
  }

  lemma LastNIsEnd<T>(s: seq<T>, n: nat)
    ensures |LastN(s, n)| == (if |s| < n then |s| else n) && exists a :: s == a + LastN(s, n)
  {
    var k := |s| - |LastN(s, n)|;
    assert s == s[..k] + LastN(s, n);
  }

  /** s without the element at i, as splice(i, 1) leaves it. */
  function Without<T>(s: seq<T>, i: nat): seq<T> {
    if i < |s| then s[..i] + s[i + 1..] else s
  }

  lemma WithoutLater<T>(s: seq<T>, i: nat)
    requires 0 < i && s != []
    ensures Without(s, i) == [s[0]] + Without(s[1..], i - 1)
  {
  }
}
