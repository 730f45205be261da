/** Facts about sequences that proofs about concatenation name. */
module Sequences {
  /** s without its element number k. */
  function Without<T>(s: seq<T>, k: nat): seq<T>
    requires k < |s|
  {
    s[..k] + s[k + 1..]
  }

  lemma Associate<T>(a: seq<T>, b: seq<T>, c: seq<T>)
    ensures (a + b) + c == a + (b + c)
  {
  }

  lemma SameTail<T>(a: seq<T>, b: seq<T>, c: seq<T>)
    ensures a + b == a + c ==> b == c
  {
    assert (a + b)[|a|..] == b && (a + c)[|a|..] == c;
  }

  /** One element moves from the right part to the left one. */
  lemma MoveOne<T>(a: seq<T>, b: seq<T>)
    requires b != []
    ensures a + b == (a + [b[0]]) + b[1..]
  {
  }

  /** A sequence cut at i in front of another one. */
  lemma CutInFront<T>(a: seq<T>, i: nat, b: seq<T>)
    requires i <= |a|
    ensures a + b == a[..i] + (a[i..] + b)
    ensures i < |a| ==> a[i..] + b == [a[i]] + (a[i + 1..] + b)
  {
  }

  /** A cut behind the first element, seen from the tail. */
  lemma TailCut<T>(s: seq<T>, n: nat)
    requires 0 < n <= |s|
    ensures s[1..][n - 1..] == s[n..] && s[..n] == [s[0]] + s[1..][..n - 1]
  {
  }
}
