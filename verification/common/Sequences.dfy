/** Facts about sequences that many proofs need one of at a time. */
module Sequences {

  lemma Regroup<T>(a: seq<T>, b: seq<T>, c: seq<T>)
    ensures a + b + c == a + (b + c)
  {
  }

  /** The first of the elements from `k` on. */
  lemma FirstOff<T>(a: seq<T>, k: nat)
    requires k < |a|
    ensures a[k..] == [a[k]] + a[k + 1..] && a[k..][0] == a[k] && a[k..][1..] == a[k + 1..]
  {
  }

  /** A slice of what is left from `i` on. */
  lemma SliceTwice<T>(a: seq<T>, i: nat, n: nat)
    requires i <= |a|
    ensures i + n <= |a| ==> a[i..][n..] == a[i + n..]
    ensures i + n < |a| ==> a[i..][n + 1..] == a[i + n + 1..] && a[i..][n] == a[i + n]
    ensures 1 <= n && i + n <= |a| ==> a[i..][n - 1] == a[i + n - 1]
  {
  }

  lemma EmptyEnds<T>(a: seq<T>)
    ensures a[..0] == [] && a[|a|..] == [] && a[0..] == a && a[..|a|] == a && a + [] == a && [] + a == a
  {
  }
}
