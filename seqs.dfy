/**
 * Facts about sequences of any element type, stated once so that proofs about
 * sequences of trees and strings can cite them instead of rediscovering them.
 */
module Seqs {

  /** A non-empty concatenation starts with the first sequence's head, followed by its tail and the second. */
  lemma TailOfConcat<T>(a: seq<T>, b: seq<T>)
    requires a != []
    ensures (a + b)[0] == a[0] && (a + b)[1..] == a[1..] + b
  {
  }

  /** The empty sequence is a unit of concatenation. */
  lemma ConcatEmpty<T>(a: seq<T>)
    ensures [] + a == a && a + [] == a
  {
  }

  /** Concatenation is associative. */
  lemma ConcatAssoc<T>(a: seq<T>, b: seq<T>, c: seq<T>)
    ensures (a + b) + c == a + (b + c)
  {
  }

  /** Splitting at `k` and joining again gives the sequence back. */
  lemma SplitAt<T>(s: seq<T>, k: nat)
    requires k <= |s|
    ensures s[..k] + s[k..] == s
  {
  }

  /** A sequence is what comes before position `k`, the element at `k`, and what comes after. */
  lemma SplitAround<T>(s: seq<T>, k: nat)
    requires k < |s|
    ensures s == s[..k] + [s[k]] + s[k + 1..]
  {
  }

  /** The first `k + 1` elements are the first `k` and the one at `k`. */
  lemma TakeSnoc<T>(s: seq<T>, k: nat)
    requires k < |s|
    ensures s[..k + 1] == s[..k] + [s[k]]
  {
  }

  /** A non-empty sequence is its front followed by its last element. */
  lemma SplitLast<T>(s: seq<T>)
    requires s != []
    ensures s[..|s| - 1] + [s[|s| - 1]] == s
  {
  }

  /** Taking `i` elements of the first `j` is taking `i` elements. */
  lemma TakeOfTake<T>(s: seq<T>, i: nat, j: nat)
    requires i <= j <= |s|
    ensures s[..j][..i] == s[..i]
  {
  }

  /** Dropping the last element of `s + [x]` gives `s`. */
  lemma DropLast<T>(s: seq<T>, x: T)
    ensures (s + [x])[..|s|] == s && (s + [x])[|s|] == x
  {
  }

  /** A three-element sequence is its three singletons joined. */
  lemma ThreeElements<T>(x: T, y: T, z: T)
    ensures [x, y, z] == [x] + [y] + [z]
  {
  }

  /** A singleton has nothing after its element. */
  lemma SingletonTail<T>(x: T)
    ensures [x][0] == x && [x][1..] == []
  {
  }
}
