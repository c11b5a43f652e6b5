/**
 * Storage addresses handed out by the allocators.
 *
 * A chunk of a slab pool is named by the pool's chunk size, the index of the
 * slab it lives in and its offset inside that slab; a block obtained from the
 * general-purpose fallback allocator is named by an opaque identifier. Since a
 * chunk records its pool's chunk size, chunks of different pools and blocks of
 * the fallback can never be confused with one another.
 */
module Addresses {

  datatype Addr =
    | Chunk(chunkSize: nat, slab: nat, offset: nat)
    | Block(id: nat)

  datatype Option<T> = None | Some(value: T)

  /** A position at which `x` occurs in `s`, or `|s|` when it does not occur. */
  ghost function IndexOf<T>(s: seq<T>, x: T): (i: nat)
    ensures i <= |s|
    ensures i < |s| <==> x in s
    ensures i < |s| ==> s[i] == x
  {
    if x in s then var i :| 0 <= i < |s| && s[i] == x; i else |s|
  }

  /**
   * True when no element of `s` occurs twice: every element is found at its
   * own position.
   */
  ghost predicate Distinct<T>(s: seq<T>) {
    forall i {:trigger IndexOf(s, s[i])} :: 0 <= i < |s| ==> IndexOf(s, s[i]) == i
  }

  /** The elements of `s` in the opposite order. */
  ghost function Reversed<T>(s: seq<T>): (r: seq<T>)
    ensures |r| == |s| && forall i :: 0 <= i < |s| ==> r[i] == s[|s| - 1 - i]
  {
    if s == [] then [] else Reversed(s[1..]) + [s[0]]
  }

  /** In a `Distinct` sequence, elements at different positions differ. */
  lemma DistinctAt<T>(s: seq<T>, i: int, j: int)
    requires Distinct(s) && 0 <= i < |s| && 0 <= j < |s| && i != j
    ensures s[i] != s[j]
  {
    assert IndexOf(s, s[i]) == i && IndexOf(s, s[j]) == j;
  }

  /** A sequence whose elements differ pairwise is `Distinct`. */
  lemma DistinctByPairs<T>(s: seq<T>)
    requires forall i, j :: 0 <= i < j < |s| ==> s[i] != s[j]
    ensures Distinct(s)
  {
    forall i | 0 <= i < |s| ensures IndexOf(s, s[i]) == i {
      var k := IndexOf(s, s[i]);
      assert s[k] == s[i];
    }
  }
}
