/** Hash values, the hash functions of a tree, and small shared containers. */
module Hashing {

  newtype byte = b: int | 0 <= b < 256

  const HASH_SIZE: nat := 32

  /** A 256-bit value, kept as its 32 bytes. */
  type Hash = s: seq<byte> | |s| == HASH_SIZE witness seq(HASH_SIZE, _ => 0)

  /** The zero value, which the tree also uses as "no root cached". */
  const EMPTY_HASH: Hash := [
    0, 0, 0, 0, 0, 0, 0, 0, 0, 0, 0, 0, 0, 0, 0, 0, 0, 0, 0, 0, 0, 0, 0, 0, 0, 0, 0, 0, 0, 0, 0, 0
  ]

  /** The hash functions. Nothing is assumed about them, so every result holds
      for all of them. */
  datatype Hasher = Hasher(leaf: seq<byte> -> Hash, children: (Hash, Hash) -> Hash, empty: Hash)

  /** No two different pairs of s have the same parent hash. Soundness results
      ask this of the pairs that were hashed, never of all pairs: a function
      into 32 bytes cannot be injective. */
  ghost predicate CollisionFree(h: Hasher, s: set<(Hash, Hash)>) {
    forall a, b :: a in s && b in s && h.children(a.0, a.1) == h.children(b.0, b.1) ==> a == b
  }

  datatype Option<+T> = None | Some(value: T)

  function Last<T>(s: seq<T>): T
    requires s != []
  {
    s[|s| - 1]
  }

  function Init<T>(s: seq<T>): seq<T>
    requires s != []
  {
    s[..|s| - 1]
  }

  function Reverse<T>(s: seq<T>): (r: seq<T>)
    ensures |r| == |s|
    ensures forall i :: 0 <= i < |s| ==> r[i] == s[|s| - 1 - i]
  {
    seq(|s|, i requires 0 <= i < |s| => s[|s| - 1 - i])
  }

  lemma {:induction false} SubsetSize<T>(a: set<T>, b: set<T>)
    requires a <= b
    ensures |a| <= |b|
  {
    if a == {} {
    } else {
      var x :| x in a;
      SubsetSize(a - {x}, b - {x});
    }
  }
}
