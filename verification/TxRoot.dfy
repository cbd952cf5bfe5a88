/** The transaction root of a block: ComputeMerkleRoot of common/merkle_tree.go,
    and the duplicate check of Block.Deserialization in core/types/block.go that
    makes the root determine the transactions.

    Here children stands for the double hash of a concatenated pair. */
module TxRoot {
  import opened Hashing
  import opened Bits
  import opened LevelTree

  /** The pair hashed into node i of the next level; an odd last node is paired
      with itself. */
  function PairAt(s: seq<Hash>, i: nat): (Hash, Hash)
    requires 2 * i < |s|
  {
    (s[2 * i], if 2 * i + 1 < |s| then s[2 * i + 1] else s[2 * i])
  }

  function NodeAt(h: Hasher, s: seq<Hash>, i: nat): Hash
    requires 2 * i < |s|
  {
    var p := PairAt(s, i);
    h.children(p.0, p.1)
  }

  function Paired(h: Hasher, s: seq<Hash>): (r: seq<Hash>)
    ensures |r| == (|s| + 1) / 2
    ensures forall i :: 0 <= i < |r| ==> r[i] == NodeAt(h, s, i)
  {
    seq((|s| + 1) / 2, i requires 0 <= i < (|s| + 1) / 2 => NodeAt(h, s, i))
  }

  /** The recursive pairing definition of the root. */
  function Root(h: Hasher, s: seq<Hash>): Hash
    requires s != []
    decreases |s|
  {
    if |s| == 1 then s[0] else Root(h, Paired(h, s))
  }

  /** The root of a possibly empty list; the empty list has the zero root. */
  function ListRoot(h: Hasher, s: seq<Hash>): Hash {
    if s == [] then EMPTY_HASH else Root(h, s)
  }

  ghost function LevelPairs(s: seq<Hash>): set<(Hash, Hash)> {
    set i | 0 <= i < (|s| + 1) / 2 :: PairAt(s, i)
  }

  /** All the pairs hashed while computing the root. */
  ghost function RootPairs(h: Hasher, s: seq<Hash>): set<(Hash, Hash)>
    decreases |s|
  {
    if |s| <= 1 then {} else LevelPairs(s) + RootPairs(h, Paired(h, s))
  }

  // --- the in-place computation

  /** The prefix of a still to be paired is overwritten from the left; node i is
      written after its two children, at 2i and 2i+1, were read. */
  method ComputeMerkleRoot(h: Hasher, hashes: array<Hash>) returns (root: Hash)
    modifies hashes
    ensures root == ListRoot(h, old(hashes[..]))
  {
    if hashes.Length == 0 {
      return EMPTY_HASH;
    }
    var len := hashes.Length;
    assert hashes[..len] == hashes[..];
    while len != 1
      invariant 1 <= len <= hashes.Length
      invariant Root(h, hashes[..len]) == Root(h, old(hashes[..]))
    {
      len := PairInPlace(h, hashes, len);
    }
    assert hashes[..1] == [hashes[0]];
    return hashes[0];
  }

  method PairInPlace(h: Hasher, hashes: array<Hash>, len: nat) returns (newLen: nat)
    requires 1 < len <= hashes.Length
    modifies hashes
    ensures newLen == (len + 1) / 2
    ensures hashes[..newLen] == Paired(h, old(hashes[..len]))
  {
    var n := len / 2;
    ghost var s := hashes[..len];
    for i := 0 to n
      invariant forall j :: 0 <= j < i ==> hashes[j] == h.children(s[2 * j], s[2 * j + 1])
      invariant forall j :: i <= j < len ==> hashes[j] == s[j]
    {
      hashes[i] := h.children(hashes[2 * i], hashes[2 * i + 1]);
    }
    if len == 2 * n + 1 {
      hashes[n] := h.children(hashes[2 * n], hashes[2 * n]);
      newLen := n + 1;
    } else {
      newLen := n;
    }
  }

  // --- roots of lists of different depths are different

  ghost predicate Distinct<T(!new)>(s: seq<T>) {
    forall i, j :: 0 <= i < j < |s| ==> s[i] != s[j]
  }

  lemma PairOfLevel(s: seq<Hash>, i: nat)
    requires 2 * i < |s|
    ensures PairAt(s, i) in LevelPairs(s)
  {
  }

  /** The pairs of equal levels are equal. */
  lemma EqualPairs(h: Hasher, s: seq<Hash>, t: seq<Hash>, p: set<(Hash, Hash)>, i: nat)
    requires Paired(h, s) == Paired(h, t) && 2 * i < |s|
    requires LevelPairs(s) <= p && LevelPairs(t) <= p && CollisionFree(h, p)
    ensures 2 * i < |t| && PairAt(s, i) == PairAt(t, i)
  {
    assert |Paired(h, s)| == |Paired(h, t)|;
    assert Paired(h, s)[i] == Paired(h, t)[i];
    PairOfLevel(s, i);
    PairOfLevel(t, i);
  }

  /** The leftmost node j levels above s. */
  ghost function Spine(h: Hasher, s: seq<Hash>, j: nat): Hash
    requires s != []
    decreases j
  {
    if j == 0 then s[0] else Spine(h, Paired(h, s), j - 1)
  }

  lemma {:induction false} RootIsSpine(h: Hasher, s: seq<Hash>)
    requires s != []
    ensures Root(h, s) == Spine(h, s, Depth(|s|))
    decreases |s|
  {
    if |s| <= 1 {
    } else {
      RootIsSpine(h, Paired(h, s));
    }
  }

  /** Each spine node is the hash of a pair that starts with the one below. */
  lemma {:induction false} SpineNode(h: Hasher, s: seq<Hash>, j: nat) returns (x: Hash)
    requires s != [] && 0 < j <= Depth(|s|)
    ensures Spine(h, s, j) == h.children(Spine(h, s, j - 1), x)
    ensures (Spine(h, s, j - 1), x) in RootPairs(h, s)
    decreases j
  {
    hide LevelPairs, Depth, Paired;
    SpineLevel(h, s);
    if j == 1 {
      x := PairAt(s, 0).1;
      PairOfLevel(s, 0);
    } else {
      x := SpineNode(h, Paired(h, s), j - 1);
    }
  }

  lemma SpineLevel(h: Hasher, s: seq<Hash>)
    requires s != []
    ensures Depth(|s|) > 0 ==> |s| > 1 && Depth(|s|) == 1 + Depth(|Paired(h, s)|)
    ensures Paired(h, s)[0] == NodeAt(h, s, 0)
  {
  }

  lemma {:induction false} SpinesAlign(h: Hasher, s: seq<Hash>, i: nat, t: seq<Hash>, j: nat, p: set<(Hash, Hash)>)
    requires s != [] && t != [] && i <= Depth(|s|) && i < j <= Depth(|t|)
    requires Spine(h, s, i) == Spine(h, t, j)
    requires RootPairs(h, s) <= p && RootPairs(h, t) <= p && CollisionFree(h, p)
    ensures s[0] == Spine(h, t, j - i)
    decreases i
  {
    hide Spine, RootPairs, Depth;
    if i == 0 {
      SpineZero(h, s);
    } else {
      var x := SpineNode(h, s, i);
      var y := SpineNode(h, t, j);
      SpinesAlign(h, s, i - 1, t, j - 1, p);
    }
  }

  lemma SpineZero(h: Hasher, s: seq<Hash>)
    requires s != []
    ensures Spine(h, s, 0) == s[0]
  {
  }

  /** No element of s is the hash of a pair of p. */
  ghost predicate Ground(h: Hasher, s: seq<Hash>, p: set<(Hash, Hash)>) {
    forall x, q :: x in s && q in p ==> x != h.children(q.0, q.1)
  }

  lemma GroundAt(h: Hasher, s: seq<Hash>, p: set<(Hash, Hash)>, l: Hash, r: Hash)
    requires s != [] && Ground(h, s, p) && (l, r) in p
    ensures s[0] != h.children(l, r)
  {
    assert s[0] in s;
  }

  /** A root belongs to lists of one depth only, since leaves are no pair hashes. */
  lemma NotShallower(h: Hasher, s: seq<Hash>, t: seq<Hash>, p: set<(Hash, Hash)>)
    requires s != [] && t != [] && Root(h, s) == Root(h, t)
    requires RootPairs(h, s) <= p && RootPairs(h, t) <= p && CollisionFree(h, p) && Ground(h, s, p)
    ensures Depth(|s|) >= Depth(|t|)
  {
    hide *;
    var i, j := Depth(|s|), Depth(|t|);
    if i < j {
      RootIsSpine(h, s);
      RootIsSpine(h, t);
      SpinesAlign(h, s, i, t, j, p);
      var x := SpineNode(h, t, j - i);
      GroundAt(h, s, p, Spine(h, t, j - i - 1), x);
    }
  }

  // --- which lists share a root

  /** The leaf at place i when each odd last subtree of n leaves is repeated until
      the tree is perfect. */
  function Source(n: nat, i: nat): (k: nat)
    requires n > 0
    ensures k < n
    decreases n
  {
    if n == 1 then 0
    else
      var k := 2 * Source((n + 1) / 2, i / 2) + i % 2;
      if k < n then k else n - 1
  }

  /** The leaves of the perfect tree that s stands for. */
  function Padded(s: seq<Hash>): (r: seq<Hash>)
    requires s != []
    ensures |r| == Pow2(Depth(|s|))
  {
    seq(Pow2(Depth(|s|)), i requires 0 <= i < Pow2(Depth(|s|)) => s[Source(|s|, i)])
  }

  lemma PaddedSize(n: nat)
    requires n > 1
    ensures Pow2(Depth(n)) == 2 * Pow2(Depth((n + 1) / 2))
  {
  }

  lemma PaddedPair(s: seq<Hash>, i: nat)
    requires |s| > 1 && i < Pow2(Depth((|s| + 1) / 2))
    ensures |Padded(s)| == 2 * Pow2(Depth((|s| + 1) / 2))
    ensures PairAt(Padded(s), i) == PairAt(s, Source((|s| + 1) / 2, i))
  {
    hide Depth, Pow2;
    PaddedSize(|s|);
    assert 2 * i / 2 == i && (2 * i + 1) / 2 == i;
  }

  /** Padding and pairing commute. */
  lemma PaddedLevel(h: Hasher, s: seq<Hash>)
    requires |s| > 1
    ensures Paired(h, Padded(s)) == Padded(Paired(h, s))
  {
    hide Padded, Source, Depth, Pow2, PairAt;
    PaddedSize(|s|);
    var r := Paired(h, s);
    forall i | 0 <= i < Pow2(Depth(|r|))
      ensures Paired(h, Padded(s))[i] == Padded(r)[i]
    {
      PaddedPair(s, i);
      PaddedAt(r, i);
    }
  }

  lemma PaddedAt(s: seq<Hash>, i: nat)
    requires s != [] && i < |Padded(s)|
    ensures Padded(s)[i] == s[Source(|s|, i)]
  {
  }

  lemma PaddedSingle(s: seq<Hash>)
    requires |s| == 1
    ensures Padded(s) == s
  {
  }

  /** A list has the root of the perfect tree it stands for, whatever the hash
      function. Unless its length is a power of two that is a different list. */
  lemma {:induction false} PaddingKeepsRoot(h: Hasher, s: seq<Hash>)
    requires s != []
    ensures Root(h, Padded(s)) == Root(h, s)
    ensures Padded(s) == s <==> IsPow2(|s|)
    decreases |s|
  {
    hide Padded, Depth, Pow2, Paired;
    Pow2IsPow2(Depth(|s|));
    if |s| == 1 {
      PaddedSingle(s);
    } else {
      PaddedSize(|s|);
      PaddedLevel(h, s);
      PaddingKeepsRoot(h, Paired(h, s));
      if IsPow2(|s|) {
        PerfectIsPadded(s);
      }
    }
  }

  lemma {:induction false} PerfectSource(n: nat, i: nat)
    requires IsPow2(n) && i < n
    ensures Source(n, i) == i
  {
    if n <= 1 {
    } else {
      PerfectSource(n / 2, i / 2);
      assert (n + 1) / 2 == n / 2;
    }
  }

  lemma {:induction false} PerfectDepth(n: nat)
    requires IsPow2(n)
    ensures n == Pow2(Depth(n))
  {
    hide Depth, Pow2;
    if n == 1 {
      DepthOfOne();
    } else {
      PerfectDepth(n / 2);
      assert (n + 1) / 2 == n / 2;
      PaddedSize(n);
    }
  }

  lemma DepthOfOne()
    ensures Pow2(Depth(1)) == 1
  {
  }

  lemma PerfectIsPadded(s: seq<Hash>)
    requires IsPow2(|s|)
    ensures Padded(s) == s
  {
    hide Source, Depth, IsPow2;
    PerfectDepth(|s|);
    forall i | 0 <= i < |s|
      ensures Padded(s)[i] == s[i]
    {
      PerfectSource(|s|, i);
    }
  }

  /** At equal depth, equal roots come from equal perfect trees. */
  lemma {:induction false} EqualAtEqualDepth(h: Hasher, s: seq<Hash>, t: seq<Hash>, p: set<(Hash, Hash)>)
    requires s != [] && t != [] && Depth(|s|) == Depth(|t|) && Root(h, s) == Root(h, t)
    requires RootPairs(h, s) <= p && RootPairs(h, t) <= p && CollisionFree(h, p)
    ensures Padded(s) == Padded(t)
    decreases |s|
  {
    hide Padded, CollisionFree, LevelPairs, Paired;
    if |s| == 1 {
      PaddedSingle(s);
      PaddedSingle(t);
    } else {
      EqualAtEqualDepth(h, Paired(h, s), Paired(h, t), p);
      PaddedLevel(h, s);
      PaddedLevel(h, t);
      PaddedPairs(s);
      PaddedPairs(t);
      PerfectLevelsAgree(h, Padded(s), Padded(t), p);
    }
  }

  lemma PaddedPairs(s: seq<Hash>)
    requires |s| > 1
    ensures LevelPairs(Padded(s)) <= LevelPairs(s) && |Padded(s)| % 2 == 0
  {
    hide Padded, Source, Depth, Pow2, PairAt;
    PaddedSize(|s|);
    forall i | 0 <= i < (|Padded(s)| + 1) / 2
      ensures PairAt(Padded(s), i) in LevelPairs(s)
    {
      PaddedPair(s, i);
      PairOfLevel(s, Source((|s| + 1) / 2, i));
    }
  }

  lemma PerfectLevelsAgree(h: Hasher, s: seq<Hash>, t: seq<Hash>, p: set<(Hash, Hash)>)
    requires Paired(h, s) == Paired(h, t) && |s| % 2 == 0 && |t| % 2 == 0
    requires LevelPairs(s) <= p && LevelPairs(t) <= p && CollisionFree(h, p)
    ensures s == t
  {
    assert |Paired(h, s)| == |Paired(h, t)|;
    forall i | 0 <= i < |s|
      ensures s[i] == t[i]
    {
      EqualPairs(h, s, t, p, i / 2);
    }
  }

  /** Two lists have the same root exactly if they stand for the same perfect
      tree, that is, if they differ by repeated odd last subtrees only. */
  lemma SameRootIffSamePadding(h: Hasher, s: seq<Hash>, t: seq<Hash>, p: set<(Hash, Hash)>)
    requires s != [] && t != []
    requires RootPairs(h, s) <= p && RootPairs(h, t) <= p && CollisionFree(h, p)
    requires Ground(h, s, p) && Ground(h, t, p)
    ensures Root(h, s) == Root(h, t) <==> Padded(s) == Padded(t)
  {
    hide *;
    PaddingKeepsRoot(h, s);
    PaddingKeepsRoot(h, t);
    if Root(h, s) == Root(h, t) {
      NotShallower(h, s, t, p);
      NotShallower(h, t, s, p);
      EqualAtEqualDepth(h, s, t, p);
    }
  }

  // --- the case of distinct hashes

  lemma {:induction false} SourceCovers(n: nat, k: nat) returns (i: nat)
    requires k < n
    ensures i < Pow2(Depth(n)) && Source(n, i) == k
    decreases n
  {
    if n == 1 {
      i := 0;
    } else {
      var j := SourceCovers((n + 1) / 2, k / 2);
      i := 2 * j + k % 2;
    }
  }

  ghost function Elements(s: seq<Hash>): set<Hash> {
    set x | x in s
  }

  lemma {:induction false} DistinctSize(s: seq<Hash>)
    requires Distinct(s)
    ensures |Elements(s)| == |s|
  {
    if s == [] {
    } else {
      DistinctSize(Init(s));
      assert Elements(s) == Elements(Init(s)) + {Last(s)};
    }
  }

  lemma PaddedElements(s: seq<Hash>)
    requires s != []
    ensures Elements(Padded(s)) == Elements(s)
  {
    hide Source, Depth, Pow2;
    forall x | x in s
      ensures x in Padded(s)
    {
      var k :| 0 <= k < |s| && s[k] == x;
      var i := SourceCovers(|s|, k);
      assert Padded(s)[i] == x;
    }
  }

  lemma DistinctPadding(s: seq<Hash>, t: seq<Hash>)
    requires s != [] && t != [] && Distinct(s) && Distinct(t) && Padded(s) == Padded(t)
    ensures s == t
  {
    hide Source, Depth, Pow2, Distinct, Padded;
    PaddedElements(s);
    PaddedElements(t);
    DistinctSize(s);
    DistinctSize(t);
    forall k | 0 <= k < |s|
      ensures s[k] == t[k]
    {
      var i := SourceCovers(|s|, k);
      PaddedAt(s, i);
      PaddedAt(t, i);
    }
  }

  /** Nonempty lists of distinct hashes with the same root are the same list. */
  lemma RootDeterminesList(h: Hasher, s: seq<Hash>, t: seq<Hash>, p: set<(Hash, Hash)>)
    requires s != [] && t != [] && Distinct(s) && Distinct(t) && Root(h, s) == Root(h, t)
    requires RootPairs(h, s) <= p && RootPairs(h, t) <= p && CollisionFree(h, p)
    requires Ground(h, s, p) && Ground(h, t, p)
    ensures s == t
  {
    hide *;
    SameRootIffSamePadding(h, s, t, p);
    DistinctPadding(s, t);
  }

  // --- accepting the transactions of a block

  datatype BlockCheck = Accepted | Duplicated | RootMismatch

  /** The checks on the decoded transaction hashes of a block against the root in
      its header. */
  method CheckTransactions(h: Hasher, txHashes: seq<Hash>, transactionsRoot: Hash) returns (r: BlockCheck)
    ensures r == Duplicated <==> exists i, j :: 0 <= i < j < |txHashes| && txHashes[i] == txHashes[j]
    ensures r == Accepted <==> Distinct(txHashes) && ListRoot(h, txHashes) == transactionsRoot
  {
    var mask: set<Hash> := {};
    for i := 0 to |txHashes|
      invariant mask == set j | 0 <= j < i :: txHashes[j]
      invariant Distinct(txHashes[..i])
    {
      if txHashes[i] in mask {
        var j :| 0 <= j < i && txHashes[j] == txHashes[i];
        return Duplicated;
      }
      mask := mask + {txHashes[i]};
    }
    assert txHashes[..|txHashes|] == txHashes;
    var workspace := new Hash[|txHashes|](i requires 0 <= i < |txHashes| => txHashes[i]);
    assert workspace[..] == txHashes;
    var root := ComputeMerkleRoot(h, workspace);
    return if root != transactionsRoot then RootMismatch else Accepted;
  }

  ghost predicate BlockAccepts(h: Hasher, txHashes: seq<Hash>, transactionsRoot: Hash) {
    Distinct(txHashes) && ListRoot(h, txHashes) == transactionsRoot
  }

  /** Two nonempty transaction lists accepted under one header root have the same
      hashes in the same order. */
  lemma AcceptedListsAgree(h: Hasher, s: seq<Hash>, t: seq<Hash>, root: Hash, p: set<(Hash, Hash)>)
    requires s != [] && t != [] && BlockAccepts(h, s, root) && BlockAccepts(h, t, root)
    requires RootPairs(h, s) <= p && RootPairs(h, t) <= p && CollisionFree(h, p)
    requires Ground(h, s, p) && Ground(h, t, p)
    ensures s == t
  {
    RootDeterminesList(h, s, t, p);
  }
}
