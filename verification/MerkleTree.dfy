/** CompactMerkleTree of merkle/merkle_tree.go. */
module MerkleTree {
  import opened Hashing
  import opened Bits
  import opened MerkleSpec
  import opened MerkleProofs
  import opened HashStore
  import opened CompactTree
  import opened TreeHasher
  import opened Codec
  import opened LeafPath

  /** The split width of n leaves: 1 << (highBit(n-1) - 1). */
  method SplitWidth(n: nat) returns (k: nat)
    requires n >= 2
    ensures k == Split(n)
  {
    var hb := HighBit(n - 1);
    k := Pow2(hb - 1);
    Pow2IsPow2(hb - 1);
    SplitUnique(n, k);
  }

  function LeafHashes(h: Hasher, s: seq<Hash>): (r: seq<Hash>)
    ensures |r| == |s|
    ensures forall i :: 0 <= i < |s| ==> r[i] == h.leaf(s[i])
  {
    if s == [] then [] else LeafHashes(h, Init(s)) + [h.leaf(Last(s))]
  }

  datatype Result<+T> = Proof(proof: T) | WrongParameters | NotAvailableYet | NoHashStore

  class CompactMerkleTree {
    var mintreeH: nat
    var hashes: seq<Hash>
    const hasher: Hasher
    const hashStore: MemHashStore?
    var rootHash: Hash
    var treeSize: nat

    /** The leaf hashes appended so far. */
    ghost var leaves: seq<Hash>

    ghost predicate Valid()
      reads this, hashStore
    {
      && treeSize == |leaves| < TWO_32
      && hashes == Frontier(hasher, leaves)
      && mintreeH == LowPosition(treeSize)
      && (rootHash == EMPTY_HASH || rootHash == Mth(hasher, leaves))
      && (hashStore != null ==> hashStore.hashes == Layout(hasher, leaves))
    }

    /** A tree over earlier leaves, given by its size and subtree roots. */
    constructor (h: Hasher, size: nat, roots: seq<Hash>, store: MemHashStore?, ghost ls: seq<Hash>)
      requires size == |ls| < TWO_32 && roots == Frontier(h, ls)
      requires store != null ==> store.hashes == Layout(h, ls)
      ensures Valid() && leaves == ls && hasher == h && hashStore == store
    {
      hasher, hashStore, leaves := h, store, ls;
      mintreeH, hashes, rootHash, treeSize := 0, [], EMPTY_HASH, 0;
      new;
      FrontierLength(h, ls);
      Update(size, roots);
    }

    /** The number of roots must be the number of 1 digits of the size. */
    method Update(size: nat, roots: seq<Hash>)
      requires size < TWO_32 && |roots| == Ones(size)
      modifies this
      ensures treeSize == size && hashes == roots && mintreeH == LowPosition(size) && rootHash == EMPTY_HASH
      ensures leaves == old(leaves)
    {
      treeSize, hashes := size, roots;
      mintreeH := LowBit(size);
      rootHash := EMPTY_HASH;
    }

    /** The root, computed once: the zero value only means "not computed", so a
        tree whose root happens to be zero is merely recomputed. */
    method Root() returns (r: Hash)
      requires Valid()
      modifies this`rootHash
      ensures Valid() && r == Mth(hasher, leaves)
    {
      if rootHash == EMPTY_HASH {
        FrontierLength(hasher, leaves);
        if |hashes| != 0 {
          FoldFrontier(hasher, leaves);
          rootHash := HashFold(hasher, hashes);
        } else {
          rootHash := hasher.empty;
        }
      }
      return rootHash;
    }

    method GetRootWithNewLeaf(newLeaf: Hash) returns (root: Hash)
      requires Valid()
      ensures root == Mth(hasher, leaves + [hasher.leaf(newLeaf)])
    {
      FoldWithNewLeaf(hasher, leaves, hasher.leaf(newLeaf));
      root := HashFold(hasher, hashes + [hasher.leaf(newLeaf)]);
    }

    method Append(leafv: seq<byte>) returns (auditPath: seq<Hash>)
      requires Valid() && treeSize + 1 < TWO_32
      modifies this, hashStore
      ensures Valid() && leaves == old(leaves) + [hasher.leaf(leafv)]
      ensures auditPath == Path(hasher, old(treeSize), leaves)
    {
      auditPath := AppendHash(hasher.leaf(leafv));
    }

    /** Appends a leaf hash, carrying like a binary counter: the new leaf joins
        one subtree root per trailing 1 digit of the size. */
    method AppendHash(leaf: Hash) returns (auditPath: seq<Hash>)
      requires Valid() && treeSize + 1 < TWO_32
      modifies this, hashStore
      ensures Valid() && leaves == old(leaves) + [leaf]
      ensures auditPath == Path(hasher, old(treeSize), leaves)
    {
      hide Frontier, Layout, Mth, Path, IsPow2, LowestOne, Carry, Digits;
      var size := |hashes|;
      auditPath := Reverse(hashes);
      FrontierIsNextPath(hasher, leaves, leaf);
      ghost var d := leaves + [leaf];
      ghost var p: nat := 1;
      var node, storehashes, s: nat := leaf, [leaf], treeSize;
      mintreeH := 1;
      StartCarry(hasher, leaves, leaf);
      while s % 2 == 1
        invariant Carry(d, s, p) && p <= |d| && mintreeH == Digits(p)
        invariant 0 <= size <= |hashes| && hashes[..size] == Frontier(hasher, d[..|d| - p])
        invariant node == Mth(hasher, d[|d| - p..])
        invariant Layout(hasher, leaves) + storehashes == Layout(hasher, d[..|d| - p]) + Layout(hasher, d[|d| - p..])
        decreases s
        modifies this`mintreeH
      {
        CarryOdd(d, s, p);
        CarryPower(d, s, p);
        CarryFrontier(hasher, d, s, p);
        CarryRoot(hasher, d, p);
        CarryLayout(hasher, d, s, p);
        mintreeH := mintreeH + 1;
        node := hasher.children(hashes[size - 1], node);
        storehashes := storehashes + [node];
        size := size - 1;
        s, p := s / 2, 2 * p;
      }
      CarryEven(d, s, p);
      CarryEndsFrontier(hasher, d, s, p);
      CarryEndsLayout(hasher, d, s, p);
      if hashStore != null {
        hashStore.Append(storehashes);
      }
      treeSize := treeSize + 1;
      hashes := hashes[..size] + [node];
      rootHash := EMPTY_HASH;
      leaves := d;
    }

    /** A copy without the store. */
    method CloneMem() returns (t: CompactMerkleTree)
      requires Valid()
      ensures fresh(t) && t.Valid() && t.hashStore == null
      ensures t.hasher == hasher && t.leaves == leaves
    {
      FrontierLength(hasher, leaves);
      t := new CompactMerkleTree(hasher, treeSize, hashes, null, leaves);
      t.rootHash := rootHash;
    }

    /** The root after appending the given leaves, without appending them. */
    method GetRootWithNewLeaves(newLeaf: seq<Hash>) returns (root: Hash)
      requires Valid() && treeSize + |newLeaf| < TWO_32
      ensures root == Mth(hasher, leaves + LeafHashes(hasher, newLeaf))
    {
      hide Mth, Frontier, Layout, LeafHashes, Path, LowPosition;
      var tree := CloneMem();
      ghost var all := LeafHashes(hasher, newLeaf);
      for i := 0 to |newLeaf|
        invariant fresh(tree) && tree.Valid() && tree.hashStore == null && tree.hasher == hasher
        invariant tree.leaves == leaves + all[..i]
      {
        var _ := tree.Append(newLeaf[i]);
        assert all[..i + 1] == all[..i] + [all[i]];
      }
      assert all[..|newLeaf|] == all;
      root := tree.Root();
    }

    /** The root of the subtree over d, read from the slots of its perfect
        subtrees behind offset in the addressable part of the store. */
    method FoldAt(offset: nat, n: nat, ghost d: seq<Hash>, ghost store: seq<Hash>) returns (root: Hash)
      requires hashStore != null && store <= hashStore.hashes && |store| < TWO_32
      requires 0 < n == |d| < MAX_LEAVES && Held(store, offset, Layout(hasher, d))
      ensures root == Mth(hasher, d)
    {
      hide Frontier, Layout, Mth, Sizes, Held;
      ghost var roots := Frontier(hasher, d);
      SlotsAddressFrontier(hasher, store, offset, d);
      FoldFrontier(hasher, d);
      SumsShift(Sizes(n, 1), 0, offset);
      var pos := GetSubTreePos(n);
      var subhashes: seq<Hash> := [];
      for p := 0 to |pos|
        invariant subhashes == roots[..p]
      {
        var slot := U32(pos[p] + offset);
        var x := hashStore.GetHash(slot - 1);
        subhashes := subhashes + [x];
      }
      assert roots[..|pos|] == roots;
      root := HashFold(hasher, subhashes);
    }

    /** The root of D[0:n], from the store alone. */
    method MerkleRoot(n: nat) returns (root: Hash)
      requires Valid() && hashStore != null && 0 < n <= treeSize && n < MAX_LEAVES
      ensures root == Mth(hasher, leaves[..n])
    {
      LayoutPrefix(hasher, leaves, n);
      LayoutLength(hasher, leaves[..n]);
      root := FoldAt(0, n, leaves[..n], Layout(hasher, leaves[..n]));
    }

    /** Empty when the sizes are out of range or there is no store. */
    method ConsistencyProof(m: nat, n: nat) returns (proof: seq<Hash>)
      requires Valid() && Provable(n) && (m == 0 < n <= treeSize ==> hashStore == null)
      ensures m > n || n == 0 || treeSize < n || hashStore == null ==> proof == []
      ensures 0 < m <= n <= treeSize && hashStore != null ==> proof == SubProof(hasher, m, leaves[..n], true)
    {
      if m > n || treeSize < n || hashStore == null {
        return [];
      }
      if n == 0 {
        return []; // the descent of Subproof has nothing to do
      }
      proof := Subproof(m, n);
    }

    /** The nodes of D[0:n] have 32-bit slot numbers. */
    ghost predicate Provable(n: nat)
      reads this
    {
      n <= treeSize ==> n < MAX_LEAVES
    }

    lemma ProofBegins(m: nat, n: nat)
      requires Valid() && hashStore != null && 0 < m <= n <= treeSize && n < MAX_LEAVES
      ensures n <= |leaves| && Layout(hasher, leaves[..n]) <= hashStore.hashes
      ensures OnProof(hasher, Layout(hasher, leaves[..n]), 0, m, leaves[..n], true, [],
                      SubProof(hasher, m, leaves[..n], true))
    {
      LayoutPrefix(hasher, leaves, n);
      ProofStarts(hasher, leaves[..n], m);
    }

    lemma PathBegins(m: nat, n: nat)
      requires Valid() && hashStore != null && m < n <= treeSize && n < MAX_LEAVES
      ensures n <= |leaves| && Layout(hasher, leaves[..n]) <= hashStore.hashes
      ensures OnPath(hasher, Layout(hasher, leaves[..n]), 0, m, leaves[..n], [], [],
                     Path(hasher, m, leaves[..n]), Sides(m, n))
    {
      LayoutPrefix(hasher, leaves, n);
      PathStarts(hasher, leaves[..n], m);
    }

    /** Descends from D[0:n] to the subtree that ends at m, collecting the other
        halves. */
    method Subproof(m0: nat, n0: nat) returns (reverse: seq<Hash>)
      requires Valid() && hashStore != null && 0 < m0 <= n0 <= treeSize && n0 < MAX_LEAVES
      ensures reverse == SubProof(hasher, m0, leaves[..n0], true)
    {
      hide *;
      ProofBegins(m0, n0);
      ghost var store := Layout(hasher, leaves[..n0]);
      ghost var goal := SubProof(hasher, m0, leaves[..n0], true);
      var offset: nat, collected: seq<Hash>, m: nat, n: nat, b := 0, [], m0, n0, true;
      ghost var d := leaves[..n];
      while m < n
        invariant 0 < m <= n == |d| && OnProof(hasher, store, offset, m, d, b, collected, goal)
        decreases n
      {
        var k := SplitWidth(n);
        if m <= k {
          ProofGoesLeft(hasher, store, offset, m, d, b, collected, goal);
          OnProofBounds(hasher, store, offset, m, d, b, collected, goal);
          U32Fits(offset + k * 2 - 1);
          var rootk2n := FoldAt(U32(offset + k * 2 - 1), n - k, d[k..], store);
          collected := collected + [rootk2n];
          n, d := k, d[..k];
        } else {
          ProofGoesRight(hasher, store, offset, m, d, b, collected, goal);
          U32Fits(offset + k * 2 - 1);
          offset := U32(offset + k * 2 - 1);
          var root02k := hashStore.GetHash(offset - 1);
          collected := collected + [root02k];
          m, n, b, d := m - k, n - k, false, d[k..];
        }
      }
      OnProofBounds(hasher, store, offset, m, d, b, collected, goal);
      ProofEnds(hasher, store, offset, d, b, collected, goal);
      if !b {
        var pos := GetSubTreePos(n);
        U32Fits(pos[0] + offset - 1);
        var root02n := hashStore.GetHash(U32(pos[0] + offset - 1));
        collected := collected + [root02n];
      }
      reverse := Reverse(collected);
    }

    /** Descends from D[0:n] to leaf m, collecting the other halves and the side
        on which each lies. */
    method CollectPath(m0: nat, n0: nat) returns (collected: seq<Hash>, poses: seq<bool>)
      requires Valid() && hashStore != null && m0 < n0 <= treeSize && n0 < MAX_LEAVES
      ensures Reverse(collected) == Path(hasher, m0, leaves[..n0])
      ensures Reverse(poses) == Sides(m0, n0)
    {
      hide *;
      PathBegins(m0, n0);
      ghost var store := Layout(hasher, leaves[..n0]);
      ghost var path, sides := Path(hasher, m0, leaves[..n0]), Sides(m0, n0);
      var offset: nat, m: nat, n: nat := 0, m0, n0;
      collected, poses := [], [];
      ghost var d := leaves[..n];
      while n != 1
        invariant m < n == |d| && OnPath(hasher, store, offset, m, d, collected, poses, path, sides)
        decreases n
      {
        var k := SplitWidth(n);
        if m < k {
          PathGoesLeft(hasher, store, offset, m, d, collected, poses, path, sides);
          OnPathBounds(hasher, store, offset, m, d, collected, poses, path, sides);
          U32Fits(offset + k * 2 - 1);
          var rootk2n := FoldAt(U32(offset + k * 2 - 1), n - k, d[k..], store);
          collected, poses := collected + [rootk2n], poses + [true];
          n, d := k, d[..k];
        } else {
          PathGoesRight(hasher, store, offset, m, d, collected, poses, path, sides);
          U32Fits(offset + k * 2 - 1);
          offset := U32(offset + k * 2 - 1);
          var root02k := hashStore.GetHash(offset - 1);
          collected, poses := collected + [root02k], poses + [false];
          m, n, d := m - k, n - k, d[k..];
        }
      }
      PathEnds(hasher, store, offset, m, d, collected, poses, path, sides);
    }

    method InclusionProof(m: nat, n: nat) returns (r: Result<seq<Hash>>)
      requires Valid() && Provable(n)
      ensures m >= n ==> r == WrongParameters
      ensures m < n && treeSize < n ==> r == NotAvailableYet
      ensures m < n <= treeSize && hashStore == null ==> r == NoHashStore
      ensures m < n <= treeSize && hashStore != null ==> r == Proof(Path(hasher, m, leaves[..n]))
    {
      if m >= n {
        return WrongParameters;
      } else if treeSize < n {
        return NotAvailableYet;
      } else if hashStore == null {
        return NoHashStore;
      }
      var collected, _ := CollectPath(m, n);
      return Proof(Reverse(collected));
    }

    /** The serialized path of leaf m in D[0:n]. */
    method MerkleInclusionLeafPath(data: seq<byte>, m: nat, n: nat) returns (r: Result<seq<byte>>)
      requires Valid() && Provable(n) && |data| <= MAX_UINT64
      ensures m >= n ==> r == WrongParameters
      ensures m < n && treeSize < n ==> r == NotAvailableYet
      ensures m < n <= treeSize && hashStore == null ==> r == NoHashStore
      ensures m < n <= treeSize && hashStore != null ==> r == Proof(PathBytes(data, PathSteps(hasher, m, leaves[..n])))
    {
      if m >= n {
        return WrongParameters;
      } else if treeSize < n {
        return NotAvailableYet;
      } else if hashStore == null {
        return NoHashStore;
      }
      var hashes, poses := CollectPath(m, n);
      StepsAreZipped(hasher, m, leaves[..n]);
      hide *;
      StepsInReverse(hashes, poses, Path(hasher, m, leaves[..n]), Sides(m, n), PathSteps(hasher, m, leaves[..n]));
      var bytes := WritePath(data, hashes, poses);
      return Proof(bytes);
    }
  }
}
