/** The checking side: MerkleVerifier of merkle/merkle_tree.go. Its loops walk
    from the leaf to the root by the parity of node numbers; their contracts say
    which proofs they accept, in terms of the climb. */
module MerkleVerifier {
  import opened Hashing
  import opened MerkleSpec
  import opened MerkleProofs

  datatype Verdict = Valid | WrongParams | TooShort | TooLong | RootMismatch | Inconsistent

  datatype Calculated = Root(hash: Hash) | Bad(why: Verdict)

  /** The acceptance condition of an inclusion proof. */
  ghost predicate InclusionAccepted(h: Hasher, leafHash: Hash, leafIndex: nat, proof: seq<Hash>, rootHash: Hash,
                                    treeSize: nat) {
    leafIndex < treeSize && Carries(FromPath(h, leafHash, leafIndex, treeSize, proof), rootHash)
  }

  lemma {:induction false} SomeSiblings(node: nat, last: nat)
    requires node <= last && last > 0
    ensures Siblings(node, last) > 0
    decreases last
  {
    if node % 2 == 0 && node == last {
      SomeSiblings(node / 2, last / 2);
    }
  }

  /** One round of the climb, as the loops take it. */
  lemma ClimbRound(h: Hasher, r: Roots, node: nat, last: nat, p: seq<Hash>, pos: nat)
    requires node <= last && last > 0 && pos <= |p|
    ensures node % 2 == 1 && pos < |p| ==>
              Climb(h, r, node, last, p[pos..]) == Climb(h, WithLeft(h, p[pos], r), node / 2, last / 2, p[pos + 1..])
    ensures node % 2 == 0 && node < last && pos < |p| ==>
              Climb(h, r, node, last, p[pos..]) == Climb(h, WithRight(h, r, p[pos]), node / 2, last / 2, p[pos + 1..])
    ensures node % 2 == 0 && node == last ==>
              Climb(h, r, node, last, p[pos..]) == Climb(h, r, node / 2, last / 2, p[pos..])
  {
    if pos < |p| {
      assert p[pos..][1..] == p[pos + 1..];
    }
  }

  method CalculateRootHashFromAuditPath(h: Hasher, leafHash: Hash, nodeIndex: nat, auditPath: seq<Hash>, treeSize: nat)
    returns (r: Calculated)
    requires nodeIndex < treeSize
    ensures var c := FromPath(h, leafHash, nodeIndex, treeSize, auditPath);
            (r.Root? <==> c.Some?) && (r.Root? ==> r.hash == c.value.newer)
    ensures r == Bad(TooShort) <==> |auditPath| < Siblings(nodeIndex, treeSize - 1)
    ensures r == Bad(TooLong) <==> |auditPath| > Siblings(nodeIndex, treeSize - 1)
  {
    var calculated := leafHash;
    var node: nat, last: nat, pos: nat := nodeIndex, treeSize - 1, 0;
    ghost var rt := Seed(leafHash);
    ClimbLength(h, rt, node, last, auditPath);
    assert auditPath[0..] == auditPath;
    while last > 0
      invariant node <= last && pos <= |auditPath| && rt.newer == calculated
      invariant Climb(h, rt, node, last, auditPath[pos..]) == FromPath(h, leafHash, nodeIndex, treeSize, auditPath)
      invariant pos + Siblings(node, last) == Siblings(nodeIndex, treeSize - 1)
      decreases last
    {
      if pos >= |auditPath| {
        SomeSiblings(node, last);
        return Bad(TooShort);
      }
      ClimbRound(h, rt, node, last, auditPath, pos);
      if node % 2 == 1 {
        calculated, rt := h.children(auditPath[pos], calculated), WithLeft(h, auditPath[pos], rt);
        pos := pos + 1;
      } else if node < last {
        calculated, rt := h.children(calculated, auditPath[pos]), WithRight(h, rt, auditPath[pos]);
        pos := pos + 1;
      }
      node, last := node / 2, last / 2;
    }
    if pos < |auditPath| {
      return Bad(TooLong);
    }
    return Root(calculated);
  }

  method AuditPathLength(index: nat, treeSize: nat) returns (length: nat)
    requires treeSize > 0
    ensures length == Siblings(index, treeSize - 1)
  {
    length := 0;
    var node: nat, last: nat := index, treeSize - 1;
    while last > 0
      invariant length + Siblings(node, last) == Siblings(index, treeSize - 1)
      decreases last
    {
      if node % 2 == 1 || node < last {
        length := length + 1;
      }
      node, last := node / 2, last / 2;
    }
  }

  /** The verdict on an inclusion proof: its length is looked at before its root. */
  ghost function InclusionVerdict(h: Hasher, leafHash: Hash, leafIndex: nat, proof: seq<Hash>, rootHash: Hash,
                                  treeSize: nat): Verdict {
    if treeSize <= leafIndex then WrongParams
    else if |proof| < Siblings(leafIndex, treeSize - 1) then TooShort
    else if |proof| > Siblings(leafIndex, treeSize - 1) then TooLong
    else if InclusionAccepted(h, leafHash, leafIndex, proof, rootHash, treeSize) then Valid
    else RootMismatch
  }

  method VerifyLeafHashInclusion(h: Hasher, leafHash: Hash, leafIndex: nat, proof: seq<Hash>, rootHash: Hash,
                                 treeSize: nat)
    returns (v: Verdict)
    ensures v == InclusionVerdict(h, leafHash, leafIndex, proof, rootHash, treeSize)
    ensures v == Valid <==> InclusionAccepted(h, leafHash, leafIndex, proof, rootHash, treeSize)
  {
    if treeSize <= leafIndex {
      return WrongParams;
    }
    ClimbLength(h, Seed(leafHash), leafIndex, treeSize - 1, proof);
    var c := CalculateRootHashFromAuditPath(h, leafHash, leafIndex, proof, treeSize);
    match c {
      case Bad(why) => return why;
      case Root(hash) => return if hash != rootHash then RootMismatch else Valid;
    }
  }

  method VerifyLeafInclusion(h: Hasher, leaf: seq<byte>, leafIndex: nat, proof: seq<Hash>, rootHash: Hash,
                             treeSize: nat)
    returns (v: Verdict)
    ensures v == InclusionVerdict(h, h.leaf(leaf), leafIndex, proof, rootHash, treeSize)
    ensures v == Valid <==> InclusionAccepted(h, h.leaf(leaf), leafIndex, proof, rootHash, treeSize)
  {
    v := VerifyLeafHashInclusion(h, h.leaf(leaf), leafIndex, proof, rootHash, treeSize);
  }

  /** The acceptance condition of a consistency proof. Equal roots and an empty
      older tree are accepted without looking at the proof. */
  ghost predicate ConsistencyAccepted(h: Hasher, m: nat, n: nat, oldRoot: Hash, newRoot: Hash, proof: seq<Hash>) {
    && m <= n
    && (|| oldRoot == newRoot
        || m == 0
        || FromProofGives(h, oldRoot, newRoot, m, n, proof))
  }

  ghost predicate FromProofGives(h: Hasher, oldRoot: Hash, newRoot: Hash, m: nat, n: nat, proof: seq<Hash>)
    requires 0 < m <= n
  {
    var r := FromProof(h, true, oldRoot, m, n, proof);
    r.Some? && r.value.older == oldRoot && r.value.newer == newRoot
  }

  /** The number of entries of a consistency proof, from the last nodes on. */
  function Entries(node: nat, last: nat): nat {
    if node % 2 == 1 then Entries(node / 2, last / 2)
    else (if node == 0 then 0 else 1) + Siblings(node, last)
  }

  lemma {:induction false} StartLength(h: Hasher, oldRoot: Hash, node: nat, last: nat, p: seq<Hash>)
    requires node <= last
    ensures Start(h, true, oldRoot, node, last, p).Some? <==> |p| == Entries(node, last)
    decreases node
  {
    hide Climb, Siblings;
    if node % 2 == 1 {
      StartLength(h, oldRoot, node / 2, last / 2, p);
    } else if node == 0 {
      ClimbLength(h, Seed(oldRoot), node, last, p);
    } else if p != [] {
      ClimbLength(h, Seed(p[0]), node, last, p[1..]);
    }
  }

  /** The verdict on a consistency proof when neither the sizes nor the roots
      decide. Roots are compared before surplus entries are noticed, and a proof
      without entries is always too short. */
  ghost function ClimbVerdict(h: Hasher, node: nat, last: nat, oldRoot: Hash, newRoot: Hash, proof: seq<Hash>): Verdict
    requires node <= last
  {
    var entries := Entries(node, last);
    if proof == [] || |proof| < entries then TooShort
    else
      StartLength(h, oldRoot, node, last, proof[..entries]);
      var r := Start(h, true, oldRoot, node, last, proof[..entries]).value;
      if r.newer != newRoot then RootMismatch
      else if r.older != oldRoot then Inconsistent
      else if |proof| > entries then TooLong
      else Valid
  }

  ghost function ConsistencyVerdict(h: Hasher, m: nat, n: nat, oldRoot: Hash, newRoot: Hash, proof: seq<Hash>)
    : Verdict
  {
    if m > n then WrongParams
    else if oldRoot == newRoot || m == 0 then Valid
    else ClimbVerdict(h, m - 1, n - 1, oldRoot, newRoot, proof)
  }

  lemma ConsistencyIsDecided(h: Hasher, m: nat, n: nat, oldRoot: Hash, newRoot: Hash, proof: seq<Hash>)
    ensures ConsistencyVerdict(h, m, n, oldRoot, newRoot, proof) == Valid <==>
            ConsistencyAccepted(h, m, n, oldRoot, newRoot, proof)
  {
    hide Start, Entries;
    if 0 < m <= n {
      StartLength(h, oldRoot, m - 1, n - 1, proof);
      assert |proof| == Entries(m - 1, n - 1) ==> proof[..Entries(m - 1, n - 1)] == proof;
      if proof == [] {
        EmptyProof(h, oldRoot, m - 1, n - 1);
      }
    }
  }

  method VerifyConsistency(h: Hasher, oldTreeSize: nat, newTreeSize: nat, oldRoot: Hash, newRoot: Hash,
                           proof: seq<Hash>)
    returns (v: Verdict)
    ensures v == ConsistencyVerdict(h, oldTreeSize, newTreeSize, oldRoot, newRoot, proof)
    ensures v == Valid <==> ConsistencyAccepted(h, oldTreeSize, newTreeSize, oldRoot, newRoot, proof)
  {
    ConsistencyIsDecided(h, oldTreeSize, newTreeSize, oldRoot, newRoot, proof);
    if oldTreeSize > newTreeSize {
      return WrongParams;
    }
    if oldRoot == newRoot {
      return Valid;
    }
    if oldTreeSize == 0 {
      return Valid;
    }
    v := ClimbBoth(h, oldTreeSize - 1, newTreeSize - 1, oldRoot, newRoot, proof);
  }

  method ClimbBoth(h: Hasher, node0: nat, last0: nat, oldRoot: Hash, newRoot: Hash, proof: seq<Hash>)
    returns (v: Verdict)
    requires node0 <= last0
    ensures v == ClimbVerdict(h, node0, last0, oldRoot, newRoot, proof)
  {
    hide Climb, Siblings, WithLeft, WithRight;
    ghost var entries := Entries(node0, last0);
    ghost var used := if |proof| < entries then proof else proof[..entries];
    ghost var goal := Start(h, true, oldRoot, node0, last0, used);
    var node: nat, last: nat := node0, last0;
    // while on a right child, both trees agree: move up
    while node % 2 == 1
      invariant node <= last
      invariant Start(h, true, oldRoot, node, last, used) == goal && Entries(node, last) == entries
      decreases node
    {
      node, last := node / 2, last / 2;
    }
    var pos: nat := 0;
    if pos >= |proof| {
      return TooShort;
    }
    var oldHash, newHash := oldRoot, oldRoot;
    if node != 0 {
      oldHash, newHash := proof[pos], proof[pos];
      pos := pos + 1;
    }
    ghost var rt := Seed(oldHash);
    assert used[0..] == used;
    while node != 0
      invariant node <= last && pos <= |used| && Keeps(rt, oldHash, newHash)
      invariant Climb(h, rt, node, last, used[pos..]) == goal && pos + Siblings(node, last) == entries
    {
      ClimbRound(h, rt, node, last, used, pos);
      SiblingsRound(node, last);
      if node % 2 == 1 {
        if pos >= |proof| {
          return TooShort;
        }
        WithLeftRoots(h, proof[pos], rt);
        oldHash, newHash := h.children(proof[pos], oldHash), h.children(proof[pos], newHash);
        rt := WithLeft(h, proof[pos], rt);
        pos := pos + 1;
      } else if node < last {
        if pos >= |proof| {
          return TooShort;
        }
        WithRightRoots(h, rt, proof[pos]);
        newHash, rt := h.children(newHash, proof[pos]), WithRight(h, rt, proof[pos]);
        pos := pos + 1;
      }
      node, last := node / 2, last / 2;
    }
    while last != 0
      invariant pos <= |used| && Keeps(rt, oldHash, newHash)
      invariant Climb(h, rt, 0, last, used[pos..]) == goal && pos + Siblings(0, last) == entries
    {
      ClimbRound(h, rt, 0, last, used, pos);
      SiblingsRound(0, last);
      if pos >= |proof| {
        return TooShort;
      }
      WithRightRoots(h, rt, proof[pos]);
      newHash, rt := h.children(newHash, proof[pos]), WithRight(h, rt, proof[pos]);
      pos, last := pos + 1, last / 2;
    }
    ClimbDone(h, rt, used[pos..]);
    if newHash != newRoot {
      return RootMismatch;
    } else if oldHash != oldRoot {
      return Inconsistent;
    }
    if pos != |proof| {
      return TooLong;
    }
    return Valid;
  }

  ghost predicate Keeps(r: Roots, oldHash: Hash, newHash: Hash) {
    r.older == oldHash && r.newer == newHash
  }

  lemma WithLeftRoots(h: Hasher, x: Hash, r: Roots)
    ensures Keeps(WithLeft(h, x, r), h.children(x, r.older), h.children(x, r.newer))
  {
  }

  lemma WithRightRoots(h: Hasher, r: Roots, x: Hash)
    ensures Keeps(WithRight(h, r, x), r.older, h.children(r.newer, x))
  {
  }

  lemma SiblingsRound(node: nat, last: nat)
    requires node <= last && last > 0
    ensures Siblings(node, last) == (if node % 2 == 1 || node < last then 1 else 0) + Siblings(node / 2, last / 2)
  {
  }

  lemma ClimbDone(h: Hasher, r: Roots, p: seq<Hash>)
    ensures Siblings(0, 0) == 0 && Climb(h, r, 0, 0, p) == if p == [] then Some(r) else None
  {
  }

  /** An empty proof never rebuilds a root other than the older one. */
  lemma {:induction false} EmptyProof(h: Hasher, oldRoot: Hash, node: nat, last: nat)
    requires node <= last
    ensures var r := Start(h, true, oldRoot, node, last, []);
            r.Some? ==> r.value.newer == oldRoot
    decreases node
  {
    if node % 2 == 1 {
      EmptyProof(h, oldRoot, node / 2, last / 2);
    } else if node == 0 && last > 0 {
      ClimbNeedsEntry(h, Seed(oldRoot), node, last);
    }
  }

  // --- what acceptance means

  /** Consistency proofs are accepted, for all sizes 0 < m <= n. */
  lemma ConsistencyIsComplete(h: Hasher, m: nat, d: seq<Hash>)
    requires 0 < m <= |d|
    ensures ConsistencyAccepted(h, m, |d|, Mth(h, d[..m]), Mth(h, d), SubProof(h, m, d, true))
  {
    if m < |d| {
      ProofIsComplete(h, m, d, true, Mth(h, d[..m]));
    } else {
      assert d[..m] == d;
    }
  }

  /** An accepted proof between different roots, the newer one the root of d,
      shows that the older one is the root of the first m leaves of d; and there
      is only one such proof. */
  lemma ConsistencyIsSound(h: Hasher, m: nat, d: seq<Hash>, oldRoot: Hash, proof: seq<Hash>, s: set<(Hash, Hash)>)
    requires 0 < m < |d| && oldRoot != Mth(h, d)
    requires ConsistencyAccepted(h, m, |d|, oldRoot, Mth(h, d), proof)
    requires FromProof(h, true, oldRoot, m, |d|, proof).value.hashed <= s
    requires TreePairs(h, d) <= s && CollisionFree(h, s)
    ensures oldRoot == Mth(h, d[..m]) && proof == SubProof(h, m, d, true)
  {
    hide FromProof, Mth, TreePairs, SubProof;
    ProofIsSound(h, true, oldRoot, m, d, proof, s);
  }

  /** Different roots of equally large trees are never accepted. */
  /** What is accepted for a list and a smaller size: equal roots, with any proof,
      or the root of the prefix with the one consistency proof. */
  lemma AcceptedConsistencies(h: Hasher, m: nat, d: seq<Hash>, oldRoot: Hash, proof: seq<Hash>, s: set<(Hash, Hash)>)
    requires 0 < m < |d| && TreePairs(h, d) <= s && CollisionFree(h, s)
    requires var r := FromProof(h, true, oldRoot, m, |d|, proof); r.Some? ==> r.value.hashed <= s
    ensures ConsistencyAccepted(h, m, |d|, oldRoot, Mth(h, d), proof) <==>
            oldRoot == Mth(h, d) || (oldRoot == Mth(h, d[..m]) && proof == SubProof(h, m, d, true))
  {
    hide FromProof, TreePairs, CollisionFree, Mth, SubProof;
    ConsistencyIsComplete(h, m, d);
    if oldRoot != Mth(h, d) && ConsistencyAccepted(h, m, |d|, oldRoot, Mth(h, d), proof) {
      ConsistencyIsSound(h, m, d, oldRoot, proof, s);
    }
  }

  lemma SameSizeIsRejected(h: Hasher, m: nat, oldRoot: Hash, newRoot: Hash, proof: seq<Hash>)
    requires m > 0 && oldRoot != newRoot
    ensures !ConsistencyAccepted(h, m, m, oldRoot, newRoot, proof)
  {
    StartOnDiagonal(h, oldRoot, m - 1, proof);
  }

  lemma {:induction false} StartOnDiagonal(h: Hasher, oldRoot: Hash, node: nat, p: seq<Hash>)
    ensures var r := Start(h, true, oldRoot, node, node, p);
            r.Some? ==> r.value.older == r.value.newer
  {
    if node % 2 == 1 {
      StartOnDiagonal(h, oldRoot, node / 2, p);
    } else if node == 0 {
      ClimbOnDiagonal(h, Seed(oldRoot), node, p);
    } else if p != [] {
      ClimbOnDiagonal(h, Seed(p[0]), node, p[1..]);
    }
  }

  lemma {:induction false} ClimbOnDiagonal(h: Hasher, r: Roots, node: nat, p: seq<Hash>)
    requires r.older == r.newer
    ensures var c := Climb(h, r, node, node, p);
            c.Some? ==> c.value.older == c.value.newer
    decreases node
  {
    if node == 0 {
    } else {
      if node % 2 == 0 {
        ClimbOnDiagonal(h, r, node / 2, p);
      } else if p != [] {
        ClimbOnDiagonal(h, WithLeft(h, p[0], r), node / 2, p[1..]);
      }
    }
  }

  /** Audit paths are accepted. */
  lemma InclusionIsComplete(h: Hasher, m: nat, d: seq<Hash>)
    requires m < |d|
    ensures InclusionAccepted(h, d[m], m, Path(h, m, d), Mth(h, d), |d|)
  {
    PathIsComplete(h, m, d);
  }

  /** An accepted proof against the root of d shows that the leaf hash is leaf m
      of d; there is only one such proof. */
  lemma InclusionIsSound(h: Hasher, leafHash: Hash, m: nat, d: seq<Hash>, proof: seq<Hash>, s: set<(Hash, Hash)>)
    requires m < |d| && InclusionAccepted(h, leafHash, m, proof, Mth(h, d), |d|)
    requires FromPath(h, leafHash, m, |d|, proof).value.hashed <= s
    requires TreePairs(h, d) <= s && CollisionFree(h, s)
    ensures leafHash == d[m] && proof == Path(h, m, d)
  {
    hide FromPath, Mth, TreePairs, Path;
    PathIsSound(h, leafHash, m, d, proof, s);
  }

  /** Whatever the root, an accepted proof has exactly audit_path_length entries. */
  lemma InclusionHasExactLength(h: Hasher, leafHash: Hash, m: nat, proof: seq<Hash>, rootHash: Hash, n: nat)
    requires InclusionAccepted(h, leafHash, m, proof, rootHash, n)
    ensures |proof| == Siblings(m, n - 1)
  {
    ClimbLength(h, Seed(leafHash), m, n - 1, proof);
  }
}
