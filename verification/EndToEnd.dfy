/** The two ends of each protocol put together: what one side hands out is given
    to the other side as it is. */
module EndToEnd {
  import opened Hashing
  import opened Bits
  import opened HashStore
  import opened MerkleSpec
  import opened TreeHasher
  import opened MerkleTree
  import opened LeafPath
  import opened Codec
  import Levels = LevelTree
  import Verifier = MerkleVerifier
  import Pool = TxPool
  import Server = TxServer
  import Tx = Transaction

  // --- Merkle proofs

  /** The audit path that an append returns proves the new leaf. */
  method AppendIsProved(tree: CompactMerkleTree, leafv: seq<byte>) returns (v: Verifier.Verdict)
    requires tree.Valid() && tree.treeSize + 1 < TWO_32
    modifies tree, tree.hashStore
    ensures v == Verifier.Valid
  {
    var index := tree.treeSize;
    var path := tree.Append(leafv);
    var root := tree.Root();
    Verifier.InclusionIsComplete(tree.hasher, index, tree.leaves);
    v := Verifier.VerifyLeafInclusion(tree.hasher, leafv, index, path, root, tree.treeSize);
  }

  /** The predicted root is the root once the leaves have been appended. */
  method PredictionComesTrue(tree: CompactMerkleTree, newLeaf: seq<Hash>) returns (predicted: Hash, reached: Hash)
    requires tree.Valid() && tree.treeSize + |newLeaf| < TWO_32
    modifies tree, tree.hashStore
    ensures predicted == reached == Mth(tree.hasher, tree.leaves)
    ensures |tree.leaves| == |old(tree.leaves)| + |newLeaf| && old(tree.leaves) <= tree.leaves
    ensures forall i :: 0 <= i < |newLeaf| ==> tree.leaves[|old(tree.leaves)| + i] == tree.hasher.leaf(newLeaf[i])
  {
    hide Mth, Frontier, Layout, LeafHashes;
    predicted := tree.GetRootWithNewLeaves(newLeaf);
    for i := 0 to |newLeaf|
      invariant tree.Valid() && tree.leaves == old(tree.leaves) + LeafHashes(tree.hasher, newLeaf)[..i]
    {
      var _ := tree.Append(newLeaf[i]);
    }
    assert LeafHashes(tree.hasher, newLeaf)[..|newLeaf|] == LeafHashes(tree.hasher, newLeaf);
    reached := tree.Root();
  }

  /** The two predictions for a single leaf agree. */
  method OneLeafPredictions(tree: CompactMerkleTree, x: Hash) returns (one: Hash, list: Hash)
    requires tree.Valid() && tree.treeSize + 1 < TWO_32
    ensures one == list
  {
    one := tree.GetRootWithNewLeaf(x);
    list := tree.GetRootWithNewLeaves([x]);
    assert LeafHashes(tree.hasher, [x]) == [tree.hasher.leaf(x)];
  }

  /** The root of a tree with one leaf is the leaf hash of the data. */
  method SingleLeafRoot(h: Hasher, data: seq<byte>) returns (root: Hash)
    ensures root == h.leaf(data)
  {
    var tree := new CompactMerkleTree(h, 0, [], null, []);
    var _ := tree.Append(data);
    root := tree.Root();
    assert tree.leaves == [h.leaf(data)];
  }

  /** Every leaf is proved against the root of every later size. */
  method InclusionIsProved(tree: CompactMerkleTree, leafHash: Hash, m: nat, n: nat) returns (v: Verifier.Verdict)
    requires tree.Valid() && tree.hashStore != null && m < n <= tree.treeSize && n < MAX_LEAVES
    requires leafHash == tree.leaves[m]
    ensures v == Verifier.Valid
  {
    var r := tree.InclusionProof(m, n);
    var root := tree.MerkleRoot(n);
    Verifier.InclusionIsComplete(tree.hasher, m, tree.leaves[..n]);
    v := Verifier.VerifyLeafHashInclusion(tree.hasher, leafHash, m, r.proof, root, n);
  }

  /** Every earlier tree is proved consistent with every later one. */
  method ConsistencyIsProved(tree: CompactMerkleTree, m: nat, n: nat) returns (v: Verifier.Verdict)
    requires tree.Valid() && tree.hashStore != null && 0 < m <= n <= tree.treeSize && n < MAX_LEAVES
    ensures v == Verifier.Valid
  {
    var proof := tree.ConsistencyProof(m, n);
    var oldRoot := tree.MerkleRoot(m);
    var newRoot := tree.MerkleRoot(n);
    assert tree.leaves[..n][..m] == tree.leaves[..m];
    Verifier.ConsistencyIsComplete(tree.hasher, m, tree.leaves[..n]);
    v := Verifier.VerifyConsistency(tree.hasher, m, n, oldRoot, newRoot, proof);
  }

  lemma {:induction false} StepCount(h: Hasher, m: nat, d: seq<Hash>)
    requires m < |d|
    ensures |PathSteps(h, m, d)| < |d|
    decreases |d|
  {
    hide *;
    if |d| == 1 {
      LeafAlone(h, d);
    } else {
      var k := Split(|d|);
      PathStepsLevel(h, m, d);
      if m < k {
        StepCount(h, m, d[..k]);
      } else {
        StepCount(h, m - k, d[k..]);
      }
    }
  }

  lemma PathSize(h: Hasher, data: seq<byte>, m: nat, d: seq<Hash>)
    requires m < |d|
    ensures |PathBytes(data, PathSteps(h, m, d))| <= 9 + |data| + STEP_SIZE * |d|
  {
    hide PathSteps, StepBytes, VarUint;
    StepCount(h, m, d);
  }

  const MAX_SLICE: nat := 0x7FFF_FFFF_FFFF_FFFF

  /** The serialized path of a leaf appended from data proves the data against the
      root of every later size. */
  method LeafPathIsProved(tree: CompactMerkleTree, data: seq<byte>, m: nat, n: nat) returns (v: Option<seq<byte>>)
    requires tree.Valid() && tree.hashStore != null && m < n <= tree.treeSize && n < MAX_LEAVES
    requires tree.leaves[m] == tree.hasher.leaf(data) && |data| <= MAX_SLICE
    ensures v == Some(data)
  {
    hide Proves, PathBytes, PathSteps, Mth, Layout, Frontier, LowPosition;
    var r := tree.MerkleInclusionLeafPath(data, m, n);
    var root := tree.MerkleRoot(n);
    PathSize(tree.hasher, data, m, tree.leaves[..n]);
    LeafPathProves(tree.hasher, data, m, tree.leaves[..n]);
    v := MerkleProve(tree.hasher, r.proof, root);
  }

  /** A path made level by level proves its data against the recursive root, if
      the data is there and the list is not too large. */
  method LevelPathIsProved(h: Hasher, data: seq<byte>, hashes: seq<Hash>) returns (v: Option<seq<byte>>)
    ensures h.leaf(data) in hashes && |hashes| * STEP_SIZE + |data| + 8 <= Levels.MAX_SIZE ==> v == Some(data)
    ensures h.leaf(data) !in hashes || |hashes| * STEP_SIZE + |data| + 8 > Levels.MAX_SIZE ==> v == None
  {
    hide Proves, PathBytes, PathSteps;
    var r := Levels.MerkleLeafPath(h, data, hashes);
    if !r.Bytes? {
      return None;
    }
    ghost var index: nat :| Levels.IsFirst(h.leaf(data), hashes, index)
                            && r.bytes == PathBytes(data, PathSteps(h, index, hashes));
    PathSize(h, data, index, hashes);
    LeafPathProves(h, data, index, hashes);
    v := MerkleProve(h, r.bytes, HashFullTreeWithLeafHash(h, hashes));
  }

  // --- transactions

  /** A well-formed transaction whose signatures have keys is written to a sink and
      read back from its bytes. */
  method TransactionComesBack<K(!new)>(c: Tx.KeyCodec<K>, u: Tx.Unsigned, sigs: seq<Tx.Sig<K>>)
    returns (r: Option<Tx.Decoded<K>>)
    requires Tx.Invertible(c) && Tx.WellFormed(u) && |sigs| <= MAX_UINT64
    requires forall i :: 0 <= i < |sigs| ==> Tx.WellFormedSig(c, sigs[i]) && sigs[i].pubKeys != []
    requires |Tx.TxBytes(c, u, sigs)| <= Tx.MAX_TX_SIZE
    ensures r == Some(Tx.Decoded(u, sigs, Tx.TxBytes(c, u, sigs), Tx.UnsignedBytes(u)))
  {
    hide Tx.UnsignedBytes, Tx.TxBytes, Tx.TxParse, Tx.Invertible;
    var sink := new ZeroCopySink(0);
    forall i | 0 <= i < |sigs|
      ensures Tx.Writable(c, sigs[i])
    {
      CanBeWritten(c, sigs[i]);
    }
    var ok := Tx.Serialization(c, sink, u, sigs);
    var bytes := sink.buf[..sink.len];
    Tx.TxRoundTrip(c, [], u, sigs, []);
    assert bytes == Tx.TxBytes(c, u, sigs) == [] + Tx.TxBytes(c, u, sigs) + [];
    var source := new ZeroCopySource(bytes);
    r := Tx.Deserialization(c, source);
  }

  lemma CanBeWritten<K>(c: Tx.KeyCodec<K>, g: Tx.Sig<K>)
    requires Tx.WellFormedSig(c, g)
    ensures Tx.Writable(c, g)
  {
    assert forall i :: 0 <= i < |g.pubKeys| ==> Tx.Encoded(c, g.pubKeys)[i] == c.enc(g.pubKeys[i]);
  }

  // --- a proposed block

  /** Once every pending transaction has its result, in any order and whatever the
      results are, the request has been answered correctly. */
  method RequestIsAnswered(server: Server.TXPoolServer, txs: seq<Hash>, height: nat, report: Hash -> Pool.ErrCode)
    returns (answer: Server.Answer)
    requires server.Valid() && txs != []
    modifies server, server.txPool
    ensures Server.Answers(answer, Server.Kept(old(server.txPool.txList), txs, height))
  {
    hide Server.Answers, Server.Kept, Server.OkAnswer;
    var first := server.VerifyBlock(txs, height);
    if first.Some? {
      return first.value;
    }
    answer := map[];
    while server.allPendingTxs.Keys != {}
      invariant server.Valid() && !server.answered
      invariant server.request == Server.Kept(old(server.txPool.txList), txs, height)
      decreases |server.allPendingTxs.Keys|
    {
      var t :| t in server.allPendingTxs.Keys;
      ghost var before := server.allPendingTxs.Keys;
      var r, _, _ := server.RemovePendingTx(t, report(t));
      assert server.allPendingTxs.Keys == before - {t};
      SmallerSet(before, t);
      if r.Some? {
        return r.value;
      }
    }
  }

  lemma SmallerSet(s: set<Hash>, t: Hash)
    requires t in s
    ensures |s - {t}| < |s|
  {
  }
}
