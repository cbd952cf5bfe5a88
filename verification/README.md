# Poly Network: a verified model of its core

This project models, in Dafny, the parts of the Poly Network node that other
chains and other nodes rely on, and proves what they promise.

* **Merkle trees** (`Bits`, `MerkleSpec`, `HashStore`, `CompactTree`, `MerkleTree`,
  `TreeHasher`, `LevelTree`). The append-only compact tree, its node store, the
  recursive hasher and the level-by-level hasher all compute the tree of section
  2.1 of RFC 6962. `MerkleSpec.Mth` is that definition; everything else refines it.
* **Proofs** (`MerkleProofs`, `MerkleVerifier`, `LeafPath`). What the tree hands out
  is accepted by the verifier, and what the verifier accepts is what the tree would
  have handed out. The verifier works bottom-up over index parities, the prover
  top-down over stored subtrees; `MerkleProofs` shows that the two directions agree.
* **Encodings** (`Codec`, `Transaction`, `Reencoding`). Sink and source with their
  growth, back-up and end-of-file rules, and transactions on top of them, decoded
  after encoding and encoded after decoding.
* **Blocks** (`TxRoot`, `MultiSig`). Which transaction lists share a root, so that the
  root determines the transactions of an accepted block; the m-of-n signature matcher.
* **VBFT consensus** (`BlockPool`, `Recording`, `Quorum`, `Participants`, `Genesis`).
  The candidate bookkeeping as a state machine over messages, and exactly which
  endorsements it holds after any messages in any order; quorum intersection for both
  ways in which a commit is reported, agreement of all nodes over all message orders,
  the choice of participants, the genesis table.
* **Transaction pool and solo consensus** (`Increment`, `TxPool`, `NoRepeat`,
  `TxServer`). A state machine with the ledger, the block window, the pool, the
  workers and their messages in flight: no run puts a transaction on the chain twice.
* **Both sides together** (`EndToEnd`). What a tree, a writer or the pool server hands
  out is given to the other side as it is.
* **Formats and small cases** (`KnownValues`). The bytes and sizes that other chains
  rely on, as literals.

Hash functions, signature schemes and public-key encodings are parameters. Soundness
never assumes that a hash function is injective on all inputs, which no function with
32-byte results is. It assumes no collision among the finite set of pairs that were
actually hashed (`Hashing.CollisionFree`), and a caller names that set.

State that the source updates in place is kept in classes with the source's fields:
the tree, the store, the sink, the source, the block pool, the window, the pool, the
workers and the pool server. Each method is specified by a function of the old state,
and the properties are proved about those functions.

Some statements that one might expect are false of the code. Each has a concrete
input and the exact condition under which it holds:

* the commit quorum adds one for the proposer even when the proposer also signed a
  commit for itself. Two reports then need not share supporters, and two nodes may
  report different proposers. `Quorum.Safe` says for which numbers of peers and which
  own signatures they always share (`Quorum.SharingIsExact`) and all nodes agree
  (`Quorum.AgreementIsExact`), in both directions;
* the greedy signature matcher can miss an assignment (`MultiSig.GreedyCanMiss`). It is
  exact on all lists of some keys and signatures if and only if no two of the
  signatures share a key without sharing all keys (`MultiSig.GreedyIsExact`);
* the transaction root does not determine the list of hashes
  (`TxRoot.PaddingKeepsRoot`). Two nonempty lists share a root if and only if they stand for the
  same perfect tree once every odd last subtree is repeated
  (`TxRoot.SameRootIffSamePadding`), which distinct lists do only if they are equal
  (`TxRoot.RootDeterminesList`);
* encoding a decoded transaction again need not give back its bytes, and every
  transaction has several encodings with different hashes
  (`Reencoding.SecondEncoding`); one whose signature has no public key is decoded but
  refused by the encoder (`Reencoding.KeylessIsRefused`). Decoding and then encoding
  succeeds and gives back the bytes if and only if every length is in its shortest
  form, every key is encoded as the encoder would, and every signature has a key
  (`Reencoding.DecodeThenEncode`);
* a consistency proof is also accepted, whatever it contains, when the two roots are
  equal. `MerkleVerifier.AcceptedConsistencies` says exactly what is accepted.

## Model

| member | source | states |
|---|---|---|
| Bits.CountBit | merkle/util.go:22-29 | clearing the lowest 1 digit until nothing is left counts the 1 digits |
| Bits.IsPower2 | merkle/util.go:31-33 | true exactly for powers of two, 0 excluded |
| Bits.HighBit | merkle/util.go:37-44 | the number of binary digits; it brackets the number between two powers of two |
| Bits.LowBit | merkle/util.go:48-50 | conjunction with the 32-bit negation isolates the lowest 1 digit, whose position is returned |
| HashStore.MemHashStore.Append | merkle/file_hash_store.go:139-142 | appends the given nodes and keeps all earlier slots |
| HashStore.MemHashStore.GetHash | merkle/file_hash_store.go:144-146 | reads the addressed slot |
| HashStore.GetSubTreeSize | merkle/merkle_tree.go:197-209 | for every 32-bit size, the node counts of the perfect subtrees, largest first, although the unit wraps to zero for the largest |
| HashStore.SizesFromAbove | merkle/merkle_tree.go:197-209 | the sizes produced digit by digit from below are those found subtree by subtree from above |
| HashStore.GetSubTreePos | merkle/merkle_tree.go:212-228 | for every 32-bit size, the running totals of the sizes modulo 2^32; below 2^31 leaves the totals themselves |
| KnownValues.SlotsOfSeven | merkle/merkle_tree.go:197-228 | seven leaves: sizes 7, 3, 1 and slots 7, 10, 11 |
| HashStore.SlotsAddressFrontier | merkle/merkle_tree.go:212-240 | in any store that holds the post-order listing of a tree, these slots hold exactly the roots of its perfect subtrees, in order |
| HashStore.GetStoredHashNum | merkle/file_hash_store.go:68-76 | for every 32-bit size n, the stored nodes number 2n minus the 1 digits of n |
| MerkleSpec.LayoutLength | merkle/file_hash_store.go:68-76 | the post-order listing of all finished nodes has that length, for every leaf list |
| MerkleSpec.LayoutPrefix | merkle/merkle_tree.go:231-240 | the listing of any prefix of the leaves is a prefix of the listing, so older trees stay readable |
| MerkleSpec.FoldFrontier | merkle/merkle_tree.go:110-119 | folding the perfect-subtree roots from the right gives the recursive tree hash |
| MerkleSpec.FoldWithNewLeaf | merkle/merkle_tree.go:122-127 | folding them with one more leaf gives the tree hash after that leaf |
| KnownValues.MthOfThree | merkle/merkle_hasher.go:95-118 | three leaves: the first two are paired, and the left root is hashed first |
| KnownValues.StoredForThree | merkle/merkle_tree.go:159-186 | the roots kept and the nodes stored after three appends, in order |
| MerkleTree.CompactMerkleTree.constructor | merkle/merkle_tree.go:48-60 | a tree resumed from its size and roots satisfies the invariant of a tree built by appends |
| MerkleTree.CompactMerkleTree.Update | merkle/merkle_tree.go:97-107 | sets size, roots, lowest digit position, and forgets the cached root |
| MerkleTree.CompactMerkleTree.Root | merkle/merkle_tree.go:110-119 | the recursive tree hash of all leaves, cached or not, even if it is the zero hash that marks "not computed" |
| MerkleTree.CompactMerkleTree.GetRootWithNewLeaf | merkle/merkle_tree.go:122-127 | the root that appending the leaf would give; the tree is unchanged |
| MerkleTree.CompactMerkleTree.CloneMem | merkle/merkle_tree.go:130-140 | an independent tree with the same leaves and no store |
| MerkleTree.CompactMerkleTree.GetRootWithNewLeaves | merkle/merkle_tree.go:142-149 | the tree hash of the leaves followed by the leaf hashes of the given data; the tree is unchanged |
| MerkleTree.CompactMerkleTree.Append | merkle/merkle_tree.go:152-156 | appends the leaf hash of the data, keeps the invariant, and returns the audit path of the new leaf |
| MerkleTree.CompactMerkleTree.AppendHash | merkle/merkle_tree.go:159-186 | every append keeps: roots are the perfect-subtree roots, the lowest-digit position is right, the store is the post-order listing; the returned path is the RFC 6962 path of the new leaf |
| MerkleTree.CompactMerkleTree.MerkleRoot | merkle/merkle_tree.go:231-240 | for every 1 <= n <= size whose nodes have 32-bit slots, the tree hash of the first n leaves, read from the store |
| MerkleTree.CompactMerkleTree.ConsistencyProof | merkle/merkle_tree.go:243-249 | the RFC 6962 consistency proof of the first m in the first n leaves, or nothing if unavailable |
| MerkleTree.CompactMerkleTree.Subproof | merkle/merkle_tree.go:252-295 | the store-addressed loop produces the recursive SUBPROOF and never reaches its panic |
| MerkleTree.CompactMerkleTree.InclusionProof | merkle/merkle_tree.go:348-387 | the RFC 6962 audit path of leaf m in the first n leaves, and the three error cases in their order |
| MerkleTree.CompactMerkleTree.MerkleInclusionLeafPath | merkle/merkle_tree.go:300-344 | the bytes of the data followed by the side and hash of each step to the root of the first n leaves, and the error cases |
| TreeHasher.HashFullIsSpec | merkle/merkle_hasher.go:95-118 | the recursive hasher's root is the tree hash and its list is the perfect-subtree roots, for every index range; the left list has one entry, so the panic about it cannot happen |
| TreeHasher.HashFullTreeWithLeafHash | merkle/merkle_hasher.go:60-83 | the tree hash; the two consistency panics cannot happen |
| TreeHasher.HashFold | merkle/merkle_hasher.go:120-128 | the loop from the end is the fold from the right |
| MerkleProofs.ClimbLeft | merkle/merkle_tree.go:450-477 | bottom-up over parities equals top-down over splits, for a node in the left part |
| MerkleProofs.ClimbRight | merkle/merkle_tree.go:450-477 | the same for a node in the right part |
| MerkleProofs.ClimbLength | merkle/merkle_tree.go:450-490 | a climb succeeds exactly when the path has one entry per sibling |
| MerkleProofs.ProofFromAbove | merkle/merkle_tree.go:514-616 | the consistency climb of a proof is one merge at the top of the climb of a shorter proof in a half |
| KnownValues.PathsOfThree | merkle/merkle_tree.go:348-387 | the audit paths of three leaves, from the leaf to the root, and on which side each entry stands |
| KnownValues.ConsistencyOfFour | merkle/merkle_tree.go:252-295 | the consistency proof from three to four leaves |
| MerkleVerifier.CalculateRootHashFromAuditPath | merkle/merkle_tree.go:450-477 | too short, too long or the climbed root, decided exactly by the number of siblings |
| MerkleVerifier.AuditPathLength | merkle/merkle_tree.go:479-490 | the number of siblings on the way from leaf to root |
| MerkleVerifier.VerifyLeafHashInclusion | merkle/merkle_tree.go:412-430 | accepts exactly the inclusion proofs that climb to the root, and otherwise says which of index, length and root is wrong, in that order |
| MerkleVerifier.VerifyLeafInclusion | merkle/merkle_tree.go:444-448 | the same for the leaf hash of the data |
| KnownValues.VerdictsOfTwo | merkle/merkle_tree.go:412-477 | every verdict on inclusion proofs for two leaves |
| MerkleVerifier.VerifyConsistency | merkle/merkle_tree.go:514-616 | accepts exactly if the sizes are in order and either trivially consistent or the proof rebuilds both roots; otherwise the exact error, roots being compared before surplus entries |
| MerkleVerifier.ConsistencyIsDecided | merkle/merkle_tree.go:514-616 | the error-by-error verdict is acceptance exactly for proofs that rebuild both roots |
| KnownValues.ConsistencyVerdictsOfTwo | merkle/merkle_tree.go:514-616 | every verdict on consistency proofs between one and two leaves, and the sizes 0 and in the wrong order |
| MerkleVerifier.InclusionIsComplete | merkle/merkle_tree.go:348-490 | for every leaf list and index, the audit path is accepted against the tree hash |
| MerkleVerifier.InclusionIsSound | merkle/merkle_tree.go:412-477 | acceptance against the tree hash of a list forces the leaf at that index, and the proof is the one audit path |
| MerkleVerifier.InclusionHasExactLength | merkle/merkle_tree.go:412-490 | every accepted proof has exactly the audit path length |
| MerkleVerifier.ConsistencyIsComplete | merkle/merkle_tree.go:243-295 | for every 0 < m <= n, the proof handed out is accepted for the roots of the first m and of all n leaves |
| MerkleVerifier.ConsistencyIsSound | merkle/merkle_tree.go:514-616 | if a proof is accepted against the tree hash of a list, with a different old root, the old root is the tree hash of the prefix, and the proof is the one consistency proof |
| MerkleVerifier.AcceptedConsistencies | merkle/merkle_tree.go:514-616 | for a list and a smaller size exactly this is accepted: equal roots with any proof, or the root of the prefix with the one consistency proof |
| MerkleVerifier.SameSizeIsRejected | merkle/merkle_tree.go:514-616 | different roots of the same size are never accepted |
| LevelTree.NextLevelKeepsRoot | merkle/merkle_hasher.go:174-196 | pairing neighbours and promoting an odd last node keeps the recursive tree hash |
| LevelTree.PathByLevels | merkle/merkle_hasher.go:141-172 | the path of a leaf is its step in its level followed by its parent's path one level up |
| LevelTree.DepthIsCeilLog | merkle/merkle_hasher.go:228-230 | the number of levels is the ceiling of the binary logarithm |
| LevelTree.MerkleHashes | merkle/merkle_hasher.go:174-196 | all levels; with the full depth the top one is the recursive tree hash alone |
| LevelTree.GetIndex | merkle/merkle_hasher.go:232-239 | the first index of the leaf, negative exactly if absent |
| LevelTree.MerkleLeafPath | merkle/merkle_hasher.go:141-172 | too large, not found, or the bytes of the recursive path of the first occurrence of the leaf |
| KnownValues.LevelPathLimit | merkle/merkle_hasher.go:141-146 | refused as too large exactly if 33 bytes per hash, the data and 8 bytes exceed 1048576 |
| LeafPath.StepsLeadToRoot | merkle/merkle_hasher.go:198-226 | merging the steps of a leaf's path gives the tree hash |
| LeafPath.StepsAreSound | merkle/merkle_hasher.go:198-226 | steps that lead from a value to the tree hash of a list are the path of an entry with that value; a path carries no size or index, so this needs leaves and nodes to hash apart |
| LeafPath.PathBytesRoundTrip | merkle/merkle_hasher.go:198-226 | parsing the length-prefixed value and the 33-byte steps of an encoded path gives back value and steps |
| LeafPath.MerkleProve | merkle/merkle_hasher.go:198-226 | returns the value exactly if the parsed steps lead to the given root, a side byte of 0 putting the sibling on the left and any other on the right; trailing bytes short of a step are ignored |
| LeafPath.LeafPathProves | merkle/merkle_tree.go:300-344 | the bytes of an inclusion path prove their data against the root, for every list and leaf |
| LeafPath.ProvedIsIncluded | merkle/merkle_hasher.go:198-226 | whatever bytes are proved against the tree hash of a list, their value is in the list |
| LeafPath.ProvableIffIncluded | merkle/merkle_hasher.go:198-226 | a value is in a list if and only if some byte path proves it against the list's tree hash |
| KnownValues.OneStepProves | merkle/merkle_hasher.go:198-226 | a value followed by a side byte and a hash proves the value against the hash of the two, sibling first exactly if the side byte is 0 |
| KnownValues.OneBytePath | merkle/merkle_hasher.go:198-226 | the same byte by byte for a value of one byte, on both sides |
| KnownValues.PathBytesOfTwo | merkle/merkle_tree.go:300-344 | the bytes written for both leaves of a list of two: side byte 1 and the right leaf, side byte 0 and the left leaf |
| Codec.LeRoundTrip | common/zero_copy_sink.go:104-117 | little-endian writing is undone by little-endian reading, for any width |
| Codec.VarUintRoundTrip | common/zero_copy_source.go:205-238 | a variable-length number anywhere in a stream is read back, with the offset behind it |
| Codec.VarBytesRoundTrip | common/zero_copy_source.go:167-174 | the same for a length-prefixed byte string |
| KnownValues.LittleEndian | common/zero_copy_sink.go:104-117 | two and four byte numbers have the least significant byte first, written and read |
| KnownValues.VarUintForms | common/zero_copy_sink.go:151-172 | which of the four forms is written for which number |
| KnownValues.VarUintReads | common/zero_copy_source.go:205-238 | what is read behind each first byte, shortest form or not, and the end-of-file |
| Codec.ZeroCopySink.Grow | common/zero_copy_sink.go:33-62 | reserves room within the capacity or in a larger buffer, keeping what was written |
| Codec.ZeroCopySink.BackUp | common/zero_copy_sink.go:82-85 | drops the last n bytes |
| Codec.ZeroCopySink.WriteBytes | common/zero_copy_sink.go:64-67 | appends the bytes |
| Codec.ZeroCopySink.WriteByte | common/zero_copy_sink.go:92-94 | appends the byte |
| Codec.ZeroCopySink.WriteUint | common/zero_copy_sink.go:104-117 | appends the little-endian bytes of the number, truncated to the width |
| Codec.ZeroCopySink.WriteVarUint | common/zero_copy_sink.go:151-172 | reserving nine bytes and backing up appends exactly the variable-length form |
| Codec.ZeroCopySink.WriteVarBytes | common/zero_copy_sink.go:131-137 | appends length and bytes, and returns their number |
| Codec.ZeroCopySource.NextBytes | common/zero_copy_source.go:59-70 | the next n bytes, or end-of-file with the remaining ones, also when 64-bit offsets overflow |
| Codec.ZeroCopySource.NextByte | common/zero_copy_source.go:85-93 | the next byte, or end-of-file and no movement |
| Codec.ZeroCopySource.BackUp | common/zero_copy_source.go:115-117 | moves back |
| Codec.ZeroCopySource.NextUint | common/zero_copy_source.go:119-147 | the little-endian number of the next bytes, or end-of-file, zero and everything consumed |
| Codec.ZeroCopySource.NextVarUint | common/zero_copy_source.go:205-238 | the number after each of the four prefixes, or end-of-file, zero and everything consumed |
| Codec.ZeroCopySource.NextVarBytes | common/zero_copy_source.go:167-174 | the bytes announced by the length, or end-of-file with what is left behind the length |
| Transaction.SerializeUnsigned | core/types/transaction.go:61-88 | fails exactly on a newer version, on a missing or foreign payload, or on attributes, else appends the unsigned encoding |
| Transaction.SerializeSig | core/types/transaction.go:229-244 | fails exactly on a signature without keys, else appends its encoding with 16-bit counts |
| Transaction.Serialization | core/types/transaction.go:91-104 | fails exactly if one of its parts does, else appends the whole encoding |
| Transaction.DeserializationUnsigned | core/types/transaction.go:159-221 | agrees with the parse of the unsigned fields: same failures, same fields, same offset |
| Transaction.DeserializeSig | core/types/transaction.go:246-283 | agrees with the parse of one signature |
| Transaction.Deserialization | core/types/transaction.go:121-157 | agrees with the parse of a transaction, including the bytes that are hashed, the raw bytes and the size limit |
| Transaction.UnsignedRound | core/types/transaction.go:61-221 | the unsigned part of every well-formed transaction, anywhere in a stream, is parsed back |
| Transaction.SigRound | core/types/transaction.go:229-283 | a signature followed by anything is parsed back, leaving the rest |
| Transaction.TxRoundTrip | core/types/transaction.go:61-157 | a well-formed transaction between any other bytes is parsed back: its fields, raw bytes equal to its encoding, hashed bytes equal to its unsigned part, and the offset behind it |
| KnownValues.FieldPositions | core/types/transaction.go:61-88 | where each field of an encoded transaction lies and the constant bytes in between |
| KnownValues.DecodedConstants | core/types/transaction.go:121-221 | every decoded transaction has version 0, type 0xd1, no attributes, a payer of 20 bytes, coin type 0 and at most 1048576 bytes |
| KnownValues.UpToOneMegabyte | core/types/transaction.go:121-157 | every well-formed transaction of up to 1048576 bytes is decoded |
| KnownValues.SignatureBytes | core/types/transaction.go:229-244 | the bytes of a signature with one entry and one key: counts and threshold in two bytes |
| Reencoding.DecodeThenEncode | core/types/transaction.go:91-157 | decoding and then encoding succeeds and gives back the raw bytes if and only if all lengths are shortest, keys are encoded as the encoder would, and every signature has a key |
| Reencoding.EncodingIffCanonical | core/types/transaction.go:91-157 | the same about what the encoder produces, for every position in every stream |
| Reencoding.RawIffCanonical | core/types/transaction.go:121-157 | the raw bytes are those that the decoded fields stand for, whether or not the encoder would write them, if and only if they are canonical |
| Reencoding.KeylessIsRefused | core/types/transaction.go:229-283 | canonical bytes with a signature without keys decode, and the encoder refuses them |
| Reencoding.SecondEncoding | core/types/transaction.go:159-221 | every well-formed transaction has a second encoding with the same fields and different hashed bytes |
| Reencoding.VarBytesItem | common/zero_copy_source.go:167-238 | the bytes read for a byte string are its encoding exactly if the length prefix is shortest |
| Reencoding.SigItem | core/types/transaction.go:246-283 | the bytes read for a signature are those that its fields stand for, keys or no keys, exactly if they are canonical |
| TxRoot.ComputeMerkleRoot | common/merkle_tree.go:25-59 | the loop that overwrites the list in place computes the recursive pairing root, and the zero hash of an empty list |
| KnownValues.SmallListRoots | common/merkle_tree.go:25-59 | the roots of up to three hashes: zero, the hash, the pair, and the odd one paired with itself |
| TxRoot.RootDeterminesList | common/merkle_tree.go:25-59 | nonempty lists of distinct hashes with the same root are equal, also if their lengths were different |
| TxRoot.PaddingKeepsRoot | common/merkle_tree.go:25-59 | every list has the root of the perfect tree obtained by repeating odd last subtrees on all levels, a different list unless its length is a power of two |
| TxRoot.SameRootIffSamePadding | common/merkle_tree.go:25-59 | two nonempty lists, repeated hashes or not, have the same root if and only if these perfect trees are equal |
| TxRoot.CheckTransactions | core/types/block.go:75-95 | a block's hashes are refused as duplicated exactly if they repeat, and accepted exactly if distinct with the stated root |
| TxRoot.AcceptedListsAgree | core/types/block.go:75-95 | two nonempty lists accepted under one transactions root are equal, in order |
| MultiSig.VerifyMultiSignature | core/signature/signature.go:53-86 | the exact outcome of the greedy match; success means that the first m signatures have distinct key positions, and if no two of them share a key without sharing all keys it means just that |
| MultiSig.GreedyErrors | core/signature/signature.go:53-86 | the data is called invalid exactly if a signature is met that does not decode after all before it have found a key |
| MultiSig.GreedyCanMiss | core/signature/signature.go:53-86 | a concrete case in which an assignment exists and the match fails |
| MultiSig.GreedyMisses | core/signature/signature.go:53-86 | any two signatures that share a key but not all keys give lists on which an assignment exists and the match fails |
| MultiSig.GreedyIsExact | core/signature/signature.go:53-86 | the match is right on all lists of given keys and signatures if and only if no two of the signatures share a key without sharing all keys |
| MultiSig.OneKeyEachIsExact | core/signature/signature.go:53-86 | in particular it is right if each signature verifies under one key, listed any number of times |
| MultiSig.FreePosition | core/signature/signature.go:64-80 | under that condition, as long as an assignment exists the next signature finds an unused position |
| BlockPool.Pool.NewBlockProposal | consensus/vbft/block_pool.go:132-160 | a proposer's first proposal is stored with its endorsement; a second one changes nothing and is an error if its signature differs; the pool stays orderly |
| BlockPool.SecondProposal | consensus/vbft/block_pool.go:132-160 | a second proposal of a proposer changes nothing, and is an error exactly if it is signed differently |
| BlockPool.Pool.NewBlockEndorsement | consensus/vbft/block_pool.go:262-305 | a full endorsement makes its endorser one of those recorded for the proposer unless it had endorsed empty, an empty one makes it one of those recorded for empty, and no one else changes; the pool stays orderly |
| BlockPool.EndorsementIsRecorded | consensus/vbft/block_pool.go:262-305 | who is recorded for each proposer and for empty after an endorsement, exactly |
| BlockPool.CommitmentIsRecorded | consensus/vbft/block_pool.go:262-305 | the same after a commitment, which counts in place of all that its committer endorsed before |
| BlockPool.CarriedAreRecorded | consensus/vbft/block_pool.go:468-478 | the same after the endorsements carried by a commit |
| BlockPool.Pool.NewBlockCommitment | consensus/vbft/block_pool.go:450-490 | one commit per committer; carried endorsements are added, the committer's own replaces its list; the pool stays orderly |
| BlockPool.SecondCommit | consensus/vbft/block_pool.go:450-490 | a second commit of a committer changes nothing, and is an error exactly if it is for a different block |
| BlockPool.Pool.SetProposalCommitted | consensus/vbft/block_pool.go:416-445 | commits to one proposal per height, as the full or as the empty one, and never changes it |
| BlockPool.Pool.OnBlockSealed | consensus/vbft/block_pool.go:739-756 | frees exactly the heights below the sealed one minus the history length, one by one in any order |
| BlockPool.Pool.Clean | consensus/vbft/block_pool.go:105-110 | frees all heights |
| BlockPool.AddAllCarried | consensus/vbft/block_pool.go:468-478 | adding the carried endorsements one at a time in any map order gives the same result |
| BlockPool.CommitKeepsOrderly | consensus/vbft/block_pool.go:450-490 | after a commit every list still has distinct proposers, an empty endorsement only at its end, and each recorded commit first in its committer's list |
| BlockPool.Pool.EndorseDone | consensus/vbft/block_pool.go:315-350 | reports exactly if more than C different endorsers back one proposer or endorsed empty; a reported proposer has them, one for empty was endorsed so |
| BlockPool.CountBacked | consensus/vbft/block_pool.go:331-346 | in an orderly list each entry raises the count of different endorsers of its proposer by one, so counting entries counts endorsers |
| BlockPool.GetCommitConsensus | consensus/vbft/node_utils.go:322-347 | the first commit that completes a quorum decides; for empty exactly if more than C commits up to it are; none exactly if no proposer has a quorum |
| BlockPool.QuorumIsStable | consensus/vbft/node_utils.go:322-347 | later commits never undo a quorum |
| BlockPool.Pool.CommitDone | consensus/vbft/block_pool.go:502-556 | reports exactly if some proposer has a commit quorum or more than N-1-C endorsers; for empty exactly if, when the report was found, more than C commits or more than N-1-C counted endorsements were for empty |
| BlockPool.ReportedOfFull | consensus/vbft/block_pool.go:502-556 | with N = 3C+1 peers: commits signed by 2C peers, or 2C+1 endorsers |
| BlockPool.RunIsOrderly | consensus/vbft/block_pool.go:105-490 | after every run of proposals, endorsements, commits and sealed blocks every candidate is orderly |
| BlockPool.RunFollows | consensus/vbft/block_pool.go:132-490 | until its height is freed, over every run proposals and commits only grow, endorsers never vanish, and a committed proposal stays |
| BlockPool.RunKeepsQuorum | consensus/vbft/node_utils.go:322-347 | until its height is freed, a commit quorum holds after every further run |
| Recording.RunRecords | consensus/vbft/block_pool.go:132-490 | after every run that does not free a height: a peer is recorded for empty exactly if a message that was taken says so and no later commit of the peer replaced it, and for a proposer exactly if such a message says so and none for empty stood before it |
| Recording.RunSigners | consensus/vbft/block_pool.go:450-490 | the commits kept name a proposer and carry a peer's signature exactly if a first commit of some committer did |
| Recording.RunReports | consensus/vbft/block_pool.go:502-556 | after every such run a proposer is reported exactly if enough peers signed the first commits that name it, or the endorsements of more than N-1-C peers for it stand |
| Recording.FreedIsForgotten | consensus/vbft/block_pool.go:739-756 | a run continues after a freed height as if nothing had been received for it |
| Recording.SecondEndorsementCounts | consensus/vbft/block_pool.go:262-350 | endorser 1 endorses 7 and then 8, endorser 2 endorses 8: with C = 1, 8 is reported |
| Quorum.SupportIsLarge | consensus/vbft/block_pool.go:502-556 | either way of reporting a proposer shows at least N - N/3 different supporters, or N-1-(N-1)/3 if the proposer signed its own commit |
| Quorum.ReportsShareSupporters | consensus/vbft/block_pool.go:502-556 | any two reports, at any two nodes, share more than (N-1)/3 supporters if the number of peers and the own signatures are safe |
| Quorum.SharingIsExact | consensus/vbft/node_utils.go:341-343 | they always do so if and only if these are safe: for unsafe ones there are two reports that share fewer |
| Quorum.SupportIsSigned | consensus/vbft/block_pool.go:132-490 | after every run of messages, each supporter that a candidate shows has signed a message for that proposer, endorsements for empty blocks not counting |
| Quorum.RunsAgree | consensus/vbft/block_pool.go:502-556 | nodes that receive any messages in any order never report different proposers of a height, if at most (N-1)/3 peers sign for two proposers and the own signatures are safe |
| Quorum.AgreementIsExact | consensus/vbft/block_pool.go:502-556 | all nodes agree over all such runs if and only if the number of peers and the own signatures are safe: otherwise two single commits make two nodes disagree |
| Quorum.RunsDoReport | consensus/vbft/block_pool.go:502-556 | in every chain of three or more peers some run meets the conditions and reports |
| Participants.CalcParticipant | consensus/vbft/node_utils.go:292-314 | draw k is the 16-bit window of the seed at bit k, wrapping around, modulo the table; none from 512 on |
| Participants.DrawBits | consensus/vbft/node_utils.go:292-314 | draw 8q+s takes bytes q and q+1 from bit s on, the first byte following the last |
| Participants.WindowByShifts | consensus/vbft/node_utils.go:299-311 | masking and shifting the two bytes gives the quotient of their 16-bit number |
| Participants.CalcParticipantPeers | consensus/vbft/node_utils.go:234-282 | the peers selected for the role: distinct draws outside the first proposers, up to the first draw that completes the selection; empty exactly if 512 draws do not |
| Participants.SelectionStops | consensus/vbft/node_utils.go:234-282 | who is selected: the peers drawn outside the excluded ones in the order of their first draws, from draw 0, 32 or 272 on, up to the first draw that gives N peers, more than C proposers after 33 draws, or more than 2C others; nobody exactly if no draw does |
| Participants.FirstSelected | consensus/vbft/node_utils.go:218-224 | the first one selected is the first one drawn outside the excluded peers from draw 0, 32 or 272 on |
| Participants.FirstOfEachRole | consensus/vbft/node_utils.go:209-224 | with nobody excluded the first proposer, endorser and committer are draws 0, 32 and 272 |
| Participants.SameSelection | consensus/vbft/node_utils.go:234-282 | seeds that agree on the draws from 0, 32 or 272 to 511 select the same proposers, endorsers or committers |
| Participants.Selected | consensus/vbft/node_utils.go:234-282 | such a selection consists of distinct peers of the table and avoids the excluded proposers |
| Participants.SelectionSize | consensus/vbft/node_utils.go:234-282 | endorsers and committers number min(2C+1, N); proposers number N, or between C+1 and N-1; for N = 0 one is selected |
| Participants.FirstProposersOfDistinct | consensus/vbft/node_utils.go:241-250 | with distinct proposers and C > 0 the excluded ones are exactly the first C |
| Participants.FirstProposersOfNone | consensus/vbft/node_utils.go:241-250 | with C = 0 the first proposer alone is excluded |
| Participants.BuildParticipantConfig | consensus/vbft/node_utils.go:194-232 | a configuration is built if and only if the block is not the first, there is a seed, there are enough peers, and the draws complete the three selections; it has the first C+1 of the selected proposers, and the endorsers and committers selected without the first of them |
| Genesis.BuildPosTable | consensus/vbft/config/genesis.go:124-133 | 15 entries for each peer, in the order of the peers; every peer occurs 15 times as often as in the given list, repeated or not, others never |
| Genesis.Shuffle | consensus/vbft/config/genesis.go:134-142 | swapping in place from the end computes the recursive shuffle, a permutation of the table |
| Genesis.ShuffleFromTheEnd | consensus/vbft/config/genesis.go:134-142 | the last entry of the shuffled table is the one that the hash of the last entry and its place chooses among the others, the last entry takes its place, and the rest is shuffled likewise |
| Genesis.GenesisChainConfig | consensus/vbft/config/genesis.go:106-164 | N peers, C = N/3, and a shuffled table in which each peer still has 15 entries per listing |
| Increment.IncrementValidator.AddBlock | validator/increment/increment.go:66-89 | the first block starts the window, the next one in height slides it by dropping the oldest of a full window, and any other is ignored |
| Increment.FedKeepsLast | validator/increment/increment.go:66-89 | a window given consecutive blocks holds exactly the last of them, as many as it may |
| Increment.IncrementValidator.Verify | validator/increment/increment.go:92-106 | passes exactly if the window covers the start height and no block from there on has the transaction |
| Increment.IncrementValidator.Clean | validator/increment/increment.go:47-52 | empties the window |
| Increment.IncrementValidator.BlockRange | validator/increment/increment.go:55-63 | the first height of the window and the one behind its last |
| TxPool.TXPool.AddTxList | txnpool/common/transaction_pool.go:64-76 | adds an entry exactly if the hash is new, and never replaces one |
| TxPool.TXPool.CleanTransactionList | txnpool/common/transaction_pool.go:79-94 | removes exactly the block's transactions |
| TxPool.TXPool.DelTxList | txnpool/common/transaction_pool.go:97-106 | removes the entry and says whether there was one |
| TxPool.TXPool.GetTxPool | txnpool/common/transaction_pool.go:124-158 | distinct entries verified at the height, outdated ones apart, and all of the pool unless the limit was reached |
| TxPool.Worker.HandleRsp | txnpool/proc/txnpool_worker.go:89-131 | a failure drops the entry, a stale stateful result is ignored, both results together move it to the pool, once; exactly failures and completed entries are reported |
| TxPool.BothResultsAdmit | txnpool/proc/txnpool_worker.go:89-131 | a received transaction is in the pool after a result of each kind, in either order, with both results, and is reported |
| TxPool.ReverifiedIsAdmitted | txnpool/proc/txnpool_worker.go:89-131 | a transaction verified again needs its stateful result only |
| TxPool.OtherResults | txnpool/proc/txnpool_worker.go:89-131 | errors end the verification and are reported; outdated and unasked results change nothing; pooled entries stay |
| TxPool.Worker.VerifyTx | txnpool/proc/txnpool_worker.go:176-210 | the step that the runs of the whole system take when a transaction is received; a pooled one is reported as duplicate input |
| TxPool.Worker.VerifyStateful | txnpool/proc/txnpool_worker.go:266-296 | the step that the runs of the whole system take when a transaction is verified again |
| NoRepeat.MakeBlock | consensus/solo/solo.go:168-192 | distinct transactions of the pool, and without a limit exactly those with no stateful result below the start of a window that ends at the ledger's height and in no block of it, or, without such a window, none below the ledger's height |
| NoRepeat.SelectableMeans | consensus/solo/solo.go:168-192 | the same condition for one transaction |
| NoRepeat.NewIsSelectable | txnpool/proc/txnpool_worker.go:89-210 | in every state that a run reaches, with a pool height within the ledger, a transaction that is new to chain, pool and worker becomes selectable once it has been received and both validators have answered |
| NoRepeat.ActKeepsInv | validator/stateful/stateful_validator.go:66-90 | every step, also with checks and answers in flight while blocks arrive, keeps: the window mirrors the ledger, and each recorded stateful result is true of the ledger up to its height |
| NoRepeat.NoRepeatedTransaction | consensus/solo/solo.go:168-192 | after every run, a transaction that makeBlock may select is not on the chain |
| NoRepeat.ChainHasNoRepeats | consensus/solo/solo.go:144-225 | if every block is one that makeBlock put together, committed at any later time before the ledger grew, no run puts a transaction on the chain twice |
| NoRepeat.NewGetsOnChain | consensus/solo/solo.go:144-225 | and every such new transaction has a run of that kind that puts it on the chain and into the window |
| TxServer.GetUnverifiedTxs | txnpool/common/transaction_pool.go:197-235 | the three lists in order and the new pool, for any request and pool, repetitions and entries without a stateful result included |
| TxServer.CheckedIsPartition | txnpool/common/transaction_pool.go:197-235 | a request without repetitions is split exactly into current, outdated and unknown transactions, but for pooled ones without a stateful result; exactly the outdated ones leave the pool |
| TxServer.CheckedByHeight | txnpool/common/transaction_pool.go:197-235 | by heights: verified are those with a stateful result and none below the height, outdated those with one below, unverified those not in the pool |
| TxServer.VerifiedHeights | txnpool/common/transaction_pool.go:197-235 | with each verified transaction goes the height of its first stateful result |
| TxServer.FirstRepeat | txnpool/proc/txnpool_server.go:592-647 | the first transaction that repeats an earlier one, none exactly if all are distinct |
| TxServer.WithPending | txnpool/proc/txnpool_server.go:592-647 | the block's transactions become pending with no sender; those already pending keep theirs |
| TxServer.TXPoolServer.VerifyBlock | txnpool/proc/txnpool_server.go:592-647 | a repeated transaction is answered at once as a double spend; otherwise pooled ones count as processed, all others are under verification, and the answer goes out exactly if there are none; pooled ones without a stateful result are left out of the answer |
| TxServer.TXPoolServer.RemovePendingTx | txnpool/proc/txnpool_server.go:194-232 | the result of a transaction of the block is recorded; the answer goes out exactly on an error or with the last result, and then names an error or covers the request; which senders get a reply and which transactions are broadcast |
| TxServer.TXPoolServer.CheckPendingBlockOk | txnpool/proc/txnpool_server.go:133-160 | the same step without the pending list; requested transactions are always either processed or still pending |
| TxServer.TXPoolServer.SendBlkResult2Consensus | txnpool/proc/txnpool_server.go:567-584 | hands out all recorded results and forgets them |
| EndToEnd.AppendIsProved | merkle/merkle_tree.go:152-186 | the audit path of every append is accepted for the new leaf |
| EndToEnd.PredictionComesTrue | merkle/merkle_tree.go:142-156 | the root predicted for some leaves is the root once they have been appended one by one, which appends the leaf hash of each |
| EndToEnd.OneLeafPredictions | merkle/merkle_tree.go:122-149 | the predictions for one leaf and for a list of one leaf agree |
| EndToEnd.SingleLeafRoot | merkle/merkle_tree.go:110-186 | the root of a tree with one leaf is the leaf hash of its data |
| EndToEnd.InclusionIsProved | merkle/merkle_tree.go:348-430 | the proof handed out for any leaf and size is accepted |
| EndToEnd.ConsistencyIsProved | merkle/merkle_tree.go:243-295 | the proof handed out for any two sizes is accepted |
| EndToEnd.LeafPathIsProved | merkle/merkle_tree.go:300-344 | the bytes handed out for any leaf and size prove the data it was appended from |
| EndToEnd.LevelPathIsProved | merkle/merkle_hasher.go:141-226 | the bytes made level by level prove the data against the recursive root, exactly if the data is there and the list not too large |
| EndToEnd.TransactionComesBack | core/types/transaction.go:61-157 | a well-formed transaction written to a sink is read back |
| EndToEnd.RequestIsAnswered | txnpool/proc/txnpool_server.go:194-647 | once every pending transaction has a result, in any order, the request has been answered correctly, for every pool |

## Left out

- MerkleTree.CompactMerkleTree.constructor: the given roots are those of some list of leaves; the source takes any list of the right length.
- MerkleTree.CompactMerkleTree.AppendHash: the append that makes the 32-bit size wrap to zero is not modelled.
- MerkleTree.CompactMerkleTree.MerkleRoot: sizes from 2^31 on, whose slot numbers no longer fit 32 bits, are not read; likewise in the proofs below.
- MerkleTree.CompactMerkleTree.ConsistencyProof: an old size of 0 with a positive new size makes the source read the slot before the first one, and the memory store panics; it is excluded.
- Codec.ZeroCopySink.Grow: the panic for a capacity beyond the address space is not modelled.
- Transaction.Deserialization: a signature count too large for the allocation of the list, which panics in the source, is not modelled; error messages are one failure.
- BlockPool.Pool.NewBlockProposal: the peer index 2^32-1, which the source uses for "no peer", is excluded.
- TxServer.TXPoolServer.RemovePendingTx: further answers that the source sends for a request already answered with an error are not required to be correct.
- Reencoding.DecodeThenEncode: key encodings are no longer than 2^64-1 bytes.
- LevelTree.DepthIsCeilLog: the source computes the logarithm in floating point; the model takes its exact ceiling.
- NoRepeat.MakeBlock: the selection is one step; the source's actor handles no other message meanwhile.
- The file-backed hash store, and marshalling of the tree's state.
- Aliasing of the slices that `Hashes` and `NextBytes` return with the tree's and the source's own memory.
- Hash functions, signature verification, public-key encodings and the VRF itself.
- VBFT beyond the bookkeeping: timers, proposal ranking, `endorseFailed`, sealing, the chain store, liveness.
- Which worker gets which transaction, retries on timeout, slots and limits of the pool server.
- Blocks and headers other than the transaction list: their encodings and signatures.
- Native contracts, cross-chain headers, the ledger stores, the virtual machine, the peer-to-peer layer, RPC and the command line: they would only add easy members or depend on the parameters above.
