/** TreeHasher of merkle/merkle_hasher.go: the recursive definition and the fold. */
module TreeHasher {
  import opened Hashing
  import opened Bits
  import opened MerkleSpec

  /** The recursive computation over leaves l..r, which returns the root and the
      list of perfect-subtree roots. */
  function HashFull(h: Hasher, leaves: seq<Hash>, l: nat, r: nat): (res: (Hash, seq<Hash>))
    requires l <= r <= |leaves|
    decreases r - l
  {
    var width := r - l;
    if width == 0 then (h.empty, [])
    else if width == 1 then (leaves[l], [leaves[l]])
    else
      var k := Split(width);
      var left := HashFull(h, leaves, l, l + k);
      var right := HashFull(h, leaves, l + k, r);
      var root := h.children(left.0, right.0);
      (root, if k * 2 == width then [root] else left.1 + right.1)
  }

  /** The root and the perfect-subtree roots, for every range. The left list always
      has one entry, so the source's panic about it cannot happen. */
  lemma {:induction false} HashFullIsSpec(h: Hasher, leaves: seq<Hash>, l: nat, r: nat)
    requires l <= r <= |leaves|
    ensures HashFull(h, leaves, l, r) == (Mth(h, leaves[l..r]), Frontier(h, leaves[l..r]))
    ensures r - l >= 2 ==> |HashFull(h, leaves, l, l + Split(r - l)).1| == 1
    decreases r - l
  {
    hide *;
    if r - l <= 1 {
      HashFullSmall(h, leaves, l, r);
    } else {
      var k := Split(r - l);
      HashFullIsSpec(h, leaves, l, l + k);
      HashFullIsSpec(h, leaves, l + k, r);
      HashFullLevel(h, leaves, l, r);
      var a, b := leaves[l..l + k], leaves[l + k..r];
      assert leaves[l..r] == a + b;
      MthGlue(h, a, b);
      FrontierLevel(h, a, b);
      PerfectFrontier(h, a);
    }
  }

  lemma HashFullSmall(h: Hasher, leaves: seq<Hash>, l: nat, r: nat)
    requires l <= r <= |leaves| && r - l <= 1
    ensures HashFull(h, leaves, l, r) == (Mth(h, leaves[l..r]), Frontier(h, leaves[l..r]))
  {
  }

  lemma HashFullLevel(h: Hasher, leaves: seq<Hash>, l: nat, r: nat)
    requires l + 2 <= r <= |leaves|
    ensures var k := Split(r - l);
            var left, right := HashFull(h, leaves, l, l + k), HashFull(h, leaves, l + k, r);
            var root := h.children(left.0, right.0);
            HashFull(h, leaves, l, r) == (root, if k * 2 == r - l then [root] else left.1 + right.1)
  {
  }

  /** The left half is always perfect, so it contributes one root. */
  lemma FrontierLevel(h: Hasher, a: seq<Hash>, b: seq<Hash>)
    requires IsPow2(|a|) && 0 < |b| <= |a|
    ensures Frontier(h, a + b) == if |b| == |a| then [Mth(h, a + b)] else Frontier(h, a) + Frontier(h, b)
  {
    hide *;
    if |b| == |a| {
      DoublePower(|a|);
      PerfectFrontier(h, a + b);
    } else {
      PerfectFrontier(h, a);
      FrontierGlue(h, a, b);
    }
  }

  lemma PerfectFrontier(h: Hasher, a: seq<Hash>)
    requires IsPow2(|a|)
    ensures Frontier(h, a) == [Mth(h, a)]
  {
  }

  /** The checks that the source makes on the result hold for every list: one
      root per 1 digit of the length, and they fold to the root. */
  function HashFullTreeWithLeafHash(h: Hasher, leaves: seq<Hash>): (root: Hash)
    ensures root == Mth(h, leaves)
    ensures var hashes := HashFull(h, leaves, 0, |leaves|).1;
            && |hashes| == Ones(|leaves|)
            && (if hashes != [] then root == Fold(h, hashes) else root == h.empty)
  {
    HashFullChecks(h, leaves);
    HashFull(h, leaves, 0, |leaves|).0
  }

  lemma HashFullChecks(h: Hasher, leaves: seq<Hash>)
    ensures var full := HashFull(h, leaves, 0, |leaves|);
            && full.0 == Mth(h, leaves)
            && |full.1| == Ones(|leaves|)
            && (if full.1 != [] then full.0 == Fold(h, full.1) else full.0 == h.empty)
  {
    HashFullIsSpec(h, leaves, 0, |leaves|);
    assert leaves[0..|leaves|] == leaves;
    FrontierLength(h, leaves);
    if leaves != [] {
      FoldFrontier(h, leaves);
    }
  }

  method HashFold(h: Hasher, hashes: seq<Hash>) returns (accum: Hash)
    requires hashes != []
    ensures accum == Fold(h, hashes)
  {
    var i := |hashes| - 1;
    accum := hashes[i];
    while i > 0
      invariant 0 <= i < |hashes|
      invariant accum == Fold(h, hashes[i..])
    {
      i := i - 1;
      assert hashes[i..][1..] == hashes[i + 1..];
      accum := h.children(hashes[i], accum);
    }
    assert hashes[0..] == hashes;
  }
}
