/** The Merkle tree of section 2.1 of RFC 6962, and the two lists that a compact
    tree keeps: the roots of its perfect subtrees and all its finished nodes. */
module MerkleSpec {
  import opened Hashing
  import opened Bits

  /** The tree hash of a list of leaf hashes. */
  function Mth(h: Hasher, d: seq<Hash>): Hash {
    if d == [] then h.empty
    else if |d| == 1 then d[0]
    else
      var k := Split(|d|);
      h.children(Mth(h, d[..k]), Mth(h, d[k..]))
  }

  /** The roots of the perfect subtrees, largest first. */
  function Frontier(h: Hasher, d: seq<Hash>): seq<Hash> {
    if d == [] then []
    else if IsPow2(|d|) then [Mth(h, d)]
    else
      var k := Split(|d|);
      [Mth(h, d[..k])] + Frontier(h, d[k..])
  }

  /** Every node of every perfect subtree, in post-order. */
  function Layout(h: Hasher, d: seq<Hash>): seq<Hash> {
    if |d| <= 1 then d
    else
      var k := Split(|d|);
      var nodes := Layout(h, d[..k]) + Layout(h, d[k..]);
      if IsPow2(|d|) then nodes + [Mth(h, d)] else nodes
  }

  /** Combines a list of roots from the right. */
  function Fold(h: Hasher, s: seq<Hash>): Hash
    requires s != []
  {
    if |s| == 1 then s[0] else h.children(s[0], Fold(h, s[1..]))
  }

  /** The pairs hashed while computing Mth. */
  ghost function TreePairs(h: Hasher, d: seq<Hash>): set<(Hash, Hash)> {
    if |d| <= 1 then {}
    else
      var k := Split(|d|);
      {(Mth(h, d[..k]), Mth(h, d[k..]))} + TreePairs(h, d[..k]) + TreePairs(h, d[k..])
  }

  // --- joining a perfect left part to a right part no larger than it

  lemma MthGlue(h: Hasher, a: seq<Hash>, b: seq<Hash>)
    requires IsPow2(|a|) && 0 < |b| <= |a|
    ensures Mth(h, a + b) == h.children(Mth(h, a), Mth(h, b))
  {
    SplitUnique(|a + b|, |a|);
    assert (a + b)[..|a|] == a && (a + b)[|a|..] == b;
  }

  lemma FrontierGlue(h: Hasher, a: seq<Hash>, b: seq<Hash>)
    requires IsPow2(|a|) && 0 < |b| < |a|
    ensures Frontier(h, a + b) == [Mth(h, a)] + Frontier(h, b)
  {
    SplitUnique(|a + b|, |a|);
    if IsPow2(|a + b|) { PowersAreSpaced(|a|, |a + b|); }
    assert (a + b)[..|a|] == a && (a + b)[|a|..] == b;
  }

  lemma LayoutGlue(h: Hasher, a: seq<Hash>, b: seq<Hash>)
    requires IsPow2(|a|) && 0 < |b| < |a|
    ensures Layout(h, a + b) == Layout(h, a) + Layout(h, b)
  {
    hide Mth;
    SplitUnique(|a + b|, |a|);
    if IsPow2(|a + b|) { PowersAreSpaced(|a|, |a + b|); }
    assert (a + b)[..|a|] == a && (a + b)[|a|..] == b;
  }

  lemma MthLevel(h: Hasher, d: seq<Hash>)
    requires |d| >= 2
    ensures Mth(h, d) == h.children(Mth(h, d[..Split(|d|)]), Mth(h, d[Split(|d|)..]))
  {
  }

  lemma LayoutLevel(h: Hasher, d: seq<Hash>)
    requires |d| >= 2
    ensures var k := Split(|d|);
            Layout(h, d) == Layout(h, d[..k]) + (Layout(h, d[k..]) + (if IsPow2(|d|) then [Mth(h, d)] else []))
  {
    hide Mth;
  }

  lemma LayoutJoin(h: Hasher, a: seq<Hash>, b: seq<Hash>)
    requires IsPow2(|a|) && |b| == |a|
    ensures Layout(h, a + b) == Layout(h, a) + (Layout(h, b) + [Mth(h, a + b)])
  {
    assert IsPow2(2 * |a|);
    hide *;
    var s := a + b;
    SplitUnique(|s|, |a|);
    assert s[..|a|] == a && s[|a|..] == b;
    LayoutLevel(h, s);
  }

  // --- counting

  /** The split of a size that is no power of two leaves less than half. */
  lemma SplitOfImperfect(n: nat) returns (k: nat)
    requires n > 0 && !IsPow2(n)
    ensures n >= 2 && k == Split(n) && n < 2 * k
    ensures Ones(n) == 1 + Ones(n - k)
  {
    k := Split(n);
    OnesAbove(k, n - k);
  }

  /** There is one frontier root per 1 digit of the size. */
  lemma {:induction false} FrontierLength(h: Hasher, d: seq<Hash>)
    ensures |Frontier(h, d)| == Ones(|d|)
  {
    if d == [] {
    } else {
      PowerHasOneOne(|d|);
      if !IsPow2(|d|) {
        var k := SplitOfImperfect(|d|);
        FrontierLength(h, d[k..]);
      }
    }
  }

  lemma SmallLayout(h: Hasher, d: seq<Hash>)
    requires |d| <= 1
    ensures Layout(h, d) == d && Ones(|d|) == |d|
  {
  }

  /** A tree of n leaves has 2n - countBit(n) finished nodes. */
  lemma {:induction false} LayoutLength(h: Hasher, d: seq<Hash>)
    ensures |Layout(h, d)| == 2 * |d| - Ones(|d|)
  {
    hide *;
    var n := |d|;
    if n <= 1 {
      SmallLayout(h, d);
    } else {
      var k := Split(n);
      LayoutLevel(h, d);
      LayoutLength(h, d[..k]);
      LayoutLength(h, d[k..]);
      OnesOfSplit(n);
    }
  }

  lemma OnesOfSplit(n: nat)
    requires n > 1
    ensures Ones(Split(n)) == 1
    ensures IsPow2(n) ==> Ones(n) == 1 && Ones(n - Split(n)) == 1
    ensures !IsPow2(n) ==> Ones(n) == 1 + Ones(n - Split(n))
  {
    PowerHasOneOne(n);
    PowerHasOneOne(Split(n));
    if IsPow2(n) {
      SplitUnique(n, n / 2);
    } else {
      var _ := SplitOfImperfect(n);
    }
  }

  // --- folding the frontier gives the root

  lemma {:induction false} FoldFrontier(h: Hasher, d: seq<Hash>)
    requires d != []
    ensures Frontier(h, d) != []
    ensures Fold(h, Frontier(h, d)) == Mth(h, d)
  {
    if !IsPow2(|d|) {
      var k := SplitOfImperfect(|d|);
      FoldFrontier(h, d[k..]);
    }
  }

  /** Folding the frontier with one more leaf at its end, without merging any
      subtrees, gives the root of the longer tree. */
  lemma {:induction false} FoldWithNewLeaf(h: Hasher, d: seq<Hash>, x: Hash)
    ensures Fold(h, Frontier(h, d) + [x]) == Mth(h, d + [x])
  {
    if d == [] {
      return;
    }
    hide *;
    var k := SplitOfOneMore(|d|);
    var a, b := d[..k], d[k..];
    assert d == a + b;
    FoldOneStep(h, a, b, x);
    FoldWithNewLeaf(h, b, x);
  }

  lemma FoldOneStep(h: Hasher, a: seq<Hash>, b: seq<Hash>, x: Hash)
    requires IsPow2(|a|) && |b| < |a|
    ensures Fold(h, Frontier(h, a + b) + [x]) == h.children(Mth(h, a), Fold(h, Frontier(h, b) + [x]))
    ensures Mth(h, a + b + [x]) == h.children(Mth(h, a), Mth(h, b + [x]))
  {
    hide Mth;
    MthGlue(h, a, b + [x]);
    assert a + b + [x] == a + (b + [x]);
    if b == [] {
      assert a + b == a;
    } else {
      FrontierGlue(h, a, b);
    }
    var s := Frontier(h, a + b) + [x];
    assert s == [Mth(h, a)] + (Frontier(h, b) + [x]);
    assert s[1..] == Frontier(h, b) + [x];
  }

  lemma SplitOfOneMore(n: nat) returns (k: nat)
    requires n > 0
    ensures IsPow2(k) && 0 < k <= n < 2 * k
  {
    if IsPow2(n) {
      k := n;
    } else {
      k := SplitOfImperfect(n);
    }
  }

  // --- growing by an aligned perfect subtree

  /** q is a multiple of 2p, for a power of two p. */
  predicate Aligned(q: nat, p: nat)
    requires IsPow2(p)
  {
    q % 2 == 0 && (p == 1 || Aligned(q / 2, p / 2))
  }

  lemma {:induction false} AlignedMultiple(s: nat, p: nat)
    requires IsPow2(p)
    ensures Aligned(2 * (s * p), p)
  {
    if p <= 1 {
    } else {
      AlignedMultiple(s, p / 2);
      assert 2 * (s * (p / 2)) == s * p;
    }
  }

  lemma {:induction false} AlignedAbove(q: nat, p: nat)
    requires IsPow2(p) && Aligned(q, p) && q > 0
    ensures q >= 2 * p
  {
    if p <= 1 {
    } else {
      AlignedAbove(q / 2, p / 2);
    }
  }

  lemma {:induction false} AlignedMinus(q: nat, p: nat, k: nat)
    requires IsPow2(p) && Aligned(q, p) && IsPow2(k) && p < k <= q
    ensures Aligned(q - k, p)
  {
    if p <= 1 {
    } else {
      assert (q - k) / 2 == q / 2 - k / 2;
      AlignedMinus(q / 2, p / 2, k / 2);
    }
  }

  lemma {:induction false} AlignedGap(q: nat, p: nat, k: nat)
    requires IsPow2(p) && Aligned(q, p) && IsPow2(k) && p < k && q < k
    ensures q + 2 * p <= k
  {
    if p <= 1 {
    } else {
      AlignedGap(q / 2, p / 2, k / 2);
    }
  }

  /** How q + p leaves split when q > 0 is a multiple of 2p. */
  lemma SplitOfGrown(q: nat, p: nat) returns (k: nat)
    requires IsPow2(p) && Aligned(q, p) && q > 0
    ensures IsPow2(k) && k <= q && q + p < 2 * k && p > 0
    ensures Aligned(q - k, p)
  {
    AlignedAbove(q, p);
    k := Split(q + p);
    if q < k { AlignedGap(q, p, k); }
    if q < 2 * k { AlignedGap(q, p, 2 * k); }
    AlignedMinus(q, p, k);
  }

  /** Appending a perfect subtree e of p leaves after a multiple of 2p leaves
      extends the frontier by its root. */
  lemma {:induction false} GrowFrontier(h: Hasher, d: seq<Hash>, e: seq<Hash>)
    requires IsPow2(|e|) && Aligned(|d|, |e|)
    ensures Frontier(h, d + e) == Frontier(h, d) + [Mth(h, e)]
  {
    hide Mth;
    if d == [] {
      assert d + e == e;
    } else {
      var k := SplitOfGrown(|d|, |e|);
      var a, b := d[..k], d[k..];
      assert d == a + b && d + e == a + (b + e);
      GrowFrontier(h, b, e);
      FrontierGlue(h, a, b + e);
      if b == [] {
        assert d == a;
      } else {
        FrontierGlue(h, a, b);
      }
    }
  }

  /** ... and the layout by its nodes. */
  lemma {:induction false} GrowLayout(h: Hasher, d: seq<Hash>, e: seq<Hash>)
    requires IsPow2(|e|) && Aligned(|d|, |e|)
    ensures Layout(h, d + e) == Layout(h, d) + Layout(h, e)
  {
    if d == [] {
      assert d + e == e;
      return;
    }
    hide *;
    var k := SplitOfGrown(|d|, |e|);
    assert d == d[..k] + d[k..];
    GrowLayout(h, d[k..], e);
    GrowLayoutStep(h, d[..k], d[k..], e);
  }

  lemma GrowLayoutStep(h: Hasher, a: seq<Hash>, b: seq<Hash>, e: seq<Hash>)
    requires IsPow2(|a|) && |b + e| < |a| && e != []
    requires Layout(h, b + e) == Layout(h, b) + Layout(h, e)
    ensures Layout(h, a + b + e) == Layout(h, a + b) + Layout(h, e)
  {
    hide *;
    assert a + b + e == a + (b + e);
    LayoutGlue(h, a, b + e);
    if b == [] {
      assert a + b == a && b + e == e;
    } else {
      LayoutGlue(h, a, b);
    }
  }

  // --- the layout is append-only

  /** How a proper prefix longer than the split point splits. */
  lemma SplitOfPrefix(m: nat, n: nat)
    requires 2 <= n && Split(n) < m < n
    ensures Split(m) == Split(n) && !IsPow2(m)
  {
    SplitUnique(m, Split(n));
    if IsPow2(m) { PowersAreSpaced(Split(n), m); }
  }

  /** The nodes of a prefix of the leaves come first. */
  lemma {:induction false} LayoutPrefix(h: Hasher, d: seq<Hash>, m: nat)
    requires m <= |d|
    ensures Layout(h, d[..m]) <= Layout(h, d)
  {
    hide *;
    var n := |d|;
    if m == n {
      assert d[..m] == d;
    } else if m == 0 {
      SmallLayout(h, d[..m]);
    } else {
      var k := Split(n);
      LayoutLevel(h, d);
      if m <= k {
        assert d[..k][..m] == d[..m];
        LayoutPrefix(h, d[..k], m);
      } else {
        SplitOfPrefix(m, n);
        assert d[..m][..k] == d[..k] && d[..m][k..] == d[k..][..m - k];
        LayoutLevel(h, d[..m]);
        LayoutPrefix(h, d[k..], m - k);
      }
    }
  }

  /** The last node of a perfect subtree is its root. */
  lemma PerfectEndsInRoot(h: Hasher, d: seq<Hash>)
    requires IsPow2(|d|)
    ensures |Layout(h, d)| == 2 * |d| - 1
    ensures Last(Layout(h, d)) == Mth(h, d)
  {
    LayoutLength(h, d);
    PowerHasOneOne(|d|);
  }
}
