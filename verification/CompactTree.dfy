/** The facts about growing a tree by one leaf, and about reading a stored tree,
    that CompactMerkleTree of merkle/merkle_tree.go relies on. */
module CompactTree {
  import opened Hashing
  import opened Bits
  import opened MerkleSpec
  import opened MerkleProofs
  import opened HashStore

  // --- carrying

  /** The state of a carry: d ends in a perfect subtree of p leaves preceded by
      s further units of p leaves. */
  ghost predicate Carry(d: seq<Hash>, s: nat, p: nat) {
    IsPow2(p) && |d| == s * p + p
  }

  /** A single new leaf is a perfect subtree. */
  lemma StartCarry(h: Hasher, d: seq<Hash>, x: Hash)
    ensures var e := d + [x];
            && Carry(e, |d|, 1) && Digits(1) == 1
            && e[..|d|] == d
            && Mth(h, e[|d|..]) == x
            && Layout(h, e[|d|..]) == [x]
  {
    assert (d + [x])[|d|..] == [x];
  }

  /** An odd number of units: the last unit before the subtree joins it. */
  lemma CarryOdd(d: seq<Hash>, s: nat, p: nat)
    requires Carry(d, s, p) && s % 2 == 1
    ensures 2 * p <= |d| && Aligned(|d| - 2 * p, p) && Carry(d, s / 2, 2 * p)
  {
    var t := s / 2;
    assert s * p == 2 * (t * p) + p;
    assert t * (2 * p) == 2 * (t * p);
    AlignedMultiple(t, p);
  }

  lemma CarryPower(d: seq<Hash>, s: nat, p: nat)
    requires Carry(d, s, p)
    ensures IsPow2(p) && Digits(2 * p) == Digits(p) + 1
  {
  }

  lemma CarryEven(d: seq<Hash>, s: nat, p: nat)
    requires Carry(d, s, p) && s % 2 == 0
    ensures p <= |d| && Aligned(|d| - p, p) && LowestOne(|d|) == p
  {
    hide Aligned, LowestOne, IsPow2;
    var t := s / 2;
    assert s * p == 2 * (t * p);
    AlignedMultiple(t, p);
    LowestOneOfMultiple(s + 1, p);
    assert (s + 1) * p == s * p + p;
  }

  lemma {:induction false} LowestOneOfMultiple(t: nat, p: nat)
    requires t % 2 == 1 && IsPow2(p)
    ensures t * p > 0 && LowestOne(t * p) == p
  {
    if p <= 1 {
    } else {
      var q := p / 2;
      LowestOneOfMultiple(t, q);
      assert t * p == 2 * (t * q);
    }
  }

  lemma CarryFrontier(h: Hasher, d: seq<Hash>, s: nat, p: nat)
    requires Carry(d, s, p) && s % 2 == 1 && 2 * p <= |d|
    ensures var q, r := |d| - p, |d| - 2 * p;
            Frontier(h, d[..q]) == Frontier(h, d[..r]) + [Mth(h, d[r..q])]
  {
    hide Frontier, Mth;
    var q, r := |d| - p, |d| - 2 * p;
    CarryOdd(d, s, p);
    assert d[..q] == d[..r] + d[r..q];
    GrowFrontier(h, d[..r], d[r..q]);
  }

  lemma CarryRoot(h: Hasher, d: seq<Hash>, p: nat)
    requires IsPow2(p) && 2 * p <= |d|
    ensures var q, r := |d| - p, |d| - 2 * p;
            Mth(h, d[r..]) == h.children(Mth(h, d[r..q]), Mth(h, d[q..]))
  {
    hide Mth;
    var q, r := |d| - p, |d| - 2 * p;
    assert d[r..] == d[r..q] + d[q..];
    MthGlue(h, d[r..q], d[q..]);
  }

  lemma CarryLayout(h: Hasher, d: seq<Hash>, s: nat, p: nat)
    requires Carry(d, s, p) && s % 2 == 1 && 2 * p <= |d|
    ensures var q, r := |d| - p, |d| - 2 * p;
            Layout(h, d[..q]) + Layout(h, d[q..]) + [Mth(h, d[r..])] == Layout(h, d[..r]) + Layout(h, d[r..])
  {
    hide Layout, Mth;
    var q, r := |d| - p, |d| - 2 * p;
    CarryOdd(d, s, p);
    assert d[..q] == d[..r] + d[r..q];
    GrowLayout(h, d[..r], d[r..q]);
    assert d[r..] == d[r..q] + d[q..];
    LayoutJoin(h, d[r..q], d[q..]);
    JoinParts(Layout(h, d[..r]), Layout(h, d[r..q]), Layout(h, d[q..]), Mth(h, d[r..]));
  }

  lemma JoinParts<T>(a: seq<T>, b: seq<T>, c: seq<T>, x: T)
    ensures a + b + c + [x] == a + (b + (c + [x]))
  {
  }

  lemma CarryEndsFrontier(h: Hasher, d: seq<Hash>, s: nat, p: nat)
    requires Carry(d, s, p) && s % 2 == 0 && p <= |d|
    ensures Frontier(h, d) == Frontier(h, d[..|d| - p]) + [Mth(h, d[|d| - p..])]
  {
    hide Frontier, Mth;
    CarryEven(d, s, p);
    assert d == d[..|d| - p] + d[|d| - p..];
    GrowFrontier(h, d[..|d| - p], d[|d| - p..]);
  }

  lemma CarryEndsLayout(h: Hasher, d: seq<Hash>, s: nat, p: nat)
    requires Carry(d, s, p) && s % 2 == 0 && p <= |d|
    ensures Layout(h, d) == Layout(h, d[..|d| - p]) + Layout(h, d[|d| - p..])
  {
    hide Layout;
    CarryEven(d, s, p);
    assert d == d[..|d| - p] + d[|d| - p..];
    GrowLayout(h, d[..|d| - p], d[|d| - p..]);
  }

  /** The frontier, smallest root first, is the audit path of the next leaf. */
  lemma {:induction false} FrontierIsNextPath(h: Hasher, d: seq<Hash>, x: Hash)
    ensures Reverse(Frontier(h, d)) == Path(h, |d|, d + [x])
  {
    if d == [] {
      return;
    }
    hide *;
    var k := SplitOfOneMore(|d|);
    assert d == d[..k] + d[k..];
    FrontierIsNextPath(h, d[k..], x);
    FrontierGlue'(h, d[..k], d[k..]);
    ReverseCons(Mth(h, d[..k]), Frontier(h, d[k..]));
    NextPathStep(h, d, k, x);
  }

  lemma ReverseCons<T>(x: T, s: seq<T>)
    ensures Reverse([x] + s) == Reverse(s) + [x]
  {
  }

  lemma NextPathStep(h: Hasher, d: seq<Hash>, k: nat, x: Hash)
    requires IsPow2(k) && 0 < k <= |d| < 2 * k
    ensures Path(h, |d|, d + [x]) == Path(h, |d| - k, d[k..] + [x]) + [Mth(h, d[..k])]
  {
    hide *;
    var e := d + [x];
    SplitUnique(|e|, k);
    PathLevel(h, |d|, e);
    assert e[..k] == d[..k] && e[k..] == d[k..] + [x];
  }

  // --- descending into a stored tree

  /** A stored tree holds its halves, and the root of the left one, at known
      places. */
  lemma HeldHalves(h: Hasher, store: seq<Hash>, off: nat, d: seq<Hash>)
    requires |d| >= 2 && Held(store, off, Layout(h, d))
    ensures var k := Split(|d|);
            && off + 2 * k - 1 <= |store|
            && Held(store, off, Layout(h, d[..k]))
            && Held(store, off + 2 * k - 1, Layout(h, d[k..]))
            && store[off + 2 * k - 2] == Mth(h, d[..k])
  {
    hide *;
    var k := Split(|d|);
    var rest := if IsPow2(|d|) then [Mth(h, d)] else [];
    LayoutLevel(h, d);
    PerfectEndsInRoot(h, d[..k]);
    HeldParts(store, off, Layout(h, d[..k]), Layout(h, d[k..]) + rest);
    HeldParts(store, off + 2 * k - 1, Layout(h, d[k..]), rest);
    HeldRoot(h, store, off, d[..k]);
  }

  // --- one step of a descent that collects the other halves

  lemma ReverseSnoc<T>(a: seq<T>, s: seq<T>, x: T)
    ensures (a + [x]) + Reverse(s) == a + Reverse(s + [x])
  {
  }

  /** On which side of the path each collected hash lies: true for the right. */
  function Sides(m: nat, n: nat): seq<bool>
    requires m < n
    decreases n
  {
    if n == 1 then []
    else
      var k := Split(n);
      if m < k then Sides(m, k) + [true] else Sides(m - k, n - k) + [false]
  }

  /** The descent stands at leaf m of d, stored from slot off on; with what it
      has collected it is on the way to the wanted path. */
  ghost predicate OnPath(h: Hasher, store: seq<Hash>, off: nat, m: nat, d: seq<Hash>, acc: seq<Hash>, sides: seq<bool>,
                         path: seq<Hash>, pathSides: seq<bool>)
  {
    && m < |d| < MAX_LEAVES && |store| < TWO_32
    && Held(store, off, Layout(h, d))
    && path == Path(h, m, d) + Reverse(acc)
    && pathSides == Sides(m, |d|) + Reverse(sides)
  }

  lemma PathStarts(h: Hasher, d: seq<Hash>, m: nat)
    requires m < |d| < MAX_LEAVES
    ensures OnPath(h, Layout(h, d), 0, m, d, [], [], Path(h, m, d), Sides(m, |d|))
  {
    hide Layout, Path, Sides;
    LayoutLength(h, d);
  }

  lemma PathGoesLeft(h: Hasher, store: seq<Hash>, off: nat, m: nat, d: seq<Hash>, acc: seq<Hash>, sides: seq<bool>,
                     path: seq<Hash>, pathSides: seq<bool>)
    requires OnPath(h, store, off, m, d, acc, sides, path, pathSides) && |d| >= 2 && m < Split(|d|)
    ensures var k := Split(|d|);
            && off + 2 * k - 1 < TWO_32 && Held(store, off + 2 * k - 1, Layout(h, d[k..]))
            && OnPath(h, store, off, m, d[..k], acc + [Mth(h, d[k..])], sides + [true], path, pathSides)
  {
    hide Layout, Path, Sides, Mth, Split, Held, Reverse, IsPow2;
    SidesLevel(m, |d|);
    PathLevel(h, m, d);
    HeldHalves(h, store, off, d);
    var k := Split(|d|);
    ReverseSnoc(Path(h, m, d[..k]), acc, Mth(h, d[k..]));
    ReverseSnoc(Sides(m, k), sides, true);
  }

  lemma PathGoesRight(h: Hasher, store: seq<Hash>, off: nat, m: nat, d: seq<Hash>, acc: seq<Hash>, sides: seq<bool>,
                      path: seq<Hash>, pathSides: seq<bool>)
    requires OnPath(h, store, off, m, d, acc, sides, path, pathSides) && |d| >= 2 && m >= Split(|d|)
    ensures var k := Split(|d|);
            && off + 2 * k - 1 <= |store| < TWO_32 && store[off + 2 * k - 2] == Mth(h, d[..k])
            && OnPath(h, store, off + 2 * k - 1, m - k, d[k..], acc + [Mth(h, d[..k])], sides + [false],
                      path, pathSides)
  {
    hide Layout, Path, Sides, Mth, Split, Held, Reverse, IsPow2;
    SidesLevel(m, |d|);
    PathLevel(h, m, d);
    HeldHalves(h, store, off, d);
    var k := Split(|d|);
    ReverseSnoc(Path(h, m - k, d[k..]), acc, Mth(h, d[..k]));
    ReverseSnoc(Sides(m - k, |d| - k), sides, false);
  }

  lemma OnPathBounds(h: Hasher, store: seq<Hash>, off: nat, m: nat, d: seq<Hash>, acc: seq<Hash>, sides: seq<bool>,
                     path: seq<Hash>, pathSides: seq<bool>)
    requires OnPath(h, store, off, m, d, acc, sides, path, pathSides)
    ensures |d| < MAX_LEAVES && |store| < TWO_32
  {
  }

  lemma SidesLevel(m: nat, n: nat)
    requires m < n && n >= 2
    ensures var k := Split(n);
            Sides(m, n) == if m < k then Sides(m, k) + [true] else Sides(m - k, n - k) + [false]
  {
  }

  lemma PathEnds(h: Hasher, store: seq<Hash>, off: nat, m: nat, d: seq<Hash>, acc: seq<Hash>, sides: seq<bool>,
                 path: seq<Hash>, pathSides: seq<bool>)
    requires OnPath(h, store, off, m, d, acc, sides, path, pathSides) && |d| == 1
    ensures path == Reverse(acc) && pathSides == Reverse(sides)
  {
  }

  /** Likewise on the way to a consistency proof. The descent ends at a perfect
      subtree unless it starts at its end. */
  ghost predicate OnProof(h: Hasher, store: seq<Hash>, off: nat, m: nat, d: seq<Hash>, b: bool, acc: seq<Hash>,
                          proof: seq<Hash>) {
    && 0 < m <= |d| < MAX_LEAVES && |store| < TWO_32
    && (b || m < |d| || IsPow2(|d|))
    && Held(store, off, Layout(h, d))
    && proof == SubProof(h, m, d, b) + Reverse(acc)
  }

  lemma OnProofBounds(h: Hasher, store: seq<Hash>, off: nat, m: nat, d: seq<Hash>, b: bool, acc: seq<Hash>,
                      proof: seq<Hash>)
    requires OnProof(h, store, off, m, d, b, acc, proof)
    ensures |d| < MAX_LEAVES && |store| < TWO_32
  {
  }

  lemma ProofStarts(h: Hasher, d: seq<Hash>, m: nat)
    requires 0 < m <= |d| < MAX_LEAVES
    ensures OnProof(h, Layout(h, d), 0, m, d, true, [], SubProof(h, m, d, true))
  {
    hide Layout, SubProof;
    LayoutLength(h, d);
  }

  lemma ProofGoesLeft(h: Hasher, store: seq<Hash>, off: nat, m: nat, d: seq<Hash>, b: bool, acc: seq<Hash>,
                      proof: seq<Hash>)
    requires OnProof(h, store, off, m, d, b, acc, proof) && m < |d| && m <= Split(|d|)
    ensures var k := Split(|d|);
            && off + 2 * k - 1 < TWO_32 && Held(store, off + 2 * k - 1, Layout(h, d[k..]))
            && OnProof(h, store, off, m, d[..k], b, acc + [Mth(h, d[k..])], proof)
  {
    hide Layout, SubProof, Mth, Split, Held, Reverse, IsPow2;
    SubProofLevel(h, m, d, b);
    HeldHalves(h, store, off, d);
    var k := Split(|d|);
    ReverseSnoc(SubProof(h, m, d[..k], b), acc, Mth(h, d[k..]));
  }

  lemma ProofGoesRight(h: Hasher, store: seq<Hash>, off: nat, m: nat, d: seq<Hash>, b: bool, acc: seq<Hash>,
                       proof: seq<Hash>)
    requires OnProof(h, store, off, m, d, b, acc, proof) && m < |d| && m > Split(|d|)
    ensures var k := Split(|d|);
            && off + 2 * k - 1 <= |store| < TWO_32 && store[off + 2 * k - 2] == Mth(h, d[..k])
            && OnProof(h, store, off + 2 * k - 1, m - k, d[k..], false, acc + [Mth(h, d[..k])], proof)
  {
    hide Layout, SubProof, Mth, Split, Held, Reverse, IsPow2;
    SubProofLevel(h, m, d, b);
    HeldHalves(h, store, off, d);
    var k := Split(|d|);
    ReverseSnoc(SubProof(h, m - k, d[k..], false), acc, Mth(h, d[..k]));
  }

  /** At the end a verifier that does not know the subtree gets its root, which
      is stored in a single slot. */
  lemma ProofEnds(h: Hasher, store: seq<Hash>, off: nat, d: seq<Hash>, b: bool, acc: seq<Hash>, proof: seq<Hash>)
    requires d != [] && OnProof(h, store, off, |d|, d, b, acc, proof)
    ensures b ==> proof == Reverse(acc)
    ensures !b ==>
              && Sums(Sizes(|d|, 1), 0) == [2 * |d| - 1]
              && 2 * |d| - 1 + off <= |store| && store[2 * |d| - 2 + off] == Mth(h, d)
              && proof == Reverse(acc + [Mth(h, d)])
  {
    hide Layout, SubProof, Mth, IsPow2, Sizes, Sums, Held;
    SubProofOfAll(h, d, b);
    if !b {
      OneSlot(|d|);
      HeldRoot(h, store, off, d);
    }
  }

  lemma SubProofOfAll(h: Hasher, d: seq<Hash>, b: bool)
    requires d != []
    ensures SubProof(h, |d|, d, b) == if b then [] else [Mth(h, d)]
  {
  }

  lemma OneSlot(n: nat)
    requires IsPow2(n)
    ensures Sums(Sizes(n, 1), 0) == [2 * n - 1]
  {
    hide Sizes;
    NoSizes();
    SumsFromAbove(n, 0, 0);
  }
}
