/** The append-only node store and the slot arithmetic that addresses it:
    merkle/file_hash_store.go and the getSubTree functions of
    merkle/merkle_tree.go.

    Slots are unsigned 32-bit numbers. The methods reduce every sum modulo 2^32,
    as the machine does; below 2^31 leaves no slot is ever lost. */
module HashStore {
  import opened Hashing
  import opened Bits
  import opened MerkleSpec

  const MAX_LEAVES: nat := 0x8000_0000

  function U32(x: nat): nat { x % TWO_32 }

  lemma U32Fits(x: nat)
    requires x < TWO_32
    ensures U32(x) == x
  {
  }

  /** The in-memory store. */
  class MemHashStore {
    var hashes: seq<Hash>

    constructor ()
      ensures hashes == []
    {
      hashes := [];
    }

    method Append(hash: seq<Hash>)
      modifies this
      ensures hashes == old(hashes) + hash
    {
      hashes := hashes + hash;
    }

    method GetHash(pos: nat) returns (r: Hash)
      requires pos < |hashes|
      ensures r == hashes[pos]
    {
      r := hashes[pos];
    }
  }

  // --- sizes and slots of the perfect subtrees

  /** The number of nodes of each perfect subtree of a tree of n units of id
      leaves, largest first: 2*size - 1 per 1 digit of n. */
  function Sizes(n: nat, id: nat): (s: seq<nat>)
    requires id > 0
    ensures |s| == Ones(n)
  {
    if n == 0 then []
    else Sizes(n / 2, 2 * id) + (if n % 2 == 1 then [2 * id - 1] else [])
  }

  lemma SizesLevel(n: nat, id: nat)
    requires n > 0 && id > 0
    ensures Sizes(n, id) == Sizes(n / 2, 2 * id) + (if n % 2 == 1 then [2 * id - 1] else [])
  {
  }

  lemma SizesOfZero(id: nat)
    requires id > 0
    ensures Sizes(0, id) == [] && Ones(0) == 0
  {
  }

  /** Running totals of s, starting at base. */
  function Sums(s: seq<nat>, base: nat): (r: seq<nat>)
    ensures |r| == |s|
  {
    if s == [] then [] else [base + s[0]] + Sums(s[1..], base + s[0])
  }

  function Total(s: seq<nat>): nat {
    if s == [] then 0 else Total(Init(s)) + Last(s)
  }

  /** k units of id leaves, for a power of two k. */
  function Scale(k: nat, id: nat): nat
    requires IsPow2(k)
  {
    if k == 1 then id else Scale(k / 2, 2 * id)
  }

  lemma {:induction false} ScaleIsProduct(k: nat, id: nat)
    requires IsPow2(k)
    ensures Scale(k, id) == k * id
  {
    if k <= 1 {
    } else {
      ScaleIsProduct(k / 2, 2 * id);
      var m := k / 2;
      assert m * (2 * id) == (2 * m) * id;
    }
  }

  lemma ScaleLevel(k: nat, id: nat)
    requires IsPow2(k)
    ensures k > 0
    ensures k == 1 ==> Scale(k, id) == id
    ensures k > 1 ==> k % 2 == 0 && IsPow2(k / 2) && Scale(k, id) == Scale(k / 2, 2 * id)
  {
  }

  /** Digit by digit from below and subtree by subtree from above agree. */
  lemma {:induction false} SizesByScale(k: nat, r: nat, id: nat)
    requires IsPow2(k) && r < k && id > 0
    ensures Scale(k, id) > 0
    ensures Sizes(k + r, id) == [2 * Scale(k, id) - 1] + Sizes(r, id)
  {
    hide *;
    ScaleLevel(k, id);
    SizesLevel(k + r, id);
    if k > 1 {
      assert (k + r) / 2 == k / 2 + r / 2;
      SizesByScale(k / 2, r / 2, 2 * id);
      if r == 0 {
        SizesOfZero(id);
        SizesOfZero(2 * id);
      } else {
        SizesLevel(r, id);
      }
    } else {
      SizesOfZero(id);
      SizesOfZero(2 * id);
    }
  }

  lemma SizesFromAbove(k: nat, r: nat)
    requires IsPow2(k) && r < k
    ensures Sizes(k + r, 1) == [2 * k - 1] + Sizes(r, 1)
  {
    hide *;
    SizesByScale(k, r, 1);
    ScaleIsProduct(k, 1);
  }

  /** All the nodes together: 2n - countBit(n). */
  lemma {:induction false} SizesTotal(n: nat)
    ensures Total(Sizes(n, 1)) == 2 * n - Ones(n)
  {
    hide *;
    NoSizes();
    if n == 0 {
    } else {
      var k := SplitOfOneMore(n);
      SizesTotal(n - k);
      OnesAbove(k, n - k);
      TotalFromAbove(k, n - k);
    }
  }

  lemma NoSizes()
    ensures Sizes(0, 1) == [] && Total([]) == 0 && Ones(0) == 0
  {
  }

  lemma TotalFromAbove(k: nat, r: nat)
    requires IsPow2(k) && r < k
    ensures Total(Sizes(k + r, 1)) == 2 * k - 1 + Total(Sizes(r, 1))
  {
    hide *;
    SizesFromAbove(k, r);
    TotalCons(Sizes(k + r, 1));
    assert Sizes(k + r, 1)[1..] == Sizes(r, 1);
  }

  /** block lies in store from slot off on. */
  ghost predicate Held(store: seq<Hash>, off: nat, block: seq<Hash>) {
    off + |block| <= |store| && store[off..off + |block|] == block
  }

  lemma HeldParts(store: seq<Hash>, off: nat, a: seq<Hash>, b: seq<Hash>)
    requires Held(store, off, a + b)
    ensures Held(store, off, a) && Held(store, off + |a|, b)
  {
    var s := store[off..off + |a + b|];
    assert s[..|a|] == a && s[|a|..] == b;
    assert store[off..off + |a|] == s[..|a|];
    assert store[off + |a|..off + |a| + |b|] == s[|a|..];
  }

  /** A stored perfect subtree has its root in its last slot. */
  lemma HeldRoot(h: Hasher, store: seq<Hash>, off: nat, d: seq<Hash>)
    requires IsPow2(|d|) && Held(store, off, Layout(h, d))
    ensures off + 2 * |d| - 1 <= |store| && store[off + 2 * |d| - 2] == Mth(h, d)
  {
    PerfectEndsInRoot(h, d);
    var block := Layout(h, d);
    assert store[off..off + |block|][2 * |d| - 2] == store[off + 2 * |d| - 2];
  }

  /** The slot of each frontier root of a stored subtree, one based. */
  ghost predicate Addresses(store: seq<Hash>, pos: seq<nat>, roots: seq<Hash>) {
    && |pos| == |roots|
    && forall i :: 0 <= i < |pos| ==> 0 < pos[i] <= |store| && store[pos[i] - 1] == roots[i]
  }

  lemma AddressesCons(store: seq<Hash>, p: nat, pos: seq<nat>, roots: seq<Hash>)
    requires 0 < p <= |store| && Addresses(store, pos, roots)
    ensures Addresses(store, [p] + pos, [store[p - 1]] + roots)
  {
  }

  lemma NoSlots(h: Hasher, store: seq<Hash>, off: nat)
    ensures Addresses(store, Sums(Sizes(0, 1), off), Frontier(h, []))
  {
  }

  lemma {:induction false} SlotsAddressFrontier(h: Hasher, store: seq<Hash>, off: nat, d: seq<Hash>)
    requires Held(store, off, Layout(h, d))
    ensures Addresses(store, Sums(Sizes(|d|, 1), off), Frontier(h, d))
    decreases |d|
  {
    hide *;
    if d == [] {
      NoSlots(h, store, off);
      return;
    }
    var k := SplitOfOneMore(|d|);
    assert d == d[..k] + d[k..];
    SlotsOneStep(h, store, off, d[..k], d[k..]);
    SlotsAddressFrontier(h, store, off + 2 * k - 1, d[k..]);
    AddressesCons(store, off + 2 * k - 1, Sums(Sizes(|d| - k, 1), off + 2 * k - 1), Frontier(h, d[k..]));
  }

  lemma SumsFromAbove(k: nat, r: nat, off: nat)
    requires IsPow2(k) && r < k
    ensures Sums(Sizes(k + r, 1), off) == [off + 2 * k - 1] + Sums(Sizes(r, 1), off + 2 * k - 1)
  {
    hide Sizes;
    SizesFromAbove(k, r);
    assert ([2 * k - 1] + Sizes(r, 1))[1..] == Sizes(r, 1);
  }

  lemma HeldGlue(h: Hasher, store: seq<Hash>, off: nat, a: seq<Hash>, b: seq<Hash>)
    requires IsPow2(|a|) && |b| < |a| && Held(store, off, Layout(h, a + b))
    ensures Held(store, off, Layout(h, a)) && Held(store, off + 2 * |a| - 1, Layout(h, b))
  {
    PerfectEndsInRoot(h, a);
    if b == [] {
      assert a + b == a;
      return;
    }
    hide *;
    LayoutGlue(h, a, b);
    HeldParts(store, off, Layout(h, a), Layout(h, b));
  }

  lemma FrontierGlue'(h: Hasher, a: seq<Hash>, b: seq<Hash>)
    requires IsPow2(|a|) && |b| < |a|
    ensures Frontier(h, a + b) == [Mth(h, a)] + Frontier(h, b)
  {
    if b == [] {
      assert a + b == a;
    } else {
      FrontierGlue(h, a, b);
    }
  }

  lemma SlotsOneStep(h: Hasher, store: seq<Hash>, off: nat, a: seq<Hash>, b: seq<Hash>)
    requires IsPow2(|a|) && |b| < |a| && Held(store, off, Layout(h, a + b))
    ensures Sums(Sizes(|a + b|, 1), off) == [off + 2 * |a| - 1] + Sums(Sizes(|b|, 1), off + 2 * |a| - 1)
    ensures Frontier(h, a + b) == [Mth(h, a)] + Frontier(h, b)
    ensures off + 2 * |a| - 1 <= |store| && store[off + 2 * |a| - 2] == Mth(h, a)
    ensures Held(store, off + 2 * |a| - 1, Layout(h, b))
  {
    hide *;
    SumsFromAbove(|a|, |b|, off);
    FrontierGlue'(h, a, b);
    PerfectEndsInRoot(h, a);
    HeldGlue(h, store, off, a, b);
    HeldRoot(h, store, off, a);
  }

  lemma {:induction false} SumsShift(s: seq<nat>, base: nat, c: nat)
    ensures forall i :: 0 <= i < |s| ==> Sums(s, base + c)[i] == Sums(s, base)[i] + c
  {
    if s == [] {
    } else {
      SumsShift(s[1..], base + s[0], c);
    }
  }

  /** Running totals, one more at a time. */
  lemma {:induction false} SumsSnoc(s: seq<nat>, base: nat)
    requires s != []
    ensures Sums(s, base) == Sums(Init(s), base) + [base + Total(s)]
  {
    if |s| <= 1 {
    } else {
      SumsSnoc(s[1..], base + s[0]);
      assert Init(s)[1..] == Init(s[1..]);
      TotalCons(s);
    }
  }

  lemma {:induction false} TotalCons(s: seq<nat>)
    requires s != []
    ensures Total(s) == s[0] + Total(s[1..])
  {
    if |s| <= 1 {
    } else {
      TotalCons(Init(s));
      assert Init(s)[1..] == Init(s[1..]);
    }
  }

  lemma SumsEntry(s: seq<nat>, i: nat)
    requires 0 < i <= |s|
    ensures Sums(s[..i], 0)[i - 1] == Total(s[..i])
  {
    SumsSnoc(s[..i], 0);
  }

  lemma SumsExtend(s: seq<nat>, i: nat)
    requires i < |s|
    ensures Sums(s[..i + 1], 0) == Sums(s[..i], 0) + [Total(s[..i]) + s[i]]
  {
    assert Init(s[..i + 1]) == s[..i];
    SumsSnoc(s[..i + 1], 0);
  }

  lemma UpdateAfter<T>(u: seq<T>, r: seq<T>, v: T)
    requires r != []
    ensures (u + r)[|u| := v] == u + [v] + r[1..]
  {
  }

  // --- the slot computations

  lemma HalveUnits(id: nat, m: nat)
    requires m > 0
    ensures id <= id * m && (2 * id) * (m / 2) <= id * m
  {
    var q := m / 2;
    assert (2 * id) * q == id * (2 * q);
    assert id * (2 * q) + id * (m % 2) == id * m;
    assert id * (m - 1) >= 0;
  }

  /** A power of two below 2^32 is at most 2^31. */
  lemma PowerBelow32(p: nat)
    requires IsPow2(p) && p < TWO_32
    ensures 2 * p <= TWO_32
  {
    Pow2IsPow2(32);
    Pow2Thirty2();
    PowersAreSpaced(p, TWO_32);
  }

  /** Doubling and decrementing in 32 bits: the largest size, 2^32 - 1, comes from
      a wrapped zero. */
  lemma WrappedSize(p: nat)
    requires 0 < 2 * p <= TWO_32
    ensures U32(U32(p) * 2) == U32(2 * p) && U32(U32(2 * p) + TWO_32 - 1) == 2 * p - 1
  {
  }

  /** The node counts of the perfect subtrees of D[0:n]. */
  method GetSubTreeSize(n: nat) returns (subtreesize: seq<nat>)
    requires n < TWO_32
    ensures subtreesize == Sizes(n, 1)
  {
    hide Sizes, Ones, U32, IsPow2;
    var nhashes := CountBit(n);
    subtreesize := seq(nhashes, _ => 0);
    assert subtreesize[nhashes..] == [];
    var i, id: nat, m: nat := nhashes, 1, n;
    ghost var unit: nat := 1;
    OneIsPower();
    while m != 0
      invariant unit > 0 && IsPow2(unit) && id == U32(unit) && unit * m <= n
      invariant i == Ones(m) <= |subtreesize|
      invariant Sizes(n, 1) == Sizes(m, unit) + subtreesize[i..]
    {
      HalveUnits(unit, m);
      SizesLevel(m, unit);
      OnesLevel(m);
      PowerBelow32(unit);
      DoublePower(unit);
      WrappedSize(unit);
      ghost var rest := subtreesize[i..];
      id := U32(id * 2);
      unit := 2 * unit;
      if m % 2 == 1 {
        i := i - 1;
        subtreesize := subtreesize[i := U32(id + TWO_32 - 1)];
        assert subtreesize[i..] == [unit - 1] + rest;
      }
      m := m / 2;
    }
    SizesOfZero(unit);
    assert subtreesize[0..] == subtreesize;
  }

  lemma OneIsPower()
    ensures IsPow2(1) && U32(1) == 1
  {
  }

  /** The 32-bit values of s. */
  function Wrapped(s: seq<nat>): (r: seq<nat>)
    ensures |r| == |s|
  {
    seq(|s|, i requires 0 <= i < |s| => U32(s[i]))
  }

  lemma WrappedSum(a: nat, b: nat)
    ensures U32(a + U32(b)) == U32(a + b)
  {
  }

  lemma WrappedFits(s: seq<nat>)
    requires forall i :: 0 <= i < |s| ==> s[i] < TWO_32
    ensures Wrapped(s) == s
  {
  }

  /** Every total is at most the overall total. */
  lemma {:induction false} SumsAtMost(s: seq<nat>, base: nat)
    ensures forall i :: 0 <= i < |s| ==> Sums(s, base)[i] <= base + Total(s)
  {
    if s == [] {
    } else {
      SumsAtMost(s[1..], base + s[0]);
      TotalCons(s);
    }
  }

  lemma WrappedStart(s: seq<nat>)
    requires s != [] && s[0] < TWO_32
    ensures Wrapped(Sums(s[..1], 0)) + s[1..] == s
  {
  }

  lemma WrappedNext(s: seq<nat>, i: nat)
    requires 0 < i < |s|
    ensures (Wrapped(Sums(s[..i], 0)) + s[i..])[i := U32(s[i] + Wrapped(Sums(s[..i], 0))[i - 1])] ==
            Wrapped(Sums(s[..i + 1], 0)) + s[i + 1..]
  {
    hide Sums, Total, U32;
    SumsEntry(s, i);
    SumsExtend(s, i);
    WrappedSum(s[i], Total(s[..i]));
    UpdateAfter(Wrapped(Sums(s[..i], 0)), s[i..], U32(Total(s[..i]) + s[i]));
    assert s[i..][1..] == s[i + 1..];
  }

  /** The one-based slots of the perfect subtrees of D[0:n], as 32-bit numbers.
      Below 2^31 leaves they are the slots themselves. */
  method GetSubTreePos(n: nat) returns (hashespos: seq<nat>)
    requires n < TWO_32
    ensures hashespos == Wrapped(Sums(Sizes(n, 1), 0))
    ensures n < MAX_LEAVES ==> hashespos == Sums(Sizes(n, 1), 0)
  {
    hide Sums, Sizes, Wrapped, U32, Ones, Total;
    hashespos := GetSubTreeSize(n);
    ghost var sizes := hashespos;
    SizesTotal(n);
    SumsAtMost(sizes, 0);
    if n < MAX_LEAVES {
      WrappedFits(Sums(sizes, 0));
    }
    var i := 1;
    if hashespos != [] {
      FirstSize(n);
      WrappedStart(sizes);
    } else {
      NoTotals();
    }
    while i < |hashespos|
      invariant |hashespos| == |sizes|
      invariant hashespos != [] ==> 1 <= i <= |sizes| && hashespos == Wrapped(Sums(sizes[..i], 0)) + sizes[i..]
    {
      WrappedNext(sizes, i);
      hashespos := hashespos[i := U32(hashespos[i] + hashespos[i - 1])];
      i := i + 1;
    }
    assert sizes[..|sizes|] == sizes;
  }

  lemma NoTotals()
    ensures Wrapped(Sums([], 0)) == []
  {
  }

  /** The largest subtree fits in 32 bits. */
  lemma FirstSize(n: nat)
    requires 0 < n < TWO_32
    ensures Sizes(n, 1) != [] && Sizes(n, 1)[0] < TWO_32
  {
    hide Sizes, Ones;
    var k := SplitOfOneMore(n);
    SizesFromAbove(k, n - k);
    PowerBelow32(k);
  }

  /** The number of nodes stored for n leaves. */
  method GetStoredHashNum(treeSize: nat) returns (sum: nat)
    requires treeSize < TWO_32
    ensures sum == 2 * treeSize - Ones(treeSize)
  {
    var subtreesize := GetSubTreeSize(treeSize);
    sum := 0;
    for i := 0 to |subtreesize|
      invariant sum == Total(subtreesize[..i])
    {
      assert Init(subtreesize[..i + 1]) == subtreesize[..i];
      sum := sum + subtreesize[i];
    }
    assert subtreesize[..|subtreesize|] == subtreesize;
    SizesTotal(treeSize);
  }
}
