/** Audit paths and consistency proofs, as sections 2.1.1 and 2.1.2 of RFC 6962
    define them from the root down, and the value an honest verifier rebuilds
    from the leaf up. The two directions are related here; the programs that
    produce and check proofs are related to these definitions elsewhere. */
module MerkleProofs {
  import opened Hashing
  import opened Bits
  import opened MerkleSpec

  // --- from the root down

  /** The audit path of leaf m, nearest sibling first. */
  function Path(h: Hasher, m: nat, d: seq<Hash>): seq<Hash>
    requires m < |d|
    decreases |d|
  {
    if |d| == 1 then []
    else
      var k := Split(|d|);
      if m < k then Path(h, m, d[..k]) + [Mth(h, d[k..])]
      else Path(h, m - k, d[k..]) + [Mth(h, d[..k])]
  }

  /** The consistency proof between the first m leaves and all of d; b says that
      the root of those m leaves is known to the verifier. */
  function SubProof(h: Hasher, m: nat, d: seq<Hash>, b: bool): seq<Hash>
    requires 0 < m <= |d|
    decreases |d|
  {
    if m == |d| then (if b then [] else [Mth(h, d)])
    else
      var k := Split(|d|);
      if m <= k then SubProof(h, m, d[..k], b) + [Mth(h, d[k..])]
      else SubProof(h, m - k, d[k..], false) + [Mth(h, d[..k])]
  }

  // --- from the leaf up

  /** What a climb has rebuilt, and every pair it hashed on the way. */
  datatype Roots = Roots(older: Hash, newer: Hash, hashed: set<(Hash, Hash)>)

  /** Merges a left sibling, which is in the old and in the new tree. */
  ghost function WithLeft(h: Hasher, x: Hash, r: Roots): Roots {
    Roots(h.children(x, r.older), h.children(x, r.newer), r.hashed + {(x, r.older), (x, r.newer)})
  }

  /** Merges a right sibling, which is in the new tree only. */
  ghost function WithRight(h: Hasher, r: Roots, x: Hash): Roots {
    Roots(r.older, h.children(r.newer, x), r.hashed + {(r.newer, x)})
  }

  /** Climbs from node to the root of a tree whose last node is `last`, both
      counted on the current level, merging one proof entry per sibling.
      None when the proof is too short or too long. */
  ghost function Climb(h: Hasher, r: Roots, node: nat, last: nat, p: seq<Hash>): Option<Roots>
    requires node <= last
    decreases last
  {
    if last == 0 then (if p == [] then Some(r) else None)
    else if node % 2 == 0 && node == last then Climb(h, r, node / 2, last / 2, p)
    else if p == [] then None
    else if node % 2 == 1 then Climb(h, WithLeft(h, p[0], r), node / 2, last / 2, p[1..])
    else Climb(h, WithRight(h, r, p[0]), node / 2, last / 2, p[1..])
  }

  /** Starts the climb of a consistency proof at the largest subtree that ends
      at node; its hash comes from the proof unless it is the whole old tree. */
  ghost function Start(h: Hasher, b: bool, oldRoot: Hash, node: nat, last: nat, p: seq<Hash>): Option<Roots>
    requires node <= last
  {
    if node % 2 == 1 then Start(h, b, oldRoot, node / 2, last / 2, p)
    else if b && node == 0 then Climb(h, Seed(oldRoot), node, last, p)
    else if p == [] then None
    else Climb(h, Seed(p[0]), node, last, p[1..])
  }

  ghost function Seed(x: Hash): Roots { Roots(x, x, {}) }

  /** What is rebuilt from the hash of leaf m of n and its audit path. */
  ghost function FromPath(h: Hasher, leaf: Hash, m: nat, n: nat, p: seq<Hash>): Option<Roots>
    requires m < n
  {
    Climb(h, Seed(leaf), m, n - 1, p)
  }

  /** What is rebuilt from a consistency proof between sizes m and n. */
  ghost function FromProof(h: Hasher, b: bool, oldRoot: Hash, m: nat, n: nat, p: seq<Hash>): Option<Roots>
    requires 0 < m <= n
  {
    Start(h, b, oldRoot, m - 1, n - 1, p)
  }

  /** The number of siblings met on a climb. */
  function Siblings(node: nat, last: nat): nat
    decreases last
  {
    if last == 0 then 0
    else (if node % 2 == 1 || node < last then 1 else 0) + Siblings(node / 2, last / 2)
  }

  /** A climb succeeds exactly on proofs with one entry per sibling. */
  lemma {:induction false} ClimbLength(h: Hasher, r: Roots, node: nat, last: nat, p: seq<Hash>)
    requires node <= last
    ensures Climb(h, r, node, last, p).Some? <==> |p| == Siblings(node, last)
    decreases last
  {
    if last == 0 {
    } else {
      if node % 2 == 0 && node == last {
        ClimbLength(h, r, node / 2, last / 2, p);
      } else if p == [] {
      } else if node % 2 == 1 {
        ClimbLength(h, WithLeft(h, p[0], r), node / 2, last / 2, p[1..]);
      } else {
        ClimbLength(h, WithRight(h, r, p[0]), node / 2, last / 2, p[1..]);
      }
    }
  }

  // --- the climb, seen from the root

  ghost function MergeRight(h: Hasher, r: Option<Roots>, x: Hash): Option<Roots> {
    match r
    case Some(v) => Some(WithRight(h, v, x))
    case None => None
  }

  ghost function MergeLeft(h: Hasher, x: Hash, r: Option<Roots>): Option<Roots> {
    match r
    case Some(v) => Some(WithLeft(h, x, v))
    case None => None
  }

  /** In a tree of more than one node no climb ends without a proof entry. */
  lemma {:induction false} ClimbNeedsEntry(h: Hasher, r: Roots, node: nat, last: nat)
    requires node <= last && last > 0
    ensures Climb(h, r, node, last, []) == None
    decreases last
  {
    if node % 2 == 0 && node == last {
      ClimbNeedsEntry(h, r, node / 2, last / 2);
    }
  }

  /** Climbing from the left half: climb that perfect half, then merge with the
      last entry on the right. */
  lemma {:induction false} ClimbLeft(h: Hasher, r: Roots, k: nat, node: nat, last: nat, p: seq<Hash>, x: Hash)
    requires IsPow2(k) && node < k <= last < 2 * k
    ensures Climb(h, r, node, last, p + [x]) == MergeRight(h, Climb(h, r, node, k - 1, p), x)
    decreases k
  {
    if k == 1 {
      assert (p + [x])[1..] == [] <==> p == [];
    } else {
      assert (k - 1) / 2 == k / 2 - 1;
      if p == [] {
        assert (p + [x])[1..] == [];
        ClimbNeedsEntry(h, WithLeft(h, x, r), node / 2, last / 2);
        ClimbNeedsEntry(h, WithRight(h, r, x), node / 2, last / 2);
      } else {
        assert (p + [x])[0] == p[0] && (p + [x])[1..] == p[1..] + [x];
        if node % 2 == 1 {
          ClimbLeft(h, WithLeft(h, p[0], r), k / 2, node / 2, last / 2, p[1..], x);
        } else {
          ClimbLeft(h, WithRight(h, r, p[0]), k / 2, node / 2, last / 2, p[1..], x);
        }
      }
    }
  }

  /** Climbing from the right half: climb that half on its own, then merge with
      the last entry on the left. */
  lemma {:induction false} ClimbRight(h: Hasher, r: Roots, k: nat, node: nat, last: nat, p: seq<Hash>, x: Hash)
    requires IsPow2(k) && k <= node <= last < 2 * k
    ensures Climb(h, r, node, last, p + [x]) == MergeLeft(h, x, Climb(h, r, node - k, last - k, p))
    decreases k
  {
    if k == 1 {
      assert (p + [x])[1..] == [] <==> p == [];
    } else {
      assert (node - k) / 2 == node / 2 - k / 2 && (last - k) / 2 == last / 2 - k / 2;
      if node % 2 == 0 && node == last {
        ClimbRight(h, r, k / 2, node / 2, last / 2, p, x);
      } else if p == [] {
        assert (p + [x])[1..] == [];
        ClimbNeedsEntry(h, WithLeft(h, x, r), node / 2, last / 2);
        ClimbNeedsEntry(h, WithRight(h, r, x), node / 2, last / 2);
      } else {
        assert (p + [x])[0] == p[0] && (p + [x])[1..] == p[1..] + [x];
        if node % 2 == 1 {
          ClimbRight(h, WithLeft(h, p[0], r), k / 2, node / 2, last / 2, p[1..], x);
        } else {
          ClimbRight(h, WithRight(h, r, p[0]), k / 2, node / 2, last / 2, p[1..], x);
        }
      }
    }
  }

  lemma {:induction false} StartLeft(h: Hasher, b: bool, oldRoot: Hash, k: nat, node: nat, last: nat, p: seq<Hash>,
                                     x: Hash)
    requires IsPow2(k) && node < k <= last < 2 * k
    ensures Start(h, b, oldRoot, node, last, p + [x]) == MergeRight(h, Start(h, b, oldRoot, node, k - 1, p), x)
    decreases k
  {
    if node % 2 == 1 {
      assert (k - 1) / 2 == k / 2 - 1;
      StartLeft(h, b, oldRoot, k / 2, node / 2, last / 2, p, x);
    } else if b && node == 0 {
      ClimbLeft(h, Seed(oldRoot), k, node, last, p, x);
    } else if p == [] {
      assert (p + [x])[1..] == [];
      ClimbNeedsEntry(h, Seed(x), node, last);
    } else {
      assert (p + [x])[0] == p[0] && (p + [x])[1..] == p[1..] + [x];
      ClimbLeft(h, Seed(p[0]), k, node, last, p[1..], x);
    }
  }

  lemma {:induction false} StartRight(h: Hasher, b: bool, oldRoot: Hash, k: nat, node: nat, last: nat, p: seq<Hash>,
                                      x: Hash)
    requires IsPow2(k) && k <= node < last < 2 * k
    ensures Start(h, b, oldRoot, node, last, p + [x]) ==
        MergeLeft(h, x, Start(h, false, oldRoot, node - k, last - k, p))
    decreases k
  {
    assert (node - k) / 2 == node / 2 - k / 2 && (last - k) / 2 == last / 2 - k / 2;
    if node % 2 == 1 {
      StartRight(h, b, oldRoot, k / 2, node / 2, last / 2, p, x);
    } else if p == [] {
      assert (p + [x])[1..] == [];
      ClimbNeedsEntry(h, Seed(x), node, last);
    } else {
      assert (p + [x])[0] == p[0] && (p + [x])[1..] == p[1..] + [x];
      ClimbRight(h, Seed(p[0]), k, node, last, p[1..], x);
    }
  }

  lemma {:induction false} StartNeedsEntry(h: Hasher, b: bool, oldRoot: Hash, node: nat, last: nat)
    requires node < last
    ensures Start(h, b, oldRoot, node, last, []) == None
  {
    if node % 2 == 1 {
      StartNeedsEntry(h, b, oldRoot, node / 2, last / 2);
    } else if b && node == 0 {
      ClimbNeedsEntry(h, Seed(oldRoot), node, last);
    }
  }

  /** Two equal perfect trees: the start is the root itself. */
  lemma {:induction false} StartPerfect(h: Hasher, b: bool, oldRoot: Hash, k: nat, p: seq<Hash>)
    requires IsPow2(k)
    ensures b ==> Start(h, b, oldRoot, k - 1, k - 1, p) == (if p == [] then Some(Seed(oldRoot)) else None)
    ensures !b ==> Start(h, b, oldRoot, k - 1, k - 1, p) == (if |p| == 1 then Some(Seed(p[0])) else None)
  {
    if k <= 1 {
    } else {
      assert (k - 1) / 2 == k / 2 - 1;
      StartPerfect(h, b, oldRoot, k / 2, p);
    }
  }

  // --- the bottom-up verifier is the top-down one

  /** An audit path is verified half by half: the last entry is the hash of the
      other half, the rest is the path within the leaf's own half. */
  lemma PathFromAbove(h: Hasher, leaf: Hash, m: nat, n: nat, p: seq<Hash>, x: Hash)
    requires m < n && n >= 2
    ensures var k := Split(n);
            FromPath(h, leaf, m, n, p + [x]) == (
              if m < k then MergeRight(h, FromPath(h, leaf, m, k, p), x)
              else MergeLeft(h, x, FromPath(h, leaf, m - k, n - k, p)))
    ensures FromPath(h, leaf, m, n, []) == None
  {
    hide Climb;
    ClimbNeedsEntry(h, Seed(leaf), m, n - 1);
    if m < Split(n) {
      ClimbLeft(h, Seed(leaf), Split(n), m, n - 1, p, x);
    } else {
      ClimbRight(h, Seed(leaf), Split(n), m, n - 1, p, x);
    }
  }

  /** Likewise for a consistency proof. */
  lemma ProofFromAbove(h: Hasher, b: bool, oldRoot: Hash, m: nat, n: nat, p: seq<Hash>, x: Hash)
    requires 0 < m < n
    ensures var k := Split(n);
            FromProof(h, b, oldRoot, m, n, p + [x]) == (
              if m <= k then MergeRight(h, FromProof(h, b, oldRoot, m, k, p), x)
              else MergeLeft(h, x, FromProof(h, false, oldRoot, m - k, n - k, p)))
    ensures FromProof(h, b, oldRoot, m, n, []) == None
  {
    hide Start;
    StartNeedsEntry(h, b, oldRoot, m - 1, n - 1);
    if m <= Split(n) {
      StartLeft(h, b, oldRoot, Split(n), m - 1, n - 1, p, x);
    } else {
      StartRight(h, b, oldRoot, Split(n), m - 1, n - 1, p, x);
    }
  }

  // --- completeness

  /** The audit path of a leaf rebuilds the root. */
  lemma {:induction false} PathIsComplete(h: Hasher, m: nat, d: seq<Hash>)
    requires m < |d|
    ensures Carries(FromPath(h, d[m], m, |d|, Path(h, m, d)), Mth(h, d))
    decreases |d|
  {
    hide *;
    if |d| == 1 {
      PathOfOne(h, d);
      return;
    }
    var k := Split(|d|);
    if m < k {
      PathIsComplete(h, m, d[..k]);
      PathCompleteLeft(h, m, d);
    } else {
      PathIsComplete(h, m - k, d[k..]);
      PathCompleteRight(h, m, d);
    }
  }

  ghost predicate Carries(r: Option<Roots>, root: Hash) {
    r.Some? && r.value.newer == root
  }

  lemma PathOfOne(h: Hasher, d: seq<Hash>)
    requires |d| == 1
    ensures Carries(FromPath(h, d[0], 0, 1, Path(h, 0, d)), Mth(h, d))
  {
  }

  lemma PathCompleteLeft(h: Hasher, m: nat, d: seq<Hash>)
    requires |d| >= 2 && m < Split(|d|)
    requires Carries(FromPath(h, d[m], m, Split(|d|), Path(h, m, d[..Split(|d|)])), Mth(h, d[..Split(|d|)]))
    ensures Carries(FromPath(h, d[m], m, |d|, Path(h, m, d)), Mth(h, d))
  {
    hide FromPath, Split, Path, Mth;
    var k := Split(|d|);
    PathLevel(h, m, d);
    MthLevel(h, d);
    PathFromAbove(h, d[m], m, |d|, Path(h, m, d[..k]), Mth(h, d[k..]));
  }

  lemma PathCompleteRight(h: Hasher, m: nat, d: seq<Hash>)
    requires |d| >= 2 && Split(|d|) <= m < |d|
    requires Carries(FromPath(h, d[m], m - Split(|d|), |d| - Split(|d|), Path(h, m - Split(|d|), d[Split(|d|)..])),
        Mth(h, d[Split(|d|)..]))
    ensures Carries(FromPath(h, d[m], m, |d|, Path(h, m, d)), Mth(h, d))
  {
    hide FromPath, Split, Path, Mth;
    var k := Split(|d|);
    PathLevel(h, m, d);
    MthLevel(h, d);
    PathFromAbove(h, d[m], m, |d|, Path(h, m - k, d[k..]), Mth(h, d[..k]));
  }

  /** The roots that a consistency proof must rebuild. */
  ghost predicate Rebuilds(h: Hasher, r: Option<Roots>, m: nat, d: seq<Hash>)
    requires m <= |d|
  {
    r.Some? && r.value.older == Mth(h, d[..m]) && r.value.newer == Mth(h, d)
  }

  lemma RebuildsLeft(h: Hasher, r: Option<Roots>, m: nat, d: seq<Hash>)
    requires |d| >= 2 && m <= Split(|d|) && Rebuilds(h, r, m, d[..Split(|d|)])
    ensures Rebuilds(h, MergeRight(h, r, Mth(h, d[Split(|d|)..])), m, d)
  {
    hide Split;
    assert d[..Split(|d|)][..m] == d[..m];
  }

  lemma RebuildsRight(h: Hasher, r: Option<Roots>, m: nat, d: seq<Hash>)
    requires |d| >= 2 && Split(|d|) < m < |d| && Rebuilds(h, r, m - Split(|d|), d[Split(|d|)..])
    ensures Rebuilds(h, MergeLeft(h, Mth(h, d[..Split(|d|)]), r), m, d)
  {
    hide Split;
    MthOfLongPrefix(h, m, d);
  }

  /** A consistency proof rebuilds both roots. */
  lemma {:induction false} ProofIsComplete(h: Hasher, m: nat, d: seq<Hash>, b: bool, oldRoot: Hash)
    requires 0 < m <= |d| && (m < |d| || IsPow2(m))
    requires b ==> oldRoot == Mth(h, d[..m])
    ensures Rebuilds(h, FromProof(h, b, oldRoot, m, |d|, SubProof(h, m, d, b)), m, d)
    decreases |d|
  {
    hide *;
    if m == |d| {
      PerfectProofIsComplete(h, d, b, oldRoot);
      return;
    }
    var k := Split(|d|);
    if m <= k {
      assert d[..k][..m] == d[..m];
      ProofIsComplete(h, m, d[..k], b, oldRoot);
      ProofCompleteLeft(h, m, d, b, oldRoot);
    } else {
      ProofIsComplete(h, m - k, d[k..], false, oldRoot);
      ProofCompleteRight(h, m, d, b, oldRoot);
    }
  }

  lemma PerfectProofIsComplete(h: Hasher, d: seq<Hash>, b: bool, oldRoot: Hash)
    requires IsPow2(|d|) && (b ==> oldRoot == Mth(h, d[..|d|]))
    ensures Rebuilds(h, FromProof(h, b, oldRoot, |d|, |d|, SubProof(h, |d|, d, b)), |d|, d)
  {
    assert d[..|d|] == d;
    StartPerfect(h, b, oldRoot, |d|, SubProof(h, |d|, d, b));
  }

  lemma ProofCompleteLeft(h: Hasher, m: nat, d: seq<Hash>, b: bool, oldRoot: Hash)
    requires 0 < m < |d| && m <= Split(|d|)
    requires Rebuilds(h, FromProof(h, b, oldRoot, m, Split(|d|), SubProof(h, m, d[..Split(|d|)], b)), m,
        d[..Split(|d|)])
    ensures Rebuilds(h, FromProof(h, b, oldRoot, m, |d|, SubProof(h, m, d, b)), m, d)
  {
    hide FromProof, Split, Mth, Rebuilds;
    var k := Split(|d|);
    ProofFromAbove(h, b, oldRoot, m, |d|, SubProof(h, m, d[..k], b), Mth(h, d[k..]));
    RebuildsLeft(h, FromProof(h, b, oldRoot, m, k, SubProof(h, m, d[..k], b)), m, d);
  }

  lemma ProofCompleteRight(h: Hasher, m: nat, d: seq<Hash>, b: bool, oldRoot: Hash)
    requires |d| >= 2 && Split(|d|) < m < |d|
    requires Rebuilds(h, FromProof(h, false, oldRoot, m - Split(|d|), |d| - Split(|d|), SubProof(h, m - Split(|d|),
        d[Split(|d|)..], false)), m - Split(|d|), d[Split(|d|)..])
    ensures Rebuilds(h, FromProof(h, b, oldRoot, m, |d|, SubProof(h, m, d, b)), m, d)
  {
    hide FromProof, Split, Mth, Rebuilds;
    var k := Split(|d|);
    ProofFromAbove(h, b, oldRoot, m, |d|, SubProof(h, m - k, d[k..], false), Mth(h, d[..k]));
    RebuildsRight(h, FromProof(h, false, oldRoot, m - k, |d| - k, SubProof(h, m - k, d[k..], false)), m, d);
  }

  /** A prefix reaching past the split point splits there too. */
  lemma MthOfLongPrefix(h: Hasher, m: nat, d: seq<Hash>)
    requires |d| >= 2 && Split(|d|) < m < |d|
    ensures var k := Split(|d|); Mth(h, d[..m]) == h.children(Mth(h, d[..k]), Mth(h, d[k..][..m - k]))
  {
    var k := Split(|d|);
    SplitOfPrefix(m, |d|);
    assert d[..m][..k] == d[..k] && d[..m][k..] == d[k..][..m - k];
  }

  // --- soundness

  /** r carries the root of d and hashed only pairs of s. */
  ghost predicate Reaches(h: Hasher, r: Option<Roots>, d: seq<Hash>, s: set<(Hash, Hash)>) {
    && r.Some? && r.value.newer == Mth(h, d) && r.value.hashed <= s
    && TreePairs(h, d) <= s && CollisionFree(h, s)
  }

  lemma ReachesLeft(h: Hasher, r: Option<Roots>, x: Hash, d: seq<Hash>, s: set<(Hash, Hash)>)
    requires |d| >= 2 && Reaches(h, MergeRight(h, r, x), d, s)
    ensures Reaches(h, r, d[..Split(|d|)], s) && x == Mth(h, d[Split(|d|)..])
  {
    hide Split;
    var k := Split(|d|);
    assert (r.value.newer, x) in MergeRight(h, r, x).value.hashed;
    assert (Mth(h, d[..k]), Mth(h, d[k..])) in TreePairs(h, d);
  }

  lemma ReachesRight(h: Hasher, x: Hash, r: Option<Roots>, d: seq<Hash>, s: set<(Hash, Hash)>)
    requires |d| >= 2 && Reaches(h, MergeLeft(h, x, r), d, s)
    ensures Reaches(h, r, d[Split(|d|)..], s) && x == Mth(h, d[..Split(|d|)])
  {
    hide Split;
    var k := Split(|d|);
    assert (x, r.value.newer) in MergeLeft(h, x, r).value.hashed;
    assert (Mth(h, d[..k]), Mth(h, d[k..])) in TreePairs(h, d);
  }

  /** Rebuilding the root of d from a leaf hash means that the leaf is in d at
      that index and that the path is the audit path, unless two of the hashed
      pairs collide. */
  lemma {:induction false} PathIsSound(h: Hasher, leaf: Hash, m: nat, d: seq<Hash>, p: seq<Hash>, s: set<(Hash, Hash)>)
    requires m < |d| && Reaches(h, FromPath(h, leaf, m, |d|, p), d, s)
    ensures leaf == d[m] && p == Path(h, m, d)
    decreases |d|
  {
    hide *;
    if |d| == 1 {
      PathOfOneIsSound(h, leaf, d, p, s);
      return;
    }
    ReachesSome(h, FromPath(h, leaf, m, |d|, p), d, s);
    var k := Split(|d|);
    var q, x := PathPeel(h, leaf, m, |d|, p);
    if m < k {
      ReachesLeft(h, FromPath(h, leaf, m, k, q), x, d, s);
      PathIsSound(h, leaf, m, d[..k], q, s);
    } else {
      ReachesRight(h, x, FromPath(h, leaf, m - k, |d| - k, q), d, s);
      PathIsSound(h, leaf, m - k, d[k..], q, s);
    }
    PathLevel(h, m, d);
  }

  lemma PathOfOneIsSound(h: Hasher, leaf: Hash, d: seq<Hash>, p: seq<Hash>, s: set<(Hash, Hash)>)
    requires |d| == 1 && Reaches(h, FromPath(h, leaf, 0, 1, p), d, s)
    ensures leaf == d[0] && p == Path(h, 0, d)
  {
  }

  lemma PathPeel(h: Hasher, leaf: Hash, m: nat, n: nat, p: seq<Hash>) returns (q: seq<Hash>, x: Hash)
    requires m < n && n >= 2 && FromPath(h, leaf, m, n, p).Some?
    ensures p == q + [x]
    ensures var k := Split(n);
            FromPath(h, leaf, m, n, p) == (
              if m < k then MergeRight(h, FromPath(h, leaf, m, k, q), x)
              else MergeLeft(h, x, FromPath(h, leaf, m - k, n - k, q)))
  {
    hide FromPath, Split;
    PathFromAbove(h, leaf, m, n, p, leaf);
    q, x := Init(p), Last(p);
    assert p == q + [x];
    PathFromAbove(h, leaf, m, n, q, x);
  }

  lemma PathLevel(h: Hasher, m: nat, d: seq<Hash>)
    requires m < |d| && |d| >= 2
    ensures var k := Split(|d|);
            Path(h, m, d) == (if m < k then Path(h, m, d[..k]) + [Mth(h, d[k..])]
                              else Path(h, m - k, d[k..]) + [Mth(h, d[..k])])
  {
  }

  /** Rebuilding the root of d from a consistency proof means that the older
      root is the root of the first m leaves of d and that the proof is the
      consistency proof, unless two of the hashed pairs collide. */
  lemma {:induction false} ProofIsSound(h: Hasher, b: bool, oldRoot: Hash, m: nat, d: seq<Hash>, p: seq<Hash>,
                                        s: set<(Hash, Hash)>)
    requires 0 < m <= |d| && (m < |d| || IsPow2(m))
    requires Reaches(h, FromProof(h, b, oldRoot, m, |d|, p), d, s)
    ensures Rebuilds(h, FromProof(h, b, oldRoot, m, |d|, p), m, d)
    ensures p == SubProof(h, m, d, b)
    decreases |d|
  {
    hide *;
    if m == |d| {
      ProofSoundPerfect(h, b, oldRoot, d, p, s);
      return;
    }
    assert FromProof(h, b, oldRoot, m, |d|, p).Some? by { ReachesSome(h, FromProof(h, b, oldRoot, m, |d|, p), d, s); }
    var k := Split(|d|);
    var q, x := ProofPeel(h, b, oldRoot, m, |d|, p);
    if m <= k {
      var r := FromProof(h, b, oldRoot, m, k, q);
      ReachesLeft(h, r, x, d, s);
      ProofIsSound(h, b, oldRoot, m, d[..k], q, s);
      RebuildsLeft(h, r, m, d);
    } else {
      var r := FromProof(h, false, oldRoot, m - k, |d| - k, q);
      ReachesRight(h, x, r, d, s);
      ProofIsSound(h, false, oldRoot, m - k, d[k..], q, s);
      RebuildsRight(h, r, m, d);
    }
    SubProofLevel(h, m, d, b);
  }

  lemma ReachesSome(h: Hasher, r: Option<Roots>, d: seq<Hash>, s: set<(Hash, Hash)>)
    requires Reaches(h, r, d, s)
    ensures r.Some?
  {
  }

  lemma ProofSoundPerfect(h: Hasher, b: bool, oldRoot: Hash, d: seq<Hash>, p: seq<Hash>, s: set<(Hash, Hash)>)
    requires IsPow2(|d|) && Reaches(h, FromProof(h, b, oldRoot, |d|, |d|, p), d, s)
    ensures Rebuilds(h, FromProof(h, b, oldRoot, |d|, |d|, p), |d|, d)
    ensures p == SubProof(h, |d|, d, b)
  {
    hide Start, Mth;
    assert d[..|d|] == d;
    StartPerfect(h, b, oldRoot, |d|, p);
  }

  lemma ProofPeel(h: Hasher, b: bool, oldRoot: Hash, m: nat, n: nat, p: seq<Hash>) returns (q: seq<Hash>, x: Hash)
    requires 0 < m < n && FromProof(h, b, oldRoot, m, n, p).Some?
    ensures p == q + [x]
    ensures var k := Split(n);
            FromProof(h, b, oldRoot, m, n, p) == (
              if m <= k then MergeRight(h, FromProof(h, b, oldRoot, m, k, q), x)
              else MergeLeft(h, x, FromProof(h, false, oldRoot, m - k, n - k, q)))
  {
    hide FromProof, Split;
    ProofFromAbove(h, b, oldRoot, m, n, p, oldRoot);
    q, x := Init(p), Last(p);
    assert p == q + [x];
    ProofFromAbove(h, b, oldRoot, m, n, q, x);
  }

  lemma SubProofLevel(h: Hasher, m: nat, d: seq<Hash>, b: bool)
    requires 0 < m < |d|
    ensures var k := Split(|d|);
            SubProof(h, m, d, b) == (if m <= k then SubProof(h, m, d[..k], b) + [Mth(h, d[k..])]
                                     else SubProof(h, m - k, d[k..], false) + [Mth(h, d[..k])])
  {
  }
}
