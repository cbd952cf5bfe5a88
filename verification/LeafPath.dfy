/** Self-contained inclusion paths: a value and the sibling hashes from its leaf
    to the root, each with the side it stands on. MerkleProve and MerkleLeafPath
    of merkle/merkle_hasher.go; the paths that MerkleInclusionLeafPath reads from
    a store have the same form. */
module LeafPath {
  import opened Hashing
  import opened Bits
  import opened MerkleSpec
  import opened MerkleProofs
  import opened Codec
  import CompactTree

  datatype Step = Step(right: bool, hash: Hash)

  const LEFT: byte := 0
  const RIGHT: byte := 1
  const STEP_SIZE: nat := HASH_SIZE + 1

  /** Merges the steps onto x, nearest sibling first. */
  function Merge(h: Hasher, x: Hash, steps: seq<Step>): Hash {
    if steps == [] then x
    else
      var s := Last(steps);
      var y := Merge(h, x, Init(steps));
      if s.right then h.children(y, s.hash) else h.children(s.hash, y)
  }

  /** The pairs hashed by Merge. */
  ghost function MergePairs(h: Hasher, x: Hash, steps: seq<Step>): set<(Hash, Hash)> {
    if steps == [] then {}
    else
      var s := Last(steps);
      var y := Merge(h, x, Init(steps));
      MergePairs(h, x, Init(steps)) + {if s.right then (y, s.hash) else (s.hash, y)}
  }

  /** The steps of leaf m: its audit path with sides. */
  function PathSteps(h: Hasher, m: nat, d: seq<Hash>): seq<Step>
    requires m < |d|
    decreases |d|
  {
    if |d| == 1 then []
    else
      var k := Split(|d|);
      if m < k then PathSteps(h, m, d[..k]) + [Step(true, Mth(h, d[k..]))]
      else PathSteps(h, m - k, d[k..]) + [Step(false, Mth(h, d[..k]))]
  }

  lemma PathStepsLevel(h: Hasher, m: nat, d: seq<Hash>)
    requires m < |d| && |d| >= 2
    ensures var k := Split(|d|);
            PathSteps(h, m, d) == if m < k then PathSteps(h, m, d[..k]) + [Step(true, Mth(h, d[k..]))]
                                  else PathSteps(h, m - k, d[k..]) + [Step(false, Mth(h, d[..k]))]
  {
  }

  lemma MergeSnoc(h: Hasher, x: Hash, steps: seq<Step>, s: Step)
    ensures var y := Merge(h, x, steps);
            Merge(h, x, steps + [s]) == if s.right then h.children(y, s.hash) else h.children(s.hash, y)
  {
    assert Init(steps + [s]) == steps;
  }

  lemma LeafAlone(h: Hasher, d: seq<Hash>)
    requires |d| == 1
    ensures Mth(h, d) == d[0] && PathSteps(h, 0, d) == [] && Merge(h, d[0], []) == d[0]
  {
  }

  /** The steps of a leaf lead from it to the root. */
  lemma {:induction false} StepsLeadToRoot(h: Hasher, m: nat, d: seq<Hash>)
    requires m < |d|
    ensures Merge(h, d[m], PathSteps(h, m, d)) == Mth(h, d)
    decreases |d|
  {
    hide *;
    if |d| == 1 {
      LeafAlone(h, d);
    } else {
      var k := Split(|d|);
      MthLevel(h, d);
      PathStepsLevel(h, m, d);
      if m < k {
        StepsLeadToRoot(h, m, d[..k]);
        MergeSnoc(h, d[m], PathSteps(h, m, d[..k]), Step(true, Mth(h, d[k..])));
      } else {
        StepsLeadToRoot(h, m - k, d[k..]);
        MergeSnoc(h, d[m], PathSteps(h, m - k, d[k..]), Step(false, Mth(h, d[..k])));
      }
    }
  }

  // --- only leaves can be proved

  /** No two hashed pairs collide, no two hashed leaves collide, and no leaf hash
      is the hash of a pair. */
  ghost predicate Separated(h: Hasher, pairs: set<(Hash, Hash)>, data: set<seq<byte>>) {
    && CollisionFree(h, pairs)
    && (forall x, y :: x in data && y in data && h.leaf(x) == h.leaf(y) ==> x == y)
    && (forall x, p :: x in data && p in pairs ==> h.leaf(x) != h.children(p.0, p.1))
  }

  /** d holds the leaf hashes of the data. */
  ghost predicate LeavesOf(h: Hasher, data: seq<seq<byte>>, d: seq<Hash>) {
    |d| == |data| && forall i :: 0 <= i < |d| ==> d[i] == h.leaf(data[i])
  }

  /** Any steps that lead from the leaf hash of v to the root of the data are the
      steps of one of its entries, and v is that entry. The number of steps is
      not given: domain separation is what keeps an inner node from being passed
      off as a leaf. */
  lemma {:induction false} StepsAreSound(h: Hasher, v: seq<byte>, steps: seq<Step>, data: seq<seq<byte>>, d: seq<Hash>,
                                         pairs: set<(Hash, Hash)>, hashed: set<seq<byte>>) returns (m: nat)
    requires d != [] && LeavesOf(h, data, d)
    requires Merge(h, h.leaf(v), steps) == Mth(h, d)
    requires MergePairs(h, h.leaf(v), steps) <= pairs && TreePairs(h, d) <= pairs
    requires v in hashed && (forall x :: x in data ==> x in hashed) && Separated(h, pairs, hashed)
    ensures m < |d| && v == data[m] && steps == PathSteps(h, m, d)
    decreases |d|
  {
    hide TreePairs, Mth, PathSteps, Split, MergePairs, Merge;
    MergeTop(h, h.leaf(v), steps);
    if |d| == 1 {
      LeafAlone(h, d);
      assert data[0] in data;
      m := 0;
    } else {
      MthLevel(h, d);
      PairsLevel(h, d);
      var k := Split(|d|);
      var s, rest := Last(steps), Init(steps);
      assert d[..k] != [] && d[k..] != [];
      if s.right {
        m := StepsAreSound(h, v, rest, data[..k], d[..k], pairs, hashed);
        PathStepsLevel(h, m, d);
      } else {
        m := StepsAreSound(h, v, rest, data[k..], d[k..], pairs, hashed);
        m := m + k;
        PathStepsLevel(h, m, d);
      }
      assert steps == rest + [s];
    }
  }

  lemma MergeTop(h: Hasher, x: Hash, steps: seq<Step>)
    ensures steps == [] ==> Merge(h, x, steps) == x
    ensures steps != [] ==>
              var s := Last(steps);
              var y := Merge(h, x, Init(steps));
              var p := if s.right then (y, s.hash) else (s.hash, y);
              && Merge(h, x, steps) == h.children(p.0, p.1)
              && p in MergePairs(h, x, steps)
              && MergePairs(h, x, Init(steps)) <= MergePairs(h, x, steps)
  {
  }

  lemma PairsLevel(h: Hasher, d: seq<Hash>)
    requires |d| >= 2
    ensures var k := Split(|d|);
            && TreePairs(h, d[..k]) <= TreePairs(h, d)
            && TreePairs(h, d[k..]) <= TreePairs(h, d)
            && (Mth(h, d[..k]), Mth(h, d[k..])) in TreePairs(h, d)
  {
  }

  /** Path and sides side by side. */
  lemma {:induction false} StepsAreZipped(h: Hasher, m: nat, d: seq<Hash>)
    requires m < |d|
    ensures |PathSteps(h, m, d)| == |Path(h, m, d)| == |CompactTree.Sides(m, |d|)|
    ensures forall i :: 0 <= i < |Path(h, m, d)| ==>
              PathSteps(h, m, d)[i] == Step(CompactTree.Sides(m, |d|)[i], Path(h, m, d)[i])
    decreases |d|
  {
    hide *;
    if |d| == 1 {
      NoSteps(h, d);
    } else {
      var k := Split(|d|);
      PathStepsLevel(h, m, d);
      PathLevel(h, m, d);
      CompactTree.SidesLevel(m, |d|);
      if m < k {
        StepsAreZipped(h, m, d[..k]);
      } else {
        StepsAreZipped(h, m - k, d[k..]);
      }
    }
  }

  lemma NoSteps(h: Hasher, d: seq<Hash>)
    requires |d| == 1
    ensures PathSteps(h, 0, d) == [] && Path(h, 0, d) == [] && CompactTree.Sides(0, 1) == []
  {
  }

  // --- the bytes of a path

  function Side(right: bool): byte {
    if right then RIGHT else LEFT
  }

  function StepBytes(steps: seq<Step>): (s: seq<byte>)
    ensures |s| == STEP_SIZE * |steps|
  {
    if steps == [] then []
    else StepBytes(Init(steps)) + ([Side(Last(steps).right)] + Last(steps).hash)
  }

  /** A serialized path: the length-prefixed value, then 33 bytes per step. */
  function PathBytes(value: seq<byte>, steps: seq<Step>): seq<byte> {
    VarBytes(value) + StepBytes(steps)
  }

  /** The first n steps of s behind off; every side byte but 0 means right. */
  function StepsAt(s: seq<byte>, off: nat, n: nat): seq<Step>
    requires off + STEP_SIZE * n <= |s|
  {
    if n == 0 then []
    else
      var o := off + STEP_SIZE * (n - 1);
      StepsAt(s, off, n - 1) + [Step(s[o] != LEFT, s[o + 1..o + STEP_SIZE])]
  }

  lemma {:induction false} StepsRoundTrip(s: seq<byte>, off: nat, steps: seq<Step>)
    requires Occurs(s, off, StepBytes(steps))
    ensures StepsAt(s, off, |steps|) == steps
    decreases |steps|
  {
    if steps == [] {
    } else {
      var x, o := Last(steps), off + STEP_SIZE * (|steps| - 1);
      OccursParts(s, off, StepBytes(Init(steps)), [Side(x.right)] + x.hash);
      OccursParts(s, o, [Side(x.right)], x.hash);
      assert s[o] == s[o..o + 1][0] == Side(x.right);
      assert s[o + 1..o + STEP_SIZE] == x.hash;
      StepsRoundTrip(s, off, Init(steps));
      assert steps == Init(steps) + [x];
    }
  }

  /** The value in a path and the root that the path leads to. Bytes behind the
      last complete step are not looked at. */
  ghost function ProvenRoot(h: Hasher, path: seq<byte>): Option<(seq<byte>, Hash)> {
    match VarBytesAt(path, 0)
    case None => None
    case Some((value, o)) =>
      VarBytesEnd(path, 0);
      Some((value, Merge(h, h.leaf(value), StepsAt(path, o, (|path| - o) / STEP_SIZE))))
  }

  lemma VarBytesEnd(s: seq<byte>, off: nat)
    ensures VarBytesAt(s, off).Some? ==> VarBytesAt(s, off).value.1 <= |s|
  {
  }

  /** Proving a path against a root: the value, if the path leads there. */
  ghost function Proves(h: Hasher, path: seq<byte>, root: seq<byte>): Option<seq<byte>> {
    match ProvenRoot(h, path)
    case Some((value, r)) => if r == root then Some(value) else None
    case None => None
  }

  lemma StepsAtNone(h: Hasher, x: Hash, s: seq<byte>, off: nat)
    requires off <= |s|
    ensures Merge(h, x, StepsAt(s, off, 0)) == x
  {
  }

  lemma StepsAtNext(s: seq<byte>, off: nat, n: nat)
    requires off + STEP_SIZE * (n + 1) <= |s|
    ensures var o := off + STEP_SIZE * n;
            StepsAt(s, off, n + 1) == StepsAt(s, off, n) + [Step(s[o] != LEFT, s[o + 1..o + STEP_SIZE])]
  {
  }

  method MerkleProve(h: Hasher, path: seq<byte>, root: seq<byte>) returns (r: Option<seq<byte>>)
    requires |path| <= MAX_UINT64
    ensures r == Proves(h, path, root)
  {
    hide Merge, StepsAt, VarBytesAt;
    var source := new ZeroCopySource(path);
    VarBytesEnd(path, 0);
    var value, eof := source.NextVarBytes();
    if eof {
      return None;
    }
    var hash := h.leaf(value);
    ghost var o := source.off;
    var size := (|path| - source.off) / STEP_SIZE;
    StepsAtNone(h, h.leaf(value), path, o);
    for i := 0 to size
      invariant source.s == path && source.Valid() && source.off == o + STEP_SIZE * i
      invariant hash == Merge(h, h.leaf(value), StepsAt(path, o, i))
    {
      var f, eof1 := source.NextByte();
      if eof1 {
        assert false;
        return None;
      }
      var v, eof2 := source.NextBytes(HASH_SIZE);
      if eof2 {
        assert false;
        return None;
      }
      StepsAtNext(path, o, i);
      MergeSnoc(h, h.leaf(value), StepsAt(path, o, i), Step(f != LEFT, v));
      if f == LEFT {
        hash := h.children(v, hash);
      } else {
        hash := h.children(hash, v);
      }
    }
    if hash != root {
      return None;
    }
    return Some(value);
  }

  /** A serialized path proves its value against the root its steps lead to. */
  lemma PathBytesRoundTrip(h: Hasher, value: seq<byte>, steps: seq<Step>)
    requires |value| <= MAX_UINT64
    ensures ProvenRoot(h, PathBytes(value, steps)) == Some((value, Merge(h, h.leaf(value), steps)))
  {
    hide VarBytesAt, Merge, StepsAt, PathBytes;
    PathBytesParse(value, steps);
  }

  lemma PathBytesParse(value: seq<byte>, steps: seq<Step>)
    requires |value| <= MAX_UINT64
    ensures var s, o := PathBytes(value, steps), |VarBytes(value)|;
            && o <= |s| && (|s| - o) / STEP_SIZE == |steps|
            && VarBytesAt(s, 0) == Some((value, o)) && StepsAt(s, o, |steps|) == steps
  {
    hide VarBytesAt, StepsAt, StepBytes, VarBytes, Occurs;
    var s, head := PathBytes(value, steps), VarBytes(value);
    assert s == [] + head + StepBytes(steps);
    OccursBetween([], head, StepBytes(steps));
    VarBytesRoundTrip(s, 0, value);
    assert s == head + StepBytes(steps) + [];
    OccursBetween(head, StepBytes(steps), []);
    StepsRoundTrip(s, |head|, steps);
    assert (|s| - |head|) / STEP_SIZE == |steps|;
  }

  /** The serialized path of a leaf proves the leaf's value against the root. */
  lemma LeafPathProves(h: Hasher, data: seq<byte>, m: nat, d: seq<Hash>)
    requires m < |d| && d[m] == h.leaf(data) && |data| <= MAX_UINT64
    ensures Proves(h, PathBytes(data, PathSteps(h, m, d)), Mth(h, d)) == Some(data)
  {
    hide PathBytes, PathSteps, Mth, Merge, ProvenRoot;
    PathBytesRoundTrip(h, data, PathSteps(h, m, d));
    StepsLeadToRoot(h, m, d);
  }

  /** What is proved against the root of a list is in the list. */
  lemma ProvedIsIncluded(h: Hasher, path: seq<byte>, v: seq<byte>, data: seq<seq<byte>>, d: seq<Hash>,
                         pairs: set<(Hash, Hash)>, hashed: set<seq<byte>>)
    requires d != [] && LeavesOf(h, data, d)
    requires Proves(h, path, Mth(h, d)) == Some(v)
    requires ProvedPairs(h, path) <= pairs && TreePairs(h, d) <= pairs
    requires v in hashed && (forall x :: x in data ==> x in hashed) && Separated(h, pairs, hashed)
    ensures v in data
  {
    hide TreePairs, Mth, Merge, MergePairs, StepsAt, Separated;
    VarBytesEnd(path, 0);
    var o := VarBytesAt(path, 0).value.1;
    var m := StepsAreSound(h, v, StepsAt(path, o, (|path| - o) / STEP_SIZE), data, d, pairs, hashed);
  }

  /** Following the path of a leaf hashes pairs of the tree only. */
  lemma {:induction false} PathPairs(h: Hasher, m: nat, d: seq<Hash>)
    requires m < |d|
    ensures MergePairs(h, d[m], PathSteps(h, m, d)) <= TreePairs(h, d)
    decreases |d|
  {
    hide *;
    if |d| == 1 {
      LeafAlone(h, d);
      NoMergePairs(h, d[0]);
    } else {
      var k := Split(|d|);
      PathStepsLevel(h, m, d);
      PairsLevel(h, d);
      if m < k {
        PathPairs(h, m, d[..k]);
        StepsLeadToRoot(h, m, d[..k]);
        MergePairsSnoc(h, d[m], PathSteps(h, m, d[..k]), Step(true, Mth(h, d[k..])));
      } else {
        PathPairs(h, m - k, d[k..]);
        StepsLeadToRoot(h, m - k, d[k..]);
        MergePairsSnoc(h, d[m], PathSteps(h, m - k, d[k..]), Step(false, Mth(h, d[..k])));
      }
    }
  }

  lemma NoMergePairs(h: Hasher, x: Hash)
    ensures MergePairs(h, x, []) == {}
  {
  }

  lemma MergePairsSnoc(h: Hasher, x: Hash, steps: seq<Step>, s: Step)
    ensures var y := Merge(h, x, steps);
            MergePairs(h, x, steps + [s]) == MergePairs(h, x, steps) + {if s.right then (y, s.hash) else (s.hash, y)}
  {
    assert Init(steps + [s]) == steps;
  }

  /** path proves v against the root of d, hashing only the given pairs. */
  ghost predicate ProvesWithin(h: Hasher, path: seq<byte>, v: seq<byte>, d: seq<Hash>, pairs: set<(Hash, Hash)>) {
    Proves(h, path, Mth(h, d)) == Some(v) && ProvedPairs(h, path) <= pairs
  }

  /** Exactly the entries of a list can be proved against its root. */
  lemma ProvableIffIncluded(h: Hasher, v: seq<byte>, data: seq<seq<byte>>, d: seq<Hash>,
                            pairs: set<(Hash, Hash)>, hashed: set<seq<byte>>)
    requires d != [] && LeavesOf(h, data, d) && TreePairs(h, d) <= pairs && |v| <= MAX_UINT64
    requires v in hashed && (forall x :: x in data ==> x in hashed) && Separated(h, pairs, hashed)
    ensures v in data <==> exists path :: ProvesWithin(h, path, v, d, pairs)
  {
    hide TreePairs, Mth, Separated, ProvedPairs, Proves, PathBytes, PathSteps;
    if v in data {
      var m :| 0 <= m < |data| && data[m] == v;
      LeafPathProves(h, v, m, d);
      LeafPathPairs(h, v, m, d);
      assert ProvesWithin(h, PathBytes(v, PathSteps(h, m, d)), v, d, pairs);
    }
    forall path | ProvesWithin(h, path, v, d, pairs)
      ensures v in data
    {
      ProvedIsIncluded(h, path, v, data, d, pairs, hashed);
    }
  }

  lemma LeafPathPairs(h: Hasher, v: seq<byte>, m: nat, d: seq<Hash>)
    requires m < |d| && d[m] == h.leaf(v) && |v| <= MAX_UINT64
    ensures ProvedPairs(h, PathBytes(v, PathSteps(h, m, d))) <= TreePairs(h, d)
  {
    hide Merge, MergePairs, StepsAt, StepBytes, VarBytes, VarBytesAt, Occurs, TreePairs, PathSteps, PathBytes;
    PathPairs(h, m, d);
    PathBytesParse(v, PathSteps(h, m, d));
  }

  /** The pairs hashed while proving a path. */
  ghost function ProvedPairs(h: Hasher, path: seq<byte>): set<(Hash, Hash)> {
    match VarBytesAt(path, 0)
    case None => {}
    case Some((value, o)) =>
      VarBytesEnd(path, 0);
      MergePairs(h, h.leaf(value), StepsAt(path, o, (|path| - o) / STEP_SIZE))
  }

  // --- writing a path

  lemma NoStepBytes()
    ensures StepBytes([]) == []
  {
  }

  lemma StepBytesSnoc(steps: seq<Step>, s: Step)
    ensures StepBytes(steps + [s]) == StepBytes(steps) + [Side(s.right)] + s.hash
  {
    assert Init(steps + [s]) == steps;
  }

  /** The steps collected from the root down, put in order. */
  function StepsOf(hashes: seq<Hash>, poses: seq<bool>): seq<Step>
    requires |hashes| == |poses|
  {
    seq(|hashes|, i requires 0 <= i < |hashes| => Step(poses[|hashes| - 1 - i], hashes[|hashes| - 1 - i]))
  }

  lemma StepsInReverse(hashes: seq<Hash>, poses: seq<bool>, path: seq<Hash>, sides: seq<bool>, steps: seq<Step>)
    requires Reverse(hashes) == path && Reverse(poses) == sides
    requires |steps| == |path| == |sides|
    requires forall i :: 0 <= i < |path| ==> steps[i] == Step(sides[i], path[i])
    ensures |hashes| == |poses| && StepsOf(hashes, poses) == steps
  {
  }

  method WritePath(data: seq<byte>, hashes: seq<Hash>, poses: seq<bool>) returns (bytes: seq<byte>)
    requires |hashes| == |poses| && |data| <= MAX_UINT64
    ensures bytes == PathBytes(data, StepsOf(hashes, poses))
  {
    hide StepBytes, VarBytes;
    ghost var steps := StepsOf(hashes, poses);
    var length := |hashes|;
    var sink := new ZeroCopySink(512);
    var _ := sink.WriteVarBytes(data);
    NoStepBytes();
    for k := 0 to length
      invariant fresh(sink) && fresh(sink.buf) && sink.Valid()
      invariant sink.Contents() == VarBytes(data) + StepBytes(steps[..k])
    {
      var index := length - k - 1;
      assert steps[..k + 1] == steps[..k] + [steps[k]];
      StepBytesSnoc(steps[..k], steps[k]);
      sink.WriteByte(Side(poses[index]));
      sink.WriteBytes(hashes[index]);
    }
    assert steps[..length] == steps;
    bytes := sink.buf[..sink.len];
  }
}
