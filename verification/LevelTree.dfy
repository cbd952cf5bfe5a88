/** The level-by-level tree of merkle/merkle_hasher.go, which pairs neighbours and
    promotes an odd last node. It agrees with the recursive definition on the
    root and on every path. */
module LevelTree {
  import opened Hashing
  import opened Bits
  import opened MerkleSpec
  import opened Codec
  import opened LeafPath

  /** The level above s. */
  function NextLevel(h: Hasher, s: seq<Hash>): (r: seq<Hash>)
    ensures |r| == (|s| + 1) / 2
    ensures forall i :: 0 <= i < |r| ==>
        r[i] == if 2 * i + 1 < |s| then h.children(s[2 * i], s[2 * i + 1]) else s[2 * i]
  {
    seq((|s| + 1) / 2, i requires 0 <= i < (|s| + 1) / 2 =>
      if 2 * i + 1 < |s| then h.children(s[2 * i], s[2 * i + 1]) else s[2 * i])
  }

  /** The levels above an even cut are the levels of the two parts. */
  lemma NextLevelCut(h: Hasher, s: seq<Hash>, k: nat)
    requires k % 2 == 0 && k <= |s|
    ensures NextLevel(h, s)[..k / 2] == NextLevel(h, s[..k])
    ensures NextLevel(h, s)[k / 2..] == NextLevel(h, s[k..])
  {
    hide NextLevel;
    var r := NextLevel(h, s);
    forall i | 0 <= i < k / 2
      ensures r[i] == NextLevel(h, s[..k])[i]
    {
      assert s[..k][2 * i] == s[2 * i] && s[..k][2 * i + 1] == s[2 * i + 1];
    }
    forall i | 0 <= i < (|s| - k + 1) / 2
      ensures r[k / 2 + i] == NextLevel(h, s[k..])[i]
    {
      assert 2 * (k / 2 + i) == k + 2 * i;
    }
  }

  /** Both levels split at the same place. */
  lemma SplitOfNextLevel(n: nat)
    requires n >= 3
    ensures Split(n) % 2 == 0 && Split(n) >= 2
    ensures (n + 1) / 2 >= 2 && Split((n + 1) / 2) == Split(n) / 2
  {
    SplitUnique((n + 1) / 2, Split(n) / 2);
  }

  /** Moving up one level keeps the root. */
  lemma {:induction false} NextLevelKeepsRoot(h: Hasher, s: seq<Hash>)
    requires s != []
    ensures Mth(h, NextLevel(h, s)) == Mth(h, s)
    decreases |s|
  {
    hide *;
    if |s| <= 2 {
      SmallLevel(h, s);
    } else {
      var k, r := Split(|s|), NextLevel(h, s);
      SplitOfNextLevel(|s|);
      NextLevelCut(h, s, k);
      NextLevelKeepsRoot(h, s[..k]);
      NextLevelKeepsRoot(h, s[k..]);
      MthLevel(h, s);
      MthLevel(h, r);
    }
  }

  lemma SmallLevel(h: Hasher, s: seq<Hash>)
    requires 0 < |s| <= 2
    ensures Mth(h, NextLevel(h, s)) == Mth(h, s)
  {
    var r := NextLevel(h, s);
    assert |r| == 1;
    if |s| == 1 {
      assert r == s;
    } else {
      SplitUnique(2, 1);
      assert s[..1][0] == s[0] && s[1..][0] == s[1];
    }
  }

  /** The sibling of node i on its own level, if it has one. */
  function FirstStep(s: seq<Hash>, i: nat): seq<Step>
    requires i < |s|
  {
    if i % 2 == 1 then [Step(false, s[i - 1])]
    else if i + 1 < |s| then [Step(true, s[i + 1])]
    else []
  }

  /** A path from above is a path from below: the sibling on the lowest level,
      then the path of the parent one level up. */
  lemma {:induction false} PathByLevels(h: Hasher, i: nat, s: seq<Hash>)
    requires i < |s|
    ensures PathSteps(h, i, s) == FirstStep(s, i) + PathSteps(h, i / 2, NextLevel(h, s))
    decreases |s|
  {
    hide *;
    if |s| <= 2 {
      SmallPath(h, i, s);
    } else {
      var k, r := Split(|s|), NextLevel(h, s);
      SplitOfNextLevel(|s|);
      NextLevelCut(h, s, k);
      PathStepsLevel(h, i, s);
      PathStepsLevel(h, i / 2, r);
      FirstStepCut(s, i, k);
      if i < k {
        PathByLevels(h, i, s[..k]);
        NextLevelKeepsRoot(h, s[k..]);
        Associate(FirstStep(s, i), PathSteps(h, i / 2, r[..k / 2]), [Step(true, Mth(h, s[k..]))]);
      } else {
        assert (i - k) / 2 == i / 2 - k / 2;
        PathByLevels(h, i - k, s[k..]);
        NextLevelKeepsRoot(h, s[..k]);
        Associate(FirstStep(s, i), PathSteps(h, i / 2 - k / 2, r[k / 2..]), [Step(false, Mth(h, s[..k]))]);
      }
    }
  }

  lemma Associate<T>(a: seq<T>, b: seq<T>, c: seq<T>)
    ensures a + b + c == a + (b + c)
  {
  }

  lemma FirstStepCut(s: seq<Hash>, i: nat, k: nat)
    requires i < |s| && k % 2 == 0 && 0 < k < |s|
    ensures i < k ==> FirstStep(s[..k], i) == FirstStep(s, i)
    ensures i >= k ==> FirstStep(s[k..], i - k) == FirstStep(s, i)
  {
  }

  lemma SmallPath(h: Hasher, i: nat, s: seq<Hash>)
    requires i < |s| <= 2
    ensures PathSteps(h, i, s) == FirstStep(s, i) + PathSteps(h, i / 2, NextLevel(h, s))
  {
    assert |NextLevel(h, s)| == 1;
    if |s| == 2 {
      SplitUnique(2, 1);
      assert s[..1][0] == s[0] && s[1..][0] == s[1];
    }
  }

  // --- all levels

  /** The level j above s. */
  function Level(h: Hasher, s: seq<Hash>, j: nat): seq<Hash> {
    if j == 0 then s else NextLevel(h, Level(h, s, j - 1))
  }

  /** The number of levels above n leaves: the ceiling of log2(n). */
  function Depth(n: nat): nat {
    if n <= 1 then 0 else 1 + Depth((n + 1) / 2)
  }

  lemma {:induction false} DepthIsCeilLog(n: nat)
    requires n > 0
    ensures n <= Pow2(Depth(n)) && (Depth(n) > 0 ==> Pow2(Depth(n) - 1) < n)
  {
    if n <= 1 {
    } else {
      DepthIsCeilLog((n + 1) / 2);
    }
  }

  lemma {:induction false} LevelFromBelow(h: Hasher, s: seq<Hash>, j: nat)
    ensures Level(h, s, j + 1) == Level(h, NextLevel(h, s), j)
  {
    hide NextLevel;
    if j == 0 {
    } else {
      LevelFromBelow(h, s, j - 1);
    }
  }

  lemma DepthLevel(n: nat)
    requires n > 1
    ensures Depth(n) == 1 + Depth((n + 1) / 2)
  {
  }

  lemma SingleLevel(h: Hasher, s: seq<Hash>)
    requires |s| == 1
    ensures Level(h, s, Depth(|s|)) == [Mth(h, s)]
  {
  }

  /** The topmost level is the root alone. */
  lemma {:induction false} TopLevel(h: Hasher, s: seq<Hash>)
    requires s != []
    ensures Level(h, s, Depth(|s|)) == [Mth(h, s)]
    decreases |s|
  {
    hide *;
    if |s| == 1 {
      SingleLevel(h, s);
    } else {
      DepthLevel(|s|);
      LevelFromBelow(h, s, Depth(|s|) - 1);
      TopLevel(h, NextLevel(h, s));
      NextLevelKeepsRoot(h, s);
    }
  }

  /** All levels, the leaves last. */
  method MerkleHashes(h: Hasher, preLeaves: seq<Hash>, depth: nat) returns (levels: seq<seq<Hash>>)
    ensures |levels| == depth + 1
    ensures forall i :: 0 <= i <= depth ==> levels[i] == Level(h, preLeaves, depth - i)
    ensures preLeaves != [] && depth == Depth(|preLeaves|) ==> levels[0] == [Mth(h, preLeaves)]
  {
    levels := seq(depth + 1, _ => []);
    levels := levels[depth := preLeaves];
    var i := depth;
    while i > 0
      invariant 0 <= i <= depth && |levels| == depth + 1
      invariant forall l :: i <= l <= depth ==> levels[l] == Level(h, preLeaves, depth - l)
    {
      var level := levels[i];
      var nextLevel := PairUp(h, level);
      levels := levels[i - 1 := nextLevel];
      i := i - 1;
    }
    if preLeaves != [] && depth == Depth(|preLeaves|) {
      TopLevel(h, preLeaves);
    }
  }

  /** One level up, pair by pair. */
  method PairUp(h: Hasher, level: seq<Hash>) returns (nextLevel: seq<Hash>)
    ensures nextLevel == NextLevel(h, level)
  {
    var remainder := |level| % 2;
    nextLevel := seq(|level| / 2 + remainder, _ => EMPTY_HASH);
    var k, j := 0, 0;
    while j < |level| - 1
      invariant j == 2 * k && 0 <= k <= |level| / 2
      invariant |nextLevel| == |level| / 2 + remainder
      invariant forall i :: 0 <= i < k ==> nextLevel[i] == h.children(level[2 * i], level[2 * i + 1])
    {
      nextLevel := nextLevel[k := h.children(level[j], level[j + 1])];
      k, j := k + 1, j + 2;
    }
    if remainder != 0 {
      nextLevel := nextLevel[k := level[|level| - 1]];
    }
    assert |nextLevel| == |NextLevel(h, level)|;
  }

  // --- the path of a value

  const MAX_SIZE: nat := 1024 * 1024

  datatype PathResult = Bytes(bytes: seq<byte>) | OverMaxSize | NotFound

  method GetIndex(leaf: Hash, hashes: seq<Hash>) returns (index: int)
    ensures index < 0 ==> leaf !in hashes
    ensures index >= 0 ==> index < |hashes| && hashes[index] == leaf && leaf !in hashes[..index]
  {
    for i := 0 to |hashes|
      invariant leaf !in hashes[..i]
    {
      if hashes[i] == leaf {
        return i;
      }
    }
    return -1;
  }

  /** On the way up: the steps written so far, then the path of the node reached. */
  ghost predicate Climbing(h: Hasher, hashes: seq<Hash>, index: nat, done: seq<Step>, j: nat, node: nat) {
    && index < |hashes| && node < |Level(h, hashes, j)|
    && PathSteps(h, index, hashes) == done + PathSteps(h, node, Level(h, hashes, j))
  }

  lemma ClimbStarts(h: Hasher, hashes: seq<Hash>, index: nat)
    requires index < |hashes|
    ensures Climbing(h, hashes, index, [], 0, index)
  {
  }

  lemma ClimbsOneLevel(h: Hasher, hashes: seq<Hash>, index: nat, done: seq<Step>, j: nat, node: nat)
    requires Climbing(h, hashes, index, done, j, node)
    ensures Climbing(h, hashes, index, done + FirstStep(Level(h, hashes, j), node), j + 1, node / 2)
  {
    hide PathSteps, FirstStep;
    var s := Level(h, hashes, j);
    PathByLevels(h, node, s);
    Associate(done, FirstStep(s, node), PathSteps(h, node / 2, NextLevel(h, s)));
  }

  lemma ClimbEnds(h: Hasher, hashes: seq<Hash>, index: nat, done: seq<Step>, node: nat)
    requires Climbing(h, hashes, index, done, Depth(|hashes|), node)
    ensures done == PathSteps(h, index, hashes)
  {
    TopLevel(h, hashes);
    assert PathSteps(h, 0, [Mth(h, hashes)]) == [];
  }

  /** Writes the sibling of a node; an odd last node has none. */
  method WriteStep(sink: ZeroCopySink, ghost head: seq<byte>, ghost done: seq<Step>, subTree: seq<Hash>, index: nat)
    requires sink.Valid() && index < |subTree| && sink.Contents() == head + StepBytes(done)
    modifies sink, sink.buf
    ensures sink.Valid() && (sink.buf == old(sink.buf) || fresh(sink.buf))
    ensures sink.Contents() == head + StepBytes(done + FirstStep(subTree, index))
  {
    hide StepBytes;
    if index == |subTree| - 1 && |subTree| % 2 != 0 {
      assert FirstStep(subTree, index) == [] && done + [] == done;
    } else {
      var step := if index % 2 != 0 then Step(false, subTree[index - 1]) else Step(true, subTree[index + 1]);
      assert FirstStep(subTree, index) == [step];
      StepBytesSnoc(done, step);
      sink.WriteByte(Side(step.right));
      sink.WriteBytes(step.hash);
    }
  }

  /** The serialized path of data among the given leaf hashes. */
  method MerkleLeafPath(h: Hasher, data: seq<byte>, hashes: seq<Hash>) returns (r: PathResult)
    ensures r == OverMaxSize <==> |hashes| * STEP_SIZE + |data| + 8 > MAX_SIZE
    ensures r == NotFound <==> r != OverMaxSize && h.leaf(data) !in hashes
    ensures r.Bytes? ==>
              exists index: nat ::
                IsFirst(h.leaf(data), hashes, index) && r.bytes == PathBytes(data, PathSteps(h, index, hashes))
  {
    hide PathSteps, Level, StepBytes, VarBytes, Depth, FirstStep, NextLevel;
    var size := |hashes| * STEP_SIZE + |data| + 8;
    if size > MAX_SIZE {
      return OverMaxSize;
    }
    var found := GetIndex(h.leaf(data), hashes);
    if found < 0 {
      return NotFound;
    }
    var index: nat := found;
    var sink := new ZeroCopySink(size);
    var _ := sink.WriteVarBytes(data);
    var d := Depth(|hashes|);
    var merkleTree := MerkleHashes(h, hashes, d);
    var i := d;
    ghost var done: seq<Step> := [];
    ClimbStarts(h, hashes, index);
    NoStepBytes();
    while i > 0
      invariant 0 <= i <= d && Climbing(h, hashes, found, done, d - i, index)
      invariant fresh(sink) && fresh(sink.buf) && sink.Valid()
      invariant sink.Contents() == VarBytes(data) + StepBytes(done)
    {
      var subTree := merkleTree[i];
      ClimbsOneLevel(h, hashes, found, done, d - i, index);
      WriteStep(sink, VarBytes(data), done, subTree, index);
      done := done + FirstStep(subTree, index);
      index := index / 2;
      i := i - 1;
    }
    ClimbEnds(h, hashes, found, done, index);
    assert IsFirst(h.leaf(data), hashes, found);
    return Bytes(sink.buf[..sink.len]);
  }

  ghost predicate IsFirst(x: Hash, s: seq<Hash>, i: nat) {
    i < |s| && s[i] == x && x !in s[..i]
  }
}
