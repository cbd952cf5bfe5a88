/** The position table of the genesis configuration: GenesisChainConfig of
    consensus/vbft/config/genesis.go. The rank of every peer is the ceiling of
    DEFAULT_POS * SCALE * k / (k * DEFAULT_POS), which is SCALE. */
module Genesis {
  const SCALE: nat := 15

  /** Each peer SCALE times, in the order of the peers. */
  function Repeated(peers: seq<nat>): (r: seq<nat>)
    ensures |r| == SCALE * |peers|
  {
    seq(SCALE * |peers|, k requires 0 <= k < SCALE * |peers| => peers[k / SCALE])
  }

  lemma {:induction false} RunOfOne(n: nat, p: nat)
    ensures multiset(seq(n, _ => p)) == multiset{}[p := n]
  {
    if n == 0 {
    } else {
      RunOfOne(n - 1, p);
      assert seq(n, _ => p) == seq(n - 1, _ => p) + [p];
    }
  }

  method BuildPosTable(peers: seq<nat>) returns (posTable: seq<nat>)
    ensures forall x :: multiset(posTable)[x] == 15 * multiset(peers)[x]
    ensures posTable == Repeated(peers)
    ensures |posTable| == 15 * |peers| && forall k :: 0 <= k < |posTable| ==> posTable[k] == peers[k / 15]
  {
    posTable := [];
    for i := 0 to |peers|
      invariant |posTable| == SCALE * i
      invariant forall x :: multiset(posTable)[x] == SCALE * multiset(peers[..i])[x]
      invariant forall k :: 0 <= k < |posTable| ==> posTable[k] == peers[k / SCALE]
    {
      ghost var before := posTable;
      for j := 0 to SCALE
        invariant posTable == before + seq(j, _ => peers[i])
      {
        posTable := posTable + [peers[i]];
      }
      RunOfOne(SCALE, peers[i]);
      assert peers[..i + 1] == peers[..i] + [peers[i]];
      assert forall k :: SCALE * i <= k < SCALE * (i + 1) ==> k / SCALE == i;
    }
    assert peers[..|peers|] == peers;
  }

  function Swapped(s: seq<nat>, i: nat, j: nat): (r: seq<nat>)
    requires i < |s| && j < |s|
    ensures |r| == |s| && multiset(r) == multiset(s)
  {
    s[i := s[j]][j := s[i]]
  }

  /** The entries 1 to i, from the last one down, each swapped with an earlier one
      chosen by a hash of the entry and its place. */
  function Shuffled(s: seq<nat>, i: nat, hash: (nat, nat) -> nat): (r: seq<nat>)
    requires i == 0 || i < |s|
    ensures |r| == |s| && multiset(r) == multiset(s)
    decreases i
  {
    if i == 0 then s else Shuffled(Swapped(s, i, hash(s[i], i) % i), i - 1, hash)
  }

  function ShuffledTable(s: seq<nat>, hash: (nat, nat) -> nat): (r: seq<nat>)
    ensures |r| == |s| && multiset(r) == multiset(s)
  {
    if s == [] then [] else Shuffled(s, |s| - 1, hash)
  }

  lemma ShuffledStep(s: seq<nat>, i: nat, hash: (nat, nat) -> nat)
    requires 0 < i < |s|
    ensures Shuffled(s, i, hash) == Shuffled(Swapped(s, i, hash(s[i], i) % i), i - 1, hash)
  {
  }

  lemma ShuffledDone(s: seq<nat>, hash: (nat, nat) -> nat)
    ensures Shuffled(s, 0, hash) == s
  {
  }

  lemma SwappedPrefix(a: seq<nat>, b: seq<nat>, i: nat, j: nat)
    requires i < |a| && j < |a|
    ensures Swapped(a + b, i, j) == Swapped(a, i, j) + b
  {
  }

  lemma {:induction false} ShuffledPrefix(a: seq<nat>, b: seq<nat>, i: nat, hash: (nat, nat) -> nat)
    requires i < |a|
    ensures Shuffled(a + b, i, hash) == Shuffled(a, i, hash) + b
    decreases i
  {
    hide Shuffled, Swapped;
    if i == 0 {
      ShuffledDone(a, hash);
      ShuffledDone(a + b, hash);
    } else {
      var j := hash(a[i], i) % i;
      ShuffledStep(a, i, hash);
      ShuffledStep(a + b, i, hash);
      SwappedPrefix(a, b, i, j);
      ShuffledPrefix(Swapped(a, i, j), b, i - 1, hash);
    }
  }

  lemma SwappedLast(s: seq<nat>, x: nat, j: nat)
    requires j < |s|
    ensures Swapped(s + [x], |s|, j) == s[j := x] + [s[j]]
  {
    hide *;
    SwappedIs(s + [x], |s|, j);
  }

  lemma SwappedIs(s: seq<nat>, i: nat, j: nat)
    requires i < |s| && j < |s|
    ensures Swapped(s, i, j) == s[i := s[j]][j := s[i]]
  {
  }

  /** The shuffle without swaps: the entry chosen for the last place goes there, the
      last entry takes its place, and the others are shuffled in the same way. */
  lemma ShuffleFromTheEnd(s: seq<nat>, x: nat, hash: (nat, nat) -> nat)
    requires s != []
    ensures var j := hash(x, |s|) % |s|;
            ShuffledTable(s + [x], hash) == ShuffledTable(s[j := x], hash) + [s[j]]
    ensures ShuffledTable([x], hash) == [x] && ShuffledTable([], hash) == []
  {
    hide Shuffled, Swapped;
    var n, j := |s|, hash(x, |s|) % |s|;
    ShuffledStep(s + [x], n, hash);
    SwappedLast(s, x, j);
    ShuffledPrefix(s[j := x], [s[j]], n - 1, hash);
    ShuffledDone([x], hash);
  }

  method Shuffle(posTable: array<nat>, hash: (nat, nat) -> nat)
    modifies posTable
    ensures posTable[..] == ShuffledTable(old(posTable[..]), hash)
  {
    hide Shuffled;
    if posTable.Length == 0 {
      return;
    }
    var i := posTable.Length - 1;
    while i > 0
      invariant 0 <= i < posTable.Length
      invariant Shuffled(posTable[..], i, hash) == Shuffled(old(posTable[..]), posTable.Length - 1, hash)
    {
      ghost var before := posTable[..];
      ShuffledStep(before, i, hash);
      var j := hash(posTable[i], i) % i;
      posTable[i], posTable[j] := posTable[j], posTable[i];
      assert posTable[..] == Swapped(before, i, j);
      i := i - 1;
    }
    ShuffledDone(posTable[..], hash);
  }

  /** The configuration of k peers: N = k, C = k/3, and a table in which every
      peer has the same number of entries. */
  method GenesisChainConfig(peers: seq<nat>, hash: (nat, nat) -> nat) returns (posTable: seq<nat>, N: nat, C: nat)
    ensures N == |peers| && C == N / 3 && |posTable| == 15 * N
    ensures forall x :: multiset(posTable)[x] == 15 * multiset(peers)[x]
    ensures posTable == ShuffledTable(Repeated(peers), hash)
  {
    hide Repeated, ShuffledTable;
    var table := BuildPosTable(peers);
    var work := new nat[|table|](i requires 0 <= i < |table| => table[i]);
    assert work[..] == table;
    Shuffle(work, hash);
    posTable := work[..];
    N, C := |peers|, |peers| / 3;
    assert |posTable| == |multiset(posTable)| == |multiset(table)|;
  }
}
