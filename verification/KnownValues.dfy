/** The formats and small cases written out, with literal bytes and sizes: what
    other chains and other implementations agree on. */
module KnownValues {
  import opened Hashing
  import opened Bits
  import opened MerkleSpec
  import opened MerkleProofs
  import opened HashStore
  import opened Codec
  import opened LeafPath
  import Levels = LevelTree
  import Tx = Transaction
  import Root = TxRoot
  import Verifier = MerkleVerifier

  // --- numbers

  lemma EmptyHashIsZero()
    ensures |EMPTY_HASH| == 32 && forall i :: 0 <= i < 32 ==> EMPTY_HASH[i] == 0
  {
  }

  /** The first byte is the least significant one. */
  lemma LittleEndian(a: byte, b: byte, c: byte, d: byte)
    ensures Le(a as nat + 0x100 * b as nat, 2) == [a, b]
    ensures Le(a as nat + 0x100 * b as nat + 0x1_0000 * c as nat + 0x100_0000 * d as nat, 4) == [a, b, c, d]
    ensures FromLe([a, b]) == a as nat + 0x100 * b as nat
    ensures FromLe([a, b, c, d]) == a as nat + 0x100 * b as nat + 0x1_0000 * c as nat + 0x100_0000 * d as nat
  {
    hide Le, FromLe;
    LeTwo(a, b);
    LeTwo(c, d);
    var lo, hi := a as nat + 0x100 * b as nat, c as nat + 0x100 * d as nat;
    LeFour(lo, hi);
    FromLeFour(a, b, c, d);
  }

  lemma LeTwo(a: byte, b: byte)
    ensures Le(a as nat + 0x100 * b as nat, 2) == [a, b] && FromLe([a, b]) == a as nat + 0x100 * b as nat
  {
    assert Le(b as nat, 1) == [b];
    assert [a, b][1..] == [b] && [b][1..] == [];
    assert FromLe([b]) == b as nat + 256 * FromLe([]);
    assert FromLe([a, b]) == a as nat + 256 * FromLe([b]);
  }

  lemma LeFour(lo: nat, hi: nat)
    requires lo < 0x1_0000
    ensures Le(lo + 0x1_0000 * hi, 4) == Le(lo, 2) + Le(hi, 2)
  {
    var x := lo + 0x1_0000 * hi;
    var y := lo / 256 + 0x100 * hi;
    assert x / 256 == y && x % 256 == lo % 256;
    assert y / 256 == hi && y % 256 == lo / 256;
    assert Le(x, 4) == [(lo % 256) as byte] + Le(y, 3);
    assert Le(y, 3) == [(lo / 256) as byte] + Le(hi, 2);
    assert Le(lo, 2) == [(lo % 256) as byte] + Le(lo / 256, 1);
    assert Le(lo / 256, 1) == [(lo / 256) as byte];
  }

  lemma FromLeFour(a: byte, b: byte, c: byte, d: byte)
    ensures FromLe([a, b, c, d]) == a as nat + 0x100 * b as nat + 0x1_0000 * c as nat + 0x100_0000 * d as nat
  {
    LeTwo(c, d);
    assert [a, b, c, d][1..] == [b, c, d] && [b, c, d][1..] == [c, d];
  }

  /** Where the forms of a variable-length number begin and end. */
  lemma VarUintForms(x: nat)
    ensures x <= 0xFC ==> VarUint(x) == [x as byte]
    ensures 0xFD <= x <= 0xFFFF ==> VarUint(x) == [0xFD] + Le(x, 2)
    ensures 0x1_0000 <= x <= 0xFFFF_FFFF ==> VarUint(x) == [0xFE] + Le(x, 4)
    ensures 0x1_0000_0000 <= x ==> VarUint(x) == [0xFF] + Le(x, 8)
  {
  }

  /** What is read for each first byte, shortest form or not. */
  lemma VarUintReads(fb: byte, s: seq<byte>)
    ensures fb <= 0xFC ==> VarUintAt([fb] + s, 0) == Some((fb as nat, 1))
    ensures |s| >= 2 ==> VarUintAt([0xFD] + s, 0) == Some((FromLe(s[..2]), 3))
    ensures |s| >= 4 ==> VarUintAt([0xFE] + s, 0) == Some((FromLe(s[..4]), 5))
    ensures |s| >= 8 ==> VarUintAt([0xFF] + s, 0) == Some((FromLe(s[..8]), 9))
    ensures |s| < 2 ==> VarUintAt([0xFD] + s, 0) == None
  {
    hide FromLe;
    assert |s| >= 2 ==> ([0xFD] + s)[1..3] == s[..2];
    assert |s| >= 4 ==> ([0xFE] + s)[1..5] == s[..4];
    assert |s| >= 8 ==> ([0xFF] + s)[1..9] == s[..8];
  }

  /** Counting, highest and lowest digits, positions counted from 1. */
  lemma BinaryDigits()
    ensures Ones(0) == 0 && Ones(11) == 3 && Ones(8) == 1
    ensures Digits(0) == 0 && Digits(1) == 1 && Digits(7) == 3 && Digits(8) == 4
    ensures LowPosition(0) == 0 && LowPosition(1) == 1 && LowPosition(12) == 3 && LowPosition(8) == 4
    ensures IsPow2(1) && IsPow2(8) && !IsPow2(0) && !IsPow2(6)
  {
    assert Ones(1) == 1 && Ones(2) == 1 && Ones(4) == 1 && Ones(5) == 2;
    assert Digits(2) == 2 && Digits(3) == 2 && Digits(4) == 3;
    assert LowestOne(3) == 1 && LowestOne(6) == 2 && LowestOne(12) == 4 && LowestOne(2) == 2 && LowestOne(4) == 4;
    assert IsPow2(2) && IsPow2(4) && !IsPow2(3);
  }

  // --- Merkle trees

  lemma Splits()
    ensures Split(2) == 1 && Split(3) == 2 && Split(4) == 2 && Split(5) == 4 && Split(7) == 4 && Split(8) == 4
  {
    SplitUnique(3, 2);
    SplitUnique(4, 2);
    SplitUnique(5, 4);
    SplitUnique(7, 4);
    SplitUnique(8, 4);
  }

  lemma MthOfTwo(h: Hasher, a: Hash, b: Hash)
    ensures Mth(h, []) == h.empty && Mth(h, [a]) == a && Mth(h, [a, b]) == h.children(a, b)
  {
    assert [a, b] == [a] + [b];
    MthGlue(h, [a], [b]);
  }

  /** The left part is perfect, and the left root is hashed first. */
  lemma MthOfThree(h: Hasher, a: Hash, b: Hash, c: Hash)
    ensures Mth(h, [a, b, c]) == h.children(h.children(a, b), c)
  {
    MthOfTwo(h, a, b);
    assert [a, b, c] == [a, b] + [c];
    MthGlue(h, [a, b], [c]);
  }

  lemma MthOfFour(h: Hasher, a: Hash, b: Hash, c: Hash, d: Hash)
    ensures Mth(h, [a, b, c, d]) == h.children(h.children(a, b), h.children(c, d))
  {
    MthOfTwo(h, a, b);
    MthOfTwo(h, c, d);
    assert [a, b, c, d] == [a, b] + [c, d];
    MthGlue(h, [a, b], [c, d]);
  }

  /** What a tree of three leaves keeps and stores. */
  lemma StoredForThree(h: Hasher, a: Hash, b: Hash, c: Hash)
    ensures Frontier(h, [a, b, c]) == [h.children(a, b), c]
    ensures Layout(h, [a, b, c]) == [a, b, h.children(a, b), c]
  {
    hide Mth, Frontier, Layout;
    MthOfTwo(h, a, b);
    assert [a, b, c] == [a, b] + [c];
    FrontierGlue(h, [a, b], [c]);
    LayoutGlue(h, [a, b], [c]);
    SmallLayout(h, [a]);
    SmallLayout(h, [b]);
    SmallLayout(h, [c]);
    assert [a, b] == [a] + [b];
    LayoutJoin(h, [a], [b]);
    FrontierOfOne(h, c);
  }

  lemma FrontierOfOne(h: Hasher, c: Hash)
    ensures Frontier(h, [c]) == [c]
  {
  }

  /** The slots of 7 = 4 + 2 + 1 leaves. */
  lemma SlotsOfSeven()
    ensures Sizes(7, 1) == [7, 3, 1] && Sums([7, 3, 1], 0) == [7, 10, 11]
  {
    assert Sizes(1, 4) == [7];
    assert Sizes(3, 2) == [7, 3];
    assert [7, 3, 1][1..] == [3, 1] && [3, 1][1..] == [1];
    assert Sums([1], 10) == [11];
    assert Sums([3, 1], 7) == [10, 11];
  }

  lemma HalvesOfTwo(a: Hash, b: Hash)
    ensures [a, b][..1] == [a] && [a, b][1..] == [b]
  {
  }

  lemma HalvesOfThree(a: Hash, b: Hash, c: Hash)
    ensures [a, b, c][..2] == [a, b] && [a, b, c][2..] == [c]
  {
  }

  lemma PathsOfTwo(h: Hasher, a: Hash, b: Hash)
    ensures Path(h, 0, [a, b]) == [b] && Path(h, 1, [a, b]) == [a]
    ensures PathSteps(h, 0, [a, b]) == [Step(true, b)] && PathSteps(h, 1, [a, b]) == [Step(false, a)]
  {
    hide *;
    Splits();
    HalvesOfTwo(a, b);
    NoSteps(h, [a]);
    NoSteps(h, [b]);
    LeafAlone(h, [a]);
    LeafAlone(h, [b]);
    PathLevel(h, 0, [a, b]);
    PathLevel(h, 1, [a, b]);
    PathStepsLevel(h, 0, [a, b]);
    PathStepsLevel(h, 1, [a, b]);
  }

  /** Audit paths go from the leaf to the root. */
  lemma PathsOfThree(h: Hasher, a: Hash, b: Hash, c: Hash)
    ensures Path(h, 0, [a, b, c]) == [b, c] && Path(h, 1, [a, b, c]) == [a, c]
    ensures Path(h, 2, [a, b, c]) == [h.children(a, b)]
    ensures PathSteps(h, 1, [a, b, c]) == [Step(false, a), Step(true, c)]
  {
    hide *;
    Splits();
    HalvesOfThree(a, b, c);
    PathsOfTwo(h, a, b);
    MthOfTwo(h, a, b);
    MthOfTwo(h, c, c);
    NoSteps(h, [c]);
    PathLevel(h, 0, [a, b, c]);
    PathLevel(h, 1, [a, b, c]);
    PathLevel(h, 2, [a, b, c]);
    PathStepsLevel(h, 1, [a, b, c]);
  }

  /** The consistency proofs of three leaves. */
  lemma ConsistencyOfThree(h: Hasher, a: Hash, b: Hash, c: Hash)
    ensures SubProof(h, 1, [a, b, c], true) == [b, c]
    ensures SubProof(h, 2, [a, b, c], true) == [c]
    ensures SubProof(h, 3, [a, b, c], true) == []
  {
    hide Mth;
    Splits();
    HalvesOfTwo(a, b);
    HalvesOfThree(a, b, c);
    MthOfTwo(h, a, b);
    MthOfTwo(h, b, b);
    MthOfTwo(h, c, c);
    assert SubProof(h, 1, [a], true) == [];
    assert SubProof(h, 1, [a, b], true) == [b];
    assert SubProof(h, 2, [a, b], true) == [];
  }

  /** From three to four leaves, as in section 2.1.3 of RFC 6962: the third leaf is
      not a node of both trees. */
  lemma ConsistencyOfFour(h: Hasher, a: Hash, b: Hash, c: Hash, d: Hash)
    ensures SubProof(h, 3, [a, b, c, d], true) == [c, d, h.children(a, b)]
  {
    hide Mth;
    Splits();
    HalvesOfTwo(c, d);
    MthOfTwo(h, a, b);
    MthOfTwo(h, c, d);
    MthOfTwo(h, d, d);
    assert [a, b, c, d][..2] == [a, b] && [a, b, c, d][2..] == [c, d];
    assert SubProof(h, 1, [c], false) == [c];
    assert SubProof(h, 1, [c, d], false) == [c, d];
  }

  /** The verdicts on proofs between one and two leaves. */
  lemma VerdictsOfTwo(h: Hasher, a: Hash, x: Hash, y: Hash, root: Hash)
    ensures Verifier.InclusionVerdict(h, a, 0, [x], root, 2) ==
            (if root == h.children(a, x) then Verifier.Valid else Verifier.RootMismatch)
    ensures Verifier.InclusionVerdict(h, a, 1, [x], root, 2) ==
            (if root == h.children(x, a) then Verifier.Valid else Verifier.RootMismatch)
    ensures Verifier.InclusionVerdict(h, a, 2, [x], root, 2) == Verifier.WrongParams
    ensures Verifier.InclusionVerdict(h, a, 0, [], root, 2) == Verifier.TooShort
    ensures Verifier.InclusionVerdict(h, a, 0, [x, y], root, 2) == Verifier.TooLong
  {
    assert Siblings(0, 1) == 1 && Siblings(1, 1) == 1;
    assert [x][1..] == [];
  }

  lemma ConsistencyVerdictsOfTwo(h: Hasher, a: Hash, x: Hash, y: Hash, root: Hash)
    requires a != root
    ensures Verifier.ConsistencyVerdict(h, 1, 2, a, root, [x]) ==
            (if root == h.children(a, x) then Verifier.Valid else Verifier.RootMismatch)
    ensures Verifier.ConsistencyVerdict(h, 1, 2, a, root, [x, y]) ==
            (if root == h.children(a, x) then Verifier.TooLong else Verifier.RootMismatch)
    ensures Verifier.ConsistencyVerdict(h, 1, 2, a, root, []) == Verifier.TooShort
    ensures Verifier.ConsistencyVerdict(h, 2, 1, a, root, [x]) == Verifier.WrongParams
    ensures Verifier.ConsistencyVerdict(h, 1, 1, a, root, [x]) == Verifier.RootMismatch
    ensures Verifier.ConsistencyVerdict(h, 0, 1, a, root, [x]) == Verifier.Valid
  {
    assert Verifier.Entries(0, 1) == 1 && Verifier.Entries(0, 0) == 0;
    assert [x][..1] == [x] && [x, y][..1] == [x] && [x][..0] == [] && [x][1..] == [];
    assert Climb(h, Seed(a), 0, 1, [x]) == Some(WithRight(h, Seed(a), x));
    assert Start(h, true, a, 0, 1, [x]) == Some(WithRight(h, Seed(a), x));
    assert Start(h, true, a, 0, 0, []) == Some(Seed(a));
  }

  // --- serialized paths

  /** One step: 0 says that the sibling stands on the left, anything else that it
      stands on the right. */
  lemma OneStepProves(h: Hasher, value: seq<byte>, side: byte, sib: Hash)
    requires |value| <= MAX_UINT64
    ensures var root := if side == 0 then h.children(sib, h.leaf(value)) else h.children(h.leaf(value), sib);
            Proves(h, VarBytes(value) + ([side] + sib), root) == Some(value)
  {
    hide VarBytes, VarBytesAt, Occurs, StepsAt, Merge;
    var head, tail := VarBytes(value), [side] + sib;
    var s := head + tail;
    OccursBetween([], head, tail);
    assert s == [] + head + tail;
    VarBytesRoundTrip(s, 0, value);
    OneStepRead(s, |head|, side, sib);
    MergeOne(h, h.leaf(value), side != 0, sib);
  }

  lemma OneStepRead(s: seq<byte>, o: nat, side: byte, sib: Hash)
    requires o + 33 == |s| && s[o..] == [side] + sib
    ensures StepsAt(s, o, 1) == [Step(side != 0, sib)] && (|s| - o) / 33 == 1
  {
    assert s[o] == s[o..][0];
    assert s[o + 1..o + 33] == s[o..][1..33] == sib;
    assert StepsAt(s, o, 0) == [];
    StepsAtNext(s, o, 0);
  }

  lemma MergeOne(h: Hasher, x: Hash, right: bool, sib: Hash)
    ensures Merge(h, x, [Step(right, sib)]) == if right then h.children(x, sib) else h.children(sib, x)
  {
    var l := [Step(right, sib)];
    assert Init(l) == [] && Last(l) == Step(right, sib);
  }

  /** The same for a value of one byte, byte by byte. */
  lemma OneBytePath(h: Hasher, v: byte, sib: Hash)
    ensures Proves(h, [1, v] + ([1] + sib), h.children(h.leaf([v]), sib)) == Some([v])
    ensures Proves(h, [1, v] + ([0] + sib), h.children(sib, h.leaf([v]))) == Some([v])
  {
    hide Proves;
    assert VarBytes([v]) == [1, v];
    OneStepProves(h, [v], 1, sib);
    OneStepProves(h, [v], 0, sib);
  }

  /** The bytes written for the leaves of a list of two. */
  lemma PathBytesOfTwo(h: Hasher, v: byte, a: Hash, b: Hash)
    ensures PathBytes([v], PathSteps(h, 0, [a, b])) == [1, v] + ([1] + b)
    ensures PathBytes([v], PathSteps(h, 1, [a, b])) == [1, v] + ([0] + a)
  {
    hide PathSteps;
    assert VarBytes([v]) == [1, v];
    PathsOfTwo(h, a, b);
    StepBytesOfOne(true, b);
    StepBytesOfOne(false, a);
  }

  lemma StepBytesOfOne(right: bool, x: Hash)
    ensures StepBytes([Step(right, x)]) == [if right then 1 else 0] + x
  {
    var l := [Step(right, x)];
    assert Init(l) == [] && Last(l) == Step(right, x);
    assert StepBytes(l) == [] + ([if right then 1 else 0] + x);
  }

  /** A path written level by level is too large exactly beyond one megabyte. */
  method LevelPathLimit(h: Hasher, data: seq<byte>, hashes: seq<Hash>) returns (tooLarge: bool)
    ensures tooLarge <==> 33 * |hashes| + |data| + 8 > 1048576
  {
    var r := Levels.MerkleLeafPath(h, data, hashes);
    tooLarge := r == Levels.OverMaxSize;
  }

  // --- the transaction root

  /** An odd last node is paired with itself, on every level. */
  lemma SmallListRoots(h: Hasher, a: Hash, b: Hash, c: Hash)
    ensures Root.ListRoot(h, []) == seq(32, _ => 0)
    ensures Root.ListRoot(h, [a]) == a && Root.ListRoot(h, [a, b]) == h.children(a, b)
    ensures Root.ListRoot(h, [a, b, c]) == h.children(h.children(a, b), h.children(c, c))
  {
    RootOfTwo(h, a, b);
    PairedThree(h, a, b, c);
    RootOfTwo(h, h.children(a, b), h.children(c, c));
  }

  lemma RootOfTwo(h: Hasher, a: Hash, b: Hash)
    ensures Root.Root(h, [a, b]) == h.children(a, b)
  {
    var r := Root.Paired(h, [a, b]);
    assert r[0] == Root.NodeAt(h, [a, b], 0);
    assert r == [h.children(a, b)];
  }

  lemma PairedThree(h: Hasher, a: Hash, b: Hash, c: Hash)
    ensures Root.Paired(h, [a, b, c]) == [h.children(a, b), h.children(c, c)]
  {
    var r := Root.Paired(h, [a, b, c]);
    assert r[0] == Root.NodeAt(h, [a, b, c], 0);
    assert r[1] == Root.NodeAt(h, [a, b, c], 1);
  }

  // --- transactions

  /** Where the fields of an encoded transaction lie. */
  lemma FieldPositions(u: Tx.Unsigned)
    requires Tx.WellFormed(u)
    ensures var s, code := Tx.UnsignedBytes(u), VarBytes(u.payload.Bytes());
            && |s| == 52 + |code|
            && s[0] == 0 && s[1] == 0xd1
            && s[2..6] == Le(u.nonce, 4) && s[6..14] == Le(u.chainID, 8)
            && s[14..22] == Le(u.gasLimit, 8) && s[22..30] == Le(u.gasPrice, 8)
            && s[30..30 + |code|] == code && s[30 + |code|] == 0
            && s[31 + |code|..51 + |code|] == u.payer && s[51 + |code|] == 0
  {
    hide Le, VarBytes;
    NoBytes();
    var code := VarBytes(u.payload.Bytes());
    var tail := code + ([0] + (u.payer + [0]));
    FirstFields(Le(u.nonce, 4), Le(u.chainID, 8), Le(u.gasLimit, 8), Le(u.gasPrice, 8), tail);
    LastFields(Tx.UnsignedBytes(u), 30, code, u.payer);
  }

  lemma FirstFields(nonce: seq<byte>, chainID: seq<byte>, limit: seq<byte>, price: seq<byte>, tail: seq<byte>)
    requires |nonce| == 4 && |chainID| == |limit| == |price| == 8
    ensures var s := [0] + ([0xd1] + (nonce + (chainID + (limit + (price + tail)))));
            && |s| == 30 + |tail| && s[0] == 0 && s[1] == 0xd1 && s[2..6] == nonce && s[6..14] == chainID
            && s[14..22] == limit && s[22..30] == price && s[30..] == tail
  {
    var t6 := price + tail;
    var t5 := limit + t6;
    var t4 := chainID + t5;
    var t3 := nonce + t4;
    var s := [0] + ([0xd1] + t3);
    assert s[2..] == t3;
    Field(s, 2, nonce, t4);
    Field(s, 6, chainID, t5);
    Field(s, 14, limit, t6);
    Field(s, 22, price, tail);
  }

  lemma LastFields(s: seq<byte>, o: nat, code: seq<byte>, payer: seq<byte>)
    requires |payer| == 20 && o <= |s| && s[o..] == code + ([0] + (payer + [0]))
    ensures |s| == o + |code| + 22 && s[o..o + |code|] == code && s[o + |code|] == 0
    ensures s[o + 1 + |code|..o + 21 + |code|] == payer && s[o + 21 + |code|] == 0
  {
    Field(s, o, code, [0] + (payer + [0]));
    Field(s, o + |code|, [0], payer + [0]);
    Field(s, o + |code| + 1, payer, [0]);
    Field(s, o + |code| + 21, [0], []);
  }

  lemma NoBytes()
    ensures VarBytes([]) == [0]
  {
  }

  /** Fields one after the other. */
  lemma Field(s: seq<byte>, o: nat, f: seq<byte>, rest: seq<byte>)
    requires o <= |s| && s[o..] == f + rest
    ensures o + |f| <= |s| && s[o..o + |f|] == f && s[o + |f|..] == rest
    ensures |f| == 1 ==> s[o] == f[0]
  {
    assert s[o..][..|f|] == f && s[o..][|f|..] == rest;
  }

  /** What every decoded transaction has. */
  lemma DecodedConstants<K>(c: Tx.KeyCodec<K>, s: seq<byte>, off: nat)
    requires Tx.TxParse(c, s, off).At?
    ensures var d := Tx.TxParse(c, s, off).value;
            && off + 2 <= |s| && s[off] == 0 && s[off + 1] == 0xd1
            && d.unsigned.version == 0 && d.unsigned.txType == 0xd1 && d.unsigned.payload.InvokeCode?
            && d.unsigned.attributes == [] && |d.unsigned.payer| == 20 && d.unsigned.coinType == 0
            && |d.raw| <= 1048576
  {
    hide Tx.SigsParse, VarUintAt, VarBytesAt, FromLe;
  }

  /** Every well-formed transaction of up to one megabyte is decoded. */
  lemma UpToOneMegabyte<K(!new)>(c: Tx.KeyCodec<K>, u: Tx.Unsigned, sigs: seq<Tx.Sig<K>>)
    requires Tx.Invertible(c) && Tx.WellFormed(u) && forall i :: 0 <= i < |sigs| ==> Tx.WellFormedSig(c, sigs[i])
    requires |sigs| <= MAX_UINT64 && |Tx.TxBytes(c, u, sigs)| <= 1048576
    ensures Tx.TxParse(c, Tx.TxBytes(c, u, sigs), 0).At?
  {
    var s := Tx.TxBytes(c, u, sigs);
    assert |s| <= Tx.MAX_TX_SIZE;
    hide *;
    Tx.TxRoundTrip(c, [], u, sigs, []);
    assert [] + s + [] == s;
  }

  /** A signature: two counted lists and the threshold, all counts in two bytes. */
  lemma SignatureBytes<K>(c: Tx.KeyCodec<K>, v: byte, k: K, e: byte, m: byte)
    requires c.enc(k) == [e]
    ensures Tx.SigBytes(c, Tx.Sig([[v]], [k], m as nat)) == [1, 0, 1, v, 1, 0, 1, e, m, 0]
  {
    LeTwo(1, 0);
    LeTwo(m, 0);
    hide Le;
    assert VarBytes([v]) == [1, v] && VarBytes([e]) == [1, e];
    assert Tx.ListBytes([[v]]) == VarBytes([v]) + Tx.ListBytes([[v]][1..]);
    assert Tx.Encoded(c, [k]) == [[e]];
    assert Tx.ListBytes([[e]]) == VarBytes([e]) + Tx.ListBytes([[e]][1..]);
  }

  /** The signatures follow the unsigned part and their number. */
  lemma SignaturesFollow<K>(c: Tx.KeyCodec<K>, u: Tx.Unsigned, g: Tx.Sig<K>, g': Tx.Sig<K>)
    ensures Tx.TxBytes(c, u, [g, g']) == Tx.UnsignedBytes(u) + [2] + Tx.SigBytes(c, g) + Tx.SigBytes(c, g')
  {
    hide Tx.UnsignedBytes, Tx.SigBytes;
    assert [g, g'][1..] == [g'] && [g'][1..] == [];
    assert Tx.SigsBytes(c, [g']) == Tx.SigBytes(c, g') + [];
    assert Tx.SigsBytes(c, [g, g']) == Tx.SigBytes(c, g) + Tx.SigsBytes(c, [g']);
    assert VarUint(2) == [2];
  }
}
