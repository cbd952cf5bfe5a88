/** Encoding a decoded transaction again: when core/types/transaction.go gives
    back the bytes it was decoded from. Decoding accepts length prefixes that are
    longer than needed, and whatever key encodings the key decoder accepts. */
module Reencoding {
  import opened Hashing
  import opened Codec
  import opened Transaction

  // --- canonical bytes

  /** The length at off, if there is one, has its shortest form. */
  ghost predicate Shortest(s: seq<byte>, off: nat) {
    match VarUintAt(s, off)
    case None => true
    case Some((x, o)) => o == off + |VarUint(x)|
  }

  ghost predicate CanonicalList(s: seq<byte>, off: nat, n: nat)
    decreases n
  {
    n > 0 ==>
      match VarBytesParse(s, off)
      case Fail => true
      case At(_, o) => Shortest(s, off) && CanonicalList(s, o, n - 1)
  }

  /** The keys are also encoded as the encoder would. */
  ghost predicate CanonicalKeys<K>(c: KeyCodec<K>, s: seq<byte>, off: nat, n: nat)
    decreases n
  {
    n > 0 ==>
      match VarBytesParse(s, off)
      case Fail => true
      case At(b, o) =>
        Shortest(s, off) && CanonicalKeys(c, s, o, n - 1) && (c.dec(b).Some? ==> c.enc(c.dec(b).value) == b)
  }

  ghost predicate CanonicalSig<K>(c: KeyCodec<K>, s: seq<byte>, off: nat) {
    match UintParse(s, off, 2)
    case Fail => true
    case At(l, o1) =>
      match ListParse(s, o1, l)
      case Fail => true
      case At(_, o2) =>
        match UintParse(s, o2, 2)
        case Fail => true
        case At(n, o3) => CanonicalList(s, o1, l) && CanonicalKeys(c, s, o3, n)
  }

  ghost predicate CanonicalSigs<K>(c: KeyCodec<K>, s: seq<byte>, off: nat, n: nat)
    decreases n
  {
    n > 0 ==>
      match SigParse(c, s, off)
      case Fail => true
      case At(_, o) => CanonicalSig(c, s, off) && CanonicalSigs(c, s, o, n - 1)
  }

  /** The lengths of the payload, behind 30 bytes of numbers, and of the attributes. */
  ghost predicate CanonicalUnsigned(s: seq<byte>, off: nat) {
    match VarBytesParse(s, off + 30)
    case Fail => true
    case At(_, o) => Shortest(s, off + 30) && Shortest(s, o)
  }

  /** Every length of the transaction at off is in its shortest form, and every
      key is encoded as the encoder would. */
  ghost predicate Canonical<K>(c: KeyCodec<K>, s: seq<byte>, off: nat) {
    match UnsignedParse(s, off)
    case Fail => true
    case At(_, o1) =>
      match VarUintAt(s, o1)
      case None => true
      case Some((l, o2)) => CanonicalUnsigned(s, off) && Shortest(s, o1) && CanonicalSigs(c, s, o2, l)
  }

  // --- numbers and byte strings

  lemma {:induction false} LeOfFromLe(b: seq<byte>)
    ensures Le(FromLe(b), |b|) == b
  {
    hide FromLe, Le;
    if b == [] {
      LeOfNothing(0);
    } else {
      LeOfFromLe(b[1..]);
      LeLevel(b);
      assert b == [b[0]] + b[1..];
    }
  }

  lemma LeOfNothing(x: nat)
    ensures FromLe([]) == 0 && Le(x, 0) == []
  {
  }

  lemma ByteAndRest(b: byte, y: nat)
    ensures (b as nat + 256 * y) % 256 == b as nat && (b as nat + 256 * y) / 256 == y
  {
  }

  lemma LeLevel(b: seq<byte>)
    requires b != []
    ensures Le(FromLe(b), |b|) == [b[0]] + Le(FromLe(b[1..]), |b| - 1)
  {
    hide FromLe, Le;
    FromLeLevel(b);
    ByteAndRest(b[0], FromLe(b[1..]));
    LeStep(FromLe(b), |b|);
  }

  lemma FromLeLevel(b: seq<byte>)
    requires b != []
    ensures FromLe(b) == b[0] as nat + 256 * FromLe(b[1..])
  {
  }

  lemma LeStep(x: nat, n: nat)
    requires n > 0
    ensures Le(x, n) == [(x % 256) as byte] + Le(x / 256, n - 1)
  {
  }

  lemma OccursJoin(s: seq<byte>, off: nat, a: seq<byte>, b: seq<byte>)
    requires Occurs(s, off, a) && Occurs(s, off + |a|, b)
    ensures Occurs(s, off, a + b)
  {
    assert s[off..off + |a + b|] == s[off..off + |a|] + s[off + |a|..off + |a| + |b|];
  }

  /** A number of fixed width always has its own encoding. */
  lemma UintItem(s: seq<byte>, off: nat, n: nat, x: nat, rest: seq<byte>)
    requires UintParse(s, off, n) == At(x, off + n)
    ensures Occurs(s, off, Le(x, n) + rest) <==> Occurs(s, off + n, rest)
  {
    LeOfFromLe(s[off..off + n]);
    if Occurs(s, off, Le(x, n) + rest) {
      OccursParts(s, off, Le(x, n), rest);
    }
    if Occurs(s, off + n, rest) {
      OccursJoin(s, off, Le(x, n), rest);
    }
  }

  lemma ByteItem(s: seq<byte>, off: nat, x: byte, rest: seq<byte>)
    requires ByteParse(s, off) == At(x, off + 1)
    ensures Occurs(s, off, [x] + rest) <==> Occurs(s, off + 1, rest)
  {
    assert s[off..off + 1] == [x];
    if Occurs(s, off, [x] + rest) {
      OccursParts(s, off, [x], rest);
    }
    if Occurs(s, off + 1, rest) {
      OccursJoin(s, off, [x], rest);
    }
  }

  lemma VarUintItem(s: seq<byte>, off: nat, x: nat, o: nat)
    requires VarUintAt(s, off) == Some((x, o))
    ensures x <= MAX_UINT64 && (Shortest(s, off) <==> Occurs(s, off, VarUint(x)))
  {
    VarUintBound(s, off);
    if Occurs(s, off, VarUint(x)) {
      VarUintRoundTrip(s, off, x);
    }
    if Shortest(s, off) {
      var w := Width(s[off]);
      assert s[off..off + 1] == [s[off]];
      if w > 0 {
        LeOfFromLe(s[off + 1..off + 1 + w]);
        FromLeBound(s[off + 1..off + 1 + w]);
        Capacities();
        OccursJoin(s, off, [s[off]], Le(x, w));
      }
    }
  }

  /** A byte string has its own encoding exactly if its length is shortest. */
  lemma VarBytesItem(s: seq<byte>, off: nat, b: seq<byte>, o: nat)
    requires VarBytesParse(s, off) == At(b, o)
    ensures |b| <= MAX_UINT64
    ensures Shortest(s, off) <==> Occurs(s, off, VarBytes(b))
    ensures Shortest(s, off) ==> o == off + |VarBytes(b)|
  {
    hide VarUint, Shortest;
    var (x, o1) := VarUintAt(s, off).value;
    VarUintItem(s, off, x, o1);
    if Occurs(s, off, VarBytes(b)) {
      OccursParts(s, off, VarUint(|b|), b);
    }
    if Shortest(s, off) {
      VarUintRoundTrip(s, off, x);
      OccursJoin(s, off, VarUint(x), b);
    }
  }

  /** The same with what follows. */
  lemma VarBytesItemThen(s: seq<byte>, off: nat, b: seq<byte>, o: nat, rest: seq<byte>)
    requires VarBytesParse(s, off) == At(b, o)
    ensures Occurs(s, off, VarBytes(b) + rest) <==> Shortest(s, off) && Occurs(s, o, rest)
  {
    hide VarBytes, VarBytesParse, Shortest, Occurs;
    VarBytesItem(s, off, b, o);
    if Occurs(s, off, VarBytes(b) + rest) {
      OccursParts(s, off, VarBytes(b), rest);
    }
    if Shortest(s, off) && Occurs(s, o, rest) {
      OccursJoin(s, off, VarBytes(b), rest);
    }
  }

  // --- the parts of a transaction

  lemma {:induction false} ListItem(s: seq<byte>, off: nat, n: nat, l: seq<seq<byte>>, o: nat, rest: seq<byte>)
    requires ListParse(s, off, n) == At(l, o)
    ensures Occurs(s, off, ListBytes(l) + rest) <==> CanonicalList(s, off, n) && Occurs(s, o, rest)
    ensures CanonicalList(s, off, n) ==> o == off + |ListBytes(l)|
    decreases n
  {
    hide VarBytesParse, VarBytes, Shortest, Occurs;
    if n == 0 {
      assert ListBytes(l) + rest == rest;
    } else {
      var (b, o1) := VarBytesParse(s, off).Extract();
      assert l[0] == b && ListParse(s, o1, n - 1) == At(l[1..], o);
      assert ListBytes(l) + rest == VarBytes(b) + (ListBytes(l[1..]) + rest);
      VarBytesItem(s, off, b, o1);
      VarBytesItemThen(s, off, b, o1, ListBytes(l[1..]) + rest);
      ListItem(s, o1, n - 1, l[1..], o, rest);
    }
  }

  lemma KeyItem<K>(c: KeyCodec<K>, s: seq<byte>, off: nat, b: seq<byte>, o: nat, k: K, rest: seq<byte>)
    requires |s| <= MAX_UINT64 && VarBytesParse(s, off) == At(b, o) && c.dec(b) == Some(k)
    ensures Occurs(s, off, VarBytes(c.enc(k)) + rest) <==> Shortest(s, off) && c.enc(k) == b && Occurs(s, o, rest)
  {
    hide Shortest;
    VarBytesItemThen(s, off, b, o, rest);
    if Occurs(s, off, VarBytes(c.enc(k)) + rest) {
      VarBytesField(s, off, c.enc(k), rest);
    }
  }

  lemma {:induction false} KeysItem<K>(c: KeyCodec<K>, s: seq<byte>, off: nat, n: nat, keys: seq<K>, o: nat,
                                       rest: seq<byte>)
    requires |s| <= MAX_UINT64 && KeysParse(c, s, off, n) == At(keys, o)
    ensures Occurs(s, off, ListBytes(Encoded(c, keys)) + rest) <==> CanonicalKeys(c, s, off, n) && Occurs(s, o, rest)
    ensures CanonicalKeys(c, s, off, n) ==> o == off + |ListBytes(Encoded(c, keys))|
    decreases n
  {
    hide VarBytesParse, VarBytes, Shortest, Occurs;
    var l := Encoded(c, keys);
    if n == 0 {
      assert ListBytes(l) + rest == rest;
    } else {
      var (b, o1) := VarBytesParse(s, off).Extract();
      var k := c.dec(b).value;
      assert keys[0] == k && KeysParse(c, s, o1, n - 1) == At(keys[1..], o);
      assert l[1..] == Encoded(c, keys[1..]);
      assert ListBytes(l) + rest == VarBytes(c.enc(k)) + (ListBytes(l[1..]) + rest);
      VarBytesItem(s, off, b, o1);
      KeyItem(c, s, off, b, o1, k, ListBytes(l[1..]) + rest);
      KeysItem(c, s, o1, n - 1, keys[1..], o, rest);
    }
  }

  lemma {:induction false} ListLength(s: seq<byte>, off: nat, n: nat)
    ensures ListParse(s, off, n).At? ==> |ListParse(s, off, n).value| == n
    decreases n
  {
    if n > 0 && VarBytesParse(s, off).At? {
      ListLength(s, VarBytesParse(s, off).off, n - 1);
    }
  }

  lemma {:induction false} KeysLength<K>(c: KeyCodec<K>, s: seq<byte>, off: nat, n: nat)
    ensures KeysParse(c, s, off, n).At? ==> |KeysParse(c, s, off, n).value| == n
    decreases n
  {
    if n > 0 && VarBytesParse(s, off).At? {
      KeysLength(c, s, VarBytesParse(s, off).off, n - 1);
    }
  }

  lemma SigItem<K>(c: KeyCodec<K>, s: seq<byte>, off: nat, g: Sig<K>, o: nat, rest: seq<byte>)
    requires |s| <= MAX_UINT64 && SigParse(c, s, off) == At(g, o)
    ensures Occurs(s, off, SigBytes(c, g) + rest) <==> CanonicalSig(c, s, off) && Occurs(s, o, rest)
    ensures o <= |s| && (CanonicalSig(c, s, off) ==> o == off + |SigBytes(c, g)|)
  {
    hide ListParse, KeysParse, CanonicalList, CanonicalKeys, Occurs, ListBytes, Le;
    var (l, o1) := UintParse(s, off, 2).Extract();
    var (sigData, o2) := ListParse(s, o1, l).Extract();
    var (n, o3) := UintParse(s, o2, 2).Extract();
    var (pubKeys, o4) := KeysParse(c, s, o3, n).Extract();
    ListLength(s, o1, l);
    KeysLength(c, s, o3, n);
    var keys := ListBytes(Encoded(c, g.pubKeys));
    var t4 := Le(g.m, 2) + rest;
    var t3 := keys + t4;
    var t2 := Le(n, 2) + t3;
    var t1 := ListBytes(sigData) + t2;
    assert SigBytes(c, g) + rest == Le(l, 2) + t1;
    UintItem(s, off, 2, l, t1);
    ListItem(s, o1, l, sigData, o2, t2);
    UintItem(s, o2, 2, n, t3);
    KeysItem(c, s, o3, n, pubKeys, o4, t4);
    UintItem(s, o4, 2, g.m, rest);
  }

  lemma {:induction false} SigsItem<K>(c: KeyCodec<K>, s: seq<byte>, off: nat, n: nat, sigs: seq<Sig<K>>, o: nat)
    requires |s| <= MAX_UINT64 && SigsParse(c, s, off, n) == At(sigs, o)
    ensures off <= |s| ==> (Occurs(s, off, SigsBytes(c, sigs)) <==> CanonicalSigs(c, s, off, n))
    ensures off <= |s| ==> o <= |s|
    ensures CanonicalSigs(c, s, off, n) ==> o == off + |SigsBytes(c, sigs)|
    decreases n
  {
    hide SigParse, SigBytes, CanonicalSig;
    if n == 0 {
    } else {
      var (g, o1) := SigParse(c, s, off).Extract();
      assert sigs[0] == g && SigsParse(c, s, o1, n - 1) == At(sigs[1..], o);
      SigItem(c, s, off, g, o1, SigsBytes(c, sigs[1..]));
      SigsItem(c, s, o1, n - 1, sigs[1..], o);
    }
  }

  lemma PrefixItem(s: seq<byte>, off: nat, rest: seq<byte>)
    requires PrefixParse(s, off).At?
    ensures PrefixParse(s, off).off == off + 30
    ensures var (version, txType, nonce, chainID, gasLimit, gasPrice) := PrefixParse(s, off).value;
            var numbers := Le(nonce, 4) + (Le(chainID, 8) + (Le(gasLimit, 8) + (Le(gasPrice, 8) + rest)));
            Occurs(s, off, [version] + ([txType] + numbers)) <==> Occurs(s, off + 30, rest)
  {
    hide Occurs, Le, FromLe;
    var (version, txType, nonce, chainID, gasLimit, gasPrice) := PrefixParse(s, off).value;
    var r6 := Le(gasPrice, 8) + rest;
    var r5 := Le(gasLimit, 8) + r6;
    var r4 := Le(chainID, 8) + r5;
    var r3 := Le(nonce, 4) + r4;
    ByteItem(s, off, version, [txType] + r3);
    ByteItem(s, off + 1, txType, r3);
    UintItem(s, off + 2, 4, nonce, r4);
    UintItem(s, off + 6, 8, chainID, r5);
    UintItem(s, off + 14, 8, gasLimit, r6);
    UintItem(s, off + 22, 8, gasPrice, rest);
  }

  /** Payer and coin type are always encoded in the same way. */
  lemma PayerItem(s: seq<byte>, off: nat, payer: seq<byte>, coinType: byte, rest: seq<byte>)
    requires BytesParse(s, off, ADDR_LEN) == At(payer, off + ADDR_LEN)
    requires ByteParse(s, off + ADDR_LEN) == At(coinType, off + ADDR_LEN + 1)
    ensures Occurs(s, off, payer + ([coinType] + rest)) <==> Occurs(s, off + ADDR_LEN + 1, rest)
  {
    ByteItem(s, off + ADDR_LEN, coinType, rest);
    assert Occurs(s, off, payer);
    if Occurs(s, off, payer + ([coinType] + rest)) {
      OccursParts(s, off, payer, [coinType] + rest);
    }
    if Occurs(s, off + ADDR_LEN, [coinType] + rest) {
      OccursJoin(s, off, payer, [coinType] + rest);
    }
  }

  lemma UnsignedItem(s: seq<byte>, off: nat, u: Unsigned, o: nat, rest: seq<byte>)
    requires UnsignedParse(s, off) == At(u, o)
    ensures Occurs(s, off, UnsignedBytes(u) + rest) <==> CanonicalUnsigned(s, off) && Occurs(s, o, rest)
    ensures o <= |s| && (CanonicalUnsigned(s, off) ==> o == off + |UnsignedBytes(u)|)
  {
    hide Occurs, Le, VarBytes, VarBytesParse, PrefixParse, Shortest;
    var code := u.payload.code;
    var o1 := off + 30;
    PrefixItem(s, off, VarBytes(code) + (VarBytes(u.attributes) + (u.payer + ([u.coinType] + rest))));
    var o2 := VarBytesParse(s, o1).off;
    var o3 := VarBytesParse(s, o2).off;
    VarBytesItem(s, o1, code, o2);
    VarBytesItem(s, o2, u.attributes, o3);
    VarBytesItemThen(s, o1, code, o2, VarBytes(u.attributes) + (u.payer + ([u.coinType] + rest)));
    VarBytesItemThen(s, o2, u.attributes, o3, u.payer + ([u.coinType] + rest));
    PayerItem(s, o3, u.payer, u.coinType, rest);
    UnsignedThen(u, rest);
  }

  lemma UnsignedThen(u: Unsigned, rest: seq<byte>)
    ensures UnsignedBytes(u) + rest ==
            [u.version] + ([u.txType] + (Le(u.nonce, 4) + (Le(u.chainID, 8) + (Le(u.gasLimit, 8) + (Le(u.gasPrice, 8)
            + (VarBytes(u.payload.Bytes()) + (VarBytes(u.attributes) + (u.payer + ([u.coinType] + rest)))))))))
  {
    hide Le, VarBytes;
    var t8 := VarBytes(u.attributes) + (u.payer + [u.coinType]);
    assert t8 + rest == VarBytes(u.attributes) + (u.payer + ([u.coinType] + rest));
    var t7 := VarBytes(u.payload.Bytes()) + t8;
    assert t7 + rest == VarBytes(u.payload.Bytes()) + (t8 + rest);
    var t5 := Le(u.gasLimit, 8) + (Le(u.gasPrice, 8) + t7);
    assert t5 + rest == Le(u.gasLimit, 8) + (Le(u.gasPrice, 8) + (t7 + rest));
  }

  // --- the theorem

  /** The bytes read are the bytes that the fields stand for if and only if these
      are canonical. */
  lemma RawIffCanonical<K>(c: KeyCodec<K>, s: seq<byte>, off: nat)
    requires |s| <= MAX_UINT64 && TxParse(c, s, off).At?
    ensures var d := TxParse(c, s, off).value;
            d.raw == TxBytes(c, d.unsigned, d.sigs) <==> Canonical(c, s, off)
  {
    hide UnsignedParse, SigsParse, UnsignedBytes, SigsBytes, VarUint, VarUintAt;
    hide CanonicalUnsigned, CanonicalSigs, Shortest;
    var d, o := TxParse(c, s, off).value, TxParse(c, s, off).off;
    var (u, o1) := UnsignedParse(s, off).Extract();
    var (l, o2) := VarUintAt(s, o1).value;
    var tail := VarUint(l) + SigsBytes(c, d.sigs);
    SigsLength(c, s, o2, l);
    UnsignedItem(s, off, u, o1, tail);
    CountItem(c, s, o1, l, o2, d.sigs, o);
    assert d.raw == TxBytes(c, u, d.sigs) ==> Occurs(s, off, TxBytes(c, u, d.sigs));
  }

  /** Encoding a decoded transaction succeeds and gives back its raw bytes if and
      only if these were canonical and every signature has a public key. */
  lemma EncodingIffCanonical<K>(c: KeyCodec<K>, s: seq<byte>, off: nat)
    requires |s| <= MAX_UINT64 && TxParse(c, s, off).At?
    ensures var d := TxParse(c, s, off).value;
            Encoding(c, d.unsigned, d.sigs) == Some(d.raw) <==> Canonical(c, s, off) && AllKeyed(d.sigs)
  {
    hide SigsParse, TxBytes, Canonical, PrefixParse, VarBytesParse;
    PrefixVersion(s, off);
    RawIffCanonical(c, s, off);
  }

  lemma PrefixVersion(s: seq<byte>, off: nat)
    ensures PrefixParse(s, off).At? ==> PrefixParse(s, off).value.0 <= CURR_TX_VERSION
  {
  }

  /** A signature without public keys, which the decoder accepts. */
  function Keyless<K>(): Sig<K> { Sig([], [], 0) }

  /** Canonical bytes that decode, and that the encoder refuses to write again. */
  lemma KeylessIsRefused<K(!new)>(c: KeyCodec<K>, u: Unsigned)
    requires Invertible(c) && WellFormed(u) && |UnsignedBytes(u)| + 7 <= MAX_TX_SIZE
    ensures var s := TxBytes(c, u, [Keyless()]);
            && TxParse(c, s, 0) == At(Decoded(u, [Keyless()], s, UnsignedBytes(u)), |s|)
            && Canonical(c, s, 0) && Encoding(c, u, [Keyless()]) == None
  {
    hide *;
    var sigs: seq<Sig<K>> := [Keyless()];
    KeylessSize(c, u);
    KeylessIsWellFormed(c);
    NotEncoded(c, u);
    var s := TxBytes(c, u, sigs);
    TxRoundTrip(c, [], u, sigs, []);
    assert [] + s + [] == s;
    RawIffCanonical(c, s, 0);
  }

  lemma KeylessIsWellFormed<K>(c: KeyCodec<K>)
    ensures WellFormedSig(c, Keyless()) && 1 <= MAX_TX_SIZE <= MAX_UINT64
  {
  }

  lemma NotEncoded<K>(c: KeyCodec<K>, u: Unsigned)
    ensures Encoding(c, u, [Keyless()]) == None
  {
    var sigs: seq<Sig<K>> := [Keyless()];
    assert |sigs[0].pubKeys| == 0;
  }

  lemma KeylessSize<K>(c: KeyCodec<K>, u: Unsigned)
    ensures |TxBytes(c, u, [Keyless()])| == |UnsignedBytes(u)| + 7
  {
    hide UnsignedBytes, Le;
    var sigs: seq<Sig<K>> := [Keyless()];
    assert SigsBytes(c, sigs) == SigBytes(c, sigs[0]) + SigsBytes(c, sigs[1..]);
    assert |SigBytes(c, sigs[0])| == 6;
  }

  // --- the encoder on what the decoder returns

  lemma {:induction false} ListSizes(s: seq<byte>, off: nat, n: nat, l: seq<seq<byte>>, o: nat)
    requires ListParse(s, off, n) == At(l, o)
    ensures forall i :: 0 <= i < |l| ==> |l[i]| <= MAX_UINT64
    decreases n
  {
    hide VarBytesParse;
    if n == 0 {
    } else {
      var (b, o1) := VarBytesParse(s, off).Extract();
      VarBytesItem(s, off, b, o1);
      assert l[0] == b && ListParse(s, o1, n - 1) == At(l[1..], o);
      ListSizes(s, o1, n - 1, l[1..], o);
    }
  }

  lemma SigSizes<K>(c: KeyCodec<K>, s: seq<byte>, off: nat, g: Sig<K>, o: nat)
    requires SigParse(c, s, off) == At(g, o)
    ensures forall i :: 0 <= i < |g.sigData| ==> |g.sigData[i]| <= MAX_UINT64
  {
    hide ListParse, KeysParse, FromLe;
    var (l, o1) := UintParse(s, off, 2).Extract();
    var (sigData, o2) := ListParse(s, o1, l).Extract();
    ListSizes(s, o1, l, sigData, o2);
  }

  /** Keys, unlike lengths, come from the key encoder alone. */
  ghost predicate ShortKeys<K(!new)>(c: KeyCodec<K>) {
    forall k :: |c.enc(k)| <= MAX_UINT64
  }

  lemma {:induction false} SigsSizes<K(!new)>(c: KeyCodec<K>, s: seq<byte>, off: nat, n: nat, sigs: seq<Sig<K>>, o: nat)
    requires ShortKeys(c) && SigsParse(c, s, off, n) == At(sigs, o)
    ensures forall i :: 0 <= i < |sigs| ==> Writable(c, sigs[i])
    decreases n
  {
    hide SigParse;
    if n == 0 {
    } else {
      var (g, o1) := SigParse(c, s, off).Extract();
      SigSizes(c, s, off, g, o1);
      assert sigs[0] == g && SigsParse(c, s, o1, n - 1) == At(sigs[1..], o);
      SigsSizes(c, s, o1, n - 1, sigs[1..], o);
    }
  }

  lemma DecodedSizes<K(!new)>(c: KeyCodec<K>, s: seq<byte>, off: nat)
    requires ShortKeys(c) && TxParse(c, s, off).At?
    ensures var d := TxParse(c, s, off).value;
            && |d.unsigned.payload.Bytes()| <= MAX_UINT64 && |d.sigs| <= MAX_UINT64
            && forall i :: 0 <= i < |d.sigs| ==> Writable(c, d.sigs[i])
  {
    hide SigsParse, PrefixParse, VarBytesParse, Writable, VarUintAt;
    var d := TxParse(c, s, off).value;
    var (u, o1) := UnsignedParse(s, off).Extract();
    var (l, o2) := VarUintAt(s, o1).value;
    VarUintBound(s, o1);
    SigsLength(c, s, o2, l);
    SigsSizes(c, s, o2, l, d.sigs, TxParse(c, s, off).off);
    var o := PrefixParse(s, off).off;
    VarBytesItem(s, o, u.payload.code, VarBytesParse(s, o).off);
  }

  /** Decodes a transaction and encodes what was decoded. */
  method DecodeThenEncode<K(!new)>(c: KeyCodec<K>, source: ZeroCopySource)
    returns (d: Option<Decoded<K>>, ok: bool, bytes: seq<byte>)
    requires source.Valid() && ShortKeys(c)
    modifies source
    ensures Agrees(d, source.off, TxParse(c, source.s, old(source.off)))
    ensures d.Some? ==> (ok && bytes == d.value.raw <==>
                         Canonical(c, source.s, old(source.off)) && AllKeyed(d.value.sigs))
  {
    hide TxParse, Canonical, Writable, Encoding, ShortKeys;
    d := Deserialization(c, source);
    if d.None? {
      return None, false, [];
    }
    DecodedSizes(c, source.s, old(source.off));
    EncodingIffCanonical(c, source.s, old(source.off));
    var sink := new ZeroCopySink(0);
    ok := Serialization(c, sink, d.value.unsigned, d.value.sigs);
    bytes := sink.buf[..sink.len];
    if ok {
      ghost var encoded := Encoding(c, d.value.unsigned, d.value.sigs).value;
      assert bytes == sink.Contents() == [] + encoded == encoded;
    }
  }

  lemma {:induction false} SigsLength<K>(c: KeyCodec<K>, s: seq<byte>, off: nat, n: nat)
    ensures SigsParse(c, s, off, n).At? ==> |SigsParse(c, s, off, n).value| == n
    decreases n
  {
    hide SigParse;
    if n > 0 && SigParse(c, s, off).At? {
      SigsLength(c, s, SigParse(c, s, off).off, n - 1);
    }
  }

  lemma CountItem<K>(c: KeyCodec<K>, s: seq<byte>, off: nat, l: nat, o1: nat, sigs: seq<Sig<K>>, o: nat)
    requires |s| <= MAX_UINT64 && VarUintAt(s, off) == Some((l, o1)) && SigsParse(c, s, o1, l) == At(sigs, o)
    ensures Occurs(s, off, VarUint(l) + SigsBytes(c, sigs)) <==> Shortest(s, off) && CanonicalSigs(c, s, o1, l)
    ensures Shortest(s, off) && CanonicalSigs(c, s, o1, l) ==> o == off + |VarUint(l) + SigsBytes(c, sigs)|
  {
    hide VarUint, SigsParse, SigsBytes, CanonicalSigs;
    CountEnd(s, off);
    VarUintItem(s, off, l, o1);
    SigsItem(c, s, o1, l, sigs, o);
    if Occurs(s, off, VarUint(l) + SigsBytes(c, sigs)) {
      OccursParts(s, off, VarUint(l), SigsBytes(c, sigs));
    }
    if Shortest(s, off) && CanonicalSigs(c, s, o1, l) {
      OccursJoin(s, off, VarUint(l), SigsBytes(c, sigs));
    }
  }

  lemma CountEnd(s: seq<byte>, off: nat)
    requires VarUintAt(s, off).Some?
    ensures VarUintAt(s, off).value.1 <= |s|
  {
  }

  // --- different bytes for the same fields

  /** The unsigned part of u with the long form of the length of its attributes,
      of which there are none. */
  function LongBytes(u: Unsigned): seq<byte> {
    [u.version] + ([u.txType] + (Le(u.nonce, 4) + (Le(u.chainID, 8) + (Le(u.gasLimit, 8) + (Le(u.gasPrice, 8)
      + (VarBytes(u.payload.Bytes()) + ([0xFD] + (Le(0, 2) + ([] + (u.payer + [u.coinType]))))))))))
  }

  /** Every transaction has a second encoding, which decodes to the same fields but
      is hashed as different bytes. */
  lemma SecondEncoding(u: Unsigned)
    requires WellFormed(u)
    ensures UnsignedParse(LongBytes(u), 0) == At(u, |LongBytes(u)|)
    ensures LongBytes(u) != UnsignedBytes(u)
  {
    hide VarBytes, Le, Occurs, VarBytesAt, PrefixParse;
    var s, code := LongBytes(u), u.payload.Bytes();
    var r9 := u.payer + [u.coinType];
    var r8 := [0xFD] + (Le(0, 2) + ([] + r9));
    WholeOccurs(s);
    NumberFields(s, u, VarBytes(code) + r8);
    VarBytesField(s, 30, code, r8);
    LongField(s, 30 + |VarBytes(code)|, [], r9);
    PayerField(s, 33 + |VarBytes(code)|, u.payer, u.coinType);
    LongIsLonger(u);
  }

  lemma NumberFields(s: seq<byte>, u: Unsigned, rest: seq<byte>)
    requires WellFormed(u)
    requires Occurs(s, 0, [u.version] + ([u.txType] + (Le(u.nonce, 4) + (Le(u.chainID, 8) + (Le(u.gasLimit, 8)
                          + (Le(u.gasPrice, 8) + rest))))))
    ensures PrefixParse(s, 0) == At((u.version, u.txType, u.nonce, u.chainID, u.gasLimit, u.gasPrice), 30)
    ensures Occurs(s, 30, rest)
  {
    hide UintParse, Le, Occurs, Capacity;
    Capacities();
    var r6 := Le(u.gasPrice, 8) + rest;
    var r5 := Le(u.gasLimit, 8) + r6;
    var r4 := Le(u.chainID, 8) + r5;
    var r3 := Le(u.nonce, 4) + r4;
    ByteField(s, 0, u.version, [u.txType] + r3);
    ByteField(s, 1, u.txType, r3);
    UintField(s, 2, u.nonce, 4, r4);
    UintField(s, 6, u.chainID, 8, r5);
    UintField(s, 14, u.gasLimit, 8, r6);
    UintField(s, 22, u.gasPrice, 8, rest);
  }

  lemma WholeOccurs(s: seq<byte>)
    ensures Occurs(s, 0, s)
  {
  }

  lemma LongField(s: seq<byte>, off: nat, b: seq<byte>, rest: seq<byte>)
    requires |b| < 0x1_0000 && Occurs(s, off, [0xFD] + (Le(|b|, 2) + (b + rest)))
    ensures VarBytesParse(s, off) == At(b, off + 3 + |b|) && Occurs(s, off + 3 + |b|, rest)
  {
    hide Le, FromLe;
    Capacities();
    ByteField(s, off, 0xFD, Le(|b|, 2) + (b + rest));
    UintField(s, off + 1, |b|, 2, b + rest);
    OccursParts(s, off + 3, b, rest);
  }

  lemma LongIsLonger(u: Unsigned)
    requires u.attributes == []
    ensures |LongBytes(u)| == |UnsignedBytes(u)| + 2
  {
    hide Le;
    assert |VarBytes([])| == 1;
  }
}
