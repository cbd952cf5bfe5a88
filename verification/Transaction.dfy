/** Transactions on the wire: core/types/transaction.go. The public-key encoding
    and the hash are parameters. */
module Transaction {
  import opened Hashing
  import opened Codec

  const CURR_TX_VERSION: byte := 0
  const INVOKE: byte := 0xd1
  const ONG: byte := 0
  const MAX_ATTRIBUTES_LEN: nat := 0
  const MAX_TX_SIZE: nat := 1024 * 1024
  const ADDR_LEN: nat := 20

  /** Encoding of public keys, with decoding as its inverse. */
  datatype KeyCodec<!K> = KeyCodec(enc: K -> seq<byte>, dec: seq<byte> -> Option<K>)

  ghost predicate Invertible<K(!new)>(c: KeyCodec<K>) {
    forall k :: c.dec(c.enc(k)) == Some(k)
  }

  datatype Sig<+K> = Sig(sigData: seq<seq<byte>>, pubKeys: seq<K>, m: nat)

  /** Only the payload of an Invoke transaction has an encoding. */
  datatype Payload = InvokeCode(code: seq<byte>) | NoPayload | ForeignPayload {
    function Bytes(): seq<byte> {
      if InvokeCode? then code else []
    }
  }

  /** The signed part. */
  datatype Unsigned = Unsigned(version: byte, txType: byte, nonce: nat, chainID: nat, gasLimit: nat, gasPrice: nat,
                               payload: Payload, attributes: seq<byte>, payer: seq<byte>, coinType: byte)

  // --- encoding

  function ListBytes(l: seq<seq<byte>>): seq<byte> {
    if l == [] then [] else VarBytes(l[0]) + ListBytes(l[1..])
  }

  function Encoded<K>(c: KeyCodec<K>, keys: seq<K>): (r: seq<seq<byte>>)
    ensures |r| == |keys|
  {
    seq(|keys|, i requires 0 <= i < |keys| => c.enc(keys[i]))
  }

  function SigBytes<K>(c: KeyCodec<K>, s: Sig<K>): seq<byte> {
    Le(|s.sigData|, 2) + (ListBytes(s.sigData) + (Le(|s.pubKeys|, 2) + (ListBytes(Encoded(c, s.pubKeys)) + Le(s.m, 2))))
  }

  function SigsBytes<K>(c: KeyCodec<K>, l: seq<Sig<K>>): seq<byte> {
    if l == [] then [] else SigBytes(c, l[0]) + SigsBytes(c, l[1..])
  }

  function UnsignedBytes(u: Unsigned): seq<byte> {
    [u.version] + ([u.txType] + (Le(u.nonce, 4) + (Le(u.chainID, 8) + (Le(u.gasLimit, 8) + (Le(u.gasPrice, 8)
      + (VarBytes(u.payload.Bytes()) + (VarBytes(u.attributes) + (u.payer + [u.coinType]))))))))
  }

  function TxBytes<K>(c: KeyCodec<K>, u: Unsigned, sigs: seq<Sig<K>>): seq<byte> {
    UnsignedBytes(u) + (VarUint(|sigs|) + SigsBytes(c, sigs))
  }

  /** What the encoder produces: nothing for a newer version, for any payload but
      code, for attributes, or for a signature without public keys. */
  function Encoding<K>(c: KeyCodec<K>, u: Unsigned, sigs: seq<Sig<K>>): Option<seq<byte>> {
    if u.version <= CURR_TX_VERSION && u.payload.InvokeCode? && |u.attributes| <= MAX_ATTRIBUTES_LEN && AllKeyed(sigs)
    then Some(TxBytes(c, u, sigs)) else None
  }

  predicate AllKeyed<K>(sigs: seq<Sig<K>>) {
    forall i :: 0 <= i < |sigs| ==> |sigs[i].pubKeys| > 0
  }

  // --- decoding

  /** A value and the offset behind it. */
  datatype Parsed<+T> = Fail | At(value: T, off: nat) {
    predicate IsFailure() { Fail? }
    function PropagateFailure<U>(): Parsed<U> requires Fail? { Fail }
    function Extract(): (T, nat) requires At? { (value, off) }
  }

  function ByteParse(s: seq<byte>, off: nat): Parsed<byte> {
    if off < |s| then At(s[off], off + 1) else Fail
  }

  function BytesParse(s: seq<byte>, off: nat, n: nat): Parsed<seq<byte>> {
    match BytesAt(s, off, n)
    case Some(b) => At(b, off + n)
    case None => Fail
  }

  function UintParse(s: seq<byte>, off: nat, n: nat): Parsed<nat> {
    match UintAt(s, off, n)
    case Some(x) => At(x, off + n)
    case None => Fail
  }

  function VarBytesParse(s: seq<byte>, off: nat): Parsed<seq<byte>> {
    match VarBytesAt(s, off)
    case Some((b, o)) => At(b, o)
    case None => Fail
  }

  function PrefixParse(s: seq<byte>, off: nat): Parsed<(byte, byte, nat, nat, nat, nat)> {
    var (version, o1) :- ByteParse(s, off);
    if version > CURR_TX_VERSION then Fail else
    var (txType, o2) :- ByteParse(s, o1);
    var (nonce, o3) :- UintParse(s, o2, 4);
    var (chainID, o4) :- UintParse(s, o3, 8);
    var (gasLimit, o5) :- UintParse(s, o4, 8);
    var (gasPrice, o6) :- UintParse(s, o5, 8);
    At((version, txType, nonce, chainID, gasLimit, gasPrice), o6)
  }

  function UnsignedParse(s: seq<byte>, off: nat): Parsed<Unsigned> {
    var ((version, txType, nonce, chainID, gasLimit, gasPrice), o1) :- PrefixParse(s, off);
    if txType != INVOKE then Fail else
    var (code, o2) :- VarBytesParse(s, o1);
    var (attributes, o3) :- VarBytesParse(s, o2);
    if |attributes| > MAX_ATTRIBUTES_LEN then Fail else
    var (payer, o4) :- BytesParse(s, o3, ADDR_LEN);
    var (coinType, o5) :- ByteParse(s, o4);
    if coinType != ONG then Fail else
    At(Unsigned(version, txType, nonce, chainID, gasLimit, gasPrice, InvokeCode(code), attributes, payer, coinType), o5)
  }

  function ListParse(s: seq<byte>, off: nat, n: nat): Parsed<seq<seq<byte>>>
    decreases n
  {
    if n == 0 then At([], off)
    else
      var (b, o) :- VarBytesParse(s, off);
      var (rest, o') :- ListParse(s, o, n - 1);
      At([b] + rest, o')
  }

  function KeysParse<K>(c: KeyCodec<K>, s: seq<byte>, off: nat, n: nat): Parsed<seq<K>>
    decreases n
  {
    if n == 0 then At([], off)
    else
      var (b, o) :- VarBytesParse(s, off);
      match c.dec(b)
      case None => Fail
      case Some(k) =>
        var (rest, o') :- KeysParse(c, s, o, n - 1);
        At([k] + rest, o')
  }

  function SigParse<K>(c: KeyCodec<K>, s: seq<byte>, off: nat): Parsed<Sig<K>> {
    var (l, o1) :- UintParse(s, off, 2);
    var (sigData, o2) :- ListParse(s, o1, l);
    var (n, o3) :- UintParse(s, o2, 2);
    var (pubKeys, o4) :- KeysParse(c, s, o3, n);
    var (m, o5) :- UintParse(s, o4, 2);
    At(Sig(sigData, pubKeys, m), o5)
  }

  function SigsParse<K>(c: KeyCodec<K>, s: seq<byte>, off: nat, n: nat): Parsed<seq<Sig<K>>>
    decreases n
  {
    if n == 0 then At([], off)
    else
      var (g, o) :- SigParse(c, s, off);
      var (rest, o') :- SigsParse(c, s, o, n - 1);
      At([g] + rest, o')
  }

  /** A decoded transaction, its own bytes, and the bytes that are hashed. */
  datatype Decoded<+K> = Decoded(unsigned: Unsigned, sigs: seq<Sig<K>>, raw: seq<byte>, hashed: seq<byte>)

  function TxParse<K>(c: KeyCodec<K>, s: seq<byte>, off: nat): Parsed<Decoded<K>> {
    var (u, o1) :- UnsignedParse(s, off);
    match VarUintAt(s, o1)
    case None => Fail
    case Some((l, o2)) =>
      var (sigs, o3) :- SigsParse(c, s, o2, l);
      if off <= o1 <= o3 <= |s| &&
          o3 - off <= MAX_TX_SIZE then At(Decoded(u, sigs, s[off..o3], s[off..o1]), o3) else Fail
  }

  // --- round trip

  ghost predicate WellFormed(u: Unsigned) {
    && u.version == CURR_TX_VERSION && u.txType == INVOKE && u.payload.InvokeCode? && u.coinType == ONG
    && u.nonce < 0x1_0000_0000 && u.chainID <= MAX_UINT64 && u.gasLimit <= MAX_UINT64 && u.gasPrice <= MAX_UINT64
    && |u.payload.Bytes()| <= MAX_UINT64 && u.attributes == [] && |u.payer| == ADDR_LEN
  }

  ghost predicate Short(l: seq<seq<byte>>) {
    |l| < 0x1_0000 && forall i :: 0 <= i < |l| ==> |l[i]| <= MAX_UINT64
  }

  ghost predicate WellFormedSig<K>(c: KeyCodec<K>, s: Sig<K>) {
    Short(s.sigData) && Short(Encoded(c, s.pubKeys)) && s.m < 0x1_0000
  }

  lemma ByteRound(s: seq<byte>, off: nat, b: byte)
    requires Occurs(s, off, [b])
    ensures ByteParse(s, off) == At(b, off + 1)
  {
    assert s[off] == s[off..off + 1][0];
  }

  /** Reading a field that is followed by the rest of the encoding. */
  lemma UintField(s: seq<byte>, off: nat, x: nat, n: nat, rest: seq<byte>)
    requires Occurs(s, off, Le(x, n) + rest) && x < Capacity(n)
    ensures UintParse(s, off, n) == At(x, off + n) && Occurs(s, off + n, rest)
  {
    OccursParts(s, off, Le(x, n), rest);
    UintRoundTrip(s, off, x, n);
  }

  lemma ByteField(s: seq<byte>, off: nat, b: byte, rest: seq<byte>)
    requires Occurs(s, off, [b] + rest)
    ensures ByteParse(s, off) == At(b, off + 1) && Occurs(s, off + 1, rest)
  {
    OccursParts(s, off, [b], rest);
    ByteRound(s, off, b);
  }

  lemma VarBytesField(s: seq<byte>, off: nat, b: seq<byte>, rest: seq<byte>)
    requires Occurs(s, off, VarBytes(b) + rest) && |b| <= MAX_UINT64
    ensures VarBytesParse(s, off) == At(b, off + |VarBytes(b)|) && Occurs(s, off + |VarBytes(b)|, rest)
  {
    OccursParts(s, off, VarBytes(b), rest);
    VarBytesRoundTrip(s, off, b);
  }

  lemma UnsignedRound(s: seq<byte>, off: nat, u: Unsigned)
    requires WellFormed(u) && Occurs(s, off, UnsignedBytes(u))
    ensures UnsignedParse(s, off) == At(u, off + |UnsignedBytes(u)|)
  {
    hide ByteParse, UintParse, VarBytesParse, Occurs, VarBytes, Le, BytesAt, Capacity;
    Capacities();
    var r9 := u.payer + [u.coinType];
    var r8 := VarBytes(u.attributes) + r9;
    var r7 := VarBytes(u.payload.Bytes()) + r8;
    var r6 := Le(u.gasPrice, 8) + r7;
    var r5 := Le(u.gasLimit, 8) + r6;
    var r4 := Le(u.chainID, 8) + r5;
    var r3 := Le(u.nonce, 4) + r4;
    var r2 := [u.txType] + r3;
    ByteField(s, off, u.version, r2);
    ByteField(s, off + 1, u.txType, r3);
    UintField(s, off + 2, u.nonce, 4, r4);
    UintField(s, off + 6, u.chainID, 8, r5);
    UintField(s, off + 14, u.gasLimit, 8, r6);
    UintField(s, off + 22, u.gasPrice, 8, r7);
    VarBytesField(s, off + 30, u.payload.Bytes(), r8);
    var o := off + 30 + |VarBytes(u.payload.Bytes())|;
    VarBytesField(s, o, u.attributes, r9);
    PayerField(s, o + |VarBytes(u.attributes)|, u.payer, u.coinType);
  }

  lemma PayerField(s: seq<byte>, off: nat, payer: seq<byte>, coinType: byte)
    requires Occurs(s, off, payer + [coinType]) && |payer| == ADDR_LEN
    ensures BytesParse(s, off, ADDR_LEN) == At(payer, off + ADDR_LEN)
    ensures ByteParse(s, off + ADDR_LEN) == At(coinType, off + ADDR_LEN + 1)
  {
    OccursParts(s, off, payer, [coinType]);
    ByteRound(s, off + ADDR_LEN, coinType);
  }

  lemma {:induction false} ListRound(s: seq<byte>, off: nat, l: seq<seq<byte>>, rest: seq<byte>)
    requires Occurs(s, off, ListBytes(l) + rest) && forall i :: 0 <= i < |l| ==> |l[i]| <= MAX_UINT64
    ensures ListParse(s, off, |l|) == At(l, off + |ListBytes(l)|) && Occurs(s, off + |ListBytes(l)|, rest)
    decreases |l|
  {
    hide VarBytesParse, VarBytes, Occurs;
    if l == [] {
      assert ListBytes(l) + rest == rest;
    } else {
      assert ListBytes(l) + rest == VarBytes(l[0]) + (ListBytes(l[1..]) + rest);
      VarBytesField(s, off, l[0], ListBytes(l[1..]) + rest);
      ListRound(s, off + |VarBytes(l[0])|, l[1..], rest);
      assert l == [l[0]] + l[1..];
    }
  }

  lemma {:induction false} KeysRound<K(!new)>(c: KeyCodec<K>, s: seq<byte>, off: nat, keys: seq<K>, rest: seq<byte>)
    requires Invertible(c) && Occurs(s, off, ListBytes(Encoded(c, keys)) + rest)
    requires forall i :: 0 <= i < |keys| ==> |c.enc(keys[i])| <= MAX_UINT64
    ensures KeysParse(c, s, off, |keys|) == At(keys, off + |ListBytes(Encoded(c, keys))|)
    ensures Occurs(s, off + |ListBytes(Encoded(c, keys))|, rest)
    decreases |keys|
  {
    hide VarBytesParse, VarBytes, Occurs;
    var l := Encoded(c, keys);
    if keys == [] {
      assert ListBytes(l) + rest == rest;
    } else {
      assert l[1..] == Encoded(c, keys[1..]);
      assert ListBytes(l) + rest == VarBytes(l[0]) + (ListBytes(l[1..]) + rest);
      VarBytesField(s, off, l[0], ListBytes(l[1..]) + rest);
      KeysRound(c, s, off + |VarBytes(l[0])|, keys[1..], rest);
      assert keys == [keys[0]] + keys[1..];
    }
  }

  lemma SigRound<K(!new)>(c: KeyCodec<K>, s: seq<byte>, off: nat, g: Sig<K>, rest: seq<byte>)
    requires Invertible(c) && WellFormedSig(c, g) && Occurs(s, off, SigBytes(c, g) + rest)
    ensures SigParse(c, s, off) == At(g, off + |SigBytes(c, g)|) && Occurs(s, off + |SigBytes(c, g)|, rest)
  {
    hide UintParse, ListParse, KeysParse, Occurs, Le, ListBytes, Capacity, Invertible;
    Capacities();
    var keys := ListBytes(Encoded(c, g.pubKeys));
    var t4 := Le(g.m, 2) + rest;
    var t3 := keys + t4;
    var t2 := Le(|g.pubKeys|, 2) + t3;
    var t1 := ListBytes(g.sigData) + t2;
    assert SigBytes(c, g) + rest == Le(|g.sigData|, 2) + t1;
    UintField(s, off, |g.sigData|, 2, t1);
    ListRound(s, off + 2, g.sigData, t2);
    var o := off + 2 + |ListBytes(g.sigData)|;
    UintField(s, o, |g.pubKeys|, 2, t3);
    assert forall i :: 0 <= i < |g.pubKeys| ==> |c.enc(g.pubKeys[i])| == |Encoded(c, g.pubKeys)[i]|;
    KeysRound(c, s, o + 2, g.pubKeys, t4);
    UintField(s, o + 2 + |keys|, g.m, 2, rest);
  }

  lemma {:induction false} SigsRound<K(!new)>(c: KeyCodec<K>, s: seq<byte>, off: nat, l: seq<Sig<K>>)
    requires Invertible(c) && (forall i :: 0 <= i < |l| ==> WellFormedSig(c, l[i])) && Occurs(s, off, SigsBytes(c, l))
    ensures SigsParse(c, s, off, |l|) == At(l, off + |SigsBytes(c, l)|)
    decreases |l|
  {
    hide SigParse, SigBytes, Occurs, WellFormedSig;
    if l == [] {
    } else {
      SigRound(c, s, off, l[0], SigsBytes(c, l[1..]));
      SigsRound(c, s, off + |SigBytes(c, l[0])|, l[1..]);
      assert l == [l[0]] + l[1..];
    }
  }

  /** A transaction encoded anywhere in a stream is read back: the same fields, raw
      bytes that are exactly its encoding, hashed bytes that are exactly its
      unsigned part, and the offset behind it. */
  lemma TxRoundTrip<K(!new)>(c: KeyCodec<K>, pre: seq<byte>, u: Unsigned, sigs: seq<Sig<K>>, post: seq<byte>)
    requires Invertible(c) && WellFormed(u) && |sigs| <= MAX_UINT64 && forall i :: 0 <= i < |sigs| ==>
        WellFormedSig(c, sigs[i])
    requires |TxBytes(c, u, sigs)| <= MAX_TX_SIZE
    ensures TxParse(c, pre + TxBytes(c, u, sigs) + post, |pre|) ==
            At(Decoded(u, sigs, TxBytes(c, u, sigs), UnsignedBytes(u)), |pre| + |TxBytes(c, u, sigs)|)
  {
    hide UnsignedParse, SigsParse, VarUintAt, SigsBytes, UnsignedBytes, VarUint, WellFormed, WellFormedSig, Invertible;
    var s, off := pre + TxBytes(c, u, sigs) + post, |pre|;
    var tail := VarUint(|sigs|) + SigsBytes(c, sigs);
    OccursBetween(pre, TxBytes(c, u, sigs), post);
    OccursParts(s, off, UnsignedBytes(u), tail);
    OccursParts(s, off + |UnsignedBytes(u)|, VarUint(|sigs|), SigsBytes(c, sigs));
    UnsignedRound(s, off, u);
    VarUintRoundTrip(s, off + |UnsignedBytes(u)|, |sigs|);
    SigsRound(c, s, off + |UnsignedBytes(u)| + |VarUint(|sigs|)|, sigs);
  }

  // --- writing to a sink

  method WriteHeader(sink: ZeroCopySink, u: Unsigned)
    requires sink.Valid()
    modifies sink, sink.buf
    ensures sink.Valid() && (sink.buf == old(sink.buf) || fresh(sink.buf))
    ensures sink.Contents() == old(sink.Contents())
                               + ([u.version] + ([u.txType] + (Le(u.nonce, 4) + (Le(u.chainID, 8) + Le(u.gasLimit,
                                   8)))))
  {
    hide Le;
    sink.WriteByte(u.version);
    sink.WriteByte(u.txType);
    sink.WriteUint(u.nonce, 4);
    sink.WriteUint(u.chainID, 8);
    sink.WriteUint(u.gasLimit, 8);
  }

  method WriteTail(sink: ZeroCopySink, u: Unsigned)
    requires sink.Valid() && |u.attributes| <= MAX_UINT64
    modifies sink, sink.buf
    ensures sink.Valid() && (sink.buf == old(sink.buf) || fresh(sink.buf))
    ensures sink.Contents() == old(sink.Contents()) + (VarBytes(u.attributes) + (u.payer + [u.coinType]))
  {
    hide VarBytes;
    var _ := sink.WriteVarBytes(u.attributes);
    sink.WriteBytes(u.payer);
    sink.WriteByte(u.coinType);
  }

  lemma UnsignedPieces(pre: seq<byte>, u: Unsigned)
    ensures pre + ([u.version] + ([u.txType] + (Le(u.nonce, 4) + (Le(u.chainID, 8) + Le(u.gasLimit, 8)))))
            + Le(u.gasPrice, 8) + VarBytes(u.payload.Bytes()) + (VarBytes(u.attributes) + (u.payer + [u.coinType]))
            == pre + UnsignedBytes(u)
  {
    hide Le, VarBytes;
    var rest := VarBytes(u.payload.Bytes()) + (VarBytes(u.attributes) + (u.payer + [u.coinType]));
    var five := [u.version] + ([u.txType] + (Le(u.nonce, 4) + (Le(u.chainID, 8) + Le(u.gasLimit, 8))));
    assert five + (Le(u.gasPrice, 8) + rest) == UnsignedBytes(u);
  }

  /** Fails exactly on a version from the future, on any payload but code, or on
      attributes. */
  method SerializeUnsigned(sink: ZeroCopySink, u: Unsigned) returns (ok: bool)
    requires sink.Valid() && |u.payload.Bytes()| <= MAX_UINT64
    modifies sink, sink.buf
    ensures sink.Valid() && (sink.buf == old(sink.buf) || fresh(sink.buf))
    ensures ok <==> u.version <= CURR_TX_VERSION && u.payload.InvokeCode? && |u.attributes| <= MAX_ATTRIBUTES_LEN
    ensures ok ==> sink.Contents() == old(sink.Contents()) + UnsignedBytes(u)
  {
    hide Le, VarBytes, UnsignedBytes;
    if u.version > CURR_TX_VERSION {
      return false;
    }
    WriteHeader(sink, u);
    sink.WriteUint(u.gasPrice, 8);
    if !u.payload.InvokeCode? {
      return false;
    }
    var _ := sink.WriteVarBytes(u.payload.code);
    if |u.attributes| > MAX_ATTRIBUTES_LEN {
      return false;
    }
    WriteTail(sink, u);
    UnsignedPieces(old(sink.Contents()), u);
    return true;
  }

  lemma {:induction false} ListBytesSnoc(l: seq<seq<byte>>, b: seq<byte>)
    ensures ListBytes(l + [b]) == ListBytes(l) + VarBytes(b)
    decreases |l|
  {
    hide VarBytes;
    if l == [] {
      assert ListBytes([b]) == VarBytes(b) + ListBytes([b][1..]);
    } else {
      assert (l + [b])[1..] == l[1..] + [b];
      ListBytesSnoc(l[1..], b);
    }
  }

  method WriteList(sink: ZeroCopySink, l: seq<seq<byte>>)
    requires sink.Valid() && forall i :: 0 <= i < |l| ==> |l[i]| <= MAX_UINT64
    modifies sink, sink.buf
    ensures sink.Valid() && (sink.buf == old(sink.buf) || fresh(sink.buf))
    ensures sink.Contents() == old(sink.Contents()) + ListBytes(l)
  {
    hide VarBytes;
    for i := 0 to |l|
      invariant sink.Valid() && (sink.buf == old(sink.buf) || fresh(sink.buf))
      invariant sink.Contents() == old(sink.Contents()) + ListBytes(l[..i])
    {
      ListBytesSnoc(l[..i], l[i]);
      assert l[..i + 1] == l[..i] + [l[i]];
      var _ := sink.WriteVarBytes(l[i]);
    }
    assert l[..|l|] == l;
  }

  /** What the length fields of the encoding can hold; Go lengths always fit. */
  ghost predicate Writable<K>(c: KeyCodec<K>, g: Sig<K>) {
    && (forall i :: 0 <= i < |g.sigData| ==> |g.sigData[i]| <= MAX_UINT64)
    && (forall i :: 0 <= i < |g.pubKeys| ==> |c.enc(g.pubKeys[i])| <= MAX_UINT64)
  }

  /** Fails exactly on a signature without public keys. */
  method SerializeSig<K>(c: KeyCodec<K>, sink: ZeroCopySink, g: Sig<K>) returns (ok: bool)
    requires sink.Valid() && Writable(c, g)
    modifies sink, sink.buf
    ensures sink.Valid() && (sink.buf == old(sink.buf) || fresh(sink.buf))
    ensures ok <==> g.pubKeys != []
    ensures ok ==> sink.Contents() == old(sink.Contents()) + SigBytes(c, g)
  {
    hide Le, ListBytes;
    if |g.pubKeys| == 0 {
      return false;
    }
    sink.WriteUint(|g.sigData|, 2);
    WriteList(sink, g.sigData);
    sink.WriteUint(|g.pubKeys|, 2);
    WriteList(sink, Encoded(c, g.pubKeys));
    sink.WriteUint(g.m, 2);
    return true;
  }

  lemma {:induction false} SigsBytesSnoc<K>(c: KeyCodec<K>, l: seq<Sig<K>>, g: Sig<K>)
    ensures SigsBytes(c, l + [g]) == SigsBytes(c, l) + SigBytes(c, g)
    decreases |l|
  {
    hide SigBytes;
    if l == [] {
      assert SigsBytes(c, [g]) == SigBytes(c, g) + SigsBytes(c, [g][1..]);
    } else {
      assert (l + [g])[1..] == l[1..] + [g];
      SigsBytesSnoc(c, l[1..], g);
    }
  }

  lemma SigsBytesNone<K>(c: KeyCodec<K>)
    ensures SigsBytes(c, []) == []
  {
  }

  method SerializeSigs<K>(c: KeyCodec<K>, sink: ZeroCopySink, sigs: seq<Sig<K>>) returns (ok: bool)
    requires sink.Valid() && forall i :: 0 <= i < |sigs| ==> Writable(c, sigs[i])
    modifies sink, sink.buf
    ensures sink.Valid() && (sink.buf == old(sink.buf) || fresh(sink.buf))
    ensures ok <==> forall i :: 0 <= i < |sigs| ==> sigs[i].pubKeys != []
    ensures ok ==> sink.Contents() == old(sink.Contents()) + SigsBytes(c, sigs)
  {
    hide *;
    ghost var before := sink.Contents();
    assert sigs[..0] == [];
    SigsBytesNone(c);
    for i := 0 to |sigs|
      invariant sink.Valid() && (sink.buf == old(sink.buf) || fresh(sink.buf))
      invariant forall j :: 0 <= j < i ==> sigs[j].pubKeys != []
      invariant sink.Contents() == before + SigsBytes(c, sigs[..i])
    {
      ok := SerializeSig(c, sink, sigs[i]);
      if !ok {
        return;
      }
      SigsBytesSnoc(c, sigs[..i], sigs[i]);
      assert sigs[..i + 1] == sigs[..i] + [sigs[i]];
    }
    assert sigs[..|sigs|] == sigs;
    return true;
  }

  method Serialization<K>(c: KeyCodec<K>, sink: ZeroCopySink, u: Unsigned, sigs: seq<Sig<K>>) returns (ok: bool)
    requires sink.Valid() && |u.payload.Bytes()| <= MAX_UINT64 && |sigs| <= MAX_UINT64
    requires forall i :: 0 <= i < |sigs| ==> Writable(c, sigs[i])
    modifies sink, sink.buf
    ensures sink.Valid() && (sink.buf == old(sink.buf) || fresh(sink.buf))
    ensures ok <==> u.version <= CURR_TX_VERSION && u.payload.InvokeCode? && |u.attributes| <= MAX_ATTRIBUTES_LEN
                    && forall i :: 0 <= i < |sigs| ==> sigs[i].pubKeys != []
    ensures ok <==> Encoding(c, u, sigs).Some?
    ensures ok ==> sink.Contents() == old(sink.Contents()) + Encoding(c, u, sigs).value
  {
    hide UnsignedBytes, SigsBytes, VarUint, Writable;
    ok := SerializeUnsigned(sink, u);
    if !ok {
      return;
    }
    var _ := sink.WriteVarUint(|sigs|);
    ok := SerializeSigs(c, sink, sigs);
  }

  // --- reading from a source

  /** A method's answer and new offset agree with a parse. */
  ghost predicate Agrees<T>(r: Option<T>, off: nat, p: Parsed<T>) {
    match r
    case None => p.Fail?
    case Some(x) => p == At(x, off)
  }

  ghost function Prepend<T>(acc: seq<T>, p: Parsed<seq<T>>): Parsed<seq<T>> {
    if p.Fail? then Fail else At(acc + p.value, p.off)
  }

  lemma PrependNone<T>(p: Parsed<seq<T>>)
    ensures Prepend([], p) == p
  {
    if p.At? {
      assert [] + p.value == p.value;
    }
  }

  lemma PrependOne<T>(acc: seq<T>, x: T, p: Parsed<seq<T>>)
    ensures Prepend(acc, Prepend([x], p)) == Prepend(acc + [x], p)
  {
    if p.At? {
      assert acc + ([x] + p.value) == acc + [x] + p.value;
    }
  }

  method NextPrefix(source: ZeroCopySource) returns (r: Option<(byte, byte, nat, nat, nat, nat)>)
    requires source.Valid()
    modifies source
    ensures source.Valid() && (r.Some? ==> old(source.off) <= source.off)
    ensures Agrees(r, source.off, PrefixParse(source.s, old(source.off)))
  {
    var version, eof := source.NextByte();
    if eof || version > CURR_TX_VERSION {
      return None;
    }
    var txType, e1 := source.NextByte();
    if e1 {
      return None;
    }
    var nonce, e2 := source.NextUint(4);
    if e2 {
      return None;
    }
    var chainID, e3 := source.NextUint(8);
    if e3 {
      return None;
    }
    var gasLimit, e4 := source.NextUint(8);
    if e4 {
      return None;
    }
    var gasPrice, e5 := source.NextUint(8);
    if e5 {
      return None;
    }
    return Some((version, txType, nonce, chainID, gasLimit, gasPrice));
  }

  method DeserializationUnsigned(source: ZeroCopySource) returns (r: Option<Unsigned>)
    requires source.Valid()
    modifies source
    ensures source.Valid() && (r.Some? ==> old(source.off) <= source.off)
    ensures Agrees(r, source.off, UnsignedParse(source.s, old(source.off)))
  {
    hide PrefixParse, UintAt, FromLe;
    var prefix := NextPrefix(source);
    if prefix.None? {
      return None;
    }
    var (version, txType, nonce, chainID, gasLimit, gasPrice) := prefix.value;
    if txType != INVOKE {
      return None;
    }
    var code, e1 := source.NextVarBytes();
    if e1 {
      return None;
    }
    var attributes, e2 := source.NextVarBytes();
    if e2 || |attributes| > MAX_ATTRIBUTES_LEN {
      return None;
    }
    var payer, e3 := source.NextBytes(ADDR_LEN);
    if e3 {
      return None;
    }
    var coinType, e4 := source.NextByte();
    if e4 || coinType != ONG {
      return None;
    }
    return Some(Unsigned(version, txType, nonce, chainID, gasLimit, gasPrice, InvokeCode(code),
                         attributes, payer, coinType));
  }

  method NextList(source: ZeroCopySource, n: nat) returns (r: Option<seq<seq<byte>>>)
    requires source.Valid()
    modifies source
    ensures source.Valid() && (r.Some? ==> old(source.off) <= source.off)
    ensures Agrees(r, source.off, ListParse(source.s, old(source.off), n))
  {
    hide VarBytesAt;
    var l := [];
    PrependNone(ListParse(source.s, old(source.off), n));
    for i := 0 to n
      invariant source.Valid() && old(source.off) <= source.off
      invariant ListParse(source.s, old(source.off), n) == Prepend(l, ListParse(source.s, source.off, n - i))
    {
      var data, eof := source.NextVarBytes();
      if eof {
        return None;
      }
      PrependOne(l, data, ListParse(source.s, source.off, n - i - 1));
      l := l + [data];
    }
    assert l + [] == l;
    return Some(l);
  }

  method NextKeys<K>(c: KeyCodec<K>, source: ZeroCopySource, n: nat) returns (r: Option<seq<K>>)
    requires source.Valid()
    modifies source
    ensures source.Valid() && (r.Some? ==> old(source.off) <= source.off)
    ensures Agrees(r, source.off, KeysParse(c, source.s, old(source.off), n))
  {
    hide VarBytesAt;
    var l := [];
    PrependNone(KeysParse(c, source.s, old(source.off), n));
    for i := 0 to n
      invariant source.Valid() && old(source.off) <= source.off
      invariant KeysParse(c, source.s, old(source.off), n) == Prepend(l, KeysParse(c, source.s, source.off, n - i))
    {
      var data, eof := source.NextVarBytes();
      if eof {
        return None;
      }
      var key := c.dec(data);
      if key.None? {
        return None;
      }
      PrependOne(l, key.value, KeysParse(c, source.s, source.off, n - i - 1));
      l := l + [key.value];
    }
    assert l + [] == l;
    return Some(l);
  }

  method DeserializeSig<K>(c: KeyCodec<K>, source: ZeroCopySource) returns (r: Option<Sig<K>>)
    requires source.Valid()
    modifies source
    ensures source.Valid() && (r.Some? ==> old(source.off) <= source.off)
    ensures Agrees(r, source.off, SigParse(c, source.s, old(source.off)))
  {
    hide ListParse, KeysParse, FromLe;
    var l, e1 := source.NextUint(2);
    if e1 {
      return None;
    }
    var sigData := NextList(source, l);
    if sigData.None? {
      return None;
    }
    var n, e2 := source.NextUint(2);
    if e2 {
      return None;
    }
    var pubKeys := NextKeys(c, source, n);
    if pubKeys.None? {
      return None;
    }
    var m, e3 := source.NextUint(2);
    if e3 {
      return None;
    }
    return Some(Sig(sigData.value, pubKeys.value, m));
  }

  method NextSigs<K>(c: KeyCodec<K>, source: ZeroCopySource, n: nat) returns (r: Option<seq<Sig<K>>>)
    requires source.Valid()
    modifies source
    ensures source.Valid() && (r.Some? ==> old(source.off) <= source.off)
    ensures Agrees(r, source.off, SigsParse(c, source.s, old(source.off), n))
  {
    hide SigParse;
    var l := [];
    PrependNone(SigsParse(c, source.s, old(source.off), n));
    for i := 0 to n
      invariant source.Valid() && old(source.off) <= source.off
      invariant SigsParse(c, source.s, old(source.off), n) == Prepend(l, SigsParse(c, source.s, source.off, n - i))
    {
      var sig := DeserializeSig(c, source);
      if sig.None? {
        return None;
      }
      PrependOne(l, sig.value, SigsParse(c, source.s, source.off, n - i - 1));
      l := l + [sig.value];
    }
    assert l + [] == l;
    return Some(l);
  }

  /** Reads the unsigned part, rereads its bytes for the hash, reads the
      signatures, and rereads everything as the raw transaction. */
  method Deserialization<K>(c: KeyCodec<K>, source: ZeroCopySource) returns (r: Option<Decoded<K>>)
    requires source.Valid()
    modifies source
    ensures source.Valid()
    ensures Agrees(r, source.off, TxParse(c, source.s, old(source.off)))
  {
    hide UnsignedParse, SigsParse;
    var start := source.off;
    var unsigned := DeserializationUnsigned(source);
    if unsigned.None? {
      return None;
    }
    var lenUnsigned := source.off - start;
    source.BackUp(lenUnsigned);
    var hashed, e1 := source.NextBytes(lenUnsigned);
    if e1 {
      return None;
    }
    var l, e2 := source.NextVarUint();
    if e2 {
      return None;
    }
    var sigs := NextSigs(c, source, l);
    if sigs.None? {
      return None;
    }
    var lenAll := source.off - start;
    if lenAll > MAX_TX_SIZE {
      return None;
    }
    source.BackUp(lenAll);
    var raw, _ := source.NextBytes(lenAll);
    return Some(Decoded(unsigned.value, sigs.value, raw, hashed));
  }
}
