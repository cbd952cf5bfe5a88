/** The zero-copy codec: common/zero_copy_sink.go and common/zero_copy_source.go. */
module Codec {
  import opened Hashing

  // --- the encoding

  /** The n low bytes of x, least significant first. */
  function Le(x: nat, n: nat): (s: seq<byte>)
    ensures |s| == n
  {
    if n == 0 then [] else [(x % 256) as byte] + Le(x / 256, n - 1)
  }

  function FromLe(s: seq<byte>): nat {
    if s == [] then 0 else s[0] as nat + 256 * FromLe(s[1..])
  }

  function Capacity(n: nat): nat {
    if n == 0 then 1 else 256 * Capacity(n - 1)
  }

  lemma {:induction false} LeRoundTrip(x: nat, n: nat)
    requires x < Capacity(n)
    ensures FromLe(Le(x, n)) == x
  {
    if n == 0 {
    } else {
      LeRoundTrip(x / 256, n - 1);
      assert Le(x, n)[1..] == Le(x / 256, n - 1);
    }
  }

  const MAX_UINT64: nat := 0xFFFF_FFFF_FFFF_FFFF

  lemma Capacities()
    ensures Capacity(1) == 0x100 && Capacity(2) == 0x1_0000
    ensures Capacity(4) == 0x1_0000_0000 && Capacity(8) == MAX_UINT64 + 1
  {
    assert Capacity(6) == 0x1_0000_0000_0000;
  }

  /** One byte below 0xFD, else a marker byte and 2, 4 or 8 bytes. */
  function VarUint(x: nat): (s: seq<byte>)
    ensures 1 <= |s| <= 9
  {
    if x < 0xFD then [x as byte]
    else if x <= 0xFFFF then [0xFD] + Le(x, 2)
    else if x <= 0xFFFF_FFFF then [0xFE] + Le(x, 4)
    else [0xFF] + Le(x, 8)
  }

  function VarBytes(b: seq<byte>): seq<byte> {
    VarUint(|b|) + b
  }

  // --- the decoding

  /** The n bytes of s behind off, if there are so many. */
  function BytesAt(s: seq<byte>, off: nat, n: nat): Option<seq<byte>> {
    if off + n <= |s| then Some(s[off..off + n]) else None
  }

  function UintAt(s: seq<byte>, off: nat, n: nat): Option<nat> {
    match BytesAt(s, off, n)
    case Some(b) => Some(FromLe(b))
    case None => None
  }

  /** The width of the number behind a first byte; 0 if that byte is the number. */
  function Width(fb: byte): nat {
    if fb == 0xFD then 2 else if fb == 0xFE then 4 else if fb == 0xFF then 8 else 0
  }

  /** A variable-length number and the offset behind it. */
  function VarUintAt(s: seq<byte>, off: nat): Option<(nat, nat)> {
    if off >= |s| then None
    else
      var w := Width(s[off]);
      if w == 0 then Some((s[off] as nat, off + 1))
      else
        match UintAt(s, off + 1, w)
        case Some(x) => Some((x, off + 1 + w))
        case None => None
  }

  /** A length-prefixed byte string and the offset behind it. */
  function VarBytesAt(s: seq<byte>, off: nat): Option<(seq<byte>, nat)> {
    match VarUintAt(s, off)
    case None => None
    case Some((n, o)) =>
      match BytesAt(s, o, n)
      case Some(b) => Some((b, o + n))
      case None => None
  }

  // --- round trips inside a longer stream

  /** part occurs in s at offset off. */
  ghost predicate Occurs(s: seq<byte>, off: nat, part: seq<byte>) {
    off + |part| <= |s| && s[off..off + |part|] == part
  }

  lemma OccursParts(s: seq<byte>, off: nat, a: seq<byte>, b: seq<byte>)
    requires Occurs(s, off, a + b)
    ensures Occurs(s, off, a) && Occurs(s, off + |a|, b)
  {
    var t := s[off..off + |a + b|];
    assert s[off..off + |a|] == t[..|a|] && s[off + |a|..off + |a| + |b|] == t[|a|..];
  }

  lemma OccursBetween(pre: seq<byte>, part: seq<byte>, post: seq<byte>)
    ensures Occurs(pre + part + post, |pre|, part)
  {
  }

  lemma UintRoundTrip(s: seq<byte>, off: nat, x: nat, n: nat)
    requires x < Capacity(n) && Occurs(s, off, Le(x, n))
    ensures UintAt(s, off, n) == Some(x)
  {
    LeRoundTrip(x, n);
  }

  lemma VarUintRoundTrip(s: seq<byte>, off: nat, x: nat)
    requires x <= MAX_UINT64 && Occurs(s, off, VarUint(x))
    ensures VarUintAt(s, off) == Some((x, off + |VarUint(x)|))
  {
    var e := VarUint(x);
    assert s[off] == s[off..off + |e|][0] == e[0];
    Capacities();
    if x >= 0xFD {
      var w := Width(e[0]);
      assert e == [e[0]] + Le(x, w);
      OccursParts(s, off, [e[0]], Le(x, w));
      UintRoundTrip(s, off + 1, x, w);
    }
  }

  lemma VarBytesRoundTrip(s: seq<byte>, off: nat, b: seq<byte>)
    requires |b| <= MAX_UINT64 && Occurs(s, off, VarBytes(b))
    ensures VarBytesAt(s, off) == Some((b, off + |VarBytes(b)|))
  {
    hide VarUint, VarUintAt;
    OccursParts(s, off, VarUint(|b|), b);
    VarUintRoundTrip(s, off, |b|);
  }

  // --- the sink

  /** A growing byte buffer: the first len bytes of buf are written, the rest is
      spare capacity. */
  class ZeroCopySink {
    var buf: array<byte>
    var len: nat

    ghost predicate Valid()
      reads this
    {
      len <= buf.Length
    }

    ghost function Contents(): seq<byte>
      reads this, buf
      requires Valid()
    {
      buf[..len]
    }

    constructor (capacity: nat)
      ensures Valid() && fresh(buf) && Contents() == []
    {
      buf := new byte[capacity];
      len := 0;
    }

    /** Makes room for n more bytes: within the capacity, or by moving to a buffer
        of twice the capacity and n more. Returns where to write. */
    method Grow(n: nat) returns (m: nat)
      requires Valid()
      modifies this
      ensures Valid() && (buf == old(buf) || fresh(buf))
      ensures m == old(len) && len == m + n
      ensures buf[..m] == old(Contents())
    {
      m := len;
      if n > buf.Length - len {
        var larger := new byte[2 * buf.Length + n];
        forall i | 0 <= i < len {
          larger[i] := buf[i];
        }
        buf := larger;
      }
      len := len + n;
    }

    method BackUp(n: nat)
      requires Valid() && n <= len
      modifies this`len
      ensures Valid() && Contents() == old(Contents())[..old(len) - n]
    {
      len := len - n;
    }

    /** Stores n bytes of x at position m. */
    method PutUint(m: nat, x: nat, n: nat)
      requires m + n <= buf.Length
      modifies buf
      ensures buf[m..m + n] == Le(x, n)
      ensures buf[..m] == old(buf[..m])
    {
      var y, i := x, 0;
      while i < n
        invariant 0 <= i <= n
        invariant Le(x, n) == buf[m..m + i] + Le(y, n - i)
        invariant buf[..m] == old(buf[..m])
      {
        assert Le(y, n - i) == [(y % 256) as byte] + Le(y / 256, n - i - 1);
        buf[m + i] := (y % 256) as byte;
        y, i := y / 256, i + 1;
      }
    }

    method WriteBytes(p: seq<byte>)
      requires Valid()
      modifies this, buf
      ensures Valid() && (buf == old(buf) || fresh(buf))
      ensures Contents() == old(Contents()) + p
    {
      var m := Grow(|p|);
      forall i | 0 <= i < |p| {
        buf[m + i] := p[i];
      }
    }

    method WriteByte(c: byte)
      requires Valid()
      modifies this, buf
      ensures Valid() && (buf == old(buf) || fresh(buf))
      ensures Contents() == old(Contents()) + [c]
    {
      var m := Grow(1);
      buf[m] := c;
    }

    method WriteUint(x: nat, n: nat)
      requires Valid()
      modifies this, buf
      ensures Valid() && (buf == old(buf) || fresh(buf))
      ensures Contents() == old(Contents()) + Le(x, n)
    {
      var m := Grow(n);
      PutUint(m, x, n);
      assert buf[..len] == buf[..m] + buf[m..m + n];
    }

    /** Stores the variable-length form of x at position m. */
    method PutVarUint(m: nat, x: nat) returns (size: nat)
      requires m + 9 <= buf.Length && x <= MAX_UINT64
      modifies buf
      ensures size == |VarUint(x)| && buf[m..m + size] == VarUint(x)
      ensures buf[..m] == old(buf[..m])
    {
      hide Le;
      if x < 0xFD {
        buf[m] := x as byte;
        return 1;
      }
      size := if x <= 0xFFFF then 3 else if x <= 0xFFFF_FFFF then 5 else 9;
      PutUint(m + 1, x, size - 1);
      buf[m] := if x <= 0xFFFF then 0xFD else if x <= 0xFFFF_FFFF then 0xFE else 0xFF;
      ghost var all := buf[..];
      assert all[m..m + size] == [all[m]] + all[m + 1..m + size];
      assert all[m + 1..m + size] == buf[m + 1..m + 1 + (size - 1)] == Le(x, size - 1);
    }

    /** Reserves nine bytes, writes the number and gives back the rest. */
    method WriteVarUint(x: nat) returns (size: nat)
      requires Valid() && x <= MAX_UINT64
      modifies this, buf
      ensures Valid() && (buf == old(buf) || fresh(buf))
      ensures Contents() == old(Contents()) + VarUint(x) && size == |VarUint(x)|
    {
      hide VarUint;
      var m := Grow(9);
      size := PutVarUint(m, x);
      assert buf[..m + size] == buf[..m] + buf[m..m + size];
      BackUp(9 - size);
    }

    method WriteVarBytes(data: seq<byte>) returns (size: nat)
      requires Valid() && |data| <= MAX_UINT64
      modifies this, buf
      ensures Valid() && (buf == old(buf) || fresh(buf))
      ensures Contents() == old(Contents()) + VarBytes(data) && size == |VarBytes(data)|
    {
      size := WriteVarUint(|data|);
      size := size + |data|;
      WriteBytes(data);
    }
  }

  // --- the source

  /** What is left behind a length that announces too much; nothing if there is
      no length. */
  function Remaining(s: seq<byte>, off: nat): seq<byte> {
    match VarUintAt(s, off)
    case None => []
    case Some((_, o)) => if o <= |s| then s[o..] else []
  }

  /** A reader over fixed bytes. Offsets are unsigned 64-bit numbers; a length
      that would overflow one is answered with end-of-file. */
  class ZeroCopySource {
    const s: seq<byte>
    var off: nat

    ghost predicate Valid()
      reads this
    {
      off <= |s| <= MAX_UINT64
    }

    constructor (bytes: seq<byte>)
      requires |bytes| <= MAX_UINT64
      ensures Valid() && s == bytes && off == 0
    {
      s, off := bytes, 0;
    }

    method NextBytes(n: nat) returns (data: seq<byte>, eof: bool)
      requires Valid() && n <= MAX_UINT64
      modifies this
      ensures Valid()
      ensures eof <==> BytesAt(s, old(off), n).None?
      ensures !eof ==> Some(data) == BytesAt(s, old(off), n) && off == old(off) + n
      ensures eof ==> data == s[old(off)..] && off == |s|
    {
      var end, overflow := (off + n) % (MAX_UINT64 + 1), n > MAX_UINT64 - off;
      eof := false;
      if overflow || end > |s| {
        end, eof := |s|, true;
      }
      data := s[off..end];
      off := end;
    }

    method NextByte() returns (data: byte, eof: bool)
      requires Valid()
      modifies this
      ensures Valid()
      ensures eof <==> old(off) >= |s|
      ensures eof ==> data == 0 && off == old(off)
      ensures !eof ==> data == s[old(off)] && off == old(off) + 1
    {
      if off >= |s| {
        return 0, true;
      }
      data, eof := s[off], false;
      off := off + 1;
    }

    method BackUp(n: nat)
      requires Valid() && n <= off
      modifies this
      ensures Valid() && off == old(off) - n
    {
      off := off - n;
    }

    method NextUint(n: nat) returns (data: nat, eof: bool)
      requires Valid() && n <= 8
      modifies this
      ensures Valid()
      ensures eof <==> UintAt(s, old(off), n).None?
      ensures !eof ==> Some(data) == UintAt(s, old(off), n) && off == old(off) + n
      ensures eof ==> data == 0 && off == |s|
    {
      var b, e := NextBytes(n);
      if e {
        return 0, true;
      }
      return FromLe(b), false;
    }

    method NextVarUint() returns (data: nat, eof: bool)
      requires Valid()
      modifies this
      ensures Valid()
      ensures eof <==> VarUintAt(s, old(off)).None?
      ensures !eof ==> Some((data, off)) == VarUintAt(s, old(off)) && old(off) < off
      ensures eof ==> data == 0 && off == |s|
    {
      var fb, e := NextByte();
      if e {
        return 0, true;
      }
      if Width(fb) == 0 {
        return fb as nat, false;
      }
      data, eof := NextUint(Width(fb));
    }

    method NextVarBytes() returns (data: seq<byte>, eof: bool)
      requires Valid()
      modifies this
      ensures Valid()
      ensures eof <==> VarBytesAt(s, old(off)).None?
      ensures !eof ==> Some((data, off)) == VarBytesAt(s, old(off)) && old(off) < off
      ensures eof ==> off == |s| && data == Remaining(s, old(off))
    {
      var count, e := NextVarUint();
      if e {
        return [], true;
      }
      VarUintBound(s, old(off));
      data, eof := NextBytes(count);
    }
  }

  lemma {:induction false} FromLeBound(s: seq<byte>)
    ensures FromLe(s) < Capacity(|s|)
  {
    if s == [] {
    } else {
      FromLeBound(s[1..]);
    }
  }

  lemma VarUintBound(s: seq<byte>, off: nat)
    ensures VarUintAt(s, off).Some? ==> VarUintAt(s, off).value.0 <= MAX_UINT64
  {
    Capacities();
    if off < |s| && Width(s[off]) != 0 && off + 1 + Width(s[off]) <= |s| {
      FromLeBound(s[off + 1..off + 1 + Width(s[off])]);
    }
  }
}
