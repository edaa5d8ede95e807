/**
 * The pieces of the MIPS simulator's processor and of Nachos's Lib that the
 * user-process code leans on: the page size, the split of a virtual address
 * into page number and offset, translation entries, C strings and the
 * little-endian encoding of an int into four bytes.
 */
module Processor {
  import opened JavaInt
  import opened Wrappers

  /** Bytes per page of the simulated machine. */
  const PageSize: int := 0x400

  /** A Java `byte`. */
  type Byte = b: int | -128 <= b < 128

  /** The address as the unsigned 32-bit number the MMU sees. */
  function Unsigned(vaddr: int32): (u: nat)
    ensures u < TWO_32
    ensures (u - vaddr) % TWO_32 == 0
    ensures vaddr >= 0 ==> u == vaddr
  {
    if vaddr < 0 then vaddr + TWO_32 else vaddr
  }

  /** The virtual page number of an address. */
  function PageFromAddress(vaddr: int32): (vpn: nat)
    ensures vpn * PageSize <= Unsigned(vaddr) < (vpn + 1) * PageSize
  {
    Unsigned(vaddr) / PageSize
  }

  /** The position of an address inside its page. */
  function OffsetFromAddress(vaddr: int32): (off: nat)
    ensures off < PageSize
    ensures PageFromAddress(vaddr) * PageSize + off == Unsigned(vaddr)
  {
    Unsigned(vaddr) % PageSize
  }

  /** A non-negative address splits back into exactly the page and offset it was built from. */
  lemma AddressSplit(vpn: nat, off: nat)
    requires off < PageSize && vpn * PageSize + off < 0x8000_0000
    ensures PageFromAddress(vpn * PageSize + off) == vpn
    ensures OffsetFromAddress(vpn * PageSize + off) == off
  {
  }

  /** One page table entry: vpn, ppn and the valid, readOnly, used and dirty bits. */
  datatype TranslationEntry = TranslationEntry(vpn: int, ppn: int, valid: bool, readOnly: bool, used: bool, dirty: bool)

  /** The entry every slot of a fresh page table starts with: page i mapped to frame i, valid, unused. */
  function Placeholder(i: int): TranslationEntry
  {
    TranslationEntry(i, i, true, false, false, false)
  }

  /** Memory `m` with the bytes from `p` on replaced by `d`: the effect of one block copy. */
  function Overwrite(m: seq<Byte>, p: int, d: seq<Byte>): (r: seq<Byte>)
    requires 0 <= p && p + |d| <= |m|
    ensures |r| == |m|
    ensures r[p..p + |d|] == d
  {
    m[..p] + d + m[p + |d|..]
  }

  /** A block copy leaves every byte outside the block as it was. */
  lemma OverwriteOutside(m: seq<Byte>, p: int, d: seq<Byte>, i: int)
    requires 0 <= p && p + |d| <= |m| && 0 <= i < |m| && !(p <= i < p + |d|)
    ensures Overwrite(m, p, d)[i] == m[i]
  {
    if i < p {
      assert Overwrite(m, p, d)[i] == m[..p][i];
    } else {
      assert Overwrite(m, p, d)[i] == m[p + |d|..][i - p - |d|];
    }
  }

  /** Two block copies side by side are one copy of their concatenation. */
  lemma OverwriteAdjacent(m: seq<Byte>, p: int, a: seq<Byte>, b: seq<Byte>)
    requires 0 <= p && p + |a| + |b| <= |m|
    ensures Overwrite(Overwrite(m, p, a), p + |a|, b) == Overwrite(m, p, a + b)
  {
    var lhs := Overwrite(Overwrite(m, p, a), p + |a|, b);
    var rhs := Overwrite(m, p, a + b);
    forall i | 0 <= i < |m|
      ensures lhs[i] == rhs[i]
    {
      if p <= i < p + |a| {
        assert rhs[i] == rhs[p..p + |a| + |b|][i - p];
        assert lhs[i] == Overwrite(m, p, a)[p..p + |a|][i - p];
      } else if p + |a| <= i < p + |a| + |b| {
        assert rhs[i] == rhs[p..p + |a| + |b|][i - p];
        assert lhs[i] == lhs[p + |a|..p + |a| + |b|][i - p - |a|];
      }
    }
  }

  /** Block copies to disjoint places can be done in either order. */
  lemma OverwriteDisjoint(m: seq<Byte>, p: int, a: seq<Byte>, q: int, b: seq<Byte>)
    requires 0 <= p && p + |a| <= q && q + |b| <= |m|
    ensures Overwrite(Overwrite(m, q, b), p, a) == Overwrite(Overwrite(m, p, a), q, b)
  {
    var lhs := Overwrite(Overwrite(m, q, b), p, a);
    var rhs := Overwrite(Overwrite(m, p, a), q, b);
    forall i | 0 <= i < |m|
      ensures lhs[i] == rhs[i]
    {
      if p <= i < p + |a| {
        assert lhs[i] == lhs[p..p + |a|][i - p];
        assert Overwrite(m, p, a)[i] == Overwrite(m, p, a)[p..p + |a|][i - p];
      } else if q <= i < q + |b| {
        assert rhs[i] == rhs[q..q + |b|][i - q];
        assert Overwrite(m, q, b)[i] == Overwrite(m, q, b)[q..q + |b|][i - q];
      }
    }
  }

  /**
   * The bytes before the first NUL, or None when there is no NUL: what
   * scanning a buffer for the terminator of a C string finds.
   */
  function CStringOf(bs: seq<Byte>): (r: Option<seq<Byte>>)
    ensures r.None? <==> 0 !in bs
    ensures r.Some? ==> |r.value| < |bs| && bs[..|r.value|] == r.value && bs[|r.value|] == 0
    ensures r.Some? ==> 0 !in r.value
  {
    if bs == [] then None
    else if bs[0] == 0 then Some([])
    else match CStringOf(bs[1..]) {
      case None => None
      case Some(t) => Some([bs[0]] + t)
    }
  }

  /** The C string is the prefix up to any NUL that has no NUL before it. */
  lemma CStringAtFirstNul(bs: seq<Byte>, k: nat)
    requires k < |bs| && bs[k] == 0 && 0 !in bs[..k]
    ensures CStringOf(bs) == Some(bs[..k])
  {
    var r := CStringOf(bs);
    assert r.Some? by {
      assert bs[k] == 0;
    }
  }

  /** A string followed by its terminator reads back as that string, whatever follows. */
  lemma CStringOfTerminated(s: seq<Byte>, rest: seq<Byte>)
    requires 0 !in s
    ensures CStringOf(s + [0] + rest) == Some(s)
  {
    var bs := s + [0] + rest;
    assert bs[..|s|] == s;
    CStringAtFirstNul(bs, |s|);
  }

  /** The Java cast `(byte)`: the low eight bits as two's complement. */
  function ToByte(v: int): (b: Byte)
    ensures (v - b) % 256 == 0
  {
    var m := v % 256;
    if m < 128 then m else m - 256
  }

  /** The byte read as an unsigned value, `b & 0xFF`. */
  function Unsigned8(b: Byte): (u: nat)
    ensures u < 256 && (u - b) % 256 == 0
  {
    if b < 0 then b + 256 else b
  }

  /** Four bytes, least significant first, holding the low 32 bits of `v`. */
  function BytesFromInt(v: int): (bs: seq<Byte>)
    ensures |bs| == 4
  {
    [ToByte(v), ToByte(v / 0x100), ToByte(v / 0x1_0000), ToByte(v / 0x100_0000)]
  }

  /** Decoding the four bytes gives back `v` cast to int, so every int survives the round trip. */
  lemma BytesRoundTrip(v: int)
    ensures BytesToInt(BytesFromInt(v)) == ToInt32(v)
  {
    var q1, q2, q3 := v / 0x100, v / 0x1_0000, v / 0x100_0000;
    assert q2 == q1 / 0x100 && q3 == q2 / 0x100;
    ByteDigit(v);
    ByteDigit(q1);
    ByteDigit(q2);
    ByteDigit(q3);
    var sum := v % 256 + (q1 % 256) * 0x100 + (q2 % 256) * 0x1_0000 + (q3 % 256) * 0x100_0000;
    assert v == v % 256 + q1 * 0x100;
    assert q1 == q1 % 256 + q2 * 0x100;
    assert q2 == q2 % 256 + q3 * 0x100;
    var k := q3 / 256;
    assert v == sum + k * TWO_32;
    ToInt32Shift(sum, k);
  }

  /** Reassemble four little-endian bytes into an int. */
  function BytesToInt(bs: seq<Byte>): int32
    requires |bs| == 4
  {
    ToInt32(Unsigned8(bs[0]) + Unsigned8(bs[1]) * 0x100 + Unsigned8(bs[2]) * 0x1_0000 + Unsigned8(bs[3]) * 0x100_0000)
  }

  lemma ByteDigit(v: int)
    ensures Unsigned8(ToByte(v)) == v % 256
  {
  }
}
