/** IPv4 prefixes: masks, matching and normalisation (src/prefix4.c), and the tie
    between the byte masks used there and the bits walked by the radix tree.

    An address is four bytes in memory order. */
module Prefix4 {

  type Bits = seq<bool>

  datatype Addr = Addr(b0: bv8, b1: bv8, b2: bv8, b3: bv8)

  datatype Prefix = Prefix(addr: Addr, len: nat)

  const WIDTH: nat := 32

  function Byte(a: Addr, j: nat): bv8
    requires j < 4
  {
    if j == 0 then a.b0 else if j == 1 then a.b1 else if j == 2 then a.b2 else a.b3
  }

  /** Bit j of a byte, most significant first: (byte >> (7 - j)) & 1. */
  predicate ByteBit(b: bv8, j: nat)
    requires j < 8
  {
    if j == 0 then (b >> 7) & 1 == 1
    else if j == 1 then (b >> 6) & 1 == 1
    else if j == 2 then (b >> 5) & 1 == 1
    else if j == 3 then (b >> 4) & 1 == 1
    else if j == 4 then (b >> 3) & 1 == 1
    else if j == 5 then (b >> 2) & 1 == 1
    else if j == 6 then (b >> 1) & 1 == 1
    else b & 1 == 1
  }

  predicate Bit(a: Addr, i: nat)
    requires i < WIDTH
  {
    ByteBit(Byte(a, i / 8), i % 8)
  }

  function ToBits(a: Addr): (bits: Bits)
    ensures |bits| == WIDTH
    ensures forall i :: 0 <= i < WIDTH ==> bits[i] == Bit(a, i)
  {
    seq(WIDTH, i requires 0 <= i < WIDTH => Bit(a, i))
  }

  /** The byte with its k leading bits set: (uint8_t)(0xff << (8 - k)). */
  function PartialMask(k: nat): bv8
    requires k <= 8
  {
    if k == 0 then 0 else if k == 1 then 0x80 else if k == 2 then 0xc0
    else if k == 3 then 0xe0 else if k == 4 then 0xf0 else if k == 5 then 0xf8
    else if k == 6 then 0xfc else if k == 7 then 0xfe else 0xff
  }

  const MASKS: seq<bv32> := [
    0x00000000,
    0x80000000, 0xc0000000, 0xe0000000, 0xf0000000,
    0xf8000000, 0xfc000000, 0xfe000000, 0xff000000,
    0xff800000, 0xffc00000, 0xffe00000, 0xfff00000,
    0xfff80000, 0xfffc0000, 0xfffe0000, 0xffff0000,
    0xffff8000, 0xffffc000, 0xffffe000, 0xfffff000,
    0xfffff800, 0xfffffc00, 0xfffffe00, 0xffffff00,
    0xffffff80, 0xffffffc0, 0xffffffe0, 0xfffffff0,
    0xfffffff8, 0xfffffffc, 0xfffffffe, 0xffffffff]

  function SplitBytes(hp: bv32): Addr {
    Addr(((hp >> 24) & 0xff) as bv8, ((hp >> 16) & 0xff) as bv8,
         ((hp >> 8) & 0xff) as bv8, (hp & 0xff) as bv8)
  }

  function CidrToMask(cidr: nat): Addr {
    if cidr > 32 then Addr(0, 0, 0, 0) else SplitBytes(MASKS[cidr])
  }

  function And(a: Addr, m: Addr): Addr {
    Addr(a.b0 & m.b0, a.b1 & m.b1, a.b2 & m.b2, a.b3 & m.b3)
  }

  function Normalize(p: Prefix): Prefix {
    if p.len > 32 then Prefix(Addr(0, 0, 0, 0), 0)
    else Prefix(And(p.addr, CidrToMask(p.len)), p.len)
  }

  predicate Canonical(p: Prefix) {
    p.len <= 32 && Normalize(p) == p
  }

  predicate AddrMatches(p: Prefix, dest: Addr) {
    p.len <= 32 && And(dest, CidrToMask(p.len)) == And(p.addr, CidrToMask(p.len))
  }

  predicate Includes(outer: Prefix, inner: Prefix) {
    && outer.len <= 32 && inner.len <= 32
    && outer.len <= inner.len
    && And(inner.addr, CidrToMask(outer.len)) == And(outer.addr, CidrToMask(outer.len))
  }

  /** The bit string a prefix denotes: the path it takes through the radix tree. */
  function Key(p: Prefix): (k: Bits)
    requires p.len <= 32
    ensures |k| == p.len
  {
    ToBits(p.addr)[..p.len]
  }

  // ----- masks against bits

  /** How many of the leading cidr bits fall in byte j. */
  function BitsInByte(cidr: nat, j: nat): (k: nat)
    ensures k <= 8
  {
    if cidr <= 8 * j then 0 else if cidr >= 8 * j + 8 then 8 else cidr - 8 * j
  }

  function MaskByte(b: bv8, k: nat): bv8
    requires k <= 8
  {
    b & PartialMask(k)
  }

  lemma ByteMaskEqual(a: bv8, b: bv8, k: nat)
    requires k <= 8
    ensures (MaskByte(a, k) == MaskByte(b, k)) <==>
            (forall j :: 0 <= j < k ==> ByteBit(a, j) == ByteBit(b, j))
  {
    hide ByteBit, MaskByte;
    var same := MaskByte(a, k) == MaskByte(b, k);
    if same {
      forall j | 0 <= j < k ensures ByteBit(a, j) == ByteBit(b, j) {
        ByteMaskBit(a, b, k, j);
      }
    } else {
      ByteMaskDiffers(a, b, k);
    }
  }

  lemma ByteMaskBit(a: bv8, b: bv8, k: nat, j: nat)
    requires j < k <= 8
    requires MaskByte(a, k) == MaskByte(b, k)
    ensures ByteBit(a, j) == ByteBit(b, j)
  {
  }

  lemma ByteMaskDiffers(a: bv8, b: bv8, k: nat)
    requires k <= 8
    requires MaskByte(a, k) != MaskByte(b, k)
    ensures exists j :: 0 <= j < k && ByteBit(a, j) != ByteBit(b, j)
  {
    if k > 0 && ByteBit(a, 0) != ByteBit(b, 0) {
    } else if k > 1 && ByteBit(a, 1) != ByteBit(b, 1) {
    } else if k > 2 && ByteBit(a, 2) != ByteBit(b, 2) {
    } else if k > 3 && ByteBit(a, 3) != ByteBit(b, 3) {
    } else if k > 4 && ByteBit(a, 4) != ByteBit(b, 4) {
    } else if k > 5 && ByteBit(a, 5) != ByteBit(b, 5) {
    } else if k > 6 && ByteBit(a, 6) != ByteBit(b, 6) {
    } else if k > 7 && ByteBit(a, 7) != ByteBit(b, 7) {
    } else {
      assert false;
    }
  }

  lemma MaskBytes(cidr: nat)
    requires cidr <= 32
    ensures CidrToMask(cidr) ==
            Addr(PartialMask(BitsInByte(cidr, 0)), PartialMask(BitsInByte(cidr, 1)),
                 PartialMask(BitsInByte(cidr, 2)), PartialMask(BitsInByte(cidr, 3)))
  {
    if cidr <= 8 {
      MaskBytesTo8(cidr);
    } else if cidr <= 16 {
      MaskBytesTo16(cidr);
    } else if cidr <= 24 {
      MaskBytesTo24(cidr);
    } else {
      MaskBytesTo32(cidr);
    }
  }

  lemma MaskBytesTo8(cidr: nat)
    requires cidr <= 8
    ensures CidrToMask(cidr) == Addr(PartialMask(cidr), 0, 0, 0)
  {
  }

  lemma MaskBytesTo16(cidr: nat)
    requires 8 < cidr <= 16
    ensures CidrToMask(cidr) == Addr(0xff, PartialMask(cidr - 8), 0, 0)
  {
  }

  lemma MaskBytesTo24(cidr: nat)
    requires 16 < cidr <= 24
    ensures CidrToMask(cidr) == Addr(0xff, 0xff, PartialMask(cidr - 16), 0)
  {
  }

  lemma MaskBytesTo32(cidr: nat)
    requires 24 < cidr <= 32
    ensures CidrToMask(cidr) == Addr(0xff, 0xff, 0xff, PartialMask(cidr - 24))
  {
  }

  lemma AndMask(a: Addr, cidr: nat)
    requires cidr <= 32
    ensures And(a, CidrToMask(cidr)) ==
            Addr(MaskByte(a.b0, BitsInByte(cidr, 0)), MaskByte(a.b1, BitsInByte(cidr, 1)),
                 MaskByte(a.b2, BitsInByte(cidr, 2)), MaskByte(a.b3, BitsInByte(cidr, 3)))
  {
    hide PartialMask, CidrToMask;
    MaskBytes(cidr);
  }

  /** Two addresses agree under the /cidr mask exactly when their first cidr bits agree. */
  lemma MaskedEqual(a: Addr, b: Addr, cidr: nat)
    requires cidr <= 32
    ensures And(a, CidrToMask(cidr)) == And(b, CidrToMask(cidr)) <==> ToBits(a)[..cidr] == ToBits(b)[..cidr]
  {
    hide And, CidrToMask, ByteBit, Bit, MaskByte;
    AndMask(a, cidr);
    AndMask(b, cidr);
    ByteSlice(a, b, cidr, 0);
    ByteSlice(a, b, cidr, 1);
    ByteSlice(a, b, cidr, 2);
    ByteSlice(a, b, cidr, 3);
    var same := And(a, CidrToMask(cidr)) == And(b, CidrToMask(cidr));
    assert same <==> forall i :: 0 <= i < cidr ==> Bit(a, i) == Bit(b, i);
  }

  lemma ByteSlice(a: Addr, b: Addr, cidr: nat, j: nat)
    requires cidr <= 32 && j < 4
    ensures (MaskByte(Byte(a, j), BitsInByte(cidr, j)) == MaskByte(Byte(b, j), BitsInByte(cidr, j))) <==>
            (forall i :: 8 * j <= i < 8 * j + 8 && i < cidr ==> Bit(a, i) == Bit(b, i))
  {
    hide ByteBit, Byte, Bit, MaskByte;
    var k := BitsInByte(cidr, j);
    ByteMaskEqual(Byte(a, j), Byte(b, j), k);
    forall i | 8 * j <= i < 8 * j + 8
      ensures Bit(a, i) == ByteBit(Byte(a, j), i - 8 * j) && Bit(b, i) == ByteBit(Byte(b, j), i - 8 * j)
    {
      BitOfByte(a, j, i);
      BitOfByte(b, j, i);
    }
    if forall i :: 8 * j <= i < 8 * j + 8 && i < cidr ==> Bit(a, i) == Bit(b, i) {
      forall t | 0 <= t < k ensures ByteBit(Byte(a, j), t) == ByteBit(Byte(b, j), t) {
        var i := 8 * j + t;
        assert Bit(a, i) == Bit(b, i);
      }
    }
  }

  lemma BitOfByte(a: Addr, j: nat, i: nat)
    requires j < 4 && 8 * j <= i < 8 * j + 8
    ensures Bit(a, i) == ByteBit(Byte(a, j), i - 8 * j)
  {
    hide ByteBit, Byte;
    assert i / 8 == j && i % 8 == i - 8 * j;
  }

  // ----- what the prefix operations mean on bit strings

  lemma AndIdempotent(a: Addr, m: Addr)
    ensures And(And(a, m), m) == And(a, m)
  {
  }

  /** Masking keeps the prefix's bit string, is idempotent, and two prefixes
      normalise alike exactly when they denote the same bit string. */
  lemma NormalizeMeaning(p: Prefix, q: Prefix)
    requires p.len <= 32 && q.len <= 32
    ensures Canonical(Normalize(p))
    ensures Key(Normalize(p)) == Key(p)
    ensures Normalize(p) == Normalize(q) <==> Key(p) == Key(q)
  {
    hide CidrToMask, ToBits, And;
    var n := Normalize(p);
    AndIdempotent(p.addr, CidrToMask(p.len));
    MaskedEqual(n.addr, p.addr, p.len);
    if p.len == q.len {
      MaskedEqual(p.addr, q.addr, p.len);
    } else {
      assert |Key(p)| != |Key(q)|;
    }
  }

  lemma MatchMeaning(p: Prefix, dest: Addr)
    requires p.len <= 32
    ensures AddrMatches(p, dest) <==> Key(p) <= ToBits(dest)
  {
    hide CidrToMask, ToBits, And;
    MaskedEqual(dest, p.addr, p.len);
    assert Key(p) <= ToBits(dest) <==> ToBits(dest)[..p.len] == Key(p);
  }

  lemma IncludesMeaning(outer: Prefix, inner: Prefix)
    requires outer.len <= 32 && inner.len <= 32
    ensures Includes(outer, inner) <==> Key(outer) <= Key(inner)
  {
    hide CidrToMask, ToBits, And;
    MaskedEqual(inner.addr, outer.addr, outer.len);
    if outer.len <= inner.len {
      assert Key(inner)[..outer.len] == ToBits(inner.addr)[..outer.len];
    }
  }

  /** Two prefixes of one length that both match an address denote the same bit string. */
  lemma MatchUnique(p: Prefix, q: Prefix, dest: Addr)
    requires AddrMatches(p, dest) && AddrMatches(q, dest) && p.len == q.len
    ensures Normalize(p) == Normalize(q) && Key(p) == Key(q)
  {
    hide CidrToMask, ToBits, And;
    MatchMeaning(p, dest);
    MatchMeaning(q, dest);
    assert Key(p) == ToBits(dest)[..p.len] == Key(q);
    NormalizeMeaning(p, q);
  }
}
