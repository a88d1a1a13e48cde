/** The layout of an UPDATE's parts as bytes (section 4.3 of RFC 4271), said without the parser: octets and
    big-endian numbers, lists of prefixes, lists of AS path segments. The parsers of src/pattr.c,
    src/prefix4.c and src/prefix6.c accept exactly these layouts. */
module WireLayout {
  import opened Wrappers
  import opened Prefix4
  import opened PathAttr
  import opened Wire
  import opened AttrCodec

  // ----- numbers

  /** The value of an octet. */
  function U8(b: bv8): (n: nat)
    ensures n < 256
  {
    b as nat
  }

  /** The number in two octets from position i, the first the most significant. */
  function U16(v: Bytes, i: nat): nat
    requires i + 2 <= |v|
  {
    U8(v[i]) * 0x100 + U8(v[i + 1])
  }

  /** The number in four octets from position i. */
  function U32(v: Bytes, i: nat): nat
    requires i + 4 <= |v|
  {
    U8(v[i]) * 0x100_0000 + U8(v[i + 1]) * 0x1_0000 + U8(v[i + 2]) * 0x100 + U8(v[i + 3])
  }

  lemma OctetValue(b: bv8)
    ensures N(b) == U8(b)
  {
  }

  lemma Get16Value(v: Bytes)
    requires |v| >= 2
    ensures Get16(v) == U16(v, 0)
  {
    hide N, U8;
    OctetValue(v[0]);
    OctetValue(v[1]);
  }

  lemma Get32Value(v: Bytes)
    requires |v| >= 4
    ensures Get32(v) == U32(v, 0)
  {
    hide N, U8;
    OctetValue(v[0]);
    OctetValue(v[1]);
    OctetValue(v[2]);
    OctetValue(v[3]);
  }

  /** The i-th of a row of numbers of two or four octets. */
  function NumAt(v: Bytes, wide: bool, i: nat): nat
    requires NumsLen(i + 1, wide) <= |v|
  {
    if wide then U32(v, 4 * i) else U16(v, 2 * i)
  }

  lemma NumAtNext(v: Bytes, wide: bool, i: nat)
    requires NumsLen(i + 2, wide) <= |v|
    ensures NumAt(v, wide, i + 1) == NumAt(v[NumSize(wide)..], wide, i)
  {
    hide U8;
  }

  lemma NumValue(v: Bytes, wide: bool)
    requires |v| >= NumSize(wide)
    ensures GetNum(v, wide) == NumAt(v, wide, 0)
  {
    hide Get16, Get32, U8;
    if wide { Get32Value(v); } else { Get16Value(v); }
  }

  lemma {:induction false} NumsValue(v: Bytes, k: nat, wide: bool)
    requires |v| == NumsLen(k, wide)
    ensures |GetNums(v, wide)| == k
    ensures forall i :: 0 <= i < k ==> GetNums(v, wide)[i] == NumAt(v, wide, i)
    decreases k
  {
    hide GetNum, NumAt;
    if k > 0 {
      var rest := v[NumSize(wide)..];
      NumValue(v, wide);
      NumsValue(rest, k - 1, wide);
      forall i | 0 <= i < k ensures GetNums(v, wide)[i] == NumAt(v, wide, i) {
        if i > 0 {
          NumAtNext(v, wide, i - 1);
          assert GetNums(v, wide)[i] == GetNums(rest, wide)[i - 1];
        }
      }
    }
  }

  // ----- segments

  /** One segment at the front: its kind, how many AS numbers, and the numbers. */
  predicate SegmentLaid(s: Segment, v: Bytes, wide: bool) {
    && |v| >= 2 && (U8(v[0]) == 1 || U8(v[0]) == 2) && U8(v[1]) > 0
    && s.kind == U8(v[0]) && |s.asns| == U8(v[1]) && |v| >= 2 + NumsLen(|s.asns|, wide)
    && forall i :: 0 <= i < |s.asns| ==> s.asns[i] == NumAt(v[2..], wide, i)
  }

  /** Segments one after the other and nothing else. */
  predicate SegsLaid(segs: seq<Segment>, v: Bytes, wide: bool) {
    if segs == [] then v == []
    else SegmentLaid(segs[0], v, wide) && SegsLaid(segs[1..], v[2 + NumsLen(|segs[0].asns|, wide)..], wide)
  }

  /** No segment can be read at the front, and why. */
  predicate SegmentFault(v: Bytes, wide: bool, e: Err) {
    if |v| < 2 then e == BadLen
    else if U8(v[0]) != 1 && U8(v[0]) != 2 then e == Invalid
    else e == BadLen && (U8(v[1]) == 0 || |v| < 2 + NumsLen(U8(v[1]), wide))
  }

  /** Good segments up to a fault. */
  ghost predicate SegsFault(v: Bytes, wide: bool, e: Err) {
    exists n, segs :: 0 <= n < |v| && FaultAfter(segs, v, wide, n, e)
  }

  predicate FaultAfter(segs: seq<Segment>, v: Bytes, wide: bool, n: nat, e: Err)
    requires n < |v|
  {
    SegsLaid(segs, v[..n], wide) && SegmentFault(v[n..], wide, e)
  }

  lemma NumAtPrefix(v: Bytes, n: nat, wide: bool, i: nat)
    requires n <= |v| && NumsLen(i + 1, wide) <= n
    ensures NumAt(v, wide, i) == NumAt(v[..n], wide, i)
  {
    hide U8;
  }

  /** The segment parser against the layout. */
  lemma SegmentMeaning(s: Segment, used: nat, v: Bytes, wide: bool)
    ensures ParseSegment(v, wide) == Success((s, used)) <==>
            SegmentLaid(s, v, wide) && used == 2 + NumsLen(|s.asns|, wide)
  {
    hide N, U8, GetNums, NumAt;
    if |v| >= 2 {
      OctetValue(v[0]);
      OctetValue(v[1]);
      var k := U8(v[1]);
      var n := 2 + NumsLen(k, wide);
      if |v| >= n {
        NumsValue(v[2..n], k, wide);
        assert v[2..][..n - 2] == v[2..n];
        forall i | 0 <= i < k ensures NumAt(v[2..], wide, i) == NumAt(v[2..n], wide, i) {
          NumAtPrefix(v[2..], n - 2, wide, i);
        }
        if SegmentLaid(s, v, wide) {
          assert s.asns == GetNums(v[2..n], wide);
        }
      }
    }
  }

  lemma SegmentFaultMeaning(v: Bytes, wide: bool, e: Err)
    ensures ParseSegment(v, wide) == Failure(e) <==> SegmentFault(v, wide, e)
  {
    hide N, U8, GetNums;
    if |v| >= 2 {
      OctetValue(v[0]);
      OctetValue(v[1]);
    }
  }

  /** The segment loop accepts exactly the byte strings that are laid out as segments. */
  lemma {:induction false} SegsMeaning(segs: seq<Segment>, v: Bytes, wide: bool)
    ensures ParseSegs(v, wide) == Success(segs) <==> SegsLaid(segs, v, wide)
    decreases |v|
  {
    hide ParseSegment, SegmentLaid;
    if v == [] {
      SegmentNeedsBytes(segs, wide);
    } else if segs != [] {
      var used := 2 + NumsLen(|segs[0].asns|, wide);
      SegmentMeaning(segs[0], used, v, wide);
      if ParseSegment(v, wide).Success? {
        var (s, n) := ParseSegment(v, wide).value;
        SegmentMeaning(s, n, v, wide);
        SegsMeaning(segs[1..], v[n..], wide);
        assert segs == [segs[0]] + segs[1..];
        if ParseSegs(v, wide) == Success(segs) {
          assert segs[1..] == ParseSegs(v[n..], wide).value;
        }
      }
    }
  }

  lemma SegmentNeedsBytes(segs: seq<Segment>, wide: bool)
    ensures SegsLaid(segs, [], wide) <==> segs == []
  {
  }

  /** A segment needs no more than its own bytes. */
  lemma SegmentLaidOf(s: Segment, v: Bytes, m: nat, wide: bool)
    requires m <= |v| && 2 + NumsLen(|s.asns|, wide) <= m
    ensures SegmentLaid(s, v[..m], wide) <==> SegmentLaid(s, v, wide)
  {
    hide U8, NumAt;
    assert v[..m][2..] == v[2..][..m - 2];
    forall i | 0 <= i < |s.asns| ensures NumAt(v[..m][2..], wide, i) == NumAt(v[2..], wide, i) {
      NumAtPrefix(v[2..], m - 2, wide, i);
    }
  }

  /** It fails exactly at the first fault behind good segments, with the error of that fault. */
  lemma SegsFaultMeaning(v: Bytes, wide: bool, e: Err)
    ensures ParseSegs(v, wide) == Failure(e) <==> SegsFault(v, wide, e)
  {
    hide SegsLaid, SegmentFault, ParseSegs;
    if ParseSegs(v, wide) == Failure(e) {
      var n, segs := FindFault(v, wide, e);
    } else if SegsFault(v, wide, e) {
      var n, segs :| 0 <= n < |v| && FaultAfter(segs, v, wide, n, e);
      FaultFails(v, wide, e, n, segs);
    }
  }

  lemma {:induction false} FindFault(v: Bytes, wide: bool, e: Err) returns (n: nat, segs: seq<Segment>)
    requires ParseSegs(v, wide) == Failure(e)
    ensures n < |v| && FaultAfter(segs, v, wide, n, e)
    decreases |v|
  {
    hide ParseSegment, SegmentLaid, SegmentFault;
    SegmentFaultMeaning(v, wide, e);
    if ParseSegment(v, wide).Failure? {
      n, segs := 0, [];
      assert v[0..] == v;
    } else {
      var (s, used) := ParseSegment(v, wide).value;
      SegmentMeaning(s, used, v, wide);
      var k, more := FindFault(v[used..], wide, e);
      n, segs := used + k, [s] + more;
      SegmentLaidOf(s, v, n, wide);
      SliceOfSlice(v, used, 0, k);
      assert v[..n][used..] == v[used..n] && segs[1..] == more;
    }
  }

  lemma {:induction false} FaultFails(v: Bytes, wide: bool, e: Err, n: nat, segs: seq<Segment>)
    requires n < |v| && FaultAfter(segs, v, wide, n, e)
    ensures ParseSegs(v, wide) == Failure(e)
    decreases |v|
  {
    hide ParseSegment, SegmentLaid, SegmentFault;
    if segs == [] {
      assert v[0..] == v;
      SegmentFaultMeaning(v, wide, e);
    } else {
      var s := segs[0];
      var used := 2 + NumsLen(|s.asns|, wide);
      SegmentFits(s, v[..n], wide);
      SegmentLaidOf(s, v, n, wide);
      SegmentMeaning(s, used, v, wide);
      SliceOfSlice(v, used, 0, n - used);
      assert v[..n][used..] == v[used..n];
      FaultFails(v[used..], wide, e, n - used, segs[1..]);
    }
  }

  lemma SegmentFits(s: Segment, v: Bytes, wide: bool)
    requires SegmentLaid(s, v, wide)
    ensures 2 + NumsLen(|s.asns|, wide) <= |v|
  {
  }

  // ----- prefixes

  /** Bit j of a row of octets, most significant first. */
  predicate BitOf(v: Bytes, j: nat)
    requires j < 8 * |v|
  {
    ByteBit(v[j / 8], j % 8)
  }

  /** A prefix at the front: its length in bits, then the octets that hold so many bits; the address has
      these bits and zeros after them. */
  predicate PrefixLaid(width: nat, p: RawPrefix, v: Bytes) {
    && |v| >= 1 && U8(v[0]) <= 8 * width && |v| >= 1 + (U8(v[0]) + 7) / 8
    && p.len == U8(v[0]) && |p.addr| == width
    && forall j :: 0 <= j < 8 * width ==> BitOf(p.addr, j) == (j < p.len && BitOf(v[1..], j))
  }

  predicate PrefixesLaid(width: nat, ps: seq<RawPrefix>, v: Bytes) {
    if ps == [] then v == []
    else PrefixLaid(width, ps[0], v) && PrefixesLaid(width, ps[1..], v[1 + (ps[0].len + 7) / 8..])
  }

  /** No prefix can be read at the front, and why. */
  predicate PrefixFault(width: nat, v: Bytes, e: Err)
    requires v != []
  {
    if U8(v[0]) > 8 * width then e == Invalid else e == BadLen && |v| < 1 + (U8(v[0]) + 7) / 8
  }

  ghost predicate PrefixesFault(width: nat, v: Bytes, e: Err) {
    exists n, ps :: 0 <= n < |v| && PrefixFaultAfter(width, ps, v, n, e)
  }

  predicate PrefixFaultAfter(width: nat, ps: seq<RawPrefix>, v: Bytes, n: nat, e: Err)
    requires n < |v|
  {
    PrefixesLaid(width, ps, v[..n]) && PrefixFault(width, v[n..], e)
  }

  lemma MaskedBit(b: bv8, k: nat, j: nat)
    requires k <= 8 && j < 8
    ensures ByteBit(MaskByte(b, k), j) <==> j < k && ByteBit(b, j)
  {
  }

  lemma MaskedBits(v: Bytes, len: nat, j: nat)
    requires j < 8 * |v|
    ensures BitOf(Masked(v, len), j) <==> j < len && BitOf(v, j)
  {
    hide MaskByte, ByteBit;
    MaskedBit(v[j / 8], BitsInByte(len, j / 8), j % 8);
  }

  lemma SameByte(a: bv8, b: bv8)
    requires forall j :: 0 <= j < 8 ==> ByteBit(a, j) == ByteBit(b, j)
    ensures a == b
  {
    ByteMaskEqual(a, b, 8);
  }

  lemma SameBits(a: Bytes, b: Bytes)
    requires |a| == |b| && forall j :: 0 <= j < 8 * |a| ==> BitOf(a, j) == BitOf(b, j)
    ensures a == b
  {
    hide ByteBit;
    forall i | 0 <= i < |a| ensures a[i] == b[i] {
      forall j | 0 <= j < 8 ensures ByteBit(a[i], j) == ByteBit(b[i], j) {
        assert BitOf(a, 8 * i + j) == BitOf(b, 8 * i + j);
      }
      SameByte(a[i], b[i]);
    }
  }

  /** The bits of an address that was read. */
  lemma ReadBits(width: nat, v: Bytes, len: nat, j: nat)
    requires len <= 8 * width && |v| >= Octets(len) && j < 8 * width
    ensures BitOf(Masked(v[..Octets(len)] + Zeros(width - Octets(len)), len), j) <==> j < len && BitOf(v, j)
  {
    hide ByteBit, Masked;
    MaskedBits(v[..Octets(len)] + Zeros(width - Octets(len)), len, j);
  }

  lemma PrefixMeaning(width: nat, p: RawPrefix, used: nat, v: Bytes)
    ensures ParsePrefix(width, v) == Success((p, used)) <==>
            PrefixLaid(width, p, v) && used == 1 + (p.len + 7) / 8
  {
    hide N, U8, BitOf, Masked, Zeros;
    if v != [] {
      OctetValue(v[0]);
      var len := U8(v[0]);
      var o := Octets(len);
      if len <= 8 * width && |v| >= 1 + o {
        var addr := Masked(v[1..1 + o] + Zeros(width - o), len);
        assert v[1..][..o] == v[1..1 + o];
        forall j | 0 <= j < 8 * width ensures BitOf(addr, j) == (j < len && BitOf(v[1..], j)) {
          ReadBits(width, v[1..], len, j);
        }
        if PrefixLaid(width, p, v) {
          SameBits(p.addr, addr);
        }
      }
    }
  }

  lemma PrefixFaultMeaning(width: nat, v: Bytes, e: Err)
    requires v != []
    ensures ParsePrefix(width, v) == Failure(e) <==> PrefixFault(width, v, e)
  {
    hide N, U8, Masked, Zeros;
    OctetValue(v[0]);
  }

  lemma NoPrefixesInNothing(width: nat, ps: seq<RawPrefix>)
    ensures PrefixesLaid(width, ps, []) <==> ps == []
  {
  }

  lemma PrefixFits(width: nat, p: RawPrefix, v: Bytes)
    requires PrefixLaid(width, p, v)
    ensures 1 + (p.len + 7) / 8 <= |v|
  {
  }

  /** The prefix loop accepts exactly the byte strings that are laid out as prefixes. */
  lemma {:induction false} PrefixesMeaning(width: nat, ps: seq<RawPrefix>, v: Bytes)
    ensures ParsePrefixes(width, v) == Success(ps) <==> PrefixesLaid(width, ps, v)
    decreases |v|
  {
    hide ParsePrefix, PrefixLaid;
    if v == [] {
      NoPrefixesInNothing(width, ps);
    } else if ps != [] {
      PrefixMeaning(width, ps[0], 1 + (ps[0].len + 7) / 8, v);
      if ParsePrefix(width, v).Success? {
        var (p, n) := ParsePrefix(width, v).value;
        PrefixMeaning(width, p, n, v);
        PrefixFits(width, p, v);
        PrefixesMeaning(width, ps[1..], v[n..]);
        assert ps == [ps[0]] + ps[1..];
        if ParsePrefixes(width, v) == Success(ps) {
          assert ps[1..] == ParsePrefixes(width, v[n..]).value;
        }
      }
    }
  }

  lemma PrefixLaidOf(width: nat, p: RawPrefix, v: Bytes, m: nat)
    requires m <= |v| && 1 + (p.len + 7) / 8 <= m
    ensures PrefixLaid(width, p, v[..m]) <==> PrefixLaid(width, p, v)
  {
    hide U8, ByteBit;
    forall j | 0 <= j < p.len ensures BitOf(v[..m][1..], j) == BitOf(v[1..], j) {
    }
    hide BitOf;
  }

  /** It fails exactly at the first fault behind good prefixes, with the error of that fault. */
  lemma PrefixesFaultMeaning(width: nat, v: Bytes, e: Err)
    ensures ParsePrefixes(width, v) == Failure(e) <==> PrefixesFault(width, v, e)
  {
    hide PrefixesLaid, PrefixFault, ParsePrefixes;
    if ParsePrefixes(width, v) == Failure(e) {
      var n, ps := FindPrefixFault(width, v, e);
    } else if PrefixesFault(width, v, e) {
      var n, ps :| 0 <= n < |v| && PrefixFaultAfter(width, ps, v, n, e);
      PrefixFaultFails(width, v, e, n, ps);
    }
  }

  lemma {:induction false} FindPrefixFault(width: nat, v: Bytes, e: Err) returns (n: nat, ps: seq<RawPrefix>)
    requires ParsePrefixes(width, v) == Failure(e)
    ensures n < |v| && PrefixFaultAfter(width, ps, v, n, e)
    decreases |v|
  {
    hide ParsePrefix, PrefixLaid, PrefixFault;
    PrefixFaultMeaning(width, v, e);
    if ParsePrefix(width, v).Failure? {
      n, ps := 0, [];
      assert v[0..] == v;
    } else {
      var (p, used) := ParsePrefix(width, v).value;
      PrefixMeaning(width, p, used, v);
      PrefixFits(width, p, v);
      var k, more := FindPrefixFault(width, v[used..], e);
      n, ps := used + k, [p] + more;
      PrefixLaidOf(width, p, v, n);
      SliceOfSlice(v, used, 0, k);
      assert v[..n][used..] == v[used..n] && ps[1..] == more;
    }
  }

  lemma {:induction false} PrefixFaultFails(width: nat, v: Bytes, e: Err, n: nat, ps: seq<RawPrefix>)
    requires n < |v| && PrefixFaultAfter(width, ps, v, n, e)
    ensures ParsePrefixes(width, v) == Failure(e)
    decreases |v|
  {
    hide ParsePrefix, PrefixLaid, PrefixFault;
    if ps == [] {
      assert v[0..] == v;
      PrefixFaultMeaning(width, v, e);
    } else {
      var p := ps[0];
      var used := 1 + (p.len + 7) / 8;
      PrefixFits(width, p, v[..n]);
      PrefixLaidOf(width, p, v, n);
      PrefixMeaning(width, p, used, v);
      SliceOfSlice(v, used, 0, n - used);
      assert v[..n][used..] == v[used..n];
      PrefixFaultFails(width, v[used..], e, n - used, ps[1..]);
    }
  }
}
