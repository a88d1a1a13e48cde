/** Path attributes on the wire (src/pattr.c; section 4.3 of RFC 4271, sections 3 and 4 of RFC 4760): the
    parser and the printer, and that each undoes the other. */
module AttrCodec {
  import opened Wrappers
  import opened PathAttr
  import opened Wire

  // ----- AS numbers and segments

  function NumSize(wide: bool): (n: nat)
    ensures n > 0
  {
    if wide then 4 else 2
  }

  function NumsLen(k: nat, wide: bool): nat {
    if wide then 4 * k else 2 * k
  }

  predicate Fits(n: nat, wide: bool) {
    n < if wide then 0x1_0000_0000 else 0x1_0000
  }

  function PutNum(n: nat, wide: bool): (r: Bytes)
    requires Fits(n, wide)
    ensures |r| == NumSize(wide)
  {
    if wide then Put32(n) else Put16(n)
  }

  function GetNum(b: Bytes, wide: bool): (n: nat)
    requires |b| >= NumSize(wide)
    ensures Fits(n, wide)
  {
    if wide then Get32(b) else Get16(b)
  }

  lemma NumRound(n: nat, wide: bool, rest: Bytes)
    requires Fits(n, wide)
    ensures GetNum(PutNum(n, wide) + rest, wide) == n
  {
    if wide { GetPut32(n, rest); } else { GetPut16(n, rest); }
  }

  lemma NumBytes(b: Bytes, wide: bool)
    requires |b| >= NumSize(wide)
    ensures PutNum(GetNum(b, wide), wide) == b[..NumSize(wide)]
  {
    if wide { PutGet32(b); } else { PutGet16(b); }
  }

  predicate AllFit(ns: seq<nat>, wide: bool) {
    forall i :: 0 <= i < |ns| ==> Fits(ns[i], wide)
  }

  function PutNums(ns: seq<nat>, wide: bool): (r: Bytes)
    requires AllFit(ns, wide)
    ensures |r| == NumsLen(|ns|, wide)
  {
    if ns == [] then [] else PutNum(ns[0], wide) + PutNums(ns[1..], wide)
  }

  function GetNums(b: Bytes, wide: bool): (ns: seq<nat>)
    ensures AllFit(ns, wide)
    decreases |b|
  {
    if |b| < NumSize(wide) then [] else [GetNum(b, wide)] + GetNums(b[NumSize(wide)..], wide)
  }

  lemma {:induction false} NumsRound(ns: seq<nat>, wide: bool)
    requires AllFit(ns, wide)
    ensures GetNums(PutNums(ns, wide), wide) == ns
  {
    hide PutNum, GetNum;
    if ns != [] {
      var rest := PutNums(ns[1..], wide);
      NumRound(ns[0], wide, rest);
      NumsRound(ns[1..], wide);
      assert (PutNum(ns[0], wide) + rest)[NumSize(wide)..] == rest;
    }
  }

  lemma {:induction false} NumsBytes(b: Bytes, k: nat, wide: bool)
    requires |b| == NumsLen(k, wide)
    ensures |GetNums(b, wide)| == k && PutNums(GetNums(b, wide), wide) == b
    decreases k
  {
    hide PutNum, GetNum;
    if k > 0 {
      var n := NumSize(wide);
      NumBytes(b, wide);
      NumsBytes(b[n..], k - 1, wide);
      assert GetNums(b, wide)[1..] == GetNums(b[n..], wide);
      assert b == b[..n] + b[n..];
    }
  }

  /** One segment and the bytes it takes. */
  function ParseSegment(b: Bytes, wide: bool): (r: Result<(Segment, nat)>)
    ensures r.Success? ==> 2 < r.value.1 <= |b|
  {
    if |b| < 2 then Failure(BadLen)
    else if N(b[0]) < 1 || N(b[0]) > 2 then Failure(Invalid)
    else if N(b[1]) == 0 then Failure(BadLen)
    else
      var n := 2 + NumsLen(N(b[1]), wide);
      if |b| < n then Failure(BadLen)
      else Success((Segment(N(b[0]), GetNums(b[2..n], wide)), n))
  }

  function ParseSegs(b: Bytes, wide: bool): Result<seq<Segment>>
    decreases |b|
  {
    if b == [] then Success([])
    else
      match ParseSegment(b, wide)
      case Failure(e) => Failure(e)
      case Success(sn) =>
        match ParseSegs(b[sn.1..], wide)
        case Failure(e) => Failure(e)
        case Success(rest) => Success([sn.0] + rest)
  }

  predicate SegmentOk(s: Segment, wide: bool) {
    1 <= s.kind <= 2 && |s.asns| <= 255 && AllFit(s.asns, wide)
  }

  predicate SegsOk(segs: seq<Segment>, wide: bool) {
    forall i :: 0 <= i < |segs| ==> SegmentOk(segs[i], wide)
  }

  predicate NoneEmpty(segs: seq<Segment>) {
    forall i :: 0 <= i < |segs| ==> segs[i].asns != []
  }

  function WriteSegment(s: Segment, wide: bool): (r: Bytes)
    requires SegmentOk(s, wide)
    ensures |r| == 2 + NumsLen(|s.asns|, wide)
  {
    [B(s.kind), B(|s.asns|)] + PutNums(s.asns, wide)
  }

  function WriteSegs(segs: seq<Segment>, wide: bool): Bytes
    requires SegsOk(segs, wide)
  {
    if segs == [] then [] else WriteSegment(segs[0], wide) + WriteSegs(segs[1..], wide)
  }

  lemma SegmentRound(s: Segment, wide: bool, rest: Bytes)
    requires SegmentOk(s, wide) && s.asns != []
    ensures ParseSegment(WriteSegment(s, wide) + rest, wide) == Success((s, |WriteSegment(s, wide)|))
  {
    hide B, N, PutNums, GetNums;
    NofB(s.kind);
    NofB(|s.asns|);
    NumsRound(s.asns, wide);
    var b := WriteSegment(s, wide) + rest;
    assert b[2..2 + NumsLen(|s.asns|, wide)] == PutNums(s.asns, wide);
  }

  lemma {:induction false} SegsRound(segs: seq<Segment>, wide: bool)
    requires SegsOk(segs, wide) && NoneEmpty(segs)
    ensures ParseSegs(WriteSegs(segs, wide), wide) == Success(segs)
  {
    hide ParseSegment, WriteSegment;
    if segs != [] {
      var rest := WriteSegs(segs[1..], wide);
      SegmentRound(segs[0], wide, rest);
      SegsRound(segs[1..], wide);
      assert (WriteSegment(segs[0], wide) + rest)[|WriteSegment(segs[0], wide)|..] == rest;
      assert segs == [segs[0]] + segs[1..];
    }
  }

  lemma SegmentBytes(b: Bytes, wide: bool)
    requires ParseSegment(b, wide).Success?
    ensures var (s, n) := ParseSegment(b, wide).value;
            SegmentOk(s, wide) && s.asns != [] && WriteSegment(s, wide) == b[..n]
  {
    hide B, N, PutNums, GetNums;
    var n := 2 + NumsLen(N(b[1]), wide);
    BofN(b[0]);
    BofN(b[1]);
    NumsBytes(b[2..n], N(b[1]), wide);
    assert b[..n] == [b[0], b[1]] + b[2..n];
  }

  lemma {:induction false} SegsBytes(b: Bytes, wide: bool)
    requires ParseSegs(b, wide).Success?
    ensures var segs := ParseSegs(b, wide).value;
            SegsOk(segs, wide) && NoneEmpty(segs) && WriteSegs(segs, wide) == b
    decreases |b|
  {
    hide ParseSegment, WriteSegment;
    if b != [] {
      var (s, n) := ParseSegment(b, wide).value;
      SegmentBytes(b, wide);
      SegsBytes(b[n..], wide);
      assert ParseSegs(b, wide).value[1..] == ParseSegs(b[n..], wide).value;
      assert b == b[..n] + b[n..];
    }
  }

  /** The loop that reads segments. */
  method ReadSegs(b: Bytes, wide: bool) returns (r: Result<seq<Segment>>)
    ensures r == ParseSegs(b, wide)
  {
    hide ParseSegment;
    var segs, pos := [], 0;
    assert b[0..] == b;
    ExtendsStart(ParseSegs(b, wide));
    while pos < |b|
      invariant 0 <= pos <= |b|
      invariant Extends(ParseSegs(b, wide), segs, ParseSegs(b[pos..], wide))
    {
      var one := ParseSegment(b[pos..], wide);
      if one.Failure? {
        return Failure(one.error);
      }
      SliceOfSlice(b, pos, 0, one.value.1);
      ExtendsStep(ParseSegs(b, wide), segs, one.value.0, ParseSegs(b[pos + one.value.1..], wide));
      segs, pos := segs + [one.value.0], pos + one.value.1;
    }
    assert b[pos..] == [] && segs + [] == segs;
    return Success(segs);
  }

  // ----- flags and type codes

  const EXTENDED: bv8 := 0x10

  predicate Typed(code: Code) {
    1 <= code <= 8 || code == 14 || code == 15 || code == 17 || code == 18
  }

  function DefaultFlags(code: Code): bv8
    requires Typed(code)
  {
    if code == 4 || code == 14 || code == 15 then 0x80
    else if code == 7 || code == 8 || code == 17 || code == 18 then 0xC0
    else 0x40
  }

  /** The flag bits an attribute may have; `typed` says that its type is known. */
  predicate FlagsValid(typed: bool, code: Code, flags: bv8)
    requires typed ==> Typed(code)
  {
    && flags & 0x0F == 0
    && if typed then flags & 0xC0 == DefaultFlags(code) && (flags & 0x20 != 0 ==> DefaultFlags(code) == 0xC0)
       else flags & 0x80 != 0 && (flags & 0x20 != 0 ==> flags & 0x40 != 0)
  }

  function CodeOf(b: Body): (c: Code)
    requires !b.Unknown?
    ensures Typed(c)
  {
    match b
    case Origin(_) => 1
    case AsPath(_, _) => 2
    case NextHop(_) => 3
    case Med(_) => 4
    case LocalPref(_) => 5
    case AtomicAggregate => 6
    case Aggregator(_, _, _) => 7
    case Community(_) => 8
    case As4Path(_, _) => 17
    case As4Aggregator(_, _) => 18
    case MpReach6(_, _) => 14
    case MpUnreach6(_) => 15
  }

  // ----- values

  function Raws(ps: seq<Prefix6>): (r: seq<RawPrefix>)
    ensures |r| == |ps|
  {
    seq(|ps|, i requires 0 <= i < |ps| => ToRaw6(ps[i]))
  }

  function Unraws(rs: seq<RawPrefix>): (r: seq<Prefix6>)
    ensures |r| == |rs|
  {
    seq(|rs|, i requires 0 <= i < |rs| => FromRaw6(rs[i]))
  }

  /** AFI 2, SAFI 1: IPv6 unicast. */
  predicate Ipv6Unicast(v: Bytes)
    requires |v| >= 3
  {
    Get16(v) == 2 && N(v[2]) == 1
  }

  function ParseReach(v: Bytes): Result<Body> {
    if |v| < 5 then Failure(BadLen)
    else if !Ipv6Unicast(v) then Success(Unknown(v))
    else
      var n := N(v[3]);
      if n != 16 && n != 32 then Failure(Invalid)
      else if |v| < 5 + n then Failure(BadLen)
      else if v[4 + n] != 0 then Failure(Invalid)
      else
        match ParsePrefixes(16, v[5 + n..])
        case Failure(e) => Failure(e)
        case Success(ps) => Success(MpReach6(v[4..4 + n], Unraws(ps)))
  }

  function ParseUnreach(v: Bytes): Result<Body> {
    if |v| < 3 then Failure(BadLen)
    else if !Ipv6Unicast(v) then Success(Unknown(v))
    else
      match ParsePrefixes(16, v[3..])
      case Failure(e) => Failure(e)
      case Success(ps) => Success(MpUnreach6(Unraws(ps)))
  }

  function ParsePath(v: Bytes, wide: bool, as4: bool): Result<Body> {
    match ParseSegs(v, wide)
    case Failure(e) => Failure(e)
    case Success(segs) => Success(if as4 then As4Path(segs, wide) else AsPath(segs, wide))
  }

  function ParseValue(code: Code, v: Bytes, wide: bool): Result<Body> {
    if code == 1 then
      if |v| != 1 then Failure(BadLen) else if N(v[0]) > 2 then Failure(Invalid) else Success(Origin(N(v[0])))
    else if code == 2 then ParsePath(v, wide, false)
    else if code == 3 then (if |v| != 4 then Failure(BadLen) else Success(NextHop(v)))
    else if code == 4 then (if |v| != 4 then Failure(BadLen) else Success(Med(Get32(v))))
    else if code == 5 then (if |v| != 4 then Failure(BadLen) else Success(LocalPref(Get32(v))))
    else if code == 6 then (if |v| != 0 then Failure(BadLen) else Success(AtomicAggregate))
    else if code == 7 then
      if |v| != NumSize(wide) + 4 then Failure(BadLen)
      else Success(Aggregator(GetNum(v, wide), Get32(v[NumSize(wide)..]), wide))
    else if code == 8 then (if |v| % 4 != 0 then Failure(BadLen) else Success(Community(GetNums(v, true))))
    else if code == 17 then ParsePath(v, true, true)
    else if code == 18 then (if |v| != 8 then Failure(BadLen) else Success(As4Aggregator(Get32(v), Get32(v[4..]))))
    else if code == 14 then ParseReach(v)
    else if code == 15 then ParseUnreach(v)
    else Success(Unknown(v))
  }

  /** What the C types of the fields guarantee. */
  predicate InRange(b: Body) {
    match b
    case Origin(o) => o < 256
    case AsPath(segs, _) => forall i :: 0 <= i < |segs| ==> AllFit(segs[i].asns, true)
    case As4Path(segs, _) => forall i :: 0 <= i < |segs| ==> AllFit(segs[i].asns, true)
    case NextHop(hop) => |hop| == 4
    case Med(n) => Fits(n, true)
    case LocalPref(n) => Fits(n, true)
    case Aggregator(asn, id, _) => Fits(asn, true) && Fits(id, true)
    case As4Aggregator(asn, id) => Fits(asn, true) && Fits(id, true)
    case Community(values) => AllFit(values, true)
    case MpReach6(_, nlri) => forall i :: 0 <= i < |nlri| ==> |nlri[i].addr| == 16
    case MpUnreach6(ps) => forall i :: 0 <= i < |ps| ==> |ps[i].addr| == 16
    case _ => true
  }

  /** What the printer demands of a value besides. */
  predicate ValueOk(b: Body) {
    && InRange(b)
    && match b
       case Origin(o) => o <= 2
       case AsPath(segs, wide) => SegsOk(segs, wide)
       case As4Path(segs, wide) => wide && SegsOk(segs, true)
       case Aggregator(asn, _, wide) => Fits(asn, wide)
       case MpReach6(hop, nlri) => (|hop| == 16 || |hop| == 32) && AllWritable(16, Raws(nlri))
       case MpUnreach6(ps) => AllWritable(16, Raws(ps))
       case _ => true
  }

  function WriteValue(b: Body): Bytes
    requires ValueOk(b)
  {
    match b
    case Origin(o) => [B(o)]
    case AsPath(segs, wide) => WriteSegs(segs, wide)
    case As4Path(segs, _) => WriteSegs(segs, true)
    case NextHop(hop) => hop
    case Med(n) => Put32(n)
    case LocalPref(n) => Put32(n)
    case AtomicAggregate => []
    case Aggregator(asn, id, wide) => PutNum(asn, wide) + Put32(id)
    case As4Aggregator(asn, id) => Put32(asn) + Put32(id)
    case Community(values) => PutNums(values, true)
    case MpReach6(hop, nlri) => Put16(2) + [B(1), B(|hop|)] + hop + [0] + WritePrefixes(16, Raws(nlri))
    case MpUnreach6(ps) => Put16(2) + [B(1)] + WritePrefixes(16, Raws(ps))
    case Unknown(raw) => raw
  }

  /** Host bits cleared in the prefixes of a value. */
  function ClearBody(b: Body): Body {
    match b
    case MpReach6(hop, nlri) => MpReach6(hop, Unraws(ClearAll(Raws(nlri))))
    case MpUnreach6(ps) => MpUnreach6(Unraws(ClearAll(Raws(ps))))
    case _ => b
  }

  /** The same on the wire. */
  function MaskValue(code: Code, v: Bytes): Bytes {
    if code == 14 && |v| >= 5 && Ipv6Unicast(v) && |v| >= 5 + N(v[3])
    then v[..5 + N(v[3])] + MaskList(16, v[5 + N(v[3])..])
    else if code == 15 && |v| >= 3 && Ipv6Unicast(v) then v[..3] + MaskList(16, v[3..])
    else v
  }

  // ----- values round trip

  /** A value the parser can give back: no empty segment, and the AS number width of the session. */
  predicate Uniform(b: Body, wide: bool) {
    match b
    case AsPath(segs, w) => w == wide && NoneEmpty(segs)
    case As4Path(segs, w) => w && NoneEmpty(segs)
    case Aggregator(_, _, w) => w == wide
    case _ => true
  }

  lemma RawsBack(rs: seq<RawPrefix>)
    ensures Raws(Unraws(rs)) == rs
  {
  }

  lemma ReachHeader(hop: Bytes, tail: Bytes)
    requires |hop| == 16 || |hop| == 32
    ensures var v := Put16(2) + [B(1), B(|hop|)] + hop + [0] + tail;
            && |v| >= 5 + |hop| && Ipv6Unicast(v) && N(v[3]) == |hop| && v[4 + |hop|] == 0
            && v[4..4 + |hop|] == hop && v[5 + |hop|..] == tail
  {
    hide Put16, Get16, B, N;
    var v := Put16(2) + [B(1), B(|hop|)] + hop + [0] + tail;
    GetPut16(2, [B(1), B(|hop|)] + hop + [0] + tail);
    assert v == Put16(2) + ([B(1), B(|hop|)] + hop + [0] + tail);
    NofB(1);
    NofB(|hop|);
  }

  lemma UnreachHeader(tail: Bytes)
    ensures var v := Put16(2) + [B(1)] + tail;
            |v| >= 3 && Ipv6Unicast(v) && v[3..] == tail
  {
    hide Put16, Get16, B, N;
    var v := Put16(2) + [B(1)] + tail;
    GetPut16(2, [B(1)] + tail);
    assert v == Put16(2) + ([B(1)] + tail);
    NofB(1);
  }

  lemma ReachRound(hop: Bytes, nlri: seq<Prefix6>)
    requires ValueOk(MpReach6(hop, nlri))
    ensures ParseReach(WriteValue(MpReach6(hop, nlri))) == Success(ClearBody(MpReach6(hop, nlri)))
  {
    hide ParsePrefixes, WritePrefixes, Ipv6Unicast, Put16, B, N, ClearAll, Raws, Unraws, AllWritable;
    ReachHeader(hop, WritePrefixes(16, Raws(nlri)));
    ParseWrittenList(16, Raws(nlri));
  }

  lemma UnreachRound(ps: seq<Prefix6>)
    requires ValueOk(MpUnreach6(ps))
    ensures ParseUnreach(WriteValue(MpUnreach6(ps))) == Success(ClearBody(MpUnreach6(ps)))
  {
    hide ParsePrefixes, WritePrefixes, Ipv6Unicast, Put16, B, N, ClearAll, Raws, Unraws, AllWritable;
    UnreachHeader(WritePrefixes(16, Raws(ps)));
    ParseWrittenList(16, Raws(ps));
  }

  lemma PairRound(a: nat, id: nat, wide: bool)
    requires Fits(a, wide) && Fits(id, true)
    ensures var v := PutNum(a, wide) + Put32(id);
            |v| == NumSize(wide) + 4 && GetNum(v, wide) == a && Get32(v[NumSize(wide)..]) == id
  {
    NumRound(a, wide, Put32(id));
    GetPut32(id, []);
    hide PutNum, GetNum, Put32, Get32;
    assert (PutNum(a, wide) + Put32(id))[NumSize(wide)..] == Put32(id) + [];
  }

  lemma CommunityRound(values: seq<nat>)
    requires AllFit(values, true)
    ensures |PutNums(values, true)| % 4 == 0 && GetNums(PutNums(values, true), true) == values
  {
    hide PutNums, GetNums;
    NumsRound(values, true);
  }

  lemma As4PairRound(a: nat, id: nat)
    requires Fits(a, true) && Fits(id, true)
    ensures var v := Put32(a) + Put32(id); |v| == 8 && Get32(v) == a && Get32(v[4..]) == id
  {
    hide Put32, Get32;
    PairRound(a, id, true);
  }

  lemma NumAlone(n: nat)
    requires Fits(n, true)
    ensures Get32(Put32(n)) == n
  {
    hide Put32, Get32;
    GetPut32(n, []);
    assert Put32(n) + [] == Put32(n);
  }

  /** Printing then parsing a value gives it back with host bits cleared. */
  lemma ValueRound(b: Body, wide: bool)
    requires ValueOk(b) && Uniform(b, wide) && !b.Unknown?
    ensures ParseValue(CodeOf(b), WriteValue(b), wide) == Success(ClearBody(b))
  {
    hide B, N, Put32, Get32, PutNum, GetNum, PutNums, GetNums, ParseSegs, WriteSegs, ParseReach, ParseUnreach;
    hide WritePrefixes, SegsOk, AllFit;
    match b
    case Origin(o) => NofB(o);
    case AsPath(segs, w) => SegsRound(segs, w);
    case As4Path(segs, w) => SegsRound(segs, true);
    case NextHop(_) =>
    case Med(n) => NumAlone(n);
    case LocalPref(n) => NumAlone(n);
    case AtomicAggregate =>
    case Aggregator(asn, id, w) => PairRound(asn, id, w);
    case As4Aggregator(asn, id) => As4PairRound(asn, id);
    case Community(values) => CommunityRound(values);
    case MpReach6(hop, nlri) => ReachRound(hop, nlri);
    case MpUnreach6(ps) => UnreachRound(ps);
  }

  lemma RawsInRange(ps: seq<RawPrefix>)
    requires AllWritable(16, ps)
    ensures forall i :: 0 <= i < |ps| ==> |Unraws(ps)[i].addr| == 16
  {
  }

  /** The fixed part of MP_REACH_NLRI. */
  lemma ReachFixed(v: Bytes)
    requires |v| >= 5 && Ipv6Unicast(v) && |v| >= 5 + N(v[3]) && v[4 + N(v[3])] == 0
    ensures var n := N(v[3]);
            Put16(2) + [B(1), B(n)] + v[4..4 + n] + [0] == v[..5 + n]
  {
    hide Put16, Get16, B, N;
    var n := N(v[3]);
    PutGet16(v);
    BofN(v[2]);
    BofN(v[3]);
    assert v[..5 + n] == v[..2] + [v[2], v[3]] + v[4..4 + n] + [v[4 + n]];
  }

  lemma UnreachFixed(v: Bytes)
    requires |v| >= 3 && Ipv6Unicast(v)
    ensures Put16(2) + [B(1)] == v[..3]
  {
    hide Put16, Get16, B, N;
    PutGet16(v);
    BofN(v[2]);
    assert v[..3] == v[..2] + [v[2]];
  }

  lemma ReachBytes(v: Bytes)
    requires ParseReach(v).Success?
    ensures var b := ParseReach(v).value;
            && ValueOk(b) && ClearBody(b) == b && WriteValue(b) == MaskValue(14, v) && |MaskValue(14, v)| == |v|
  {
    hide ParsePrefixes, WritePrefixes, MaskList, Put16, B, N, ClearAll, Writable, Ipv6Unicast;
    if Ipv6Unicast(v) {
      var n := N(v[3]);
      var ps := ParsePrefixes(16, v[5 + n..]).value;
      WriteParsedList(16, v[5 + n..]);
      RawsBack(ps);
      RawsInRange(ps);
      ReachFixed(v);
    }
  }

  lemma UnreachBytes(v: Bytes)
    requires ParseUnreach(v).Success?
    ensures var b := ParseUnreach(v).value;
            && ValueOk(b) && ClearBody(b) == b && WriteValue(b) == MaskValue(15, v) && |MaskValue(15, v)| == |v|
  {
    hide ParsePrefixes, WritePrefixes, MaskList, Put16, B, N, ClearAll, Writable, Ipv6Unicast;
    if Ipv6Unicast(v) {
      var ps := ParsePrefixes(16, v[3..]).value;
      WriteParsedList(16, v[3..]);
      RawsBack(ps);
      RawsInRange(ps);
      UnreachFixed(v);
    }
  }

  lemma PairBytes(v: Bytes, wide: bool)
    requires |v| == NumSize(wide) + 4
    ensures PutNum(GetNum(v, wide), wide) + Put32(Get32(v[NumSize(wide)..])) == v
  {
    hide PutNum, GetNum, Put32, Get32;
    var n := NumSize(wide);
    NumBytes(v, wide);
    PutGet32(v[n..]);
    assert v[n..][..4] == v[n..];
    assert v == v[..n] + v[n..];
  }

  lemma SegsInRange(segs: seq<Segment>, wide: bool)
    requires SegsOk(segs, wide)
    ensures forall i :: 0 <= i < |segs| ==> AllFit(segs[i].asns, true)
  {
    forall i | 0 <= i < |segs| ensures AllFit(segs[i].asns, true) {
      assert SegmentOk(segs[i], wide);
    }
  }

  lemma PathBytes(v: Bytes, wide: bool, as4: bool)
    requires ParsePath(v, wide, as4).Success? && (as4 ==> wide)
    ensures var b := ParsePath(v, wide, as4).value;
            && ValueOk(b) && WriteValue(b) == v && Uniform(b, wide) && ClearBody(b) == b
            && (if as4 then b.As4Path? else b.AsPath?)
  {
    hide ParseSegs, WriteSegs, SegsOk, AllFit, NoneEmpty;
    SegsBytes(v, wide);
    SegsInRange(ParseSegs(v, wide).value, wide);
  }

  /** Parsing then printing a value gives the same bytes with host bits cleared. */
  lemma ValueBytes(code: Code, v: Bytes, wide: bool)
    requires ParseValue(code, v, wide).Success?
    ensures var b := ParseValue(code, v, wide).value;
            && ValueOk(b) && ClearBody(b) == b && (b.Unknown? || CodeOf(b) == code) && Uniform(b, wide)
            && WriteValue(b) == MaskValue(code, v) && |MaskValue(code, v)| == |v|
            && (b.Unknown? ==> b.raw == v)
  {
    hide ParseReach, ParseUnreach, ParsePath, WriteValue, ValueOk, ClearBody, Ipv6Unicast, MaskList, NoneEmpty;
    if code == 14 {
      hide MaskValue;
      ReachBytes(v);
      ReachKind(v);
    } else if code == 15 {
      hide MaskValue;
      UnreachBytes(v);
      ReachKind(v);
    } else if code == 2 || code == 17 {
      PathBytes(v, wide || code == 17, code == 17);
    } else {
      PlainBytes(code, v, wide);
    }
  }

  lemma ReachKind(v: Bytes)
    ensures ParseReach(v).Success? ==> ParseReach(v).value.MpReach6? || ParseReach(v).value == Unknown(v)
    ensures ParseUnreach(v).Success? ==> ParseUnreach(v).value.MpUnreach6? || ParseUnreach(v).value == Unknown(v)
  {
  }

  lemma PlainBytes(code: Code, v: Bytes, wide: bool)
    requires ParseValue(code, v, wide).Success? && code != 2 && code != 17 && code != 14 && code != 15
    ensures var b := ParseValue(code, v, wide).value;
            && ValueOk(b) && ClearBody(b) == b && (b.Unknown? || CodeOf(b) == code) && Uniform(b, wide)
            && WriteValue(b) == v
            && (b.Unknown? ==> b.raw == v)
  {
    hide B, N, Put32, Get32, PutNum, GetNum, PutNums, GetNums, AllFit;
    if code == 1 {
      BofN(v[0]);
    } else if code == 4 || code == 5 {
      PutGet32(v);
      assert v[..4] == v;
    } else if code == 7 {
      PairBytes(v, wide);
    } else if code == 18 {
      As4PairBytes(v);
    } else if code == 8 {
      NumsBytes(v, |v| / 4, true);
    }
  }

  lemma As4PairBytes(v: Bytes)
    requires |v| == 8
    ensures Put32(Get32(v)) + Put32(Get32(v[4..])) == v
  {
    hide Put32, Get32;
    PairBytes(v, true);
  }
}
