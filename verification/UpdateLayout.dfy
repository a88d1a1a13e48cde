/** The layout of an UPDATE as bytes (section 4.3 of RFC 4271, sections 3 and 4 of RFC 4760), said without the
    parser. The parser of src/update.c and src/pattr.c accepts exactly the byte strings with this layout,
    gives the message they stand for, and otherwise fails with the error of the first fault. */
module UpdateLayout {
  import opened Wrappers
  import opened Prefix4
  import opened PathAttr
  import opened Wire
  import opened AttrCodec
  import opened UpdateCodec
  import opened UpdateMessage
  import opened WireLayout

  // ----- values, by type code

  /** AFI 2 and SAFI 1, IPv6 unicast, at the front. */
  predicate SaysIpv6(v: Bytes)
    requires |v| >= 3
  {
    U16(v, 0) == 2 && U8(v[2]) == 1
  }

  /** MP_REACH_NLRI: family, next hop with its length, a reserved zero octet, prefixes. */
  predicate ReachLaid(v: Bytes, body: Body) {
    && |v| >= 5
    && if SaysIpv6(v) then
         var n := U8(v[3]);
         && (n == 16 || n == 32) && |v| >= 5 + n && U8(v[4 + n]) == 0
         && body.MpReach6? && body.nexthop == v[4..4 + n] && PrefixesLaid(16, Raws(body.nlri), v[5 + n..])
       else body == Unknown(v)
  }

  /** MP_UNREACH_NLRI: family and prefixes. */
  predicate UnreachLaid(v: Bytes, body: Body) {
    && |v| >= 3
    && if SaysIpv6(v) then body.MpUnreach6? && PrefixesLaid(16, Raws(body.withdrawn), v[3..]) else body == Unknown(v)
  }

  /** What the octets of a value stand for, given the type code. */
  predicate ValueLaid(code: nat, v: Bytes, wide: bool, body: Body) {
    match code
    case 1 => |v| == 1 && U8(v[0]) <= 2 && body == Origin(U8(v[0]))
    case 2 => body.AsPath? && body.is4b == wide && SegsLaid(body.segments, v, wide)
    case 3 => |v| == 4 && body == NextHop(v)
    case 4 => |v| == 4 && body == Med(U32(v, 0))
    case 5 => |v| == 4 && body == LocalPref(U32(v, 0))
    case 6 => v == [] && body == AtomicAggregate
    case 7 => if wide then |v| == 8 && body == Aggregator(U32(v, 0), U32(v, 4), true)
              else |v| == 6 && body == Aggregator(U16(v, 0), U32(v, 2), false)
    case 8 => |v| % 4 == 0 && body.Community? && |body.values| == |v| / 4
              && forall i :: 0 <= i < |body.values| ==> body.values[i] == NumAt(v, true, i)
    case 14 => ReachLaid(v, body)
    case 15 => UnreachLaid(v, body)
    case 17 => body.As4Path? && body.is4b && SegsLaid(body.segments, v, true)
    case 18 => |v| == 8 && body == As4Aggregator(U32(v, 0), U32(v, 4))
    case _ => body == Unknown(v)
  }

  ghost predicate ReachFault(v: Bytes, e: Err) {
    if |v| < 5 then e == BadLen
    else if !SaysIpv6(v) then false
    else
      var n := U8(v[3]);
      if n != 16 && n != 32 then e == Invalid
      else if |v| < 5 + n then e == BadLen
      else if U8(v[4 + n]) != 0 then e == Invalid
      else PrefixesFault(16, v[5 + n..], e)
  }

  ghost predicate UnreachFault(v: Bytes, e: Err) {
    if |v| < 3 then e == BadLen else SaysIpv6(v) && PrefixesFault(16, v[3..], e)
  }

  /** The octets cannot be the value of an attribute of this type, and why. */
  ghost predicate ValueFault(code: nat, v: Bytes, wide: bool, e: Err) {
    match code
    case 1 => if |v| != 1 then e == BadLen else U8(v[0]) > 2 && e == Invalid
    case 2 => SegsFault(v, wide, e)
    case 3 => |v| != 4 && e == BadLen
    case 4 => |v| != 4 && e == BadLen
    case 5 => |v| != 4 && e == BadLen
    case 6 => v != [] && e == BadLen
    case 7 => (if wide then |v| != 8 else |v| != 6) && e == BadLen
    case 8 => |v| % 4 != 0 && e == BadLen
    case 14 => ReachFault(v, e)
    case 15 => UnreachFault(v, e)
    case 17 => SegsFault(v, true, e)
    case 18 => |v| != 8 && e == BadLen
    case _ => false
  }

  lemma SaysIpv6Iff(v: Bytes)
    requires |v| >= 3
    ensures Ipv6Unicast(v) <==> SaysIpv6(v)
  {
    hide Get16, U16, N, U8;
    Get16Value(v);
    OctetValue(v[2]);
  }

  lemma ZeroOctet(b: bv8)
    ensures b == 0 <==> U8(b) == 0
  {
  }

  lemma RawsSame(ps: seq<Prefix6>, rs: seq<RawPrefix>)
    ensures Raws(ps) == rs <==> ps == Unraws(rs)
  {
    if Raws(ps) == rs {
      forall i | 0 <= i < |ps| ensures ps[i] == Unraws(rs)[i] {
        assert Raws(ps)[i] == rs[i];
      }
    }
  }

  lemma Prefixes6Meaning(ps: seq<Prefix6>, v: Bytes)
    ensures ParsePrefixes(16, v).Success? && ps == Unraws(ParsePrefixes(16, v).value) <==>
            PrefixesLaid(16, Raws(ps), v)
  {
    hide ParsePrefixes, PrefixesLaid, Raws, Unraws;
    PrefixesMeaning(16, Raws(ps), v);
    if ParsePrefixes(16, v).Success? {
      RawsSame(ps, ParsePrefixes(16, v).value);
    }
  }

  lemma ReachMeaning(v: Bytes, body: Body, e: Err)
    ensures ParseReach(v) == Success(body) <==> ReachLaid(v, body)
    ensures ParseReach(v) == Failure(e) <==> ReachFault(v, e)
  {
    hide N, U8, Ipv6Unicast, SaysIpv6, ParsePrefixes, PrefixesLaid, PrefixesFault, Unraws, Raws;
    if |v| >= 5 {
      SaysIpv6Iff(v);
      OctetValue(v[3]);
      var n := U8(v[3]);
      if |v| >= 5 + n {
        ZeroOctet(v[4 + n]);
        PrefixesFaultMeaning(16, v[5 + n..], e);
        if body.MpReach6? {
          Prefixes6Meaning(body.nlri, v[5 + n..]);
        }
      }
    }
  }

  lemma UnreachMeaning(v: Bytes, body: Body, e: Err)
    ensures ParseUnreach(v) == Success(body) <==> UnreachLaid(v, body)
    ensures ParseUnreach(v) == Failure(e) <==> UnreachFault(v, e)
  {
    hide Ipv6Unicast, SaysIpv6, ParsePrefixes, PrefixesLaid, PrefixesFault, Unraws, Raws;
    if |v| >= 3 {
      SaysIpv6Iff(v);
      PrefixesFaultMeaning(16, v[3..], e);
      if body.MpUnreach6? {
        Prefixes6Meaning(body.withdrawn, v[3..]);
      }
    }
  }

  lemma PathMeaning(v: Bytes, wide: bool, as4: bool, body: Body, e: Err)
    ensures ParsePath(v, wide, as4) == Success(body) <==>
            && (if as4 then body.As4Path? else body.AsPath?)
            && body.is4b == wide && SegsLaid(body.segments, v, wide)
    ensures ParsePath(v, wide, as4) == Failure(e) <==> SegsFault(v, wide, e)
  {
    hide ParseSegs, SegsLaid, SegsFault;
    SegsFaultMeaning(v, wide, e);
    if body.AsPath? || body.As4Path? {
      SegsMeaning(body.segments, v, wide);
    }
  }

  /** Numbers of four octets that start inside a value. */
  lemma Get32At(v: Bytes, i: nat)
    requires i + 4 <= |v|
    ensures Get32(v[i..]) == U32(v, i)
  {
    hide Get32, U8;
    Get32Value(v[i..]);
  }

  lemma CommunityMeaning(v: Bytes, body: Body)
    requires |v| % 4 == 0
    ensures body == Community(GetNums(v, true)) <==>
            && body.Community? && |body.values| == |v| / 4
            && forall i :: 0 <= i < |body.values| ==> body.values[i] == NumAt(v, true, i)
  {
    hide GetNums, NumAt;
    NumsValue(v, |v| / 4, true);
    if body.Community? && |body.values| == |v| / 4
       && forall i :: 0 <= i < |body.values| ==> body.values[i] == NumAt(v, true, i) {
      assert body.values == GetNums(v, true);
    }
  }

  lemma AggregatorMeaning(v: Bytes, wide: bool)
    requires |v| == NumSize(wide) + 4
    ensures GetNum(v, wide) == (if wide then U32(v, 0) else U16(v, 0))
    ensures Get32(v[NumSize(wide)..]) == (if wide then U32(v, 4) else U32(v, 2))
  {
    hide Get32, U8, GetNum;
    NumValue(v, wide);
    Get32At(v, NumSize(wide));
  }

  lemma FixedMeaning(code: Code, v: Bytes, wide: bool, body: Body, e: Err)
    requires code == 1 || code == 3 || code == 4 || code == 5 || code == 6
    ensures ParseValue(code, v, wide) == Success(body) <==> ValueLaid(code, v, wide, body)
    ensures ParseValue(code, v, wide) == Failure(e) <==> ValueFault(code, v, wide, e)
  {
    hide N, U8, Get32, U32;
    if code == 1 && |v| == 1 {
      OctetValue(v[0]);
    } else if (code == 4 || code == 5) && |v| == 4 {
      Get32Value(v);
    }
  }

  lemma RowMeaning(code: Code, v: Bytes, wide: bool, body: Body, e: Err)
    requires code == 7 || code == 8 || code == 18
    ensures ParseValue(code, v, wide) == Success(body) <==> ValueLaid(code, v, wide, body)
    ensures ParseValue(code, v, wide) == Failure(e) <==> ValueFault(code, v, wide, e)
  {
    hide Get32, U16, U32, GetNums, NumAt, GetNum;
    if code == 7 && |v| == NumSize(wide) + 4 {
      AggregatorMeaning(v, wide);
    } else if code == 18 && |v| == 8 {
      Get32Value(v);
      Get32At(v, 4);
    } else if code == 8 && |v| % 4 == 0 {
      CommunityMeaning(v, body);
    }
  }

  lemma OtherMeaning(code: Code, v: Bytes, wide: bool, body: Body, e: Err)
    requires code == 0 || (8 < code && code != 14 && code != 15 && code != 17 && code != 18)
    ensures ParseValue(code, v, wide) == Success(body) <==> ValueLaid(code, v, wide, body)
    ensures ParseValue(code, v, wide) == Failure(e) <==> ValueFault(code, v, wide, e)
  {
  }

  /** Every type code's value is read as its layout says, and refused as its faults say. */
  lemma ValueMeaning(code: Code, v: Bytes, wide: bool, body: Body, e: Err)
    ensures ParseValue(code, v, wide) == Success(body) <==> ValueLaid(code, v, wide, body)
    ensures ParseValue(code, v, wide) == Failure(e) <==> ValueFault(code, v, wide, e)
  {
    hide ParsePath, ParseReach, ParseUnreach, ReachLaid, UnreachLaid, ReachFault, UnreachFault, SegsLaid, SegsFault;
    if code == 2 || code == 17 {
      PathMeaning(v, wide || code == 17, code == 17, body, e);
    } else if code == 14 {
      ReachMeaning(v, body, e);
    } else if code == 15 {
      UnreachMeaning(v, body, e);
    } else {
      hide ParseValue, ValueLaid, ValueFault;
      if code == 7 || code == 8 || code == 18 {
        RowMeaning(code, v, wide, body, e);
      } else if 1 <= code <= 6 {
        FixedMeaning(code, v, wide, body, e);
      } else {
        OtherMeaning(code, v, wide, body, e);
      }
    }
  }

  // ----- one attribute

  /** The flag octets an attribute of a type may have: well-known, optional and not transitive, optional and
      transitive with or without the partial bit; an unrecognised one is optional. */
  predicate FlagsAllowed(code: nat, flags: bv8) {
    match code
    case 1 | 2 | 3 | 5 | 6 => flags == 0x40 || flags == 0x50
    case 4 | 14 | 15 => flags == 0x80 || flags == 0x90
    case 7 | 8 | 17 | 18 => flags == 0xC0 || flags == 0xD0 || flags == 0xE0 || flags == 0xF0
    case _ => flags == 0x80 || flags == 0x90 || flags == 0xC0 || flags == 0xD0 || flags == 0xE0 || flags == 0xF0
  }

  lemma FlagsMeaning(code: Code, flags: bv8)
    ensures FlagsValid(Typed(code), code, flags) <==> FlagsAllowed(code, flags)
  {
  }

  /** Flags, type code, and a length of one octet or, with the extended-length bit, two. */
  function HeadLen(b: Bytes): nat
    requires b != []
  {
    if b[0] & 0x10 != 0 then 4 else 3
  }

  function Span(b: Bytes): nat
    requires b != [] && |b| >= HeadLen(b)
  {
    HeadLen(b) + if b[0] & 0x10 != 0 then U16(b, 2) else U8(b[2])
  }

  /** The attribute at the front is there as a whole. */
  predicate Whole(b: Bytes) {
    b != [] && |b| >= HeadLen(b) && |b| >= Span(b)
  }

  predicate AttrLaid(a: Attr, b: Bytes, wide: bool) {
    && Whole(b) && a.flags == b[0] && a.code == U8(b[1]) && FlagsAllowed(a.code, a.flags)
    && ValueLaid(a.code, b[HeadLen(b)..Span(b)], wide, a.body)
  }

  ghost predicate AttrFault(b: Bytes, wide: bool, e: Err) {
    if !Whole(b) then e == BadLen
    else if !FlagsAllowed(U8(b[1]), b[0]) then e == Invalid
    else ValueFault(U8(b[1]), b[HeadLen(b)..Span(b)], wide, e)
  }

  lemma HeadMeaning(b: Bytes)
    ensures Whole(b) <==>
            |b| >= 3 && (Extended(b[0]) ==> |b| >= 4) && HeaderOf(b).0 + HeaderOf(b).1 <= |b|
    ensures Whole(b) ==> HeaderOf(b) == (HeadLen(b), Span(b) - HeadLen(b))
  {
    hide N, U8, Get16;
    if |b| >= 3 {
      if |b| >= 4 {
        Get16Value(b[2..]);
      }
      OctetValue(b[2]);
    }
  }

  /** The attribute parser against the layout. */
  lemma AttrMeaning(b: Bytes, wide: bool, a: Attr, used: nat, e: Err)
    ensures ParseAttr(b, wide) == Success((a, used)) <==> AttrLaid(a, b, wide) && used == Span(b)
    ensures ParseAttr(b, wide) == Failure(e) <==> AttrFault(b, wide, e)
  {
    hide Whole, HeadLen, Span, HeaderOf, Extended, N, U8, FlagsValid, FlagsAllowed, Typed, ParseValue, ValueLaid;
    hide ValueFault;
    HeadMeaning(b);
    if Whole(b) {
      OctetValue(b[1]);
      var code := N(b[1]);
      FlagsMeaning(code, b[0]);
      ValueMeaning(code, b[HeadLen(b)..Span(b)], wide, a.body, e);
    }
  }

  // ----- the attribute list

  /** Attributes one after the other and nothing else. */
  predicate AttrsLaid(attrs: seq<Attr>, b: Bytes, wide: bool) {
    if attrs == [] then b == []
    else AttrLaid(attrs[0], b, wide) && AttrsLaid(attrs[1..], b[Span(b)..], wide)
  }

  /** The type code of some attribute in the list. */
  predicate Listed(attrs: seq<Attr>, code: nat) {
    exists i :: 0 <= i < |attrs| && attrs[i].code == code
  }

  /** Different attributes up to one that is faulty or whose type was there before. */
  ghost predicate AttrsFault(b: Bytes, wide: bool, seen: set<Code>, e: Err) {
    exists n, attrs :: 0 <= n < |b| && AttrFaultAfter(attrs, b, wide, seen, n, e)
  }

  predicate Fresh(attrs: seq<Attr>, seen: set<Code>) {
    CodesDiffer(attrs) && forall i :: 0 <= i < |attrs| ==> attrs[i].code !in seen
  }

  ghost predicate AttrFaultAfter(attrs: seq<Attr>, b: Bytes, wide: bool, seen: set<Code>, n: nat, e: Err)
    requires n < |b|
  {
    AttrsLaid(attrs, b[..n], wide) && Fresh(attrs, seen) && AttrFaultHere(attrs, b[n..], wide, seen, e)
  }

  ghost predicate AttrFaultHere(attrs: seq<Attr>, b: Bytes, wide: bool, seen: set<Code>, e: Err) {
    || AttrFault(b, wide, e)
    || (e == Exists && exists a :: AttrLaid(a, b, wide) && (a.code in seen || Listed(attrs, a.code)))
  }

  lemma FreshMore(a: Attr, rest: seq<Attr>, seen: set<Code>)
    ensures Fresh([a] + rest, seen) <==> a.code !in seen && Fresh(rest, seen + {a.code})
  {
    var all := [a] + rest;
    if Fresh(all, seen) {
      forall i, j | 0 <= i < j < |rest| ensures rest[i].code != rest[j].code {
        assert all[i + 1].code != all[j + 1].code;
      }
      forall i | 0 <= i < |rest| ensures rest[i].code !in seen + {a.code} {
        assert all[0].code != all[i + 1].code;
      }
      assert all[0].code !in seen;
    }
  }

  lemma AttrFits(a: Attr, b: Bytes, wide: bool)
    requires AttrLaid(a, b, wide)
    ensures b != [] && 3 <= HeadLen(b) <= |b| && Span(b) <= |b| && Span(b) >= 3
  {
  }

  lemma NoAttrsInNothing(attrs: seq<Attr>, wide: bool)
    ensures AttrsLaid(attrs, [], wide) <==> attrs == []
  {
  }

  /** The attribute loop accepts exactly the byte strings that are laid out as attributes of different types. */
  lemma {:induction false} AttrsMeaning(attrs: seq<Attr>, b: Bytes, wide: bool, seen: set<Code>)
    ensures ParseAttrs(b, wide, seen) == Success(attrs) <==> AttrsLaid(attrs, b, wide) && Fresh(attrs, seen)
    decreases |b|
  {
    hide ParseAttr, AttrLaid, Span, HeadLen, Fresh;
    if b == [] {
      NoAttrsInNothing(attrs, wide);
      NoneFresh(seen);
    } else if attrs != [] {
      if ParseAttr(b, wide).Success? {
        var (a, n) := ParseAttr(b, wide).value;
        AttrMeaning(b, wide, a, n, Ok);
        AttrMeaning(b, wide, attrs[0], n, Ok);
        AttrFits(a, b, wide);
        assert attrs == [attrs[0]] + attrs[1..];
        FreshMore(attrs[0], attrs[1..], seen);
        AttrsMeaning(attrs[1..], b[n..], wide, seen + {a.code});
        if ParseAttrs(b, wide, seen) == Success(attrs) {
          assert attrs[1..] == ParseAttrs(b[n..], wide, seen + {a.code}).value;
        }
      } else if AttrLaid(attrs[0], b, wide) {
        AttrFits(attrs[0], b, wide);
        AttrMeaning(b, wide, attrs[0], Span(b), Ok);
      }
    }
  }

  lemma NoneFresh(seen: set<Code>)
    ensures Fresh([], seen)
  {
  }

  /** An attribute needs no more than its own bytes. */
  lemma AttrLaidOf(a: Attr, b: Bytes, m: nat, wide: bool)
    requires m <= |b| && (Whole(b[..m]) || (Whole(b) && Span(b) <= m))
    ensures Whole(b) && Whole(b[..m]) && Span(b[..m]) == Span(b) <= m
    ensures AttrLaid(a, b[..m], wide) <==> AttrLaid(a, b, wide)
  {
    hide U8, ValueLaid, FlagsAllowed;
    assert b[..m][HeadLen(b)..Span(b)] == b[HeadLen(b)..Span(b)];
  }

  /** The attribute loop fails exactly at the first attribute that is faulty or repeats a type. */
  lemma AttrsFaultMeaning(b: Bytes, wide: bool, seen: set<Code>, e: Err)
    ensures ParseAttrs(b, wide, seen) == Failure(e) <==> AttrsFault(b, wide, seen, e)
  {
    hide AttrFaultAfter, ParseAttrs;
    if ParseAttrs(b, wide, seen) == Failure(e) {
      var n, attrs := FindAttrFault(b, wide, seen, e);
    } else if AttrsFault(b, wide, seen, e) {
      var n, attrs :| 0 <= n < |b| && AttrFaultAfter(attrs, b, wide, seen, n, e);
      AttrFaultFails(b, wide, seen, e, n, attrs);
    }
  }

  lemma HereLater(a: Attr, more: seq<Attr>, b: Bytes, wide: bool, seen: set<Code>, e: Err)
    ensures AttrFaultHere([a] + more, b, wide, seen, e) <==> AttrFaultHere(more, b, wide, seen + {a.code}, e)
  {
    hide AttrFault, AttrLaid;
    forall c: nat ensures Listed([a] + more, c) <==> c == a.code || Listed(more, c) {
      ListedMore(a, more, c);
    }
  }

  lemma ListedMore(a: Attr, more: seq<Attr>, c: nat)
    ensures Listed([a] + more, c) <==> c == a.code || Listed(more, c)
  {
    var all := [a] + more;
    assert all[0] == a && forall i :: 0 <= i < |more| ==> all[i + 1] == more[i];
    if i :| 0 <= i < |more| && more[i].code == c {
      assert all[i + 1].code == c;
    }
  }

  lemma {:induction false} FindAttrFault(b: Bytes, wide: bool, seen: set<Code>, e: Err)
    returns (n: nat, attrs: seq<Attr>)
    requires ParseAttrs(b, wide, seen) == Failure(e)
    ensures n < |b| && AttrFaultAfter(attrs, b, wide, seen, n, e)
    decreases |b|
  {
    hide ParseAttr, AttrLaid, AttrFault, Span, HeadLen, Whole, Fresh;
    assert b[0..] == b;
    NoneFresh(seen);
    if ParseAttr(b, wide).Failure? {
      AttrMeaning(b, wide, Attr(0, 0, AtomicAggregate), 0, e);
      n, attrs := 0, [];
    } else {
      var (a, used) := ParseAttr(b, wide).value;
      AttrMeaning(b, wide, a, used, e);
      if a.code in seen {
        n, attrs := 0, [];
      } else {
        var k, more := FindAttrFault(b[used..], wide, seen + {a.code}, e);
        n, attrs := used + k, [a] + more;
        WholeOf(a, b, wide);
        AttrLaidOf(a, b, n, wide);
        SliceOfSlice(b, used, 0, k);
        assert b[..n][used..] == b[used..n] && attrs[1..] == more;
        FreshMore(a, more, seen);
        HereLater(a, more, b[n..], wide, seen, e);
      }
    }
  }

  lemma WholeOf(a: Attr, b: Bytes, wide: bool)
    requires AttrLaid(a, b, wide)
    ensures Whole(b) && b != [] && |b| >= HeadLen(b)
  {
  }

  lemma {:induction false} AttrFaultFails(b: Bytes, wide: bool, seen: set<Code>, e: Err, n: nat, attrs: seq<Attr>)
    requires n < |b| && AttrFaultAfter(attrs, b, wide, seen, n, e)
    ensures ParseAttrs(b, wide, seen) == Failure(e)
    decreases |b|
  {
    hide ParseAttr, AttrLaid, AttrFault, Span, HeadLen, Whole, Fresh;
    if attrs == [] {
      assert b[0..] == b;
      if AttrFault(b, wide, e) {
        AttrMeaning(b, wide, Attr(0, 0, AtomicAggregate), 0, e);
      } else {
        var a :| AttrLaid(a, b, wide) && (a.code in seen || Listed([], a.code));
        WholeOf(a, b, wide);
        AttrMeaning(b, wide, a, Span(b), e);
      }
    } else {
      var a := attrs[0];
      WholeOf(a, b[..n], wide);
      AttrFits(a, b[..n], wide);
      AttrLaidOf(a, b, n, wide);
      WholeOf(a, b, wide);
      var used := Span(b);
      AttrMeaning(b, wide, a, used, e);
      SliceOfSlice(b, used, 0, n - used);
      assert b[..n][used..] == b[used..n] && attrs == [a] + attrs[1..];
      FreshMore(a, attrs[1..], seen);
      HereLater(a, attrs[1..], b[n..], wide, seen, e);
      AttrFaultFails(b[used..], wide, seen + {a.code}, e, n - used, attrs[1..]);
    }
  }

  // ----- the whole body

  /** An attribute of some kind is there. */
  predicate HasOrigin(attrs: AttrList) {
    exists i :: 0 <= i < |attrs| && attrs[i].Some? && attrs[i].value.body.Origin?
  }

  predicate HasAsPath(attrs: AttrList) {
    exists i :: 0 <= i < |attrs| && attrs[i].Some? && attrs[i].value.body.AsPath?
  }

  predicate HasNextHop(attrs: AttrList) {
    exists i :: 0 <= i < |attrs| && attrs[i].Some? && attrs[i].value.body.NextHop?
  }

  /** IPv6 prefixes are announced. */
  predicate Announces6(attrs: AttrList) {
    exists i :: 0 <= i < |attrs| && attrs[i].Some? && attrs[i].value.body.MpReach6? && attrs[i].value.body.nlri != []
  }

  /** What is announced has its mandatory attributes. */
  predicate Complete(attrs: AttrList, announces: bool) {
    && (announces ==> HasOrigin(attrs) && HasAsPath(attrs) && HasNextHop(attrs))
    && (Announces6(attrs) ==> HasOrigin(attrs) && HasAsPath(attrs))
  }

  predicate SegmentSound(s: Segment, wide: bool) {
    && (s.kind == 1 || s.kind == 2) && |s.asns| <= 255
    && forall j :: 0 <= j < |s.asns| ==> s.asns[j] < if wide then 0x1_0000_0000 else 0x1_0000
  }

  predicate SegmentsSound(segs: seq<Segment>, wide: bool) {
    forall i :: 0 <= i < |segs| ==> SegmentSound(segs[i], wide)
  }

  /** Nothing is missing, and a path's segments can be sent; AS4_PATH has four-octet numbers. */
  predicate Sound(a: Option<Attr>) {
    && a.Some?
    && (a.value.body.AsPath? ==> SegmentsSound(a.value.body.segments, a.value.body.is4b))
    && (a.value.body.As4Path? ==> a.value.body.is4b && SegmentsSound(a.value.body.segments, true))
  }

  /** Another attribute of the same type follows. */
  predicate Repeats(attrs: AttrList, i: nat)
    requires i < |attrs|
  {
    attrs[i].Some? &&
    exists j :: i < j < |attrs| && attrs[j].Some? && attrs[j].value.code == attrs[i].value.code
  }

  predicate NoRepeats(attrs: AttrList, n: nat)
    requires n <= |attrs|
  {
    forall k :: 0 <= k < n ==> !Repeats(attrs, k)
  }

  predicate AllSound(attrs: AttrList) {
    forall i :: 0 <= i < |attrs| ==> Sound(attrs[i])
  }

  lemma BadPathIff(attrs: AttrList, i: nat)
    requires i < |attrs|
    ensures BadAt(SketchesOf(attrs), i) <==> !Sound(attrs[i])
    ensures RepeatedAt(SketchesOf(attrs), i) <==> Repeats(attrs, i)
  {
    RepeatsIff(attrs, i);
    if attrs[i].Some? {
      var b := attrs[i].value.body;
      if b.AsPath? || b.As4Path? {
        SegmentsSoundIff(b.segments, b.is4b);
      }
    }
    hide SegsOk, SegmentsSound, RepeatedAt, Repeats;
  }

  lemma SegmentsSoundIff(segs: seq<Segment>, wide: bool)
    ensures SegmentsSound(segs, wide) <==> SegsOk(segs, wide)
  {
    forall i | 0 <= i < |segs| ensures SegmentSound(segs[i], wide) <==> SegmentOk(segs[i], wide) {
    }
    hide SegmentSound, SegmentOk;
  }

  lemma RepeatsIff(attrs: AttrList, i: nat)
    requires i < |attrs|
    ensures RepeatedAt(SketchesOf(attrs), i) <==> Repeats(attrs, i)
  {
    var ts := SketchesOf(attrs);
    assert forall j :: 0 <= j < |attrs| ==> (ts[j].Some? <==> attrs[j].Some?);
    assert forall j :: 0 <= j < |attrs| && attrs[j].Some? ==> ts[j].value.code == attrs[j].value.code;
  }

  lemma KindsIff(attrs: AttrList)
    ensures var ts := SketchesOf(attrs);
            && (Any(ts, (t: Sketch) => t.origin) <==> HasOrigin(attrs))
            && (Any(ts, (t: Sketch) => t.path) <==> HasAsPath(attrs))
            && (Any(ts, (t: Sketch) => t.hop) <==> HasNextHop(attrs))
            && (Any(ts, (t: Sketch) => t.reach) <==> Announces6(attrs))
  {
    hide BadPath;
    var ts := SketchesOf(attrs);
    forall i | 0 <= i < |attrs| && attrs[i].Some? ensures ts[i] == Some(SketchOf(attrs[i].value)) {
    }
    assert forall i :: 0 <= i < |attrs| ==> (ts[i].Some? <==> attrs[i].Some?);
  }

  /** Validation of a message: it passes exactly if every attribute is sound, none repeats and what is announced
      is complete; an unsound attribute with no repeated one before it is a length error, all else is invalid. */
  lemma ValidateMeaning(attrs: AttrList, announces: bool)
    ensures var err := Validate(SketchesOf(attrs), announces);
            && (err == Ok <==> AllSound(attrs) && NoRepeats(attrs, |attrs|) && Complete(attrs, announces))
            && (err == BadLen <==> exists i :: 0 <= i < |attrs| && !Sound(attrs[i]) && NoRepeats(attrs, i))
            && (err == Ok || err == BadLen || err == Invalid)
  {
    hide SketchesOf, BadAt, RepeatedAt, Sound, Repeats, Any, HasOrigin, HasAsPath, HasNextHop, Announces6;
    hide FirstBad, FirstRepeated;
    var ts := SketchesOf(attrs);
    KindsIff(attrs);
    forall i | 0 <= i < |attrs|
      ensures BadAt(ts, i) <==> !Sound(attrs[i])
      ensures RepeatedAt(ts, i) <==> Repeats(attrs, i)
    {
      BadPathIff(attrs, i);
    }
    var bad, repeated := FirstBad(ts, 0), FirstRepeated(ts, 0);
    if bad < |ts| && bad <= repeated {
      assert !Sound(attrs[bad]) && NoRepeats(attrs, bad);
    }
  }

  /** An attribute list in memory that is there as bytes, with no type twice. */
  predicate ListLaid(attrs: AttrList, b: Bytes, wide: bool) {
    && (forall i :: 0 <= i < |attrs| ==> attrs[i].Some?)
    && AttrsLaid(Values(attrs), b, wide) && CodesDiffer(Values(attrs))
  }

  /** The whole body: withdrawn prefixes and attributes, each behind its length in octets, then the announced
      prefixes, which need their mandatory attributes. */
  predicate UpdateLaid(m: Update, b: Bytes, wide: bool) {
    && |b| >= 4
    && var w := U16(b, 0);
    && |b| >= 4 + w
    && var a := U16(b, 2 + w);
    && |b| >= 4 + w + a
    && PrefixesLaid(4, Raw4s(m.withdrawn), b[2..2 + w])
    && PrefixesLaid(4, Raw4s(m.nlri), b[4 + w + a..])
    && ListLaid(m.attrs, b[4 + w..4 + w + a], wide) && Complete(m.attrs, m.nlri != [])
  }

  lemma Raw4sSame(ps: seq<Prefix>, rs: seq<RawPrefix>)
    requires AllWritable(4, rs)
    ensures Raw4s(ps) == rs <==> ps == From4s(rs)
  {
    RawBack4(rs);
    forall i | 0 <= i < |ps| && Raw4s(ps) == rs ensures ps[i] == From4s(rs)[i] {
      assert Raw4s(ps)[i] == rs[i];
    }
  }

  lemma Prefixes4Meaning(ps: seq<Prefix>, b: Bytes)
    ensures PrefixesLaid(4, Raw4s(ps), b) <==>
            && ParsePrefixes(4, b).Success? && AllWritable(4, ParsePrefixes(4, b).value)
            && ps == From4s(ParsePrefixes(4, b).value)
  {
    hide ParsePrefixes, PrefixesLaid, Raw4s, From4s, AllWritable;
    PrefixesMeaning(4, Raw4s(ps), b);
    if ParsePrefixes(4, b).Success? {
      WriteParsedList(4, b);
      Raw4sSame(ps, ParsePrefixes(4, b).value);
    }
  }

  /** Parsed attributes are sound and do not repeat, so only completeness is left to check. */
  lemma ParsedAreSound(b: Bytes, wide: bool)
    requires ParseAttrs(b, wide, {}).Success?
    ensures var attrs := Somes(ParseAttrs(b, wide, {}).value);
            AllSound(attrs) && NoRepeats(attrs, |attrs|)
  {
    hide ParseAttrs, SegmentsSound, SegsOk, Printable, AttrsLaid;
    var attrs := ParseAttrs(b, wide, {}).value;
    AttrsBytes(b, wide, {});
    AttrsMeaning(attrs, b, wide, {});
    forall i | 0 <= i < |attrs| ensures Sound(Some(attrs[i])) {
      assert Printable(attrs[i]);
      PrintableIsSound(attrs[i]);
    }
    hide Sound;
  }

  lemma PrintableIsSound(a: Attr)
    requires Printable(a)
    ensures Sound(Some(a))
  {
    hide SegsOk, SegmentsSound;
    if a.body.AsPath? || a.body.As4Path? {
      SegmentsSoundIff(a.body.segments, a.body.is4b);
    }
  }

  lemma SomesOfValues(attrs: AttrList)
    requires forall i :: 0 <= i < |attrs| ==> attrs[i].Some?
    ensures Somes(Values(attrs)) == attrs
  {
  }

  lemma ListMeaning(attrs: AttrList, b: Bytes, wide: bool)
    ensures ListLaid(attrs, b, wide) <==>
            ParseAttrs(b, wide, {}).Success? && attrs == Somes(ParseAttrs(b, wide, {}).value)
  {
    hide ParseAttrs, AttrsLaid, CodesDiffer;
    if ParseAttrs(b, wide, {}).Success? {
      var parsed := ParseAttrs(b, wide, {}).value;
      ValuesOfSomes(parsed);
      AttrsMeaning(parsed, b, wide, {});
    }
    if forall i :: 0 <= i < |attrs| ==> attrs[i].Some? {
      SomesOfValues(attrs);
      AttrsMeaning(Values(attrs), b, wide, {});
    }
  }

  lemma CheckMeaning(b: Bytes, wide: bool, announces: bool)
    requires ParseAttrs(b, wide, {}).Success?
    ensures var attrs := Somes(ParseAttrs(b, wide, {}).value);
            Validate(SketchesOf(attrs), announces) == if Complete(attrs, announces) then Ok else Invalid
  {
    hide ParseAttrs, Validate, SketchesOf, Complete, Sound;
    ParsedAreSound(b, wide);
    ValidateMeaning(Somes(ParseAttrs(b, wide, {}).value), announces);
  }

  lemma RestMeaning(withdrawn: seq<RawPrefix>, w: Bytes, a: Bytes, n: Bytes, wide: bool, m: Update)
    requires ParsePrefixes(4, w) == Success(withdrawn)
    ensures ParseRest(withdrawn, w, a, n, wide) == Success(m) <==>
            && PrefixesLaid(4, Raw4s(m.withdrawn), w) && PrefixesLaid(4, Raw4s(m.nlri), n)
            && ListLaid(m.attrs, a, wide) && Complete(m.attrs, m.nlri != [])
  {
    hide ParsePrefixes, PrefixesLaid, ParseAttrs, ListLaid, Validate, SketchesOf, Complete, AllWritable;
    hide Raw4s, From4s, Somes;
    WriteParsedList(4, w);
    Prefixes4Meaning(m.withdrawn, w);
    Prefixes4Meaning(m.nlri, n);
    if ParsePrefixes(4, n).Success? {
      WriteParsedList(4, n);
    }
    ListMeaning(m.attrs, a, wide);
    if ParseAttrs(a, wide, {}).Success? {
      CheckMeaning(a, wide, m.nlri != []);
    }
  }

  /** The parser accepts exactly the bodies with this layout and gives the message they stand for. */
  lemma UpdateMeaning(b: Bytes, wide: bool, m: Update)
    ensures ParseUpdate(b, wide) == Success(m) <==> UpdateLaid(m, b, wide)
  {
    hide ParsePrefixes, PrefixesLaid, ListLaid, ParseRest, Get16, U16, Complete, Raw4s;
    if |b| >= 4 {
      Get16Value(b);
      var w := Get16(b);
      if |b| >= 4 + w {
        Get16At(b, 2 + w);
        var a := U16(b, 2 + w);
        var wb := b[2..2 + w];
        PrefixesMeaning(4, Raw4s(m.withdrawn), wb);
        if |b| >= 4 + w + a && ParsePrefixes(4, wb).Success? {
          RestMeaning(ParsePrefixes(4, wb).value, wb, b[4 + w..4 + w + a], b[4 + w + a..], wide, m);
        }
      }
    }
  }

  lemma Get16At(v: Bytes, i: nat)
    requires i + 2 <= |v|
    ensures Get16(v[i..]) == U16(v, i)
  {
    hide Get16, U8;
    Get16Value(v[i..]);
  }

  /** What is wrong with a body, part by part. */
  ghost predicate UpdateFault(b: Bytes, wide: bool, e: Err) {
    if |b| < 4 || |b| < 2 + U16(b, 0) then e == BadLen
    else
      var w := U16(b, 0);
      || PrefixesFault(4, b[2..2 + w], e)
      || (ArePrefixes(b[2..2 + w]) && BodyFault(b[2 + w..], wide, e))
  }

  ghost predicate ArePrefixes(b: Bytes) {
    exists ps :: PrefixesLaid(4, ps, b)
  }

  /** The part behind the withdrawn prefixes. */
  ghost predicate BodyFault(b: Bytes, wide: bool, e: Err) {
    if |b| < 2 || |b| < 2 + U16(b, 0) then e == BadLen
    else
      var a := U16(b, 0);
      AttrsFault(b[2..2 + a], wide, {}, e) || FaultBehind(b[2..2 + a], b[2 + a..], wide, e)
  }

  /** Good attributes, and then what is announced is at fault. */
  ghost predicate FaultBehind(a: Bytes, b: Bytes, wide: bool, e: Err) {
    exists attrs :: ListLaid(attrs, a, wide) && AnnouncedFault(attrs, b, e)
  }

  ghost predicate AnnouncedFault(attrs: AttrList, b: Bytes, e: Err) {
    || PrefixesFault(4, b, e)
    || (e == Invalid && exists ps :: PrefixesLaid(4, ps, b) && !Complete(attrs, ps != []))
  }

  lemma AnnouncedMeaning(attrs: AttrList, b: Bytes, e: Err)
    ensures AnnouncedFault(attrs, b, e) <==>
            if ParsePrefixes(4, b).Failure? then ParsePrefixes(4, b).error == e
            else e == Invalid && !Complete(attrs, ParsePrefixes(4, b).value != [])
  {
    hide ParsePrefixes, PrefixesLaid, PrefixesFault, Complete;
    PrefixesFaultMeaning(4, b, e);
    if ParsePrefixes(4, b).Success? {
      PrefixesMeaning(4, ParsePrefixes(4, b).value, b);
    }
    forall ps | PrefixesLaid(4, ps, b) ensures ParsePrefixes(4, b) == Success(ps) {
      PrefixesMeaning(4, ps, b);
    }
  }

  lemma RestFaultMeaning(withdrawn: seq<RawPrefix>, w: Bytes, a: Bytes, n: Bytes, wide: bool, e: Err)
    requires ParsePrefixes(4, w) == Success(withdrawn)
    ensures ParseRest(withdrawn, w, a, n, wide) == Failure(e) <==>
            AttrsFault(a, wide, {}, e) || FaultBehind(a, n, wide, e)
  {
    hide ParsePrefixes, ParseAttrs, AttrsFault, ListLaid, AnnouncedFault, Validate, SketchesOf, Complete, AllWritable;
    hide From4s, Somes;
    AttrsFaultMeaning(a, wide, {}, e);
    forall attrs | ListLaid(attrs, a, wide)
      ensures ParseAttrs(a, wide, {}).Success? && attrs == Somes(ParseAttrs(a, wide, {}).value)
    {
      ListMeaning(attrs, a, wide);
    }
    if ParseAttrs(a, wide, {}).Success? {
      var attrs := Somes(ParseAttrs(a, wide, {}).value);
      ListMeaning(attrs, a, wide);
      AnnouncedMeaning(attrs, n, e);
      if ParsePrefixes(4, n).Success? {
        WriteParsedList(4, n);
        CheckMeaning(a, wide, ParsePrefixes(4, n).value != []);
        assert |From4s(ParsePrefixes(4, n).value)| == |ParsePrefixes(4, n).value|;
      }
    }
  }

  /** And it refuses every other body with the error of its first fault. */
  lemma UpdateFaultMeaning(b: Bytes, wide: bool, e: Err)
    ensures ParseUpdate(b, wide) == Failure(e) <==> UpdateFault(b, wide, e)
  {
    hide ParsePrefixes, PrefixesLaid, PrefixesFault, ParseRest, Get16, U16, AttrsFault, FaultBehind;
    if |b| >= 4 {
      Get16Value(b);
      var w := Get16(b);
      if |b| >= 2 + w {
        var wb, rest := b[2..2 + w], b[2 + w..];
        PrefixesFaultMeaning(4, wb, e);
        forall ps | PrefixesLaid(4, ps, wb) ensures ParsePrefixes(4, wb) == Success(ps) {
          PrefixesMeaning(4, ps, wb);
        }
        if ParsePrefixes(4, wb).Success? {
          PrefixesMeaning(4, ParsePrefixes(4, wb).value, wb);
          if |rest| >= 2 {
            Get16Value(rest);
            var a := Get16(rest);
            if |rest| >= 2 + a {
              SliceOfSlice(b, 2 + w, 2, 2 + a);
              RestFaultMeaning(ParsePrefixes(4, wb).value, wb, rest[2..2 + a], rest[2 + a..], wide, e);
            }
          }
        }
      }
    }
  }

  /** What the printer writes has the layout of the message that comes back. */
  lemma WrittenIsLaid(m: Update, cap: nat, wide: bool)
    requires WriteUpdate(m, cap).Success?
    ensures (forall i :: 0 <= i < |m.attrs| ==> m.attrs[i].Some?) && AllPrintable(Values(m.attrs))
    ensures AllComeBack(Values(m.attrs), wide) <==> UpdateLaid(CanonUpdate(m), WriteUpdate(m, cap).value, wide)
  {
    hide WriteUpdate, UpdateLaid, AllPrintable, AllComeBack, CanonUpdate, ParseUpdate;
    UpdateRound(m, cap, wide);
    UpdateMeaning(WriteUpdate(m, cap).value, wide, CanonUpdate(m));
  }
}
