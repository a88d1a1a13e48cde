/** UPDATE messages on the wire (src/update.c, src/pattr.c; section 4.3 of RFC 4271): the whole body, and
    that parser and printer undo each other up to host bits and the extended-length flag. */
module UpdateCodec {
  import opened Wrappers
  import opened Prefix4
  import opened PathAttr
  import opened Wire
  import opened AttrCodec

  // ----- one attribute

  predicate Extended(flags: bv8) {
    flags & EXTENDED != 0
  }

  /** The length of the header and of the value, from the header. */
  function HeaderOf(b: Bytes): (nat, nat)
    requires |b| >= 3 && (Extended(b[0]) ==> |b| >= 4)
  {
    if Extended(b[0]) then (4, Get16(b[2..])) else (3, N(b[2]))
  }

  function ParseAttr(b: Bytes, wide: bool): (r: Result<(Attr, nat)>)
    ensures r.Success? ==> 3 <= r.value.1 <= |b|
  {
    if |b| < 3 || (Extended(b[0]) && |b| < 4) then Failure(BadLen)
    else
      var (h, n) := HeaderOf(b);
      var code := N(b[1]);
      if |b| - h < n then Failure(BadLen)
      else if !FlagsValid(Typed(code), code, b[0]) then Failure(Invalid)
      else
        match ParseValue(code, b[h..h + n], wide)
        case Failure(e) => Failure(e)
        case Success(body) => Success((Attr(b[0], code, body), h + n))
  }

  predicate Printable(a: Attr) {
    && (a.body.Unknown? || a.code == CodeOf(a.body))
    && FlagsValid(!a.body.Unknown?, a.code, a.flags)
    && ValueOk(a.body) && |WriteValue(a.body)| < 0x1_0000
  }

  /** The flags as written: the extended-length bit says how the length is written. */
  function WireFlags(flags: bv8, n: nat): bv8 {
    if n > 255 || Extended(flags) then flags | EXTENDED else flags & 0xEF
  }

  function Header(flags: bv8, code: Code, n: nat): (r: Bytes)
    requires n < 0x1_0000
    ensures |r| == if n > 255 || Extended(flags) then 4 else 3
  {
    [WireFlags(flags, n), B(code)] + if n > 255 || Extended(flags) then Put16(n) else [B(n)]
  }

  function WriteAttr(a: Attr): Bytes
    requires Printable(a)
  {
    var v := WriteValue(a.body);
    Header(a.flags, a.code, |v|) + v
  }

  lemma FlagFacts(typed: bool, code: Code, flags: bv8, n: nat)
    requires typed ==> Typed(code)
    ensures Extended(WireFlags(flags, n)) <==> n > 255 || Extended(flags)
    ensures FlagsValid(typed, code, WireFlags(flags, n)) == FlagsValid(typed, code, flags)
    ensures WireFlags(WireFlags(flags, n), n) == WireFlags(flags, n)
    ensures Extended(flags) ==> WireFlags(flags, n) == flags
    ensures !Extended(flags) && n <= 255 ==> WireFlags(flags, n) == flags
    ensures (code == 14 || code == 15) && typed && FlagsValid(true, code, flags) ==> FlagsValid(false, code, flags)
  {
    BitFacts(flags);
  }

  lemma BitFacts(f: bv8)
    ensures (f | 0x10) & 0x0F == f & 0x0F && (f | 0x10) & 0xC0 == f & 0xC0 && (f | 0x10) & 0x20 == f & 0x20
    ensures (f & 0xEF) & 0x0F == f & 0x0F && (f & 0xEF) & 0xC0 == f & 0xC0 && (f & 0xEF) & 0x20 == f & 0x20
    ensures (f | 0x10) & 0x80 == f & 0x80 && (f | 0x10) & 0x40 == f & 0x40
    ensures (f & 0xEF) & 0x80 == f & 0x80 && (f & 0xEF) & 0x40 == f & 0x40
    ensures (f | 0x10) & 0x10 != 0 && (f & 0xEF) & 0x10 == 0
    ensures f & 0x10 != 0 ==> f | 0x10 == f
    ensures f & 0x10 == 0 ==> f & 0xEF == f
    ensures (f & 0xEF) & 0xEF == f & 0xEF && (f | 0x10) | 0x10 == f | 0x10
    ensures f & 0xC0 == 0x80 ==> f & 0x80 != 0
  {
  }

  /** Reading a header back. */
  lemma HeaderRound(flags: bv8, code: Code, v: Bytes, rest: Bytes)
    requires |v| < 0x1_0000
    ensures var b := Header(flags, code, |v|) + v + rest;
            && |b| >= 3 && (Extended(b[0]) ==> |b| >= 4)
            && b[0] == WireFlags(flags, |v|) && N(b[1]) == code
            && HeaderOf(b) == (|Header(flags, code, |v|)|, |v|)
            && b[|Header(flags, code, |v|)|..|Header(flags, code, |v|)| + |v|] == v
  {
    hide B, N, Put16, Get16, WireFlags, Extended;
    FlagFacts(false, 0, flags, |v|);
    var head := Header(flags, code, |v|);
    var b := head + v + rest;
    NofB(code);
    if |head| == 4 {
      GetPut16(|v|, v + rest);
      assert b[2..] == Put16(|v|) + (v + rest);
    } else {
      NofB(|v|);
    }
  }

  /** An unknown attribute that would not be taken for a known one. */
  predicate Plain(a: Attr)
    requires a.body.Unknown?
  {
    Typed(a.code) ==>
      && FlagsValid(true, a.code, a.flags)
      && ((a.code == 14 && |a.body.raw| >= 5) || (a.code == 15 && |a.body.raw| >= 3)) && !Ipv6Unicast(a.body.raw)
  }

  /** An attribute as it comes back: host bits cleared and the extended-length flag as written. */
  function Canon(a: Attr): Attr
    requires Printable(a)
  {
    Attr(WireFlags(a.flags, |WriteValue(a.body)|), a.code, ClearBody(a.body))
  }

  lemma UnknownRound(a: Attr, wide: bool)
    requires a.body.Unknown? && FlagsValid(false, a.code, a.flags)
    ensures Plain(a) <==>
              FlagsValid(Typed(a.code), a.code, a.flags) && ParseValue(a.code, a.body.raw, wide) == Success(a.body)
  {
    hide N, Get16, ParseSegs, ParsePrefixes, GetNums, GetNum;
  }

  /** An attribute that a parser of this width gives back: no empty segment, the AS number width of the
      session, and not an unknown attribute that would be taken for a known one. */
  predicate ComesBack(a: Attr, wide: bool) {
    Uniform(a.body, wide) && (a.body.Unknown? ==> Plain(a))
  }

  /** Printing then parsing gives exactly these attributes back. */
  lemma AttrRound(a: Attr, wide: bool, rest: Bytes)
    requires Printable(a)
    ensures ComesBack(a, wide) <==> ParseAttr(WriteAttr(a) + rest, wide) == Success((Canon(a), |WriteAttr(a)|))
  {
    hide ParseAttr, WriteAttr, Canon, Uniform, Plain;
    if Uniform(a.body, wide) {
      UniformRound(a, wide, rest);
    } else if ParseAttr(WriteAttr(a) + rest, wide) == Success((Canon(a), |WriteAttr(a)|)) {
      AttrBytes(WriteAttr(a) + rest, wide);
      CanonComesBack(a, wide);
    }
  }

  /** Clearing host bits and writing the length make no difference to whether an attribute comes back. */
  lemma CanonComesBack(a: Attr, wide: bool)
    requires Printable(a)
    ensures ComesBack(Canon(a), wide) <==> ComesBack(a, wide)
  {
    hide WriteValue, WireFlags, FlagsValid, ValueOk, Ipv6Unicast;
    FlagFacts(Typed(a.code), a.code, a.flags, |WriteValue(a.body)|);
  }

  lemma UniformRound(a: Attr, wide: bool, rest: Bytes)
    requires Printable(a) && Uniform(a.body, wide)
    ensures (a.body.Unknown? ==> Plain(a)) <==>
            ParseAttr(WriteAttr(a) + rest, wide) == Success((Canon(a), |WriteAttr(a)|))
  {
    hide ParseValue, WriteValue, Header, HeaderOf, WireFlags, Extended, FlagsValid, Plain, ClearBody, ValueOk, N, Typed;
    var v := WriteValue(a.body);
    HeaderRound(a.flags, a.code, v, rest);
    FlagFacts(Typed(a.code), a.code, a.flags, |v|);
    if a.body.Unknown? {
      UnknownRound(a, wide);
      ClearUnknown(a.body);
    } else {
      CodeIsTyped(a.body);
      ValueRound(a.body, wide);
    }
  }

  lemma ClearUnknown(b: Body)
    requires b.Unknown?
    ensures ClearBody(b) == b && ValueOk(b) && WriteValue(b) == b.raw
  {
  }

  /** The bytes of an attribute with host bits cleared. */
  function MaskAttr(b: Bytes): Bytes
    requires |b| >= 3 && (Extended(b[0]) ==> |b| >= 4)
  {
    var h := HeaderOf(b).0;
    b[..h] + MaskValue(N(b[1]), b[h..])
  }

  lemma HeaderBytes(b: Bytes)
    requires |b| >= 3 && (Extended(b[0]) ==> |b| >= 4)
    ensures var (h, n) := HeaderOf(b);
            h <= |b| && n < 0x1_0000 && (n > 255 ==> Extended(b[0])) && Header(b[0], N(b[1]), n) == b[..h]
  {
    hide B, N, Put16, Get16, WireFlags, Extended;
    FlagFacts(false, 0, b[0], HeaderOf(b).1);
    BofN(b[1]);
    if Extended(b[0]) {
      PutGet16(b[2..]);
      assert b[..4] == [b[0], b[1]] + b[2..][..2];
    } else {
      BofN(b[2]);
      assert b[..3] == [b[0], b[1]] + [b[2]];
    }
  }

  lemma MaskAttrOf(b: Bytes, used: nat)
    requires |b| >= 3 && (Extended(b[0]) ==> |b| >= 4)
    requires HeaderOf(b).0 <= used <= |b|
    ensures var (h, n) := HeaderOf(b);
            && 3 <= h && (Extended(b[0]) ==> used >= 4) && HeaderOf(b[..used]) == HeaderOf(b)
            && MaskAttr(b[..used]) == b[..h] + MaskValue(N(b[1]), b[h..used])
  {
    hide N, MaskValue, Extended;
    var h := HeaderOf(b).0;
    if Extended(b[0]) {
      assert b[..used][2..][..2] == b[2..][..2];
    }
    assert b[..used][..h] == b[..h] && b[..used][h..] == b[h..used];
  }

  /** Parsing then printing gives the same bytes with host bits cleared. */
  lemma AttrBytes(b: Bytes, wide: bool)
    requires ParseAttr(b, wide).Success?
    ensures var (a, used) := ParseAttr(b, wide).value;
            && Printable(a) && ComesBack(a, wide) && a.code == N(b[1])
            && |b[..used]| >= 3 && (Extended(b[0]) ==> used >= 4)
            && WriteAttr(a) == MaskAttr(b[..used]) && |MaskAttr(b[..used])| == used && Canon(a) == a
  {
    hide ParseValue, WriteValue, MaskValue, Header, HeaderOf, WireFlags, Extended, FlagsValid, Plain, ClearBody;
    hide ValueOk, N, MaskAttr, Typed;
    var (h, n) := HeaderOf(b);
    var (a, used) := ParseAttr(b, wide).value;
    HeaderBytes(b);
    ValueBytes(a.code, b[h..h + n], wide);
    FlagFacts(Typed(a.code), a.code, b[0], n);
    MaskAttrOf(b, used);
    if a.body.Unknown? {
      ClearUnknown(a.body);
      UnknownRoundOf(a, wide);
    } else {
      CodeIsTyped(a.body);
    }
  }

  lemma CodeIsTyped(b: Body)
    requires !b.Unknown?
    ensures Typed(CodeOf(b))
  {
  }

  lemma UnknownRoundOf(a: Attr, wide: bool)
    requires a.body.Unknown? && FlagsValid(Typed(a.code), a.code, a.flags)
    requires ParseValue(a.code, a.body.raw, wide) == Success(a.body)
    ensures FlagsValid(false, a.code, a.flags) && Plain(a)
  {
    hide ParseSegs, ParsePrefixes, GetNums, GetNum, Get16, N;
    if a.code == 14 || a.code == 15 {
      FlagFacts(true, a.code, a.flags, 0);
    }
  }

  // ----- the attribute list

  /** Attributes in order; a type code that was seen before is refused. */
  function ParseAttrs(b: Bytes, wide: bool, seen: set<Code>): Result<seq<Attr>>
    decreases |b|
  {
    if b == [] then Success([])
    else
      match ParseAttr(b, wide)
      case Failure(e) => Failure(e)
      case Success(au) =>
        if au.0.code in seen then Failure(Exists)
        else
          match ParseAttrs(b[au.1..], wide, seen + {au.0.code})
          case Failure(e) => Failure(e)
          case Success(rest) => Success([au.0] + rest)
  }

  predicate AllPrintable(attrs: seq<Attr>) {
    forall i :: 0 <= i < |attrs| ==> Printable(attrs[i])
  }

  /** The attributes can be given back by a parser of this width. */
  predicate AllComeBack(attrs: seq<Attr>, wide: bool) {
    forall i :: 0 <= i < |attrs| ==> ComesBack(attrs[i], wide)
  }

  predicate CodesDiffer(attrs: seq<Attr>) {
    forall i, j :: 0 <= i < j < |attrs| ==> attrs[i].code != attrs[j].code
  }

  function WriteAttrs(attrs: seq<Attr>): Bytes
    requires AllPrintable(attrs)
  {
    if attrs == [] then [] else WriteAttr(attrs[0]) + WriteAttrs(attrs[1..])
  }

  function CanonAll(attrs: seq<Attr>): (r: seq<Attr>)
    requires AllPrintable(attrs)
    ensures |r| == |attrs|
  {
    seq(|attrs|, i requires 0 <= i < |attrs| => Canon(attrs[i]))
  }

  lemma {:induction false} AttrsRound(attrs: seq<Attr>, wide: bool, seen: set<Code>)
    requires AllPrintable(attrs) && AllComeBack(attrs, wide) && CodesDiffer(attrs)
    requires forall i :: 0 <= i < |attrs| ==> attrs[i].code !in seen
    ensures ParseAttrs(WriteAttrs(attrs), wide, seen) == Success(CanonAll(attrs))
  {
    hide ParseAttr, WriteAttr, Printable, ComesBack, Canon;
    if attrs != [] {
      var a, rest := attrs[0], WriteAttrs(attrs[1..]);
      assert Printable(a);
      AttrRound(a, wide, rest);
      CanonCode(a);
      FewerAttrs(attrs, wide);
      AttrsRound(attrs[1..], wide, seen + {a.code});
      assert (WriteAttr(a) + rest)[|WriteAttr(a)|..] == rest;
    }
  }

  lemma FewerAttrs(attrs: seq<Attr>, wide: bool)
    requires attrs != [] && AllPrintable(attrs) && AllComeBack(attrs, wide) && CodesDiffer(attrs)
    ensures AllPrintable(attrs[1..]) && AllComeBack(attrs[1..], wide) && CodesDiffer(attrs[1..])
    ensures Printable(attrs[0]) && CanonAll(attrs) == [Canon(attrs[0])] + CanonAll(attrs[1..])
    ensures forall i :: 0 <= i < |attrs[1..]| ==> attrs[1..][i].code != attrs[0].code
  {
    hide Printable, ComesBack, Canon;
  }

  lemma CanonsComeBack(attrs: seq<Attr>, wide: bool)
    requires AllPrintable(attrs)
    ensures AllComeBack(CanonAll(attrs), wide) <==> AllComeBack(attrs, wide)
  {
    hide Printable, ComesBack, Canon;
    forall i | 0 <= i < |attrs| ensures ComesBack(CanonAll(attrs)[i], wide) <==> ComesBack(attrs[i], wide) {
      assert Printable(attrs[i]);
      CanonComesBack(attrs[i], wide);
    }
  }

  lemma CanonCode(a: Attr)
    requires Printable(a)
    ensures Canon(a).code == a.code && |WriteAttr(a)| >= 3
  {
  }

  /** The attribute list with host bits cleared. */
  function MaskAttrs(b: Bytes, wide: bool): Bytes
    decreases |b|
  {
    if b == [] || ParseAttr(b, wide).Failure? then b
    else
      AttrBytes(b, wide);
      var used := ParseAttr(b, wide).value.1;
      MaskAttr(b[..used]) + MaskAttrs(b[used..], wide)
  }

  lemma {:induction false} AttrsBytes(b: Bytes, wide: bool, seen: set<Code>)
    requires ParseAttrs(b, wide, seen).Success?
    ensures var attrs := ParseAttrs(b, wide, seen).value;
            && AllPrintable(attrs) && CanonAll(attrs) == attrs && AllComeBack(attrs, wide)
            && WriteAttrs(attrs) == MaskAttrs(b, wide) && |MaskAttrs(b, wide)| == |b|
    decreases |b|
  {
    hide ParseAttr, WriteAttr, Printable, ComesBack, Canon, Extended, HeaderOf, MaskAttr;
    if b != [] {
      AttrBytes(b, wide);
      var (a, used) := ParseAttr(b, wide).value;
      AttrsBytes(b[used..], wide, seen + {a.code});
      var rest := ParseAttrs(b[used..], wide, seen + {a.code}).value;
      OneMoreAttr(a, rest, wide);
    }
  }

  lemma OneMoreAttr(a: Attr, rest: seq<Attr>, wide: bool)
    requires Printable(a) && AllPrintable(rest) && AllComeBack(rest, wide) && Canon(a) == a && CanonAll(rest) == rest
    requires ComesBack(a, wide)
    ensures var all := [a] + rest;
            && AllPrintable(all) && AllComeBack(all, wide) && CanonAll(all) == all
            && WriteAttrs(all) == WriteAttr(a) + WriteAttrs(rest)
  {
    hide WriteAttr, Printable, ComesBack, Canon;
    assert ([a] + rest)[1..] == rest;
    assert CanonAll([a] + rest) == [Canon(a)] + CanonAll(rest);
  }

  /** The loop that reads attributes. */
  method ReadAttrs(b: Bytes, wide: bool) returns (r: Result<seq<Attr>>)
    ensures r == ParseAttrs(b, wide, {})
  {
    hide ParseAttr;
    var attrs: seq<Attr>, pos: nat := [], 0;
    ghost var seen: set<Code> := {};
    assert b[0..] == b;
    ExtendsStart(ParseAttrs(b, wide, {}));
    while pos < |b|
      invariant 0 <= pos <= |b|
      invariant forall c: Code :: c in seen <==> exists i :: 0 <= i < |attrs| && attrs[i].code == c
      invariant Extends(ParseAttrs(b, wide, {}), attrs, ParseAttrs(b[pos..], wide, seen))
    {
      var one := ParseAttr(b[pos..], wide);
      if one.Failure? {
        return Failure(one.error);
      }
      var a, n := one.value.0, one.value.1;
      var taken := HasCode(attrs, a.code);
      if taken {
        return Failure(Exists);
      }
      SliceOfSlice(b, pos, 0, n);
      ExtendsStep(ParseAttrs(b, wide, {}), attrs, a, ParseAttrs(b[pos + n..], wide, seen + {a.code}));
      SeenGrows(attrs, seen, a);
      attrs, pos, seen := attrs + [a], pos + n, seen + {a.code};
    }
    assert b[pos..] == [] && attrs + [] == attrs;
    return Success(attrs);
  }

  lemma SeenGrows(attrs: seq<Attr>, seen: set<Code>, a: Attr)
    requires forall c: Code :: c in seen <==> exists i :: 0 <= i < |attrs| && attrs[i].code == c
    ensures var more := attrs + [a];
            forall c: Code :: c in seen + {a.code} <==> exists i :: 0 <= i < |more| && more[i].code == c
  {
    var more := attrs + [a];
    assert more[|attrs|] == a;
    forall c: Code | c in seen ensures exists i :: 0 <= i < |more| && more[i].code == c {
      var i :| 0 <= i < |attrs| && attrs[i].code == c;
      assert more[i].code == c;
    }
  }

  method HasCode(attrs: seq<Attr>, code: Code) returns (found: bool)
    ensures found <==> exists i :: 0 <= i < |attrs| && attrs[i].code == code
  {
    for i := 0 to |attrs|
      invariant forall j :: 0 <= j < i ==> attrs[j].code != code
    {
      if attrs[i].code == code {
        return true;
      }
    }
    return false;
  }
}
