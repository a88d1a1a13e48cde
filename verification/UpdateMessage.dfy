/** The body of an UPDATE (src/update.c): validation, printer and parser, and the two round trips. */
module UpdateMessage {
  import opened Wrappers
  import opened Prefix4
  import opened PathAttr
  import opened Wire
  import opened AttrCodec
  import opened UpdateCodec

  datatype Update = Update(withdrawn: seq<Prefix>, attrs: AttrList, nlri: seq<Prefix>)

  // ----- validation

  /** What validation looks at in one attribute. */
  datatype Sketch = Sketch(code: Code, badPath: bool, origin: bool, path: bool, hop: bool, reach: bool)

  predicate BadPath(b: Body) {
    match b
    case AsPath(segs, wide) => !SegsOk(segs, wide)
    case As4Path(segs, wide) => !wide || !SegsOk(segs, wide)
    case _ => false
  }

  function SketchOf(a: Attr): Sketch {
    Sketch(a.code, BadPath(a.body), a.body.Origin?, a.body.AsPath?, a.body.NextHop?,
           a.body.MpReach6? && a.body.nlri != [])
  }

  function SketchesOf(attrs: AttrList): (r: seq<Option<Sketch>>)
    ensures |r| == |attrs|
  {
    seq(|attrs|, i requires 0 <= i < |attrs| => if attrs[i].None? then None else Some(SketchOf(attrs[i].value)))
  }

  predicate BadAt(ts: seq<Option<Sketch>>, i: nat)
    requires i < |ts|
  {
    ts[i].None? || ts[i].value.badPath
  }

  /** Another attribute with the same type code follows. */
  predicate RepeatedAt(ts: seq<Option<Sketch>>, i: nat)
    requires i < |ts|
  {
    ts[i].Some? && exists j :: i < j < |ts| && ts[j].Some? && ts[j].value.code == ts[i].value.code
  }

  function FirstBad(ts: seq<Option<Sketch>>, i: nat): (k: nat)
    requires i <= |ts|
    ensures i <= k <= |ts| && (k < |ts| ==> BadAt(ts, k)) && forall j :: i <= j < k ==> !BadAt(ts, j)
    decreases |ts| - i
  {
    if i == |ts| || BadAt(ts, i) then i else FirstBad(ts, i + 1)
  }

  function FirstRepeated(ts: seq<Option<Sketch>>, i: nat): (k: nat)
    requires i <= |ts|
    ensures i <= k <= |ts| && (k < |ts| ==> RepeatedAt(ts, k)) && forall j :: i <= j < k ==> !RepeatedAt(ts, j)
    decreases |ts| - i
  {
    if i == |ts| || RepeatedAt(ts, i) then i else FirstRepeated(ts, i + 1)
  }

  predicate Any(ts: seq<Option<Sketch>>, f: Sketch -> bool) {
    exists i :: 0 <= i < |ts| && ts[i].Some? && f(ts[i].value)
  }

  /** The first fault decides the error; then announcements need their well-known attributes. */
  function Validate(ts: seq<Option<Sketch>>, announces: bool): Err {
    var bad, repeated := FirstBad(ts, 0), FirstRepeated(ts, 0);
    if repeated < bad then Invalid
    else if bad < |ts| then BadLen
    else
      var origin, path := Any(ts, (t: Sketch) => t.origin), Any(ts, (t: Sketch) => t.path);
      var hop, reach := Any(ts, (t: Sketch) => t.hop), Any(ts, (t: Sketch) => t.reach);
      if announces && !(origin && path && hop) then Invalid
      else if reach && !(origin && path) then Invalid
      else Ok
  }

  /** The message has no faulty or repeated attribute and what it announces is complete. */
  lemma ValidMeans(ts: seq<Option<Sketch>>, announces: bool)
    requires Validate(ts, announces) == Ok
    ensures forall i :: 0 <= i < |ts| ==> !BadAt(ts, i) && !RepeatedAt(ts, i)
  {
  }

  /** The smallest repeated position below i, or n when there is none. */
  ghost predicate IsFirstRepeated(ts: seq<Option<Sketch>>, i: nat, k: nat)
    requires i <= |ts|
  {
    && (k < |ts| ==> k < i && RepeatedAt(ts[..i], k))
    && k <= |ts| && forall j :: 0 <= j < i && j < k ==> !RepeatedAt(ts[..i], j)
  }

  ghost predicate IsIndex(ts: seq<Option<Sketch>>, i: nat, first: map<Code, nat>)
    requires i <= |ts|
  {
    && (forall c :: c in first ==> first[c] < i && ts[first[c]].Some? && ts[first[c]].value.code == c)
    && (forall j :: 0 <= j < i && ts[j].Some? ==> ts[j].value.code in first && first[ts[j].value.code] <= j)
  }

  lemma RepeatedNext(ts: seq<Option<Sketch>>, i: nat, first: map<Code, nat>, j: nat)
    requires i < |ts| && IsIndex(ts, i, first) && j <= i
    ensures RepeatedAt(ts[..i + 1], j) <==>
            (j < i && RepeatedAt(ts[..i], j))
            || (j < i && ts[i].Some? && ts[j].Some? && ts[j].value.code == ts[i].value.code)
  {
    var a, b := ts[..i], ts[..i + 1];
    assert forall k :: 0 <= k < i ==> b[k] == a[k];
    assert b[i] == ts[i];
    if j < i && RepeatedAt(a, j) {
      var k :| j < k < i && a[k].Some? && a[k].value.code == a[j].value.code;
      assert b[k].Some? && b[k].value.code == b[j].value.code;
    }
    if j < i && ts[i].Some? && ts[j].Some? && ts[j].value.code == ts[i].value.code {
      assert b[i].Some? && b[i].value.code == b[j].value.code;
    }
  }

  lemma FirstRepeatedNext(ts: seq<Option<Sketch>>, i: nat, first: map<Code, nat>, k: nat)
    requires i < |ts| && IsIndex(ts, i, first) && IsFirstRepeated(ts, i, k)
    ensures var again := ts[i].Some? && ts[i].value.code in first;
            IsFirstRepeated(ts, i + 1, if again && first[ts[i].value.code] < k then first[ts[i].value.code] else k)
  {
    var again := ts[i].Some? && ts[i].value.code in first;
    var k' := if again && first[ts[i].value.code] < k then first[ts[i].value.code] else k;
    forall j | 0 <= j <= i ensures RepeatedAt(ts[..i + 1], j) <==>
      (j < i && RepeatedAt(ts[..i], j)) || (j < i && ts[i].Some? && ts[j].Some? && ts[j].value.code == ts[i].value.code)
    {
      RepeatedNext(ts, i, first, j);
    }
    hide RepeatedAt;
  }

  /** The one-pass check, with a table of the first position of each type code. */
  method FindFaults(ts: seq<Option<Sketch>>) returns (bad: nat, repeated: nat)
    ensures bad == FirstBad(ts, 0) && repeated == FirstRepeated(ts, 0)
  {
    hide FirstBad, FirstRepeated, RepeatedAt;
    var n := |ts|;
    bad, repeated := n, n;
    var first: map<Code, nat> := map[];
    var i := 0;
    while i < n
      invariant 0 <= i <= n && IsIndex(ts, i, first) && IsFirstRepeated(ts, i, repeated)
      invariant bad <= n && (bad < n ==> bad < i && BadAt(ts, bad))
      invariant forall j :: 0 <= j < i && j < bad ==> !BadAt(ts, j)
    {
      FirstRepeatedNext(ts, i, first, repeated);
      if bad == n && BadAt(ts, i) {
        bad := i;
      }
      if ts[i].Some? {
        var c := ts[i].value.code;
        if c in first {
          if first[c] < repeated {
            repeated := first[c];
          }
        } else {
          first := first[c := i];
        }
      }
      i := i + 1;
    }
    assert ts[..i] == ts;
  }

  // ----- printer and parser

  function Raw4s(ps: seq<Prefix>): (r: seq<RawPrefix>)
    ensures |r| == |ps|
  {
    seq(|ps|, i requires 0 <= i < |ps| => ToRaw4(ps[i]))
  }

  function From4s(rs: seq<RawPrefix>): (r: seq<Prefix>)
    requires AllWritable(4, rs)
    ensures |r| == |rs|
  {
    seq(|rs|, i requires 0 <= i < |rs| => FromRaw4(rs[i]))
  }

  predicate Lengths(ps: seq<Prefix>) {
    forall i :: 0 <= i < |ps| ==> ps[i].len <= 32
  }

  lemma LengthsWritable(ps: seq<Prefix>)
    ensures Lengths(ps) <==> AllWritable(4, Raw4s(ps))
  {
    forall i | 0 <= i < |ps| ensures Writable(4, Raw4s(ps)[i]) <==> ps[i].len <= 32 {
    }
  }

  function Values(attrs: AttrList): (r: seq<Attr>)
    requires forall i :: 0 <= i < |attrs| ==> attrs[i].Some?
    ensures |r| == |attrs| && forall i :: 0 <= i < |r| ==> r[i] == attrs[i].value
  {
    seq(|attrs|, i requires 0 <= i < |attrs| => attrs[i].value)
  }

  function Somes(attrs: seq<Attr>): (r: AttrList)
    ensures |r| == |attrs| && forall i :: 0 <= i < |r| ==> r[i] == Some(attrs[i])
  {
    seq(|attrs|, i requires 0 <= i < |attrs| => Some(attrs[i]))
  }

  /** The three parts with their lengths. */
  function Assemble(w: Bytes, a: Bytes, n: Bytes): Bytes
    requires |w| < 0x1_0000 && |a| < 0x1_0000
  {
    Put16(|w|) + w + Put16(|a|) + a + n
  }

  function WriteUpdate(m: Update, cap: nat): Result<Bytes> {
    var err := Validate(SketchesOf(m.attrs), m.nlri != []);
    if err != Ok then Failure(err)
    else if !Lengths(m.withdrawn) || !Lengths(m.nlri) then Failure(BadLen)
    else
      NoneMissing(m.attrs, m.nlri != []);
      LengthsWritable(m.withdrawn);
      LengthsWritable(m.nlri);
      var attrs := Values(m.attrs);
      if !AllPrintable(attrs) then Failure(BadLen)
      else
        var w, a, n := WritePrefixes(4, Raw4s(m.withdrawn)), WriteAttrs(attrs), WritePrefixes(4, Raw4s(m.nlri));
        if |w| > 65535 || |a| > 65535 then Failure(BadLen)
        else if cap < 4 + |w| + |a| + |n| then Failure(Buffer)
        else Success(Assemble(w, a, n))
  }

  lemma NoneMissing(attrs: AttrList, announces: bool)
    requires Validate(SketchesOf(attrs), announces) == Ok
    ensures forall i :: 0 <= i < |attrs| ==> attrs[i].Some?
    ensures CodesDiffer(Values(attrs))
  {
    var ts := SketchesOf(attrs);
    ValidMeans(ts, announces);
    forall i | 0 <= i < |attrs| ensures attrs[i].Some? {
      assert !BadAt(ts, i);
    }
    forall i, j | 0 <= i < j < |attrs| ensures attrs[i].value.code != attrs[j].value.code {
      assert !RepeatedAt(ts, i);
      assert ts[j].Some?;
    }
  }

  function ParseUpdate(b: Bytes, wide: bool): Result<Update> {
    if |b| < 4 then Failure(BadLen)
    else
      var w := Get16(b);
      if |b| - 2 < w then Failure(BadLen)
      else
        match ParsePrefixes(4, b[2..2 + w])
        case Failure(e) => Failure(e)
        case Success(withdrawn) =>
          if |b| - 2 - w < 2 then Failure(BadLen)
          else
            var a := Get16(b[2 + w..]);
            if |b| - 4 - w < a then Failure(BadLen)
            else ParseRest(withdrawn, b[2..2 + w], b[4 + w..4 + w + a], b[4 + w + a..], wide)
  }

  /** The attributes and announcements, and the check of the whole. */
  function ParseRest(withdrawn: seq<RawPrefix>, w: Bytes, a: Bytes, n: Bytes, wide: bool): Result<Update>
    requires ParsePrefixes(4, w) == Success(withdrawn)
  {
    match ParseAttrs(a, wide, {})
    case Failure(e) => Failure(e)
    case Success(attrs) =>
      match ParsePrefixes(4, n)
      case Failure(e) => Failure(e)
      case Success(nlri) =>
        WriteParsedList(4, w);
        WriteParsedList(4, n);
        var m := Update(From4s(withdrawn), Somes(attrs), From4s(nlri));
        var err := Validate(SketchesOf(m.attrs), m.nlri != []);
        if err != Ok then Failure(err) else Success(m)
  }

  // ----- the two round trips

  function NormalizeAll(ps: seq<Prefix>): (r: seq<Prefix>)
    ensures |r| == |ps|
  {
    seq(|ps|, i requires 0 <= i < |ps| => Normalize(ps[i]))
  }

  lemma ClearedAreNormal(ps: seq<Prefix>)
    requires Lengths(ps)
    ensures AllWritable(4, Raw4s(ps)) && AllWritable(4, ClearAll(Raw4s(ps)))
            && From4s(ClearAll(Raw4s(ps))) == NormalizeAll(ps)
  {
    LengthsWritable(ps);
    hide Normalize;
    forall i | 0 <= i < |ps| ensures FromRaw4(ClearHosts(ToRaw4(ps[i]))) == Normalize(ps[i]) {
      ClearHostsNormalizes(ps[i]);
    }
    hide ClearHosts, FromRaw4, ToRaw4;
    assert forall i :: 0 <= i < |ps| ==> ClearAll(Raw4s(ps))[i] == ClearHosts(ToRaw4(ps[i]));
    AllClearWritable(ps);
  }

  lemma AllClearWritable(ps: seq<Prefix>)
    requires Lengths(ps)
    ensures AllWritable(4, ClearAll(Raw4s(ps)))
  {
    hide Masked;
  }

  /** A message as it comes back: prefixes normalised, attributes with host bits cleared and the
      extended-length flag as written. */
  function CanonUpdate(m: Update): Update
    requires (forall i :: 0 <= i < |m.attrs| ==> m.attrs[i].Some?) && AllPrintable(Values(m.attrs))
  {
    Update(NormalizeAll(m.withdrawn), Somes(CanonAll(Values(m.attrs))), NormalizeAll(m.nlri))
  }

  lemma CanonSketch(a: Attr)
    requires Printable(a)
    ensures SketchOf(Canon(a)) == SketchOf(a)
  {
    hide Printable, WireFlags, WriteValue, BadPath, Raws, Unraws, ClearAll;
    match a.body
    case MpReach6(hop, nlri) =>
      assert |Unraws(ClearAll(Raws(nlri)))| == |nlri|;
      NotPaths(a.body, ClearBody(a.body));
    case MpUnreach6(ps) => NotPaths(a.body, ClearBody(a.body));
    case _ =>
  }

  lemma NotPaths(b: Body, c: Body)
    ensures (!b.AsPath? && !b.As4Path? ==> !BadPath(b)) && (!c.AsPath? && !c.As4Path? ==> !BadPath(c))
  {
  }

  lemma CanonSketches(attrs: AttrList)
    requires (forall i :: 0 <= i < |attrs| ==> attrs[i].Some?) && AllPrintable(Values(attrs))
    ensures SketchesOf(Somes(CanonAll(Values(attrs)))) == SketchesOf(attrs)
  {
    hide Printable, Canon, SketchOf;
    forall i | 0 <= i < |attrs| ensures SketchOf(Canon(attrs[i].value)) == SketchOf(attrs[i].value) {
      assert Printable(Values(attrs)[i]);
      CanonSketch(attrs[i].value);
    }
  }

  lemma AssembleParts(w: Bytes, a: Bytes, n: Bytes)
    requires |w| < 0x1_0000 && |a| < 0x1_0000
    ensures var b := Assemble(w, a, n);
            && |b| == 4 + |w| + |a| + |n| && Get16(b) == |w| && b[2..2 + |w|] == w
            && Get16(b[2 + |w|..]) == |a| && b[4 + |w|..4 + |w| + |a|] == a && b[4 + |w| + |a|..] == n
  {
    hide Put16, Get16;
    var b := Assemble(w, a, n);
    GetPut16(|w|, w + Put16(|a|) + a + n);
    GetPut16(|a|, a + n);
    assert b == Put16(|w|) + (w + Put16(|a|) + a + n);
    assert b[2 + |w|..] == Put16(|a|) + (a + n);
  }

  /** Printing then parsing gives a message back, up to host bits and the extended-length flag, exactly when
      each of its attributes comes back. */
  lemma UpdateRound(m: Update, cap: nat, wide: bool)
    requires WriteUpdate(m, cap).Success?
    ensures (forall i :: 0 <= i < |m.attrs| ==> m.attrs[i].Some?) && AllPrintable(Values(m.attrs))
    ensures AllComeBack(Values(m.attrs), wide) <==>
              ParseUpdate(WriteUpdate(m, cap).value, wide) == Success(CanonUpdate(m))
  {
    hide Validate, ParseUpdate, AllComeBack, CodesDiffer, Lengths, Printable;
    hide WritePrefixes, WriteAttrs, Assemble;
    NoneMissing(m.attrs, m.nlri != []);
    if AllComeBack(Values(m.attrs), wide) {
      GoodRound(m, cap, wide);
    } else if ParseUpdate(WriteUpdate(m, cap).value, wide) == Success(CanonUpdate(m)) {
      ReadComesBack(WriteUpdate(m, cap).value, wide);
      ValuesOfSomes(CanonAll(Values(m.attrs)));
      CanonsComeBack(Values(m.attrs), wide);
    }
  }

  /** The attributes of a parsed message come back. */
  lemma ReadComesBack(b: Bytes, wide: bool)
    requires ParseUpdate(b, wide).Success?
    ensures var attrs := ParseUpdate(b, wide).value.attrs;
            (forall i :: 0 <= i < |attrs| ==> attrs[i].Some?) && AllComeBack(Values(attrs), wide)
  {
    hide Validate, ParsePrefixes, ParseAttrs, Get16, AllComeBack, From4s, SketchesOf;
    var w := Get16(b);
    var a := Get16(b[2 + w..]);
    var body := b[4 + w..4 + w + a];
    AttrsBytes(body, wide, {});
    ValuesOfSomes(ParseAttrs(body, wide, {}).value);
  }

  lemma GoodRound(m: Update, cap: nat, wide: bool)
    requires WriteUpdate(m, cap).Success?
    requires (forall i :: 0 <= i < |m.attrs| ==> m.attrs[i].Some?) && AllComeBack(Values(m.attrs), wide)
    ensures AllPrintable(Values(m.attrs)) && ParseUpdate(WriteUpdate(m, cap).value, wide) == Success(CanonUpdate(m))
  {
    hide Validate, WritePrefixes, WriteAttrs, ParsePrefixes, ParseAttrs, Printable, Assemble, Get16;
    hide NormalizeAll, AllComeBack, CodesDiffer;
    hide Lengths;
    NoneMissing(m.attrs, m.nlri != []);
    ClearedAreNormal(m.withdrawn);
    ClearedAreNormal(m.nlri);
    var attrs := Values(m.attrs);
    var w, a, n := WritePrefixes(4, Raw4s(m.withdrawn)), WriteAttrs(attrs), WritePrefixes(4, Raw4s(m.nlri));
    ParseWrittenList(4, Raw4s(m.withdrawn));
    ParseWrittenList(4, Raw4s(m.nlri));
    AttrsRound(attrs, wide, {});
    CanonSketches(m.attrs);
    AssembleParts(w, a, n);
    assert |NormalizeAll(m.nlri)| == |m.nlri|;
    assert NormalizeAll(m.nlri) != [] <==> m.nlri != [];
  }

  /** The bytes of a message with host bits cleared. */
  function MaskUpdate(b: Bytes, wide: bool): Bytes
    requires ParseUpdate(b, wide).Success?
  {
    var w := Get16(b);
    var a := Get16(b[2 + w..]);
    b[..2] + MaskList(4, b[2..2 + w]) + b[2 + w..4 + w] + MaskAttrs(b[4 + w..4 + w + a], wide)
    + MaskList(4, b[4 + w + a..])
  }

  lemma RawBack4(rs: seq<RawPrefix>)
    requires AllWritable(4, rs)
    ensures Raw4s(From4s(rs)) == rs && Lengths(From4s(rs))
  {
    assert forall i :: 0 <= i < |rs| ==> Writable(4, rs[i]);
    forall i | 0 <= i < |rs| ensures ToRaw4(FromRaw4(rs[i])) == rs[i] {
      assert rs[i].addr == [rs[i].addr[0], rs[i].addr[1], rs[i].addr[2], rs[i].addr[3]];
    }
  }

  lemma ValuesOfSomes(attrs: seq<Attr>)
    ensures Values(Somes(attrs)) == attrs
  {
  }

  lemma BytesParts(b: Bytes, w: nat, a: nat)
    requires |b| >= 4 + w + a && w < 0x1_0000 && a < 0x1_0000 && Get16(b) == w && Get16(b[2 + w..]) == a
    ensures Put16(w) == b[..2] && Put16(a) == b[2 + w..4 + w]
  {
    PutGet16(b);
    PutGet16(b[2 + w..]);
    hide Put16, Get16;
    assert b[2 + w..][..2] == b[2 + w..4 + w];
  }

  /** Parsing then printing a message gives the same bytes apart from cleared host bits. */
  lemma UpdateBytes(b: Bytes, wide: bool, cap: nat)
    requires ParseUpdate(b, wide).Success? && cap >= |b|
    ensures WriteUpdate(ParseUpdate(b, wide).value, cap) == Success(MaskUpdate(b, wide)) && |MaskUpdate(b, wide)| == |b|
  {
    hide Validate, WritePrefixes, WriteAttrs, ParsePrefixes, ParseAttrs, Printable, Get16, Put16, MaskList;
    hide MaskAttrs, Lengths, SketchOf;
    var w := Get16(b);
    var a := Get16(b[2 + w..]);
    var wb, ab, nb := b[2..2 + w], b[4 + w..4 + w + a], b[4 + w + a..];
    WriteParsedList(4, wb);
    AttrsBytes(ab, wide, {});
    WriteParsedList(4, nb);
    RawBack4(ParsePrefixes(4, wb).value);
    RawBack4(ParsePrefixes(4, nb).value);
    ValuesOfSomes(ParseAttrs(ab, wide, {}).value);
    BytesParts(b, w, a);
  }

  /** The prefixes of a parsed message are canonical, as the routing table's lookups assume. */
  lemma ParsedPrefixesAreCanonical(b: Bytes, wide: bool)
    requires ParseUpdate(b, wide).Success?
    ensures var m := ParseUpdate(b, wide).value;
            && (forall i :: 0 <= i < |m.withdrawn| ==> Canonical(m.withdrawn[i]))
            && (forall i :: 0 <= i < |m.nlri| ==> Canonical(m.nlri[i]))
  {
    hide Validate, ParseAttrs, Get16, SketchOf, Canonical, ParsePrefixes;
    var w := Get16(b);
    var a := Get16(b[2 + w..]);
    ListIsCanonical(b[2..2 + w]);
    ListIsCanonical(b[4 + w + a..]);
  }

  lemma ListIsCanonical(b: Bytes)
    requires ParsePrefixes(4, b).Success?
    ensures var rs := ParsePrefixes(4, b).value;
            AllWritable(4, rs) && forall i :: 0 <= i < |rs| ==> Canonical(From4s(rs)[i])
  {
    hide ParsePrefixes, Normalize, WritePrefixes, MaskList;
    WriteParsedList(4, b);
    var rs := ParsePrefixes(4, b).value;
    RawBack4(rs);
    var ps := From4s(rs);
    forall i | 0 <= i < |rs| ensures Canonical(ps[i]) {
      assert Raw4s(ps)[i] == rs[i] && ClearAll(rs)[i] == rs[i];
      assert ToRaw4(ps[i]) == rs[i];
      assert ps[i].len <= 32;
      ClearHostsNormalizes(ps[i]);
    }
  }
}
