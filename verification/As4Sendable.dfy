/** Rewriting the AS path for a peer (src/update.c) keeps a message sendable: type codes, flags and path segments
    stay such that the printer takes them. */
module As4Sendable {
  import opened Wrappers
  import opened PathAttr
  import opened AttrCodec
  import opened As4Path
  import opened As4Update

  /** The printer takes the attribute, its length apart. */
  predicate CanSend(a: Attr) {
    && (a.body.Unknown? || a.code == CodeOf(a.body))
    && FlagsValid(!a.body.Unknown?, a.code, a.flags) && ValueOk(a.body)
  }

  predicate Sendable(attrs: AttrList) {
    forall i :: 0 <= i < |attrs| ==> attrs[i].Some? && CanSend(attrs[i].value)
  }

  predicate HopsFit(hops: seq<Hop>, wide: bool) {
    forall i :: 0 <= i < |hops| ==> hops[i].1 < if wide then 0x1_0000_0000 else 0x1_0000
  }

  lemma FitOfConcat(a: seq<Hop>, b: seq<Hop>, wide: bool)
    ensures HopsFit(a + b, wide) <==> HopsFit(a, wide) && HopsFit(b, wide)
  {
    var all := a + b;
    assert forall i :: 0 <= i < |a| ==> all[i] == a[i];
    assert forall i :: 0 <= i < |b| ==> all[|a| + i] == b[i];
  }

  lemma SegmentFitIff(s: Segment, wide: bool)
    ensures HopsFit(HopsOf(s), wide) <==> AllFit(s.asns, wide)
  {
    assert forall i :: 0 <= i < |s.asns| ==> HopsOf(s)[i].1 == s.asns[i];
  }

  /** A path can be printed in a form exactly if its segments are valid and its numbers fit that form. */
  lemma {:induction false} SegsOkIff(segs: seq<Segment>, wide: bool)
    ensures SegsOk(segs, wide) <==> ValidSegs(segs) && HopsFit(Flat(segs), wide)
  {
    hide AllFit, HopsOf, HopsFit;
    if segs == [] {
      NothingFits(wide);
    } else {
      SegsOkIff(segs[1..], wide);
      SegmentFitIff(segs[0], wide);
      FlatUnfolds(segs);
      FitOfConcat(HopsOf(segs[0]), Flat(segs[1..]), wide);
      FirstOk(segs, wide);
      hide Flat, SegsOk, ValidSegs;
    }
  }

  lemma NothingFits(wide: bool)
    ensures HopsFit([], wide) && Flat([]) == []
  {
  }

  lemma FirstOk(segs: seq<Segment>, wide: bool)
    requires segs != []
    ensures SegsOk(segs, wide) <==> SegmentOk(segs[0], wide) && SegsOk(segs[1..], wide)
    ensures ValidSegs(segs) <==> ValidSegment(segs[0]) && ValidSegs(segs[1..])
    ensures SegmentOk(segs[0], wide) <==> ValidSegment(segs[0]) && AllFit(segs[0].asns, wide)
  {
    assert segs == [segs[0]] + segs[1..];
  }

  lemma FitsWider(hops: seq<Hop>, wide: bool)
    requires HopsFit(hops, wide)
    ensures HopsFit(hops, true)
  {
  }

  lemma PathCanSend(flags: bv8, segs: seq<Segment>, wide: bool)
    requires ValidSegs(segs) && HopsFit(Flat(segs), wide) && FlagsValid(true, 2, flags)
    ensures CanSend(Attr(flags, 2, AsPath(segs, wide)))
  {
    SegsOkIff(segs, wide);
    SegsInRange(segs, wide);
  }

  lemma As4CanSend(segs: seq<Segment>)
    requires ValidSegs(segs) && HopsFit(Flat(segs), true)
    ensures CanSend(NewAs4(segs))
  {
    SegsOkIff(segs, true);
    SegsInRange(segs, true);
  }

  lemma NewPathFlags()
    ensures FlagsValid(true, 2, 0x40)
  {
  }

  /** What a sendable message has for paths. */
  lemma FoundIsOk(attrs: AttrList, w: Which)
    requires Sendable(attrs) && BodyOf(attrs, w).Some?
    ensures var b := BodyOf(attrs, w).value;
            && ValidSegs(b.segments) && HopsFit(Flat(b.segments), b.is4b) && (w == TheAs4 ==> b.is4b)
    ensures var i := FirstOf(attrs, w).value;
            w == ThePath ==> attrs[i].value.code == 2 && FlagsValid(true, 2, attrs[i].value.flags)
  {
    hide FirstOf, FlagsValid, SegsOk, ValidSegs, Flat, HopsFit;
    var i := FirstOf(attrs, w).value;
    assert CanSend(attrs[i].value);
    SegsOkIff(attrs[i].value.body.segments, attrs[i].value.body.is4b);
  }

  lemma SetSends(attrs: AttrList, w: Which, attr: Attr)
    requires Sendable(attrs) && CanSend(attr)
    ensures Sendable(SetAttr(attrs, w, attr))
  {
    hide CanSend;
  }

  lemma RemoveSends(attrs: AttrList, w: Which)
    requires Sendable(attrs)
    ensures Sendable(RemoveAttr(attrs, w))
  {
    hide CanSend;
  }

  lemma WidenSends(attrs: AttrList, segs: seq<Segment>)
    requires Sendable(attrs) && BodyOf(attrs, ThePath).Some? && ValidSegs(segs) && HopsFit(Flat(segs), true)
    ensures Sendable(Widened(attrs, segs))
  {
    hide CanSend, ValidSegs, HopsFit, Flat, FirstOf, FlagsValid;
    FoundIsOk(attrs, ThePath);
    PathCanSend(attrs[FirstOf(attrs, ThePath).value].value.flags, segs, true);
  }

  lemma NarrowFits(hops: seq<Hop>)
    ensures HopsFit(NarrowHops(hops), false)
  {
  }

  lemma SliceFits(hops: seq<Hop>, wide: bool, n: nat)
    requires HopsFit(hops, wide) && n <= |hops|
    ensures HopsFit(hops[n..], wide) && HopsFit(hops[..n], wide)
  {
  }

  lemma OneFits(kind: nat, asn: nat, wide: bool)
    requires asn < if wide then 0x1_0000_0000 else 0x1_0000
    ensures HopsFit([(kind, asn)], wide)
  {
  }

  /** Downgrading a sendable message gives a sendable one. */
  lemma DowngradeSends(attrs: AttrList)
    requires Sendable(attrs)
    ensures Downgraded(attrs).Success? ==> Sendable(Downgraded(attrs).value)
  {
    hide Sendable, CanSend, ValidSegs, HopsFit, Flat, FirstOf, FlagsValid, SetAttr, RemoveAttr, CutsSet, BodyOf;
    var path := BodyOf(attrs, ThePath);
    if path.Some? && path.value.is4b && Downgraded(attrs).Success? {
      FoundIsOk(attrs, ThePath);
      var segs := path.value.segments;
      var n := FirstLong(Flat(segs));
      NarrowPath(segs, 0);
      NarrowFits(Flat(segs));
      NewPathFlags();
      PathCanSend(0x40, NarrowSegs(segs), false);
      var narrowed := SetAttr(attrs, ThePath, NewPath(NarrowSegs(segs), false));
      SetSends(attrs, ThePath, NewPath(NarrowSegs(segs), false));
      RemoveSends(narrowed, TheAs4);
      FlatOfSuffix(segs, n);
      SliceFits(Flat(segs), true, n);
      As4CanSend(SuffixSegs(segs, n));
      SetSends(narrowed, TheAs4, NewAs4(SuffixSegs(segs, n)));
    }
  }

  lemma PrependedPathSends(segs: seq<Segment>, asn: nat, wide: bool)
    requires ValidSegs(segs) && HopsFit(Flat(segs), wide) && asn < if wide then 0x1_0000_0000 else 0x1_0000
    ensures CanSend(NewPath(PrependSegs(segs, asn), wide))
  {
    hide CanSend, ValidSegs, HopsFit, Flat, FlagsValid, PrependSegs;
    PrependPath(segs, asn, 0);
    OneFits(AS_SEQUENCE, asn, wide);
    FitOfConcat([(AS_SEQUENCE, asn)], Flat(segs), wide);
    NewPathFlags();
    PathCanSend(0x40, PrependSegs(segs, asn), wide);
  }

  lemma ShadowSends(segs: seq<Segment>, wide: Option<seq<Segment>>, asn: nat)
    requires ValidSegs(segs) && HopsFit(Flat(segs), false) && asn < 0x1_0000_0000
    requires wide.Some? ==>
               ValidSegs(wide.value) && HopsFit(Flat(wide.value), true) && |Flat(wide.value)| <= |Flat(segs)|
    ensures var next := PrependSegs(segs, AS_TRANS);
            (wide.Some? ==> |Flat(wide.value)| <= |Flat(next)|) && CanSend(NewAs4(NextShadow(next, wide, asn)))
  {
    hide CanSend, ValidSegs, HopsFit, Flat, PrependSegs, NextShadow;
    FlatOfNextShadow(segs, wide, asn);
    var hops, tail := Flat(segs), if wide.Some? then Flat(wide.value) else [];
    FitsWider(hops, false);
    SliceFits(hops, true, |hops| - |tail|);
    OneFits(2, asn, true);
    NothingFits(true);
    FitOfConcat([(2, asn)], hops[..|hops| - |tail|], true);
    FitOfConcat([(2, asn)] + hops[..|hops| - |tail|], tail, true);
    As4CanSend(NextShadow(PrependSegs(segs, AS_TRANS), wide, asn));
  }

  /** Putting a number in front in a sendable message gives a sendable one. */
  lemma PrependSends(attrs: AttrList, asn: nat, wide: bool)
    requires Sendable(attrs) && asn < 0x1_0000_0000
    ensures Prepended(attrs, asn, wide).Success? ==> Sendable(Prepended(attrs, asn, wide).value)
  {
    hide Sendable, CanSend, ValidSegs, HopsFit, Flat, FirstOf, SetAttr, CutsSet, BodyOf, PrependSegs, NextShadow;
    var path, shadow := BodyOf(attrs, ThePath), BodyOf(attrs, TheAs4);
    if Prepended(attrs, asn, wide).Success? {
      if path.Some? {
        FoundIsOk(attrs, ThePath);
      }
      NothingFits(wide);
      NothingIsFlat();
      var segs := if path.Some? then path.value.segments else [];
      var put := if wide then asn else Narrow(asn);
      PrependedPathSends(segs, put, wide);
      var next := NewPath(PrependSegs(segs, put), wide);
      SetSends(attrs, ThePath, next);
      if !wide && asn > MAX_SHORT {
        if shadow.Some? {
          FoundIsOk(attrs, TheAs4);
        }
        var tail := if shadow.Some? then Some(shadow.value.segments) else None;
        ShadowSends(segs, tail, asn);
        SetSends(SetAttr(attrs, ThePath, next), TheAs4, NewAs4(NextShadow(PrependSegs(segs, put), tail, asn)));
      }
    }
  }

  lemma FilledFits(hops: seq<Hop>, tail: seq<Hop>)
    requires HopsFit(hops, true) && HopsFit(tail, true)
    ensures HopsFit(Filled(hops, Asns(tail)), true)
  {
    hide TransCount;
  }

  /** Restoring a sendable message gives a sendable one. */
  lemma RestoreSends(attrs: AttrList)
    requires Sendable(attrs)
    ensures Restored(attrs).Success? ==> Sendable(Restored(attrs).value)
  {
    hide Sendable, CanSend, ValidSegs, HopsFit, Flat, FirstOf, RemoveAttr, CutsSet, BodyOf, Widened, FillSegs, Rebuild;
    hide Filled, TransCount, SuffixMatches;
    var path, shadow := BodyOf(attrs, ThePath), BodyOf(attrs, TheAs4);
    if path.Some? && Restored(attrs).Success? {
      FoundIsOk(attrs, ThePath);
      var segs := path.value.segments;
      FitsWider(Flat(segs), path.value.is4b);
      if shadow.None? {
        WidenSends(attrs, segs);
      } else {
        FoundIsOk(attrs, TheAs4);
        var wide := shadow.value.segments;
        var hops, tail := Flat(segs), Flat(wide);
        var n := |hops| - |tail|;
        FillSegsMeaning(segs, Asns(tail));
        FilledFits(hops, tail);
        FlatOfRebuild(segs, wide, n);
        SliceFits(hops, true, n);
        FitOfConcat(hops[..n], tail, true);
        WidenSends(attrs, FillSegs(segs, Asns(tail)));
        WidenSends(attrs, Rebuild(segs, wide, n));
        RemoveSends(Widened(attrs, FillSegs(segs, Asns(tail))), TheAs4);
        RemoveSends(Widened(attrs, Rebuild(segs, wide, n)), TheAs4);
      }
    }
  }
}
