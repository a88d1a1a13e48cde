/** Downgrade, prepend and restore on the attribute list of an UPDATE message (src/update.c), as
    functions, and what a chain of two-octet speakers does to a path. */
module As4Update {
  import opened Wrappers
  import opened PathAttr
  import opened As4Path

  // ----- finding, setting and removing attributes

  datatype Which = ThePath | TheAs4

  predicate Is(a: Option<Attr>, w: Which) {
    a.Some? && match w case ThePath => a.value.body.AsPath? case TheAs4 => a.value.body.As4Path?
  }

  /** The position of the first attribute of a type. */
  function FirstOf(attrs: AttrList, w: Which): (r: Option<nat>)
    ensures r.Some? ==> r.value < |attrs| && Is(attrs[r.value], w) && forall j :: 0 <= j < r.value ==> !Is(attrs[j], w)
    ensures r.None? ==> forall j :: 0 <= j < |attrs| ==> !Is(attrs[j], w)
  {
    if attrs == [] then None
    else if Is(attrs[0], w) then Some(0)
    else match FirstOf(attrs[1..], w) case None => None case Some(i) => Some(i + 1)
  }

  function BodyOf(attrs: AttrList, w: Which): (r: Option<Body>)
    ensures r.Some? ==> if w == ThePath then r.value.AsPath? else r.value.As4Path?
  {
    match FirstOf(attrs, w) case None => None case Some(i) => Some(attrs[i].value.body)
  }

  function NewPath(segs: seq<Segment>, wide: bool): Attr {
    Attr(0x40, 2, AsPath(segs, wide))
  }

  function NewAs4(segs: seq<Segment>): Attr {
    Attr(0xC0, 17, As4Path(segs, true))
  }

  /** Replace the first attribute of the type, or append. */
  function SetAttr(attrs: AttrList, w: Which, attr: Attr): AttrList {
    match FirstOf(attrs, w) case None => attrs + [Some(attr)] case Some(i) => attrs[i := Some(attr)]
  }

  function RemoveAttr(attrs: AttrList, w: Which): AttrList {
    match FirstOf(attrs, w) case None => attrs case Some(i) => attrs[..i] + attrs[i + 1..]
  }

  /** Each of the two types occurs at most once. */
  predicate Tidy(attrs: AttrList) {
    forall w, i, j :: 0 <= i < |attrs| && 0 <= j < |attrs| && Is(attrs[i], w) && Is(attrs[j], w) ==> i == j
  }

  /** All other attributes, in order. */
  function Rest(attrs: AttrList): AttrList {
    if attrs == [] then []
    else (if Is(attrs[0], ThePath) || Is(attrs[0], TheAs4) then [] else [attrs[0]]) + Rest(attrs[1..])
  }

  lemma {:induction false} RestOfConcat(a: AttrList, b: AttrList)
    ensures Rest(a + b) == Rest(a) + Rest(b)
  {
    if a == [] {
      assert a + b == b;
    } else {
      assert (a + b)[1..] == a[1..] + b;
      RestOfConcat(a[1..], b);
    }
  }

  lemma RestWithout(attrs: AttrList, i: nat, x: seq<Option<Attr>>)
    requires i < |attrs| && (Is(attrs[i], ThePath) || Is(attrs[i], TheAs4))
    requires Rest(x) == []
    ensures Rest(attrs[..i] + x + attrs[i + 1..]) == Rest(attrs)
  {
    assert attrs == attrs[..i] + [attrs[i]] + attrs[i + 1..];
    RestOfConcat(attrs[..i] + [attrs[i]], attrs[i + 1..]);
    RestOfConcat(attrs[..i], [attrs[i]]);
    RestOfConcat(attrs[..i] + x, attrs[i + 1..]);
    RestOfConcat(attrs[..i], x);
    assert Rest([attrs[i]]) == [];
  }

  lemma FoundAt(attrs: AttrList, w: Which, i: nat)
    requires i < |attrs| && Is(attrs[i], w) && forall j :: 0 <= j < i ==> !Is(attrs[j], w)
    ensures FirstOf(attrs, w) == Some(i)
  {
  }

  lemma FoundNowhere(attrs: AttrList, w: Which)
    requires forall j :: 0 <= j < |attrs| ==> !Is(attrs[j], w)
    ensures FirstOf(attrs, w) == None
  {
  }

  function Other(w: Which): Which {
    if w == ThePath then TheAs4 else ThePath
  }

  lemma SetEffect(attrs: AttrList, w: Which, attr: Attr)
    requires Is(Some(attr), w)
    ensures var r := SetAttr(attrs, w, attr);
            && BodyOf(r, w) == Some(attr.body) && BodyOf(r, Other(w)) == BodyOf(attrs, Other(w))
            && Rest(r) == Rest(attrs) && (Tidy(attrs) ==> Tidy(r))
  {
    var r := SetAttr(attrs, w, attr);
    SetKeepsRest(attrs, w, attr);
    hide Rest;
    SetKeepsTidy(attrs, w, attr);
    hide Tidy;
    FoundAt(r, w, if FirstOf(attrs, w).Some? then FirstOf(attrs, w).value else |attrs|);
    SameElsewhere(attrs, r, Other(w));
  }

  lemma SetKeepsRest(attrs: AttrList, w: Which, attr: Attr)
    requires Is(Some(attr), w)
    ensures Rest(SetAttr(attrs, w, attr)) == Rest(attrs)
  {
    assert Rest([Some(attr)]) == [];
    hide Rest;
    match FirstOf(attrs, w)
    case None => RestOfConcat(attrs, [Some(attr)]);
    case Some(i) =>
      assert SetAttr(attrs, w, attr) == attrs[..i] + [Some(attr)] + attrs[i + 1..];
      RestWithout(attrs, i, [Some(attr)]);
  }

  lemma SetKeepsTidy(attrs: AttrList, w: Which, attr: Attr)
    requires Is(Some(attr), w)
    ensures Tidy(attrs) ==> Tidy(SetAttr(attrs, w, attr))
  {
  }

  lemma SameElsewhere(attrs: AttrList, r: AttrList, w: Which)
    requires |attrs| <= |r| <= |attrs| + 1
    requires forall i :: 0 <= i < |attrs| ==> r[i] == attrs[i] || (!Is(attrs[i], w) && !Is(r[i], w))
    requires |r| > |attrs| ==> !Is(r[|attrs|], w)
    ensures BodyOf(r, w) == BodyOf(attrs, w)
  {
    match FirstOf(attrs, w)
    case None => FoundNowhere(r, w);
    case Some(i) => FoundAt(r, w, i);
  }

  lemma RemoveEffect(attrs: AttrList, w: Which)
    requires Tidy(attrs)
    ensures var r := RemoveAttr(attrs, w);
            && BodyOf(r, w) == None && BodyOf(r, Other(w)) == BodyOf(attrs, Other(w))
            && Rest(r) == Rest(attrs) && Tidy(r)
  {
    match FirstOf(attrs, w)
    case None =>
    case Some(i) =>
      var r := RemoveAttr(attrs, w);
      assert attrs[..i] + [] + attrs[i + 1..] == r;
      RestWithout(attrs, i, []);
      hide Rest;
      assert forall j :: 0 <= j < |r| ==> r[j] == attrs[if j < i then j else j + 1];
      RemovedOne(attrs, r, w, i);
  }

  /** Taking out the only attribute of a type. */
  lemma RemovedOne(attrs: AttrList, r: AttrList, w: Which, i: nat)
    requires Tidy(attrs) && i < |attrs| && Is(attrs[i], w)
    requires |r| == |attrs| - 1 && forall j :: 0 <= j < |r| ==> r[j] == attrs[if j < i then j else j + 1]
    ensures BodyOf(r, w) == None && BodyOf(r, Other(w)) == BodyOf(attrs, Other(w)) && Tidy(r)
  {
    FoundNowhere(r, w);
    match FirstOf(attrs, Other(w))
    case None => FoundNowhere(r, Other(w));
    case Some(k) => FoundAt(r, Other(w), if k < i then k else k - 1);
  }

  // ----- the three operations

  /** For a two-octet peer: narrow the path and add the wide tail if anything is long. */
  function Downgraded(attrs: AttrList): Result<AttrList> {
    match BodyOf(attrs, ThePath)
    case None => Success(attrs)
    case Some(body) =>
      var segs := body.segments;
      if !body.is4b then Success(attrs)
      else if !ValidSegs(segs) then Failure(BadLen)
      else
        var n := FirstLong(Flat(segs));
        var narrowed := SetAttr(attrs, ThePath, NewPath(NarrowSegs(segs), false));
        if n == |Flat(segs)| then Success(RemoveAttr(narrowed, TheAs4))
        else if CutsSet(segs, n) then Failure(Invalid)
        else Success(SetAttr(narrowed, TheAs4, NewAs4(SuffixSegs(segs, n))))
  }

  predicate GoodAs4(body: Body) {
    body.As4Path? && body.is4b && ValidSegs(body.segments)
  }

  /** Put an AS number in front, in a message in two-octet or four-octet (`wide`) form. */
  function Prepended(attrs: AttrList, asn: nat, wide: bool): Result<AttrList> {
    var path, shadow := BodyOf(attrs, ThePath), BodyOf(attrs, TheAs4);
    if wide && shadow.Some? then Failure(Invalid)
    else if path.Some? && path.value.is4b != wide then Failure(Invalid)
    else if path.Some? && !ValidSegs(path.value.segments) then Failure(BadLen)
    else
      var segs := if path.Some? then path.value.segments else [];
      var next := PrependSegs(segs, if wide then asn else Narrow(asn));
      if wide || asn <= MAX_SHORT then
        if path.None? && exists i :: 0 <= i < |attrs| && attrs[i].Some? && attrs[i].value.code == 2 then Failure(Exists)
        else Success(SetAttr(attrs, ThePath, NewPath(next, wide)))
      else if shadow.Some? && !GoodAs4(shadow.value) then Failure(BadLen)
      else if shadow.Some? && |Flat(shadow.value.segments)| > |Flat(segs)| then Failure(Invalid)
      else
        PrependPath(segs, Narrow(asn), 0);
        if shadow.Some? && CutsSet(next, |Flat(next)| - |Flat(shadow.value.segments)|) then Failure(Invalid)
        else
          var wideSegs := NextShadow(next, if shadow.Some? then Some(shadow.value.segments) else None, asn);
          Success(SetAttr(SetAttr(attrs, ThePath, NewPath(next, wide)), TheAs4, NewAs4(wideSegs)))
  }

  /** Overwrite the segments of the first AS_PATH, now in four-octet form. */
  function Widened(attrs: AttrList, segs: seq<Segment>): AttrList
    requires BodyOf(attrs, ThePath).Some?
  {
    var i := FirstOf(attrs, ThePath).value;
    attrs[i := Some(attrs[i].value.(body := AsPath(segs, true)))]
  }

  /** From a two-octet peer: put path and wide tail together. */
  function Restored(attrs: AttrList): Result<AttrList> {
    var path, shadow := BodyOf(attrs, ThePath), BodyOf(attrs, TheAs4);
    if path.None? then Success(attrs)
    else
      var segs := path.value.segments;
      if shadow.None? then (if ValidSegs(segs) then Success(Widened(attrs, segs)) else Failure(BadLen))
      else if !GoodAs4(shadow.value) || !ValidSegs(segs) then Failure(BadLen)
      else
        var wide := shadow.value.segments;
        var hops, tail := Flat(segs), Flat(wide);
        if |tail| > |hops| then Failure(Invalid)
        else
          var n := |hops| - |tail|;
          if n != 0 && TransCount(hops) == |tail| && !SuffixMatches(hops, tail, n) then
            Success(RemoveAttr(Widened(attrs, FillSegs(segs, Asns(tail))), TheAs4))
          else if CutsSet(segs, n) then Failure(Invalid)
          else Success(RemoveAttr(Widened(attrs, Rebuild(segs, wide, n)), TheAs4))
  }

  // ----- two-octet hops

  /** A two-octet message that stands for the path `hops`. */
  predicate Carries(attrs: AttrList, hops: seq<Hop>) {
    var path, shadow := BodyOf(attrs, ThePath), BodyOf(attrs, TheAs4);
    && Tidy(attrs) && path.Some? && !path.value.is4b && (shadow.Some? ==> GoodAs4(shadow.value))
    && Shadows(path.value.segments, if shadow.Some? then Some(shadow.value.segments) else None, hops)
  }

  lemma {:induction false} NotCutAtEnd(segs: seq<Segment>)
    ensures !CutsSet(segs, |Flat(segs)|)
  {
    if segs != [] {
      NotCutAtEnd(segs[1..]);
    }
  }

  /** Downgrading fails exactly when the first long AS number is inside an AS_SET and not its first. */
  lemma DowngradeCarries(attrs: AttrList)
    requires Tidy(attrs) && BodyOf(attrs, ThePath).Some? && BodyOf(attrs, ThePath).value.is4b
    requires ValidSegs(BodyOf(attrs, ThePath).value.segments)
    ensures var segs := BodyOf(attrs, ThePath).value.segments;
            && (Downgraded(attrs).Success? <==> !CutsSet(segs, FirstLong(Flat(segs))))
            && (Downgraded(attrs).Success? ==>
                  Carries(Downgraded(attrs).value, Flat(segs)) && Rest(Downgraded(attrs).value) == Rest(attrs))
  {
    hide Tidy, Rest, FirstOf, CutsSet, Shadows, SetAttr, RemoveAttr, ValidSegs, Flat, BodyOf, FirstLong;
    var segs := BodyOf(attrs, ThePath).value.segments;
    var n := FirstLong(Flat(segs));
    var narrowed := NewPath(NarrowSegs(segs), false);
    NotCutAtEnd(segs);
    ShadowsAfterDowngrade(segs);
    SetEffect(attrs, ThePath, narrowed);
    var attrs' := SetAttr(attrs, ThePath, narrowed);
    RemoveEffect(attrs', TheAs4);
    if n != |Flat(segs)| && !CutsSet(segs, n) {
      FlatOfSuffix(segs, n);
      SetEffect(attrs', TheAs4, NewAs4(SuffixSegs(segs, n)));
    }
  }

  /** A two-octet prepend never fails on such a message and puts the number, short or long, in front. */
  lemma PrependCarries(attrs: AttrList, hops: seq<Hop>, asn: nat)
    requires Carries(attrs, hops)
    ensures var r := Prepended(attrs, asn, false);
            r.Success? && Carries(r.value, [(AS_SEQUENCE, asn)] + hops) && Rest(r.value) == Rest(attrs)
  {
    hide Tidy, Rest, FirstOf, CutsSet, SetAttr, ValidSegs, Flat, BodyOf, PrependSegs, Rebuild, SetFirst;
    var path, shadow := BodyOf(attrs, ThePath), BodyOf(attrs, TheAs4);
    var segs := path.value.segments;
    var wide := if shadow.Some? then Some(shadow.value.segments) else None;
    var next := PrependSegs(segs, Narrow(asn));
    SetEffect(attrs, ThePath, NewPath(next, false));
    assert |NarrowHops(hops)| == |hops|;
    if asn <= MAX_SHORT {
      ShadowsAfterShortPrepend(segs, wide, hops, asn);
    } else {
      ShadowsAfterLongPrepend(segs, wide, hops, asn);
      hide Shadows, NextShadow;
      var attrs' := SetAttr(attrs, ThePath, NewPath(next, false));
      ShadowIsGood(next, NextShadow(next, wide, asn), [(AS_SEQUENCE, asn)] + hops);
      SetEffect(attrs', TheAs4, NewAs4(NextShadow(next, wide, asn)));
    }
  }

  predicate HasCode(attrs: AttrList, code: nat) {
    exists i :: 0 <= i < |attrs| && attrs[i].Some? && attrs[i].value.code == code
  }

  /** Putting a number in front of a four-octet path. It works exactly if there is no AS4_PATH, an AS_PATH is in
      four-octet form with valid segments, and without one no other attribute has its type code. Then the number
      stands in front of the old path, or alone, and all else is as before. */
  lemma PrependWide(attrs: AttrList, asn: nat)
    ensures var path, shadow := BodyOf(attrs, ThePath), BodyOf(attrs, TheAs4);
            var r := Prepended(attrs, asn, true);
            && (shadow.Some? || (path.Some? && !path.value.is4b) ==> r == Failure(Invalid))
            && (shadow.None? && path.Some? && path.value.is4b && !ValidSegs(path.value.segments) ==>
                  r == Failure(BadLen))
            && (shadow.None? && path.None? && HasCode(attrs, 2) ==> r == Failure(Exists))
            && (r.Success? <==>
                  && shadow.None?
                  && if path.Some? then path.value.is4b && ValidSegs(path.value.segments) else !HasCode(attrs, 2))
            && (r.Success? ==>
                  && Puts(attrs, r.value, true, [(2, asn)] + HopsIn(path))
                  && BodyOf(r.value, TheAs4).None?)
  {
    hide Tidy, Rest, FirstOf, SetAttr, ValidSegs, Flat, BodyOf, PrependSegs;
    var path := BodyOf(attrs, ThePath);
    var segs := if path.Some? then path.value.segments else [];
    PrependPath(segs, asn, 0);
    NothingIsFlat();
    SetEffect(attrs, ThePath, NewPath(PrependSegs(segs, asn), true));
  }

  /** The hops of a path attribute, none without one. */
  function HopsIn(body: Option<Body>): seq<Hop>
    requires body.Some? ==> body.value.AsPath? || body.value.As4Path?
  {
    if body.None? then [] else Flat(body.value.segments)
  }

  /** The first AS_PATH is now valid, in this form and these hops, and all but the two paths is as before. */
  predicate Puts(attrs: AttrList, attrs': AttrList, wide: bool, hops: seq<Hop>) {
    var path := BodyOf(attrs', ThePath);
    && path.Some? && path.value.is4b == wide && ValidSegs(path.value.segments) && Flat(path.value.segments) == hops
    && Rest(attrs') == Rest(attrs) && (Tidy(attrs) ==> Tidy(attrs'))
  }

  lemma NothingIsFlat()
    ensures Flat([]) == [] && ValidSegs([])
  {
  }

  /** Putting a short number in front of a two-octet path, which leaves an AS4_PATH alone. */
  lemma PrependShort(attrs: AttrList, asn: nat)
    requires asn <= 65535
    ensures var path := BodyOf(attrs, ThePath);
            var r := Prepended(attrs, asn, false);
            && (path.Some? && path.value.is4b ==> r == Failure(Invalid))
            && (path.Some? && !path.value.is4b && !ValidSegs(path.value.segments) ==> r == Failure(BadLen))
            && (path.None? && HasCode(attrs, 2) ==> r == Failure(Exists))
            && (r.Success? <==>
                  if path.Some? then !path.value.is4b && ValidSegs(path.value.segments) else !HasCode(attrs, 2))
            && (r.Success? ==>
                  && Puts(attrs, r.value, false, [(2, asn)] + HopsIn(path))
                  && BodyOf(r.value, TheAs4) == BodyOf(attrs, TheAs4))
  {
    hide Tidy, Rest, FirstOf, SetAttr, ValidSegs, Flat, BodyOf, PrependSegs;
    var path := BodyOf(attrs, ThePath);
    var segs := if path.Some? then path.value.segments else [];
    PrependPath(segs, asn, 0);
    NothingIsFlat();
    SetEffect(attrs, ThePath, NewPath(PrependSegs(segs, asn), false));
  }

  /** Putting a long number in front of a two-octet path: AS_TRANS goes in front of it, and AS4_PATH has the number
      and then the whole path, its tail as the old AS4_PATH had it. */
  lemma PrependLong(attrs: AttrList, asn: nat)
    requires asn > 65535
    ensures var path, shadow := BodyOf(attrs, ThePath), BodyOf(attrs, TheAs4);
            var hops, tail := HopsIn(path), HopsIn(shadow);
            var segs := if path.Some? then path.value.segments else [];
            var r := Prepended(attrs, asn, false);
            && (r.Success? <==>
                  && (path.Some? ==> !path.value.is4b && ValidSegs(path.value.segments))
                  && (shadow.Some? ==> GoodAs4(shadow.value) && |tail| <= |hops| && !CutsSet(segs, |hops| - |tail|)))
            && (r.Success? ==>
                  && Puts(attrs, r.value, false, [(2, 23456)] + hops)
                  && BodyOf(r.value, TheAs4).Some? && GoodAs4(BodyOf(r.value, TheAs4).value)
                  && HopsIn(BodyOf(r.value, TheAs4)) == [(2, asn)] + hops[..|hops| - |tail|] + tail)
  {
    hide Tidy, Rest, FirstOf, SetAttr, ValidSegs, Flat, BodyOf, PrependSegs, CutsSet, NextShadow;
    var path, shadow := BodyOf(attrs, ThePath), BodyOf(attrs, TheAs4);
    var segs := if path.Some? then path.value.segments else [];
    var next := PrependSegs(segs, AS_TRANS);
    var hops, tail := HopsIn(path), HopsIn(shadow);
    NothingIsFlat();
    PrependPath(segs, AS_TRANS, if |tail| <= |hops| then |hops| - |tail| else 0);
    SetEffect(attrs, ThePath, NewPath(next, false));
    if Prepended(attrs, asn, false).Success? {
      var wide := if shadow.Some? then Some(shadow.value.segments) else None;
      SetEffect(SetAttr(attrs, ThePath, NewPath(next, false)), TheAs4, NewAs4(NextShadow(next, wide, asn)));
      FlatOfNextShadow(segs, wide, asn);
    }
  }

  lemma FlatOfNextShadow(segs: seq<Segment>, wide: Option<seq<Segment>>, asn: nat)
    requires ValidSegs(segs) && (wide.Some? ==> ValidSegs(wide.value) && |Flat(wide.value)| <= |Flat(segs)|)
    ensures var next := PrependSegs(segs, AS_TRANS);
            var hops, tail := Flat(segs), if wide.Some? then Flat(wide.value) else [];
            && (wide.Some? ==> |Flat(wide.value)| <= |Flat(next)|)
            && ValidSegs(NextShadow(next, wide, asn))
            && Flat(NextShadow(next, wide, asn)) == [(2, asn)] + hops[..|hops| - |tail|] + tail
  {
    hide Flat, ValidSegs, PrependSegs, SetFirst, Rebuild;
    var next := PrependSegs(segs, AS_TRANS);
    var hops := Flat(segs);
    PrependPath(segs, AS_TRANS, 0);
    match wide
    case None => FlatOfSetFirst(next, asn);
    case Some(w) =>
      var n := |Flat(next)| - |Flat(w)|;
      FlatOfRebuild(next, w, n);
      FlatOfSetFirst(Rebuild(next, w, n), asn);
      assert Flat(next)[..n] == [(2, AS_TRANS)] + hops[..n - 1];
  }

  /** What downgrading makes of every message: a four-octet path with valid segments is narrowed, and AS4_PATH has
      it from the first AS number on that does not fit, or is gone if all fit. It fails only if the segments are
      invalid or that place lies inside an AS_SET. */
  lemma DowngradeMeaning(attrs: AttrList)
    requires Tidy(attrs)
    ensures var path, r := BodyOf(attrs, ThePath), Downgraded(attrs);
            var hops := HopsIn(path);
            && (path.None? || !path.value.is4b ==> r == Success(attrs))
            && (path.Some? && path.value.is4b && !ValidSegs(path.value.segments) ==> r == Failure(BadLen))
            && (path.Some? && path.value.is4b && ValidSegs(path.value.segments) ==>
                  && (r == Failure(Invalid) || r.Success?)
                  && (r.Success? <==> !CutsSet(path.value.segments, FirstLong(hops)))
                  && (r.Success? ==> Split(attrs, r.value, hops)))
  {
    hide Tidy, Rest, FirstOf, CutsSet, SetAttr, RemoveAttr, ValidSegs, Flat, BodyOf, FirstLong;
    var path := BodyOf(attrs, ThePath);
    if path.Some? && path.value.is4b && ValidSegs(path.value.segments) {
      var segs := path.value.segments;
      var n := FirstLong(Flat(segs));
      var narrowed := NewPath(NarrowSegs(segs), false);
      NotCutAtEnd(segs);
      NarrowPath(segs, 0);
      SetEffect(attrs, ThePath, narrowed);
      var attrs' := SetAttr(attrs, ThePath, narrowed);
      RemoveEffect(attrs', TheAs4);
      FlatOfSuffix(segs, n);
      SetEffect(attrs', TheAs4, NewAs4(SuffixSegs(segs, n)));
    }
  }

  /** The path in two-octet form, 23456 standing for what does not fit, and the rest of it from there on. */
  predicate Split(attrs: AttrList, attrs': AttrList, hops: seq<Hop>) {
    var path, shadow := BodyOf(attrs', ThePath), BodyOf(attrs', TheAs4);
    && path.Some? && !path.value.is4b && ValidSegs(path.value.segments) && |Flat(path.value.segments)| == |hops|
    && (forall i :: 0 <= i < |hops| ==>
          Flat(path.value.segments)[i] == (hops[i].0, if hops[i].1 <= 65535 then hops[i].1 else 23456))
    && (shadow.None? <==> forall i :: 0 <= i < |hops| ==> hops[i].1 <= 65535)
    && (shadow.Some? ==>
          && GoodAs4(shadow.value) && 0 < |HopsIn(shadow)| <= |hops|
          && var n := |hops| - |HopsIn(shadow)|;
          HopsIn(shadow) == hops[n..] && hops[n].1 > 65535 && forall i :: 0 <= i < n ==> hops[i].1 <= 65535)
    && Rest(attrs') == Rest(attrs) && Tidy(attrs')
  }

  /** As many places say AS_TRANS as AS4_PATH has numbers, but it is not the tail of the path. */
  predicate Sparse(hops: seq<Hop>, tail: seq<Hop>) {
    && |tail| < |hops| && |set i | 0 <= i < |hops| && hops[i].1 == 23456| == |tail|
    && var n := |hops| - |tail|;
    exists i :: 0 <= i < |tail| && hops[n + i].1 != 23456 && hops[n + i].1 != tail[i].1
  }

  /** What restoring makes of every message: the path with its tail from AS4_PATH, or in the sparse case with the
      AS_TRANS places filled from it in order; and no AS4_PATH. It fails only if segments are invalid, AS4_PATH is
      the longer one, or its beginning lies inside an AS_SET of the path. */
  lemma RestoreMeaning(attrs: AttrList)
    requires Tidy(attrs)
    ensures var path, shadow, r := BodyOf(attrs, ThePath), BodyOf(attrs, TheAs4), Restored(attrs);
            var hops, tail := HopsIn(path), HopsIn(shadow);
            && (path.None? ==> r == Success(attrs))
            && (path.Some? ==>
                  && (r == Failure(BadLen) <==>
                        !ValidSegs(path.value.segments) || (shadow.Some? && !GoodAs4(shadow.value)))
                  && (r == Failure(BadLen) || r == Failure(Invalid) || r.Success?)
                  && (r == Failure(Invalid) <==>
                        && r != Failure(BadLen) && shadow.Some?
                        && (|tail| > |hops| || (!Sparse(hops, tail) && CutsSet(path.value.segments, |hops| - |tail|))))
                  && (r.Success? ==>
                        && BodyOf(r.value, TheAs4).None?
                        && Puts(attrs, r.value, true,
                                if shadow.None? then hops
                                else if Sparse(hops, tail) then Filled(hops, Asns(tail))
                                else hops[..|hops| - |tail|] + tail)))
  {
    hide Tidy, Rest, FirstOf, CutsSet, RemoveAttr, Widened, ValidSegs, Flat, BodyOf, FillSegs, Rebuild, Filled;
    var path, shadow := BodyOf(attrs, ThePath), BodyOf(attrs, TheAs4);
    if path.Some? {
      var segs := path.value.segments;
      if shadow.None? {
        WidenEffect(attrs, segs);
      } else {
        var wide := shadow.value.segments;
        if |Flat(wide)| <= |Flat(segs)| {
          SparseIff(Flat(segs), Flat(wide));
          var n := |Flat(segs)| - |Flat(wide)|;
          FillSegsMeaning(segs, Asns(Flat(wide)));
          FlatOfRebuild(segs, wide, n);
          RestoredWith(attrs, FillSegs(segs, Asns(Flat(wide))));
          RestoredWith(attrs, Rebuild(segs, wide, n));
        }
      }
    }
  }

  lemma SparseIff(hops: seq<Hop>, tail: seq<Hop>)
    requires |tail| <= |hops|
    ensures var n := |hops| - |tail|;
            Sparse(hops, tail) <==> n != 0 && TransCount(hops) == |tail| && !SuffixMatches(hops, tail, n)
  {
    TransCountMeaning(hops);
    hide TransCount;
  }

  lemma RestoredWith(attrs: AttrList, segs: seq<Segment>)
    requires Tidy(attrs) && BodyOf(attrs, ThePath).Some?
    ensures var r := RemoveAttr(Widened(attrs, segs), TheAs4);
            && BodyOf(r, ThePath) == Some(AsPath(segs, true)) && BodyOf(r, TheAs4).None?
            && Rest(r) == Rest(attrs) && Tidy(r)
  {
    hide Tidy, Rest, FirstOf, RemoveAttr, Widened, BodyOf;
    WidenEffect(attrs, segs);
    RemoveEffect(Widened(attrs, segs), TheAs4);
  }

  lemma ShadowIsGood(segs: seq<Segment>, wide: seq<Segment>, hops: seq<Hop>)
    requires Shadows(segs, Some(wide), hops)
    ensures ValidSegs(wide)
  {
  }

  lemma WidenEffect(attrs: AttrList, segs: seq<Segment>)
    requires BodyOf(attrs, ThePath).Some?
    ensures var r := Widened(attrs, segs);
            && BodyOf(r, ThePath) == Some(AsPath(segs, true)) && BodyOf(r, TheAs4) == BodyOf(attrs, TheAs4)
            && Rest(r) == Rest(attrs) && (Tidy(attrs) ==> Tidy(r))
  {
    var i := FirstOf(attrs, ThePath).value;
    SetEffect(attrs, ThePath, attrs[i].value.(body := AsPath(segs, true)));
  }

  /** Restoring such a message gives exactly the path it stands for, and no AS4_PATH. */
  lemma RestoreCarries(attrs: AttrList, hops: seq<Hop>)
    requires Carries(attrs, hops)
    ensures var r := Restored(attrs);
            && r.Success? && BodyOf(r.value, TheAs4) == None && Rest(r.value) == Rest(attrs)
            && BodyOf(r.value, ThePath).Some? && BodyOf(r.value, ThePath).value.is4b
            && ValidSegs(BodyOf(r.value, ThePath).value.segments)
            && Flat(BodyOf(r.value, ThePath).value.segments) == hops
  {
    hide Tidy, Rest, FirstOf, CutsSet, RemoveAttr, ValidSegs, Flat, BodyOf, Rebuild, Widened, SuffixMatches, TransCount;
    var shadow := BodyOf(attrs, TheAs4);
    var segs := BodyOf(attrs, ThePath).value.segments;
    if shadow.Some? {
      var wide := shadow.value.segments;
      ShadowsRestore(segs, wide, hops);
      var segs' := Rebuild(segs, wide, |hops| - |Flat(wide)|);
      WidenEffect(attrs, segs');
      RemoveEffect(Widened(attrs, segs'), TheAs4);
    } else {
      NarrowShort(hops);
      WidenEffect(attrs, segs);
    }
  }

  /** A chain of two-octet speakers, each prepending its own AS number. */
  function PrependAll(attrs: AttrList, asns: seq<nat>): Result<AttrList>
    decreases |asns|
  {
    if asns == [] then Success(attrs)
    else
      match Prepended(attrs, asns[0], false)
      case Failure(e) => Failure(e)
      case Success(attrs') => PrependAll(attrs', asns[1..])
  }

  function InFront(asns: seq<nat>, hops: seq<Hop>): seq<Hop> {
    if asns == [] then hops else InFront(asns[1..], [(AS_SEQUENCE, asns[0])] + hops)
  }

  lemma {:induction false} ChainCarries(attrs: AttrList, hops: seq<Hop>, asns: seq<nat>)
    requires Carries(attrs, hops)
    ensures var r := PrependAll(attrs, asns);
            r.Success? && Carries(r.value, InFront(asns, hops)) && Rest(r.value) == Rest(attrs)
    decreases |asns|
  {
    hide Carries, Rest, Prepended;
    if asns != [] {
      PrependCarries(attrs, hops, asns[0]);
      ChainCarries(Prepended(attrs, asns[0], false).value, [(AS_SEQUENCE, asns[0])] + hops, asns[1..]);
    }
  }

  /** A four-octet path sent through any number of two-octet speakers and restored is the same path with
      their AS numbers in front, and no other attribute has changed. */
  lemma RelayIsFaithful(attrs: AttrList, asns: seq<nat>)
    requires Tidy(attrs) && BodyOf(attrs, ThePath).Some? && BodyOf(attrs, ThePath).value.is4b
    requires ValidSegs(BodyOf(attrs, ThePath).value.segments) && Downgraded(attrs).Success?
    ensures var sent := PrependAll(Downgraded(attrs).value, asns);
            && sent.Success? && Restored(sent.value).Success?
            && var got := Restored(sent.value).value;
            && BodyOf(got, TheAs4) == None && Rest(got) == Rest(attrs)
            && BodyOf(got, ThePath).Some? && BodyOf(got, ThePath).value.is4b
            && Flat(BodyOf(got, ThePath).value.segments) == InFront(asns, Flat(BodyOf(attrs, ThePath).value.segments))
  {
    hide Carries, Rest, Tidy, Flat, ValidSegs, Downgraded, PrependAll, Restored, InFront, CutsSet, FirstLong;
    DowngradeCarries(attrs);
    var hops := Flat(BodyOf(attrs, ThePath).value.segments);
    ChainCarries(Downgraded(attrs).value, hops, asns);
    RestoreCarries(PrependAll(Downgraded(attrs).value, asns).value, InFront(asns, hops));
  }

  /** A legal four-octet path that cannot be downgraded: its first long number is second in a set. */
  lemma DowngradeRefusesSet()
    ensures var segs := [Segment(AS_SET, [1, 70000])];
            ValidSegs(segs) && Downgraded([Some(NewPath(segs, true))]) == Failure(Invalid)
  {
    var segs := [Segment(AS_SET, [1, 70000])];
    assert HopsOf(segs[0]) == [(AS_SET, 1), (AS_SET, 70000)];
    assert Flat(segs) == [(AS_SET, 1), (AS_SET, 70000)] + Flat([]);
    assert FirstLong(Flat(segs)) == 1;
  }
}
