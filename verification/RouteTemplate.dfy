/** The route that an UPDATE announces for each of its prefixes (src/fsm.c, src/attr_view.h): the fields best-path
    choice looks at, filled from the attributes by type code. */
module RouteTemplate {
  import opened Wrappers
  import opened Prefix4
  import opened PathAttr
  import opened BestPath
  import opened UpdateCodec
  import opened UpdateMessage
  import opened UpdateLayout
  import WireLayout
  import opened RibIndex
  import opened UpdateJournal

  // ----- the view by type code

  /** The first attribute with a type code. */
  function ByCode(attrs: AttrList, code: Code): Option<Attr> {
    if attrs == [] then None
    else
      var init := attrs[..|attrs| - 1];
      if ByCode(init, code).Some? then ByCode(init, code)
      else if attrs[|attrs| - 1].Some? && attrs[|attrs| - 1].value.code == code then attrs[|attrs| - 1]
      else None
  }

  method BuildView(attrs: AttrList) returns (view: array<Option<Attr>>)
    ensures fresh(view) && view.Length == 256
    ensures forall c: Code :: view[c] == ByCode(attrs, c)
  {
    view := new Option<Attr>[256](_ => None);
    for i := 0 to |attrs|
      invariant forall c: Code :: view[c] == ByCode(attrs[..i], c)
    {
      assert attrs[..i + 1][..i] == attrs[..i];
      if attrs[i].Some? && view[attrs[i].value.code].None? {
        view[attrs[i].value.code] := attrs[i];
      }
    }
    assert attrs[..|attrs|] == attrs;
  }

  /** Attribute i has the code and none before it does. */
  predicate FirstWith(attrs: AttrList, code: Code, i: nat) {
    && i < |attrs| && attrs[i].Some? && attrs[i].value.code == code
    && forall k :: 0 <= k < i && attrs[k].Some? ==> attrs[k].value.code != code
  }

  lemma {:induction false} ByCodeMeaning(attrs: AttrList, code: Code)
    ensures var r := ByCode(attrs, code);
            && (r.None? <==> forall i :: 0 <= i < |attrs| && attrs[i].Some? ==> attrs[i].value.code != code)
            && (r.Some? ==> exists i: nat :: FirstWith(attrs, code, i) && attrs[i] == r)
  {
    if attrs != [] {
      var n := |attrs| - 1;
      var init := attrs[..n];
      ByCodeMeaning(init, code);
      assert forall i :: 0 <= i < n ==> init[i] == attrs[i];
      if ByCode(init, code).Some? {
        var i: nat :| FirstWith(init, code, i) && init[i] == ByCode(init, code);
        assert FirstWith(attrs, code, i);
      } else if ByCode(attrs, code).Some? {
        assert FirstWith(attrs, code, n);
      }
    }
  }

  // ----- the path length

  /** Each AS of a sequence is a hop, and a set is one. */
  function Hops(s: Segment): nat {
    if s.kind == AS_SEQUENCE then |s.asns| else if s.kind == AS_SET then 1 else 0
  }

  function PathLen(segs: seq<Segment>): nat {
    if segs == [] then 0 else PathLen(segs[..|segs| - 1]) + Hops(segs[|segs| - 1])
  }

  method CountHops(attr: Option<Attr>) returns (len: nat)
    ensures len == if attr.Some? && attr.value.body.AsPath? then PathLen(attr.value.body.segments) else 0
  {
    len := 0;
    if attr.None? || !attr.value.body.AsPath? {
      return;
    }
    var segs := attr.value.body.segments;
    for i := 0 to |segs|
      invariant len == PathLen(segs[..i])
    {
      assert segs[..i + 1][..i] == segs[..i];
      if segs[i].kind == AS_SEQUENCE {
        len := len + |segs[i].asns|;
      } else if segs[i].kind == AS_SET {
        len := len + 1;
      }
    }
    assert segs[..|segs|] == segs;
  }

  /** The hops themselves: place j of sequence k, or place 0 of set k. */
  ghost function HopsOf(segs: seq<Segment>): set<(nat, nat)> {
    (set k: nat, j: nat | k < |segs| && segs[k].kind == 2 && j < |segs[k].asns| :: (k, j))
    + (set k: nat | k < |segs| && segs[k].kind == 1 :: (k, 0 as nat))
  }

  ghost function Row(k: nat, n: nat): set<(nat, nat)> {
    set j: nat | j < n :: (k, j)
  }

  lemma {:induction false} RowSize(k: nat, n: nat)
    ensures |Row(k, n)| == n
  {
    if n > 0 {
      RowSize(k, n - 1);
      assert Row(k, n) == Row(k, n - 1) + {(k, n - 1)};
    } else {
      assert Row(k, 0) == {};
    }
  }

  lemma RowOfHops(segs: seq<Segment>)
    requires segs != []
    ensures var n := |segs| - 1;
            && HopsOf(segs) == HopsOf(segs[..n]) + Row(n, Hops(segs[n]))
            && HopsOf(segs[..n]) !! Row(n, Hops(segs[n]))
  {
    var n := |segs| - 1;
    var row := Row(n, Hops(segs[n]));
    assert forall k :: 0 <= k < n ==> segs[..n][k] == segs[k];
    forall h: (nat, nat) ensures h in HopsOf(segs) <==> h in HopsOf(segs[..n]) + row {
      if h.0 == n {
        assert h in row <==> h.1 < Hops(segs[n]);
      }
    }
  }

  /** The path length is the number of hops. */
  lemma {:induction false} PathLenMeaning(segs: seq<Segment>)
    ensures PathLen(segs) == |HopsOf(segs)|
  {
    if segs == [] {
      assert HopsOf(segs) == {};
    } else {
      hide HopsOf, Row;
      var n := |segs| - 1;
      PathLenMeaning(segs[..n]);
      RowSize(n, Hops(segs[n]));
      RowOfHops(segs);
    }
  }

  // ----- the route

  /** The data of an attribute is of the type its code stands for. */
  predicate WellTyped(a: Attr) {
    && (a.code == 1 <==> a.body.Origin?) && (a.code == 2 <==> a.body.AsPath?)
    && (a.code == 4 <==> a.body.Med?) && (a.code == 5 <==> a.body.LocalPref?)
  }

  predicate AllWellTyped(attrs: AttrList) {
    forall i :: 0 <= i < |attrs| && attrs[i].Some? ==> WellTyped(attrs[i].value)
  }

  lemma ByCodeTyped(attrs: AttrList, code: Code)
    requires AllWellTyped(attrs)
    ensures ByCode(attrs, code).Some? ==> ByCode(attrs, code).value.code == code && WellTyped(ByCode(attrs, code).value)
  {
    hide ByCode;
    ByCodeMeaning(attrs, code);
  }

  /** The route before it has an update id; LOCAL_PREF counts only from an internal peer. */
  function FilledRoute(attrs: AttrList, p: Prefix, source: nat, weight: int, ibgp: bool): Route
    requires AllWellTyped(attrs)
  {
    ByCodeTyped(attrs, 1);
    ByCodeTyped(attrs, 2);
    ByCodeTyped(attrs, 4);
    ByCodeTyped(attrs, 5);
    var origin, path, med, pref := ByCode(attrs, 1), ByCode(attrs, 2), ByCode(attrs, 4), ByCode(attrs, 5);
    Route(p, source, weight,
          if ibgp && pref.Some? then pref.value.body.pref else 100,
          if path.Some? then PathLen(path.value.body.segments) else 0,
          if origin.Some? then origin.value.body.origin else 0,
          if med.Some? then med.value.body.med else 0,
          ibgp, 0, attrs)
  }

  method FillRoute(attrs: AttrList, p: Prefix, source: nat, weight: int, ibgp: bool) returns (r: Route)
    requires AllWellTyped(attrs)
    ensures r == FilledRoute(attrs, p, source, weight, ibgp)
  {
    hide ByCode, PathLen;
    ByCodeTyped(attrs, 1);
    ByCodeTyped(attrs, 2);
    ByCodeTyped(attrs, 4);
    ByCodeTyped(attrs, 5);
    var view := BuildView(attrs);
    var localPref, origin, med := 100, 0, 0;
    if ibgp && view[5].Some? {
      localPref := view[5].value.body.pref;
    }
    if view[1].Some? {
      origin := view[1].value.body.origin;
    }
    if view[4].Some? {
      med := view[4].value.body.med;
    }
    var len := CountHops(view[2]);
    r := Route(p, source, weight, localPref, len, origin, med, ibgp, 0, attrs);
  }

  // ----- what it says of a message

  /** The fields that best-path choice looks at are those the message's attributes give. */
  ghost predicate Carries(r: Route, attrs: AttrList, ibgp: bool) {
    && (forall i :: 0 <= i < |attrs| && attrs[i].Some? && attrs[i].value.body.LocalPref? ==>
          r.localPref == if ibgp then attrs[i].value.body.pref else 100)
    && (forall i :: 0 <= i < |attrs| && attrs[i].Some? && attrs[i].value.body.AsPath? ==>
          r.asPathLen == |HopsOf(attrs[i].value.body.segments)|)
    && (forall i :: 0 <= i < |attrs| && attrs[i].Some? && attrs[i].value.body.Origin? ==>
          r.origin == attrs[i].value.body.origin)
    && (forall i :: 0 <= i < |attrs| && attrs[i].Some? && attrs[i].value.body.Med? ==>
          r.med == attrs[i].value.body.med)
    && ((forall i :: 0 <= i < |attrs| && attrs[i].Some? ==> !attrs[i].value.body.LocalPref?) ==> r.localPref == 100)
    && ((forall i :: 0 <= i < |attrs| && attrs[i].Some? ==> !attrs[i].value.body.Med?) ==> r.med == 0)
  }

  /** With no code twice, an attribute is the one its code finds. */
  lemma OnlyOne(attrs: AttrList, i: nat)
    requires (forall k :: 0 <= k < |attrs| ==> attrs[k].Some?) && CodesDiffer(Values(attrs)) && i < |attrs|
    ensures ByCode(attrs, attrs[i].value.code) == attrs[i]
  {
    hide ByCode;
    var code := attrs[i].value.code;
    ByCodeMeaning(attrs, code);
    var k: nat :| FirstWith(attrs, code, k) && attrs[k] == ByCode(attrs, code);
    assert Values(attrs)[k].code == Values(attrs)[i].code;
  }

  lemma FilledCarries(attrs: AttrList, p: Prefix, source: nat, weight: int, ibgp: bool)
    requires AllWellTyped(attrs)
    requires (forall k :: 0 <= k < |attrs| ==> attrs[k].Some?) && CodesDiffer(Values(attrs))
    ensures Carries(FilledRoute(attrs, p, source, weight, ibgp), attrs, ibgp)
  {
    hide ByCode, CodesDiffer, HopsOf, PathLen;
    ByCodeTyped(attrs, 4);
    ByCodeTyped(attrs, 5);
    ByCodeMeaning(attrs, 4);
    ByCodeMeaning(attrs, 5);
    forall i | 0 <= i < |attrs| ensures ByCode(attrs, attrs[i].value.code) == attrs[i] && WellTyped(attrs[i].value) {
      OnlyOne(attrs, i);
    }
    forall i | 0 <= i < |attrs| && attrs[i].value.body.AsPath?
      ensures PathLen(attrs[i].value.body.segments) == |HopsOf(attrs[i].value.body.segments)|
    {
      PathLenMeaning(attrs[i].value.body.segments);
    }
  }

  lemma LaidIsTyped(a: Attr, b: seq<bv8>, wide: bool)
    requires AttrLaid(a, b, wide)
    ensures WellTyped(a)
  {
  }

  lemma {:induction false} LaidAreTyped(attrs: seq<Attr>, b: seq<bv8>, wide: bool)
    requires AttrsLaid(attrs, b, wide)
    ensures forall i :: 0 <= i < |attrs| ==> WellTyped(attrs[i])
  {
    hide AttrLaid, WellTyped, Span;
    if attrs != [] {
      LaidIsTyped(attrs[0], b, wide);
      AttrFits(attrs[0], b, wide);
      LaidAreTyped(attrs[1..], b[Span(b)..], wide);
      forall i | 0 < i < |attrs| ensures WellTyped(attrs[i]) {
        assert attrs[i] == attrs[1..][i - 1];
      }
    }
  }

  lemma ListIsTyped(attrs: AttrList, b: seq<bv8>, wide: bool)
    requires ListLaid(attrs, b, wide)
    ensures AllWellTyped(attrs)
  {
    hide AttrsLaid, WellTyped;
    LaidAreTyped(Values(attrs), b, wide);
  }

  /** From the bytes of an UPDATE to the table: each announced and permitted prefix ends with a route of that peer
      whose weight is the session's and whose path length, origin, MED and preference are those the bytes give. */
  lemma BytesToTable(b: seq<bv8>, wide: bool, m: Update, t: RouteTable, lastId: nat, source: nat, weight: int,
                     ibgp: bool, permit: Route -> bool, p: Prefix)
    requires UpdateLaid(m, b, wide)
    ensures AllWellTyped(m.attrs)
    ensures var template := FilledRoute(m.attrs, p, source, weight, ibgp);
            var t' := AnnounceAll(t, lastId, template, permit, m.nlri).0;
            p in m.nlri && permit(template) ==>
              && (source, p) in t' && Carries(t'[(source, p)].(localPref := template.localPref), m.attrs, ibgp)
              && t'[(source, p)].localPref == (if template.localPref == 0 then 100 else template.localPref)
              && t'[(source, p)].weight == weight && t'[(source, p)].ibgp == ibgp
              && t'[(source, p)].attrs == m.attrs && t'[(source, p)].prefix == p
  {
    hide AnnounceAll, FilledRoute, Carries, CodesDiffer, AttrsLaid;
    ListOfUpdate(m, b, wide);
    FilledCarries(m.attrs, p, source, weight, ibgp);
    FilledFields(m.attrs, p, source, weight, ibgp);
    var template := FilledRoute(m.attrs, p, source, weight, ibgp);
    assert template.(prefix := p, updateId := 0) == template;
    AnnounceMeaning(t, lastId, template, permit, m.nlri, (source, p));
    if p in m.nlri && permit(template) {
      var r := AnnounceAll(t, lastId, template, permit, m.nlri).0[(source, p)];
      SameCarries(template, r.(localPref := template.localPref), m.attrs, ibgp);
    }
  }

  lemma ListOfUpdate(m: Update, b: seq<bv8>, wide: bool)
    requires UpdateLaid(m, b, wide)
    ensures AllWellTyped(m.attrs) && (forall k :: 0 <= k < |m.attrs| ==> m.attrs[k].Some?)
    ensures CodesDiffer(Values(m.attrs))
  {
    hide AttrsLaid, AllWellTyped, CodesDiffer, WireLayout.PrefixesLaid, Complete;
    var w := WireLayout.U16(b, 0);
    var a := WireLayout.U16(b, 2 + w);
    ListIsTyped(m.attrs, b[4 + w..4 + w + a], wide);
  }

  lemma FilledFields(attrs: AttrList, p: Prefix, source: nat, weight: int, ibgp: bool)
    requires AllWellTyped(attrs)
    ensures var r := FilledRoute(attrs, p, source, weight, ibgp);
            && r.prefix == p && r.source == source && r.weight == weight && r.ibgp == ibgp && r.updateId == 0
            && r.attrs == attrs
  {
    hide ByCode;
  }

  lemma SameCarries(r: Route, s: Route, attrs: AttrList, ibgp: bool)
    requires Carries(r, attrs, ibgp) && s.localPref == r.localPref && s.asPathLen == r.asPathLen
    requires s.origin == r.origin && s.med == r.med
    ensures Carries(s, attrs, ibgp)
  {
    hide HopsOf;
  }
}
