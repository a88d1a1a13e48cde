/** Best-path choice between routes for one destination (src/rib4.c, after section 9.1.2.2 of
    RFC 4271). MED is compared only between routes from the same neighbouring AS, so the
    comparison is not transitive in general. */
module BestPath {
  import opened Wrappers
  import opened Prefix4
  import opened PathAttr

  /** A route. Router ids are numbers in memory (dotted-decimal) order. */
  datatype Route = Route(
    prefix: Prefix, source: nat, weight: int, localPref: nat, asPathLen: nat, origin: nat,
    med: nat, ibgp: bool, updateId: nat, attrs: AttrList)

  // ----- the neighbouring AS

  function FirstSequenceHead(segments: seq<Segment>): Option<nat> {
    if segments == [] then None
    else if segments[0].kind == AS_SEQUENCE && segments[0].asns != [] then Some(segments[0].asns[0])
    else FirstSequenceHead(segments[1..])
  }

  /** The first AS number of the first AS_SEQUENCE of the first AS_PATH attribute. */
  function NeighborAs(attrs: AttrList): Option<nat> {
    if attrs == [] then None
    else if attrs[0].Some? && attrs[0].value.body.AsPath? then FirstSequenceHead(attrs[0].value.body.segments)
    else NeighborAs(attrs[1..])
  }

  lemma {:induction false} FirstSequenceHeadMeaning(segments: seq<Segment>)
    ensures var r := FirstSequenceHead(segments);
            && (r.None? <==> forall j :: 0 <= j < |segments| ==> !(segments[j].kind == 2 && segments[j].asns != []))
            && (r.Some? ==>
                  exists j :: && 0 <= j < |segments| && segments[j].kind == 2 && segments[j].asns != []
                              && segments[j].asns[0] == r.value
                              && forall k :: 0 <= k < j ==> !(segments[k].kind == 2 && segments[k].asns != []))
  {
    if segments != [] && !(segments[0].kind == 2 && segments[0].asns != []) {
      var rest := segments[1..];
      FirstSequenceHeadMeaning(rest);
      assert forall j :: 0 <= j < |rest| ==> rest[j] == segments[j + 1];
      if FirstSequenceHead(rest).Some? {
        var j :| && 0 <= j < |rest| && rest[j].kind == 2 && rest[j].asns != []
                 && rest[j].asns[0] == FirstSequenceHead(rest).value
                 && forall k :: 0 <= k < j ==> !(rest[k].kind == 2 && rest[k].asns != []);
        FirstLater(segments, j);
      } else {
        forall j | 0 <= j < |segments| ensures !(segments[j].kind == 2 && segments[j].asns != []) {
          assert j > 0 ==> segments[j] == rest[j - 1];
        }
      }
    }
  }

  lemma FirstLater(segments: seq<Segment>, j: nat)
    requires j + 1 < |segments| && !(segments[0].kind == 2 && segments[0].asns != [])
    requires forall k :: 0 <= k < j ==> !(segments[1..][k].kind == 2 && segments[1..][k].asns != [])
    ensures forall k :: 0 <= k < j + 1 ==> !(segments[k].kind == 2 && segments[k].asns != [])
  {
    forall k | 0 <= k < j + 1 ensures !(segments[k].kind == 2 && segments[k].asns != []) {
      assert k > 0 ==> segments[k] == segments[1..][k - 1];
    }
  }

  predicate IsAsPath(a: Option<Attr>) {
    a.Some? && a.value.body.AsPath?
  }

  /** The neighbouring AS is found in the first AS_PATH attribute and in no other. */
  lemma {:induction false} NeighborAsMeaning(attrs: AttrList)
    ensures (forall i :: 0 <= i < |attrs| ==> !IsAsPath(attrs[i])) ==> NeighborAs(attrs).None?
    ensures forall i :: 0 <= i < |attrs| && IsAsPath(attrs[i]) && (forall j :: 0 <= j < i ==> !IsAsPath(attrs[j])) ==>
              NeighborAs(attrs) == FirstSequenceHead(attrs[i].value.body.segments)
  {
    hide FirstSequenceHead;
    if attrs != [] && !IsAsPath(attrs[0]) {
      NeighborAsMeaning(attrs[1..]);
      forall i | 0 <= i < |attrs| && IsAsPath(attrs[i]) && (forall j :: 0 <= j < i ==> !IsAsPath(attrs[j]))
        ensures NeighborAs(attrs) == FirstSequenceHead(attrs[i].value.body.segments)
      {
        assert i > 0 && attrs[i] == attrs[1..][i - 1];
        assert forall j :: 0 <= j < i - 1 ==> attrs[1..][j] == attrs[j + 1];
      }
    }
  }

  function EffectivePref(r: Route): nat {
    if r.localPref == 0 then 100 else r.localPref
  }

  // ----- the comparison

  predicate Better(a: Route, b: Route) {
    if a.weight != b.weight then a.weight > b.weight
    else if EffectivePref(a) != EffectivePref(b) then EffectivePref(a) > EffectivePref(b)
    else if a.asPathLen != b.asPathLen then a.asPathLen < b.asPathLen
    else if a.origin != b.origin then a.origin < b.origin
    else if a.med != b.med && NeighborAs(a.attrs).Some? && NeighborAs(a.attrs) == NeighborAs(b.attrs) then a.med < b.med
    else if a.ibgp != b.ibgp then !a.ibgp
    else if a.updateId != b.updateId then a.updateId < b.updateId
    else a.source < b.source
  }

  /** A neighbour-AS lookup is done at most once per route of a scan and remembered. */
  datatype Cache = Unread | Read(neighbor: Option<nat>)

  predicate CacheFor(c: Cache, r: Route) {
    c.Read? ==> c.neighbor == NeighborAs(r.attrs)
  }

  function Fill(c: Cache, r: Route): Cache {
    if c.Unread? then Read(NeighborAs(r.attrs)) else c
  }

  /** The comparison as it runs, reading the neighbour AS lazily through the caches. */
  function BetterCached(a: Route, ca: Cache, b: Route, cb: Cache): (r: (bool, Cache, Cache))
    requires CacheFor(ca, a) && CacheFor(cb, b)
    ensures r.0 == Better(a, b)
    ensures CacheFor(r.1, a) && CacheFor(r.2, b)
  {
    if a.weight != b.weight then (a.weight > b.weight, ca, cb)
    else if EffectivePref(a) != EffectivePref(b) then (EffectivePref(a) > EffectivePref(b), ca, cb)
    else if a.asPathLen != b.asPathLen then (a.asPathLen < b.asPathLen, ca, cb)
    else if a.origin != b.origin then (a.origin < b.origin, ca, cb)
    else if a.med == b.med then (BetterTail(a, b), ca, cb)
    else
      var ca' := Fill(ca, a);
      if ca'.neighbor.None? then (BetterTail(a, b), ca', cb)
      else
        var cb' := Fill(cb, b);
        if cb'.neighbor.Some? && ca'.neighbor.value == cb'.neighbor.value then (a.med < b.med, ca', cb')
        else (BetterTail(a, b), ca', cb')
  }

  predicate BetterTail(a: Route, b: Route) {
    if a.ibgp != b.ibgp then !a.ibgp
    else if a.updateId != b.updateId then a.updateId < b.updateId
    else a.source < b.source
  }

  // ----- what it means

  /** The preference of a route, 100 when it has none. */
  function Preference(r: Route): nat {
    if r.localPref == 0 then 100 else r.localPref
  }

  predicate SameNeighbor(a: Route, b: Route) {
    NeighborAs(a.attrs).Some? && NeighborAs(b.attrs).Some? && NeighborAs(a.attrs).value == NeighborAs(b.attrs).value
  }

  /** Weight, preference, path length and origin do not tell the two apart. */
  predicate LevelToOrigin(a: Route, b: Route) {
    a.weight == b.weight && Preference(a) == Preference(b) && a.asPathLen == b.asPathLen && a.origin == b.origin
  }

  /** Nor does MED, being equal or of different neighbours. */
  predicate LevelToMed(a: Route, b: Route) {
    LevelToOrigin(a, b) && (a.med == b.med || !SameNeighbor(a, b))
  }

  /** No step of the decision speaks for r against w: r has no greater weight; with equal weight no greater
      preference; then no shorter path; then no lower origin; then no lower MED from the same neighbour; then it
      is not external while w is internal; then it is not older; then its source is not lower. */
  predicate Withstands(w: Route, r: Route) {
    && r.weight <= w.weight
    && (r.weight == w.weight ==> Preference(r) <= Preference(w))
    && (r.weight == w.weight && Preference(r) == Preference(w) ==> r.asPathLen >= w.asPathLen)
    && (r.weight == w.weight && Preference(r) == Preference(w) && r.asPathLen == w.asPathLen ==> r.origin >= w.origin)
    && (LevelToOrigin(w, r) && SameNeighbor(w, r) ==> r.med >= w.med)
    && (LevelToMed(w, r) ==> !(w.ibgp && !r.ibgp))
    && (LevelToMed(w, r) && w.ibgp == r.ibgp ==> r.updateId >= w.updateId)
    && (LevelToMed(w, r) && w.ibgp == r.ibgp && r.updateId == w.updateId ==> r.source >= w.source)
  }

  /** Whatever the MEDs, a route is not better than another exactly if no step speaks for it. */
  lemma WithstandsIff(w: Route, r: Route)
    ensures Withstands(w, r) <==> !Better(r, w)
  {
  }

  lemma UnbeatenWithstands(w: Route)
    ensures forall r :: Withstands(w, r) <==> !Better(r, w)
  {
    hide Withstands, Better;
    forall r ensures Withstands(w, r) <==> !Better(r, w) {
      WithstandsIff(w, r);
    }
  }

  // ----- when it is an order

  /** The MEDs of two routes can be compared: they are equal or from one neighbouring AS. */
  predicate MedComparable(a: Route, b: Route) {
    a.med == b.med || (NeighborAs(a.attrs).Some? && NeighborAs(a.attrs) == NeighborAs(b.attrs))
  }

  predicate SameAge(a: Route, b: Route) {
    a.updateId == b.updateId && a.source == b.source
  }

  /** Whatever the MEDs, of two routes that differ in (update id, source) exactly one is better. */
  lemma BetterIsTournament(a: Route, b: Route)
    ensures !(Better(a, b) && Better(b, a))
    ensures !SameAge(a, b) ==> Better(a, b) || Better(b, a)
  {
  }

  lemma BetterIsTransitive(a: Route, b: Route, c: Route)
    requires MedComparable(a, b) && MedComparable(b, c) && MedComparable(a, c)
    ensures Better(a, b) && Better(b, c) ==> Better(a, c)
    ensures Better(a, b) && !Better(c, b) ==> Better(a, c)
    ensures !Better(b, a) && Better(b, c) ==> Better(a, c)
  {
  }

  function Via(asn: nat): AttrList {
    [Some(Attr(0x40, 2, AsPath([Segment(AS_SEQUENCE, [asn])], true)))]
  }

  /** Three routes, two neighbouring ASes: each is better than the next. */
  lemma MedCycle() returns (a: Route, b: Route, c: Route)
    ensures Better(a, b) && Better(b, c) && Better(c, a)
    ensures MedComparable(a, b) && MedComparable(c, a) && !MedComparable(b, c)
  {
    var p := Prefix(Addr(10, 0, 0, 0), 8);
    a := Route(p, 1, 0, 100, 1, 0, 10, false, 3, Via(65001));
    b := Route(p, 2, 0, 100, 1, 0, 20, false, 1, Via(65001));
    c := Route(p, 3, 0, 100, 1, 0, 10, false, 2, Via(65002));
  }

  // ----- scanning for the best

  /** The position the library's scan ends on: a later route takes over when it is better. */
  function Scan(rs: seq<Route>): (i: nat)
    requires rs != []
    ensures i < |rs|
  {
    if |rs| == 1 then 0
    else
      var best := Scan(rs[..|rs| - 1]);
      if Better(rs[|rs| - 1], rs[best]) then |rs| - 1 else best
  }

  method ScanBest(rs: seq<Route>) returns (best: nat)
    requires rs != []
    ensures best == Scan(rs)
  {
    best := 0;
    var bestCache := Unread;
    var i := 1;
    assert rs[..1][..0] == [];
    while i < |rs|
      invariant 1 <= i <= |rs|
      invariant best == Scan(rs[..i]) < i
      invariant CacheFor(bestCache, rs[best])
    {
      var (better, cache, bestCache') := BetterCached(rs[i], Unread, rs[best], bestCache);
      assert rs[..i + 1][..i] == rs[..i];
      if better {
        best, bestCache := i, cache;
      } else {
        bestCache := bestCache';
      }
      i := i + 1;
    }
    assert rs[..i] == rs;
  }

  /** Route w is better than every other route of the list. */
  ghost predicate Beats(w: Route, rs: seq<Route>) {
    forall r :: r in rs && r != w ==> Better(w, r)
  }

  ghost predicate Comparable(rs: seq<Route>) {
    forall a, b :: a in rs && b in rs ==> MedComparable(a, b)
  }

  /** No two different routes share (update id, source). */
  ghost predicate Distinct(rs: seq<Route>) {
    forall a, b :: a in rs && b in rs && SameAge(a, b) ==> a == b
  }

  /** A route that beats all others is found by the scan, whatever the order. */
  lemma {:induction false} ScanFindsWinner(rs: seq<Route>, w: Route)
    requires w in rs && Beats(w, rs)
    ensures rs[Scan(rs)] == w
  {
    var n := |rs| - 1;
    if n > 0 {
      var init := rs[..n];
      assert forall r :: r in init ==> r in rs;
      var last := rs[n];
      var s := init[Scan(init)];
      assert s in rs && last in rs;
      if w in init {
        ScanFindsWinner(init, w);
        BetterIsTournament(w, last);
      } else {
        assert w == last;
        assert s != w;
      }
    }
  }

  /** On MED-comparable routes no route is better than the one the scan ends on. */
  lemma {:induction false} ScanIsUnbeaten(rs: seq<Route>)
    requires rs != [] && Comparable(rs)
    ensures forall r :: r in rs ==> !Better(r, rs[Scan(rs)])
  {
    hide Better, MedComparable;
    var n := |rs| - 1;
    BetterIsTournament(rs[n], rs[n]);
    if n > 0 {
      var init, last := rs[..n], rs[n];
      assert forall r :: r in init ==> r in rs;
      ScanIsUnbeaten(init);
      var s := init[Scan(init)];
      assert s in rs && last in rs;
      forall r | r in rs ensures !Better(r, rs[Scan(rs)]) {
        assert r in init || r == last;
        BetterIsTransitive(last, s, r);
        BetterIsTournament(last, r);
      }
    }
  }

  /** On MED-comparable routes the scan ends on the one route that beats all others. */
  lemma ScanIsBest(rs: seq<Route>)
    requires rs != [] && Comparable(rs) && Distinct(rs)
    ensures Beats(rs[Scan(rs)], rs)
  {
    ScanIsUnbeaten(rs);
    var w := rs[Scan(rs)];
    forall r | r in rs && r != w ensures Better(w, r) {
      BetterIsTournament(w, r);
    }
  }

  /** On MED-comparable routes no step of the decision speaks against the route the scan ends on. */
  lemma ScanWithstands(rs: seq<Route>)
    requires rs != [] && Comparable(rs)
    ensures forall r :: r in rs ==> Withstands(rs[Scan(rs)], r)
  {
    hide Better, Withstands, MedComparable;
    ScanIsUnbeaten(rs);
    forall r | r in rs ensures Withstands(rs[Scan(rs)], r) {
      WithstandsIff(rs[Scan(rs)], r);
    }
  }

  ghost predicate OrderIndependent(rs: seq<Route>) {
    forall qs: seq<Route> {:trigger multiset(qs)} :: multiset(qs) == multiset(rs) ==>
      qs != [] && rs != [] && qs[Scan(qs)] == rs[Scan(rs)]
  }

  /** The scan's answer does not depend on the order of the routes exactly when some route
      beats all others. */
  lemma OrderIndependentIff(rs: seq<Route>)
    requires rs != [] && Distinct(rs)
    ensures OrderIndependent(rs) <==> exists w :: w in rs && Beats(w, rs)
  {
    if w :| w in rs && Beats(w, rs) {
      forall qs: seq<Route> | multiset(qs) == multiset(rs)
        ensures qs != [] && qs[Scan(qs)] == rs[Scan(rs)]
      {
        SameMembers(qs, rs);
        ScanFindsWinner(qs, w);
        ScanFindsWinner(rs, w);
      }
    } else {
      var s := rs[Scan(rs)];
      assert s in rs && !Beats(s, rs);
      var y :| y in rs && y != s && !Better(s, y);
      BetterIsTournament(s, y);
      MovedToEnd(rs, s, y);
    }
  }

  lemma SameMembers(qs: seq<Route>, rs: seq<Route>)
    requires multiset(qs) == multiset(rs)
    ensures forall r :: r in qs <==> r in rs
    ensures qs == [] <==> rs == []
  {
    forall r ensures r in qs <==> r in rs {
      assert r in qs <==> r in multiset(qs);
      assert r in rs <==> r in multiset(rs);
    }
    assert |multiset(qs)| == |qs| && |multiset(rs)| == |rs|;
  }

  /** If y is better than the scan's answer s, scanning with y last gives another answer. */
  lemma MovedToEnd(rs: seq<Route>, s: Route, y: Route)
    requires rs != [] && rs[Scan(rs)] == s && y in rs && y != s && Better(y, s)
    ensures !OrderIndependent(rs)
  {
    hide Better, Scan;
    var i :| 0 <= i < |rs| && rs[i] == y;
    var rest := rs[..i] + rs[i + 1..];
    SameMultiset(rs, i);
    ScanOfSnoc(rest, y);
    WitnessOfDependence(rs, rest + [y]);
  }

  lemma WitnessOfDependence(rs: seq<Route>, qs: seq<Route>)
    requires rs != [] && qs != [] && multiset(qs) == multiset(rs) && qs[Scan(qs)] != rs[Scan(rs)]
    ensures !OrderIndependent(rs)
  {
    hide Scan;
  }

  lemma SameMultiset(rs: seq<Route>, i: nat)
    requires i < |rs|
    ensures multiset(rs[..i] + rs[i + 1..] + [rs[i]]) == multiset(rs)
  {
    assert rs == rs[..i] + [rs[i]] + rs[i + 1..];
  }

  lemma ScanOfSnoc(rest: seq<Route>, y: Route)
    ensures (rest + [y])[Scan(rest + [y])] ==
            if rest != [] && !Better(y, rest[Scan(rest)]) then rest[Scan(rest)] else y
  {
    assert (rest + [y])[..|rest|] == rest;
  }

  /** MED-comparable routes: the scan is order independent, and its answer beats all others. */
  lemma ComparableIsOrderIndependent(rs: seq<Route>)
    requires rs != [] && Comparable(rs) && Distinct(rs)
    ensures OrderIndependent(rs)
  {
    ScanIsBest(rs);
    OrderIndependentIff(rs);
  }
}
