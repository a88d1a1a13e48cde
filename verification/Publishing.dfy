/** What a subscriber of the event bus knows when reports are not published in the order of the table changes
    they are about, or not at all (src/fsm.c). A session publishes after it has given up its lock, and stops
    when it is no longer the current one, so reports of several sessions can overtake each other or go missing. */
module Publishing {
  import opened Prefix4
  import opened BestPath
  import opened RibIndex

  type Bests = map<Prefix, Route>

  /** Report i tells truly how the best routes went from bests[i] to bests[i + 1]. */
  predicate Accounts(bests: seq<Bests>, reports: seq<seq<Event>>) {
    && |bests| == |reports| + 1
    && forall i :: 0 <= i < |reports| ==> Mirror(bests[i], reports[i]) == bests[i + 1]
  }

  /** Numbers of reports. */
  predicate Numbers(reports: seq<seq<Event>>, order: seq<nat>) {
    forall k :: 0 <= k < |order| ==> order[k] < |reports|
  }

  /** The events a subscriber hears when reports are published in this order. */
  function Heard(reports: seq<seq<Event>>, order: seq<nat>): seq<Event>
    requires Numbers(reports, order)
  {
    if order == [] then [] else Heard(reports, order[..|order| - 1]) + reports[order[|order| - 1]]
  }

  /** Up to which change of the table a subscriber is told about a prefix: the one that the last published report
      about it is about. */
  function Known(reports: seq<seq<Event>>, order: seq<nat>, p: Prefix): (k: nat)
    requires Numbers(reports, order)
    ensures k <= |reports|
  {
    if order == [] then 0
    else
      var i := order[|order| - 1];
      if About(reports[i], p) then i + 1 else Known(reports, order[..|order| - 1], p)
  }

  /** Whatever a subscriber believed before, events about a prefix decide what it believes of it after. */
  lemma {:induction false} MirrorAt(m: Bests, n: Bests, events: seq<Event>, p: Prefix)
    ensures SameAt(Mirror(m, events), if About(events, p) then Mirror(n, events) else m, p)
  {
    if events != [] {
      var last := |events| - 1;
      MirrorAt(m, n, events[..last], p);
      if Subject(events[last]) != p {
        assert About(events, p) ==> About(events[..last], p);
      }
    }
  }

  /** A subscriber believes of each prefix what the table had when the last published report about it was made. */
  lemma {:induction false} HeardAt(bests: seq<Bests>, reports: seq<seq<Event>>, order: seq<nat>, p: Prefix)
    requires Accounts(bests, reports) && Numbers(reports, order)
    ensures SameAt(Mirror(bests[0], Heard(reports, order)), bests[Known(reports, order, p)], p)
  {
    if order != [] {
      var before, i := order[..|order| - 1], order[|order| - 1];
      HeardAt(bests, reports, before, p);
      MirrorOfConcat(bests[0], Heard(reports, before), reports[i]);
      MirrorAt(Mirror(bests[0], Heard(reports, before)), bests[i], reports[i], p);
      hide Mirror, About;
    }
  }

  /** The last published report about a prefix left its best route as it is in the end. */
  predicate UpToDate(bests: seq<Bests>, reports: seq<seq<Event>>, order: seq<nat>, p: Prefix)
    requires |bests| == |reports| + 1 && Numbers(reports, order)
  {
    SameAt(bests[Known(reports, order, p)], bests[|reports|], p)
  }

  /** In whatever order reports are published and whichever are left out, a subscriber ends up right if and only
      if for every prefix the last published report about it left its best route as it now is. */
  lemma RightIff(bests: seq<Bests>, reports: seq<seq<Event>>, order: seq<nat>)
    requires Accounts(bests, reports) && Numbers(reports, order)
    ensures Mirror(bests[0], Heard(reports, order)) == bests[|reports|] <==>
            forall p :: UpToDate(bests, reports, order, p)
  {
    hide Mirror, Heard, Known;
    var m := Mirror(bests[0], Heard(reports, order));
    forall p ensures SameAt(m, bests[|reports|], p) <==> UpToDate(bests, reports, order, p) {
      HeardAt(bests, reports, order, p);
    }
    if forall p :: UpToDate(bests, reports, order, p) {
      forall p ensures SameAt(m, bests[|reports|], p) {
        assert UpToDate(bests, reports, order, p);
      }
      MapsEqual(m, bests[|reports|]);
    }
  }

  /** The order of the table changes. */
  function InOrder(n: nat): (order: seq<nat>)
    ensures |order| == n && forall k :: 0 <= k < n ==> order[k] == k
  {
    seq(n, k => k)
  }

  lemma {:induction false} HeardInOrder(bests: seq<Bests>, reports: seq<seq<Event>>, n: nat)
    requires Accounts(bests, reports) && n <= |reports|
    ensures Mirror(bests[0], Heard(reports, InOrder(n))) == bests[n]
    decreases n
  {
    if n > 0 {
      HeardInOrder(bests, reports, n - 1);
      assert InOrder(n)[..n - 1] == InOrder(n - 1);
      MirrorOfConcat(bests[0], Heard(reports, InOrder(n - 1)), reports[n - 1]);
    }
  }

  /** It is enough that for every prefix the last published report about it is the last one made. */
  lemma LastWordSuffices(bests: seq<Bests>, reports: seq<seq<Event>>, order: seq<nat>)
    requires Accounts(bests, reports) && Numbers(reports, order)
    requires forall p :: Known(reports, order, p) == Known(reports, InOrder(|reports|), p)
    ensures Mirror(bests[0], Heard(reports, order)) == bests[|reports|]
  {
    hide Mirror, Heard, Known;
    RightIff(bests, reports, InOrder(|reports|));
    HeardInOrder(bests, reports, |reports|);
    forall p ensures UpToDate(bests, reports, order, p) {
      assert UpToDate(bests, reports, InOrder(|reports|), p);
    }
    RightIff(bests, reports, order);
  }

  /** Two sessions that publish the other way round: one announced a route and the other, which then took it out,
      published first. The subscriber keeps a route that is gone. */
  lemma OvertakenReport(r: Route)
    ensures var bests, reports := [map[], map[r.prefix := r], map[]], [[RouteAdded(r)], [RouteWithdrawn(r.prefix)]];
            && Accounts(bests, reports)
            && Mirror(bests[0], Heard(reports, [1, 0])) == map[r.prefix := r] != bests[2]
  {
    var added, gone := [RouteAdded(r)], [RouteWithdrawn(r.prefix)];
    var none: seq<Event> := [];
    assert added[..0] == none && gone[..0] == none;
    assert Mirror(map[], added) == map[r.prefix := r];
    assert Mirror(map[r.prefix := r], gone) == map[];
    assert Mirror(map[], gone) == map[];
    var reports := [added, gone];
    assert [1, 0][..1] == [1] && [1][..0] == [];
    assert Heard(reports, [1]) == gone && Heard(reports, [1, 0]) == gone + added;
    MirrorOfConcat(map[], gone, added);
  }

  // ----- on the table

  /** The tables whose changes true reports tell are comparable throughout. */
  lemma {:induction false} AllAccounted(tables: seq<set<E>>, reports: seq<seq<Event>>, k: nat)
    requires |tables| == |reports| + 1 && k <= |reports| && AllComparable(tables[0])
    requires forall i :: 0 <= i < |reports| ==> Informs(tables[i], tables[i + 1], reports[i])
    ensures AllComparable(tables[k])
    decreases k
  {
    hide AllComparable, BestMap, Mirror;
    if k > 0 {
      AllAccounted(tables, reports, k - 1);
      assert Informs(tables[k - 1], tables[k - 1 + 1], reports[k - 1]);
    }
  }

  ghost predicate AllOf(tables: seq<set<E>>) {
    forall i :: 0 <= i < |tables| ==> AllComparable(tables[i])
  }

  ghost function BestMaps(tables: seq<set<E>>): (bests: seq<Bests>)
    requires AllOf(tables)
    ensures |bests| == |tables| && forall i :: 0 <= i < |tables| ==> bests[i] == BestMap(tables[i])
  {
    seq(|tables|, i requires 0 <= i < |tables| => BestMap(tables[i]))
  }

  /** The same of a table and the sessions that change it: whichever of their reports are published in whatever
      order, the subscriber knows the best routes of the last table exactly on that condition. */
  lemma PublishedRightIff(tables: seq<set<E>>, reports: seq<seq<Event>>, order: seq<nat>)
    requires |tables| == |reports| + 1 && AllComparable(tables[0]) && Numbers(reports, order)
    requires forall i :: 0 <= i < |reports| ==> Informs(tables[i], tables[i + 1], reports[i])
    ensures AllOf(tables)
    ensures Mirror(BestMap(tables[0]), Heard(reports, order)) == BestMap(tables[|reports|]) <==>
            forall p :: UpToDate(BestMaps(tables), reports, order, p)
  {
    hide AllComparable, BestMap, Mirror, Heard, Known;
    forall k | 0 <= k < |tables| ensures AllComparable(tables[k]) {
      AllAccounted(tables, reports, k);
    }
    var bests := BestMaps(tables);
    forall i | 0 <= i < |reports| ensures Mirror(bests[i], reports[i]) == bests[i + 1] {
      assert Informs(tables[i], tables[i + 1], reports[i]);
    }
    RightIff(bests, reports, order);
  }
}
