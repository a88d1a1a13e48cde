/** When the best route cached in a prefix group is really the best one (src/rib4.c). With MEDs that
    cannot all be compared the cache can go stale: the conditions here are exact. */
module BestCache {
  import opened Wrappers
  import opened Prefix4
  import opened PathAttr
  import opened BestPath
  import opened RibIndex
  import HashMap

  /** Entry w is beaten by none of these, other than the one left out. */
  ghost predicate UnbeatenIn(entries: seq<E>, leftOut: HashMap.Entry?<Prefix, Route>, w: E) {
    forall x :: x in entries && x != leftOut ==> !Better(x.value, w.value)
  }

  /** No two entries share (update id, source). */
  ghost predicate AgesDiffer(entries: seq<E>) {
    forall x, y :: x in entries && y in entries && SameAge(x.value, y.value) ==> x == y
  }

  /** Adding an entry to a group whose best stands: it still stands unless the new entry takes over
      while another entry beats it. */
  lemma AddStandsIff(g: Group, e: E)
    requires g.best.Some? && BestStands(g)
    ensures BestStands(Group(g.entries + [e],
                             Some(if Better(e.value, g.best.value.value) then e else g.best.value))) <==>
            (Better(e.value, g.best.value.value) ==> UnbeatenIn(g.entries, null, e))
  {
    hide Better;
    BetterIsTournament(e.value, e.value);
    assert forall x :: x in g.entries + [e] <==> x in g.entries || x == e;
  }

  /** Rescanning a group finds an unbeaten entry exactly when there is one. */
  lemma RescanStandsIff(list: seq<E>)
    requires list != [] && AgesDiffer(list)
    ensures BestStands(Group(list, Some(list[Scan(RoutesOf(list))]))) <==>
              exists w :: w in list && UnbeatenIn(list, null, w)
  {
    hide Better, Scan;
    var rs := RoutesOf(list);
    var s := list[Scan(rs)];
    if w :| w in list && UnbeatenIn(list, null, w) {
      forall r | r in rs && r != w.value ensures Better(w.value, r) {
        var i :| 0 <= i < |rs| && rs[i] == r;
        assert list[i] in list;
        BetterIsTournament(w.value, r);
      }
      var j :| 0 <= j < |list| && list[j] == w;
      assert rs[j] in rs;
      ScanFindsWinner(rs, w.value);
      assert rs[Scan(rs)] == s.value;
    } else {
      assert s in list && !UnbeatenIn(list, null, s);
    }
  }

  /** Dropping an entry from a group whose best stands: only dropping the best itself can fail, and
      does so exactly when every entry that is left is beaten by another. */
  lemma RemoveStandsIff(g: Group, e: E)
    requires e in g.entries && HashMap.NoDup(g.entries) && g.best.Some? && g.best.value in g.entries
    requires BestStands(g) && AgesDiffer(g.entries) && GroupMinus(g, e).entries != []
    ensures BestStands(GroupMinus(g, e)) <==>
            (g.best == Some(e) ==> exists w :: w in g.entries && w != e && UnbeatenIn(g.entries, e, w))
  {
    hide Better, Scan, IndexOf;
    GroupMinusMembers(g, e);
    var list := GroupMinus(g, e).entries;
    hide SwapRemove;
    if g.best == Some(e) {
      RescanStandsIff(list);
      assert forall w :: UnbeatenIn(list, null, w) <==> UnbeatenIn(g.entries, e, w);
    }
  }

  /** The new route goes in before the one it replaces comes out, and is compared with the old best
      first. So the cache is right after a replacement exactly when: a route that takes over is beaten
      by no other route; and if the old best is the one replaced, some route is unbeaten. */
  lemma ReplaceStandsIff(g: Group, was: E, e: E)
    requires was in g.entries && HashMap.NoDup(g.entries) && g.best.Some? && g.best.value in g.entries
    requires BestStands(g) && e !in g.entries && AgesDiffer(g.entries + [e])
    ensures var takesOver := Better(e.value, g.best.value.value);
            BestStands(GroupMinus(Group(g.entries + [e], if takesOver then Some(e) else g.best), was)) <==>
            if takesOver then UnbeatenIn(g.entries, was, e)
            else g.best == Some(was) ==>
              exists w :: w in g.entries + [e] && w != was && UnbeatenIn(g.entries + [e], was, w)
  {
    hide Better, Scan, IndexOf;
    var h := Group(g.entries + [e], if Better(e.value, g.best.value.value) then Some(e) else g.best);
    AppendMembers(g.entries, e);
    GroupMinusMembers(h, was);
    assert e in GroupMinus(h, was).entries;
    hide GroupMinus, AgesDiffer;
    if Better(e.value, g.best.value.value) {
      TakeoverStandsIff(g, h, was, e);
    } else {
      assert BestStands(h) by { AddStandsIff(g, e); }
      RemoveStandsIff(h, was);
    }
  }

  lemma TakeoverStandsIff(g: Group, h: Group, was: E, e: E)
    requires was in g.entries && e !in g.entries && h == Group(g.entries + [e], Some(e))
    requires HashMap.NoDup(h.entries)
    ensures BestStands(GroupMinus(h, was)) <==> UnbeatenIn(g.entries, was, e)
  {
    hide Better, Scan, IndexOf;
    GroupMinusMembers(h, was);
    BetterIsTournament(e.value, e.value);
    var list := GroupMinus(h, was).entries;
    assert e in list;
    hide SwapRemove;
    assert forall x :: x in list <==> (x in g.entries && x != was) || x == e;
  }

  /** A standing best is what a full rescan finds, in whatever order the entries are listed. */
  lemma StandingBestIsRescan(g: Group, list: seq<E>)
    requires BestStands(g) && g.best.value in g.entries && AgesDiffer(g.entries)
    requires list != [] && forall x :: x in list <==> x in g.entries
    ensures list[Scan(RoutesOf(list))] == g.best.value
  {
    hide Better, Scan;
    var rs, w := RoutesOf(list), g.best.value;
    forall r | r in rs && r != w.value ensures Better(w.value, r) {
      var i :| 0 <= i < |rs| && rs[i] == r;
      assert list[i] in list;
      BetterIsTournament(w.value, r);
    }
    var j :| 0 <= j < |list| && list[j] == w;
    assert rs[j] in rs;
    ScanFindsWinner(rs, w.value);
    assert list[Scan(rs)] in list && rs[Scan(rs)] == list[Scan(rs)].value;
  }

  /** A stale best: a route is replaced, the remaining two are comparable, and the cached best is the
      one that the other beats. */
  lemma StaleBest(was: E, other: E, e: E)
    requires was.value == Route(was.key, 1, 0, 100, 1, 0, 20, false, 1, Via(65001))
    requires other.value == Route(was.key, 2, 0, 100, 1, 0, 10, false, 2, Via(65002))
    requires e.value == Route(was.key, 1, 0, 100, 1, 0, 10, false, 3, Via(65001))
    ensures BestStands(Group([was, other], Some(was))) && GroupComparable([other, e])
    ensures var g := GroupMinus(Group([was, other, e], Some(e)), was);
            Better(e.value, was.value) && g.best == Some(e) && other in g.entries && Better(other.value, e.value)
  {
    assert NeighborAs(Via(65001)) == Some(65001) && NeighborAs(Via(65002)) == Some(65002);
    var list := [was, other, e];
    assert IndexOf(list, was) == 0;
    assert SwapRemove(list, 0) == [e, other];
  }

  /** On comparable routes with canonical prefixes the best used for forwarding, the one cached in the
      group, is the best route for the exact prefix, the one that is announced. */
  lemma ForwardedIsAnnounced(c: set<E>, groups: map<Prefix, Group>, p: Prefix)
    requires OneEach(c) && GroupsAgree(c, groups) && AllStand(groups) && AllComparable(c)
    requires p in groups && forall e :: e in c ==> Canonical(e.key)
    ensures p in Prefixes(c) && groups[p].best == Some(BestAt(c, p))
  {
    hide Better, AllComparable, OneEach, Normalize, MedComparable;
    var b := groups[p].best.value;
    assert b in c && b.key == p;
    assert IsBest(c, b);
    BestUnique(c, b, BestAt(c, p));
  }
}
