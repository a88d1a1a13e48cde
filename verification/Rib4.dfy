/** The IPv4 routing table (src/rib4.c): one set of route entries held in four structures that
    must agree: the hash map of routes, the per-source index, the per-prefix groups with their
    cached best route, and the radix tree that maps each group's prefix to that best route. */
module Rib4 {
  import opened Wrappers
  import opened Prefix4
  import opened BestPath
  import opened RibIndex
  import HashMap
  import Radix4

  /** The entries of a list that match an address at one prefix length have comparable MEDs. */
  ghost predicate MatchesComparable(list: seq<E>, dest: Addr) {
    forall e, f :: && e in list && f in list && AddrMatches(e.key, dest) && AddrMatches(f.key, dest)
                   && e.key.len == f.key.len ==>
      MedComparable(e.value, f.value)
  }

  /** None of the first n entries that match an address at the found entry's length beats it. */
  ghost predicate BeatsMatches(list: seq<E>, n: nat, dest: Addr, found: E)
    requires n <= |list|
  {
    forall j :: 0 <= j < n && AddrMatches(list[j].key, dest) && list[j].key.len == found.key.len ==>
      !Better(list[j].value, found.value)
  }

  /** The routes of a source that match an address at one prefix length have comparable MEDs. */
  ghost predicate ScopeComparable(c: set<E>, source: nat, dest: Addr) {
    forall e, f :: && e in c && f in c && e.value.source == source && f.value.source == source
                   && AddrMatches(e.key, dest) && AddrMatches(f.key, dest) && e.key.len == f.key.len ==>
      MedComparable(e.value, f.value)
  }

  lemma KeepLongest(list: seq<E>, n: nat, dest: Addr, found: E)
    requires n < |list| && MatchesComparable(list, dest) && BeatsMatches(list, n, dest, found)
    requires found in list && AddrMatches(found.key, dest) && AddrMatches(list[n].key, dest)
    requires list[n].key.len == found.key.len
    ensures BeatsMatches(list, n + 1, dest, if Better(list[n].value, found.value) then list[n] else found)
  {
    hide AddrMatches, Better, MedComparable;
    var e := list[n];
    BetterIsTournament(e.value, e.value);
    forall j | 0 <= j < n && AddrMatches(list[j].key, dest) && list[j].key.len == found.key.len
      ensures !Better(list[j].value, (if Better(e.value, found.value) then e else found).value)
    {
      assert list[j] in list && e in list;
      BetterIsTransitive(e.value, found.value, list[j].value);
      BetterIsTournament(e.value, found.value);
      BetterIsTournament(e.value, list[j].value);
      BetterIsTournament(found.value, list[j].value);
      BetterIsTransitive(list[j].value, e.value, found.value);
    }
  }

  method LongestIn(list: seq<E>, dest: Addr) returns (found: HashMap.Entry?<Prefix, Route>)
    requires forall e :: e in list ==> e.key == e.value.prefix
    ensures found == null <==> forall e :: e in list ==> !AddrMatches(e.key, dest)
    ensures found != null ==>
              && found in list && AddrMatches(found.key, dest)
              && (forall e :: e in list && AddrMatches(e.key, dest) ==> e.key.len <= found.key.len)
    ensures found != null && MatchesComparable(list, dest) ==> BeatsMatches(list, |list|, dest, found)
  {
    hide AddrMatches, Better, MatchesComparable;
    found := null;
    var cache := Unread;
    var i := 0;
    while i < |list|
      invariant 0 <= i <= |list|
      invariant found == null <==> forall j :: 0 <= j < i ==> !AddrMatches(list[j].key, dest)
      invariant found != null ==>
                  && found in list && AddrMatches(found.key, dest) && CacheFor(cache, found.value)
                  && (forall j :: 0 <= j < i && AddrMatches(list[j].key, dest) ==> list[j].key.len <= found.key.len)
      invariant found != null && MatchesComparable(list, dest) ==> BeatsMatches(list, i, dest, found)
    {
      var e := list[i];
      assert e in list;
      if AddrMatches(e.value.prefix, dest) {
        if found == null || e.value.prefix.len > found.value.prefix.len {
          found, cache := e, Unread;
          BetterIsTournament(e.value, e.value);
        } else if e.value.prefix.len == found.value.prefix.len {
          var (better, eCache, foundCache) := BetterCached(e.value, Unread, found.value, cache);
          if MatchesComparable(list, dest) {
            KeepLongest(list, i, dest, found);
          }
          if better {
            found, cache := e, eCache;
          } else {
            cache := foundCache;
          }
        }
      }
      i := i + 1;
    }
  }

  class Rib {
    const routes: HashMap.Map<Prefix, Route>
    const tree: Radix4.Tree<E>
    var sources: map<nat, seq<E>>
    var groups: map<Prefix, Group>
    var nextUpdateId: nat

    ghost function Contents(): set<E>
      reads routes
    {
      routes.Contents()
    }

    /** The four structures agree. */
    ghost predicate Agrees()
      reads this`sources, this`groups, routes, tree, tree.Repr
    {
      && routes.Valid() && tree.Valid()
      && Filed(Contents())
      && SourcesAgree(Contents(), sources)
      && GroupsAgree(Contents(), groups)
      && TreeAgrees(groups, tree.Model())
    }

    /** The four structures agree and hold one route per (source, prefix). */
    ghost predicate Valid()
      reads this`sources, this`groups, routes, tree, tree.Repr
    {
      Agrees() && OneEach(Contents())
    }

    constructor (hash: Prefix -> nat)
      ensures Valid() && Contents() == {} && AllStand(groups)
      ensures fresh(routes) && fresh(tree) && fresh(tree.Repr)
    {
      routes := new HashMap.Map(hash);
      tree := new Radix4.Tree();
      sources := map[];
      groups := map[];
      nextUpdateId := 0;
      new;
      hide HashMap.Map.Valid, HashMap.Map.Contents, Radix4.Tree.Valid, Radix4.Tree.Model;
      hide Filed, OneEach, SourcesAgree, GroupsAgree, TreeAgrees, AllStand;
      NothingAgrees();
    }

    // ----- the per-source index

    method SourceIndexAdd(e: E, ghost c: set<E>, plentiful: bool) returns (err: Err)
      requires SourcesAgree(c, sources) && e !in c
      modifies this`sources
      ensures err == Ok || (err == NoMem && !plentiful)
      ensures err == Ok ==> SourcesAgree(c + {e}, sources) && sources == SourcesWith(old(sources), e)
      ensures err != Ok ==> sources == old(sources)
    {
      var s := e.value.source;
      var ok := TryAlloc(plentiful);
      if !ok {
        return NoMem;
      }
      SourcesAfterAdd(c, sources, e);
      if s !in sources {
        assert [] + [e] == [e];
        sources := sources[s := [e]];
      } else {
        sources := sources[s := sources[s] + [e]];
      }
      return Ok;
    }

    method SourceIndexRemove(e: E, ghost c: set<E>)
      requires SourcesAgree(c, sources) && e in c
      modifies this`sources
      ensures SourcesAgree(c - {e}, sources) && sources == SourcesWithout(old(sources), e)
    {
      hide IndexOf;
      SourcesAfterRemove(c, sources, e);
      var s := e.value.source;
      var i := FindIndex(sources[s], e);
      var rest := SwapRemove(sources[s], i);
      if rest == [] {
        sources := sources - {s};
      } else {
        sources := sources[s := rest];
      }
    }

    // ----- the prefix groups and the tree

    /** The tree is told the best of group p. With the group already there this needs no memory. */
    method PublishBest(p: Prefix, g: Group, plentiful: bool) returns (err: Err)
      requires tree.Valid() && TreeAgrees(groups, tree.Model()) && g.best.Some? && Canonical(p)
      requires forall q :: q in groups ==> Canonical(q)
      modifies this`groups, tree, tree.Repr
      ensures tree.Valid() && fresh(tree.Repr - old(tree.Repr))
      ensures TreeAgrees(groups, tree.Model())
      ensures err == Ok ==> groups == old(groups)[p := g]
      ensures err != Ok ==> groups == old(groups) && tree.Model() == old(tree.Model())
      ensures err == Ok || (err == NoMem && !plentiful && p !in old(groups))
    {
      hide TreeAgrees, Normalize, Radix4.Tree.Valid, Radix4.Tree.Model;
      if p in groups {
        BoundKey(groups, tree.Model(), p);
      }
      TreeAfterSet(groups, tree.Model(), p, g.entries, g.best.value);
      err := tree.Insert(p.addr, p.len, g.best.value, plentiful);
      if err == Ok {
        groups := groups[p := g];
      }
    }

    method ForgetGroup(p: Prefix)
      requires tree.Valid() && TreeAgrees(groups, tree.Model()) && p in groups
      requires forall q :: q in groups ==> Canonical(q)
      modifies this`groups, tree, tree.Repr
      ensures tree.Valid() && fresh(tree.Repr - old(tree.Repr))
      ensures TreeAgrees(groups, tree.Model()) && groups == old(groups) - {p}
    {
      hide TreeAgrees, Normalize, Radix4.Tree.Valid, Radix4.Tree.Model;
      TreeAfterDrop(groups, tree.Model(), p);
      var _ := tree.Remove(p.addr, p.len);
      groups := groups - {p};
    }

    method LpmIndexAdd(e: E, ghost c: set<E>, plentiful: bool) returns (err: Err)
      requires tree.Valid() && GroupsAgree(c, groups) && TreeAgrees(groups, tree.Model())
      requires e !in c && e.key == e.value.prefix && e.key.len <= 32
      modifies this`groups, tree, tree.Repr
      ensures tree.Valid() && fresh(tree.Repr - old(tree.Repr))
      ensures TreeAgrees(groups, tree.Model())
      ensures err == Ok || (err == NoMem && !plentiful)
      ensures err == Ok ==> GroupsAgree(c + {e}, groups) && groups == GroupsWith(old(groups), e)
      ensures err != Ok ==> groups == old(groups) && tree.Model() == old(tree.Model())
    {
      hide TreeAgrees, GroupsAgree, Normalize, Better, Canonical, Key, Radix4.Tree.Valid, Radix4.Tree.Model;
      var p := Normalize(e.key);
      NormalizeMeaning(e.key, e.key);
      GroupFacts(c, groups);
      GroupsAfterAdd(c, groups, e);
      var ok := TryAlloc(plentiful);
      if !ok {
        return NoMem;
      }
      if p !in groups {
        assert [] + [e] == [e];
        err := PublishBest(p, Group([e], Some(e)), plentiful);
      } else {
        var best := groups[p].best.value;
        var (takesOver, _, _) := BetterCached(e.value, Unread, best.value, Unread);
        if takesOver {
          err := PublishBest(p, Group(groups[p].entries + [e], Some(e)), plentiful);
        } else {
          SameBest(groups, tree.Model(), p, groups[p].entries + [e]);
          groups := groups[p := Group(groups[p].entries + [e], Some(best))];
          err := Ok;
        }
      }
    }

    method LpmIndexRemove(e: E, ghost c: set<E>)
      requires tree.Valid() && GroupsAgree(c, groups) && TreeAgrees(groups, tree.Model()) && e in c
      modifies this`groups, tree, tree.Repr
      ensures tree.Valid() && fresh(tree.Repr - old(tree.Repr))
      ensures TreeAgrees(groups, tree.Model())
      ensures GroupsAgree(c - {e}, groups) && groups == GroupsWithout(old(groups), e)
    {
      hide TreeAgrees, GroupsAgree, Normalize, Better, Canonical, Key, IndexOf, SwapRemove, Scan;
      hide Radix4.Tree.Valid, Radix4.Tree.Model;
      var p := Normalize(e.key);
      GroupFacts(c, groups);
      GroupOf(c, groups, e);
      GroupsAfterRemove(c, groups, e);
      GroupMinusMembers(groups[p], e);
      var i := FindIndex(groups[p].entries, e);
      var list := SwapRemove(groups[p].entries, i);
      if list == [] {
        ForgetGroup(p);
      } else if groups[p].best == Some(e) {
        var k := ScanBest(RoutesOf(list));
        var err := PublishBest(p, Group(list, Some(list[k])), false);
      } else {
        SameBest(groups, tree.Model(), p, list);
        groups := groups[p := Group(list, groups[p].best)];
      }
    }

    // ----- chain searches

    /** The chain a prefix's entries are on, located by remainder. */
    function ChainOf(prefix: Prefix): (chain: seq<E>)
      requires routes.Valid()
      reads routes
      ensures forall e :: e in Contents() && e.key == prefix ==> e in chain
      ensures forall e :: e in chain ==> e in Contents()
    {
      hide HashMap.IsPowerOfTwo, HashMap.BucketIndex;
      var h := routes.hash(prefix);
      HashMap.MaskIsRemainder(h, |routes.buckets|);
      routes.buckets[h % |routes.buckets|]
    }

    method Find(source: nat, prefix: Prefix) returns (found: HashMap.Entry?<Prefix, Route>)
      requires routes.Valid()
      ensures found == null <==> forall e :: e in Contents() ==> !(e.key == prefix && e.value.source == source)
      ensures found != null ==> found in Contents() && found.key == prefix && found.value.source == source
    {
      var chain := ChainOf(prefix);
      hide HashMap.Map.Valid, HashMap.Map.Contents;
      var i := 0;
      while i < |chain|
        invariant 0 <= i <= |chain|
        invariant forall j :: 0 <= j < i ==> !(chain[j].key == prefix && chain[j].value.source == source)
      {
        if chain[i].key == prefix && chain[i].value.source == source {
          return chain[i];
        }
        i := i + 1;
      }
      return null;
    }

    /** The best route for exactly this prefix. */
    method BestExact(prefix: Prefix) returns (best: HashMap.Entry?<Prefix, Route>)
      requires routes.Valid()
      ensures best == null <==> forall e :: e in Contents() ==> e.key != prefix
      ensures best != null ==> best in Contents() && best.key == prefix
      ensures best != null && ExactComparable(Contents(), prefix) ==>
                && Unbeaten(Contents(), best)
                && forall e :: e in Contents() && e.key == prefix ==> Withstands(best.value, e.value)
    {
      var chain := ChainOf(prefix);
      ghost var c := Contents();
      hide HashMap.Map.Valid, HashMap.Map.Contents, Better, MedComparable, Withstands;
      var bestCache := Unread;
      best := null;
      var i := 0;
      while i < |chain|
        invariant 0 <= i <= |chain|
        invariant best == null <==> forall j :: 0 <= j < i ==> chain[j].key != prefix
        invariant best != null ==> best in c && best.key == prefix && CacheFor(bestCache, best.value)
        invariant best != null && ExactComparable(c, prefix) ==>
                    forall j :: 0 <= j < i && chain[j].key == prefix ==> !Better(chain[j].value, best.value)
      {
        var e := chain[i];
        if e.key == prefix {
          if best == null {
            best, bestCache := e, Unread;
            BetterIsTournament(e.value, e.value);
          } else {
            var (better, cache, bestCache') := BetterCached(e.value, Unread, best.value, bestCache);
            if ExactComparable(c, prefix) {
              KeepUnbeaten(c, prefix, chain[..i], best, e);
            }
            if better {
              best, bestCache := e, cache;
            } else {
              bestCache := bestCache';
            }
          }
        }
        i := i + 1;
      }
      if best != null {
        UnbeatenWithstands(best.value);
      }
    }

    // ----- mutation

    /** An entry as this table makes them. */
    ghost predicate Storable(e: E) {
      e.key == e.value.prefix && e.key.len <= 32 && e.hash == routes.hash(e.key)
    }

    /** An entry that was taken out and may be put back. */
    ghost predicate Detached(e: E)
      reads routes
    {
      e !in Contents() && Storable(e)
    }

    lemma RoutesAreValid()
      requires Agrees()
      ensures routes.Valid()
    {
      hide SourcesAgree, GroupsAgree, TreeAgrees, HashMap.Map.Valid, Radix4.Tree.Valid;
    }

    lemma GroupsAreRight()
      requires Valid()
      ensures GroupsAgree(Contents(), groups) && TreeAgrees(groups, tree.Model())
    {
      hide SourcesAgree, GroupsAgree, TreeAgrees, HashMap.Map.Valid, Radix4.Tree.Valid, OneEach;
    }

    lemma EntryIsFiled(e: E)
      requires Agrees() && e in Contents()
      ensures Storable(e)
    {
      hide SourcesAgree, GroupsAgree, TreeAgrees;
    }

    /** Take an entry out of all four structures. */
    method Detach(e: E)
      requires Agrees() && e in Contents()
      modifies this`sources, this`groups, routes, tree, tree.Repr
      ensures Agrees() && fresh(tree.Repr - old(tree.Repr))
      ensures Contents() == old(Contents()) - {e}
      ensures sources == SourcesWithout(old(sources), e) && groups == GroupsWithout(old(groups), e)
    {
      hide Filed, SourcesAgree, GroupsAgree, TreeAgrees, SourcesWithout, GroupsWithout;
      hide HashMap.Map.Valid, HashMap.Map.Contents, Radix4.Tree.Valid, Radix4.Tree.Model;
      ghost var c := Contents();
      FiledSubset(c, c - {e});
      var _ := routes.Unlink(e);
      SourceIndexRemove(e, c);
      LpmIndexRemove(e, c);
    }

    /** File an entry that is already on its chain; if memory runs out, take it off again. */
    method FileEntry(e: E, plentiful: bool) returns (err: Err)
      requires routes.Valid() && tree.Valid() && e in Contents() && Filed(Contents())
      requires SourcesAgree(Contents() - {e}, sources) && GroupsAgree(Contents() - {e}, groups)
      requires TreeAgrees(groups, tree.Model())
      modifies this`sources, this`groups, routes, tree, tree.Repr
      ensures Agrees() && fresh(tree.Repr - old(tree.Repr))
      ensures err == Ok || (err == NoMem && !plentiful)
      ensures err == Ok ==>
                Contents() == old(Contents()) && sources == SourcesWith(old(sources), e)
                && groups == GroupsWith(old(groups), e)
      ensures err != Ok ==>
                && Contents() == old(Contents()) - {e} && sources == old(sources)
                && groups == old(groups) && tree.Model() == old(tree.Model())
    {
      hide SourcesAgree, GroupsAgree, TreeAgrees, SourcesWith, GroupsWith, SourcesWithout;
      hide HashMap.Map.Valid, HashMap.Map.Contents, Radix4.Tree.Valid, Radix4.Tree.Model;
      ghost var c := Contents() - {e};
      assert c + {e} == Contents();
      err := SourceIndexAdd(e, c, plentiful);
      if err == Ok {
        err := LpmIndexAdd(e, c, plentiful);
        if err != Ok {
          SourcesUndo(c, old(sources), e);
          SourceIndexRemove(e, c + {e});
          assert c + {e} - {e} == c;
        }
      }
      if err != Ok {
        var _ := routes.Unlink(e);
      }
    }

    /** The stored form of a route: the default preference and a fresh update id filled in. */
    function Stored(route: Route): Route
      reads this`nextUpdateId
    {
      route.(localPref := EffectivePref(route),
             updateId := if route.updateId == 0 then nextUpdateId + 1 else route.updateId)
    }

    /** Copy the route (rib4_route_clone); the update id is used up even when memory runs out. */
    method CloneRoute(route: Route, plentiful: bool) returns (err: Err, copy: Route)
      modifies this`nextUpdateId
      ensures err == Invalid <==> route.prefix.len > 32
      ensures err == Ok || err == Invalid || (err == NoMem && !plentiful)
      ensures copy == old(Stored(route))
      ensures nextUpdateId == if err != Invalid && route.updateId == 0 then old(nextUpdateId) + 1 else old(nextUpdateId)
    {
      copy := Stored(route);
      if route.prefix.len > 32 {
        return Invalid, copy;
      }
      if route.updateId == 0 {
        nextUpdateId := nextUpdateId + 1;
      }
      var ok := TryAlloc(plentiful);
      err := if ok then Ok else NoMem;
    }

    /** Insert a route, replacing the one from the same source for the same prefix. The new entry
        goes in before the old one comes out, so that running out of memory changes nothing. */
    method Insert(route: Route, tracked: bool, plentiful: bool)
      returns (err: Err, entry: HashMap.Entry?<Prefix, Route>, replaced: HashMap.Entry?<Prefix, Route>)
      requires Valid()
      modifies this, routes, tree, tree.Repr
      ensures Valid() && fresh(tree.Repr - old(tree.Repr))
      ensures err == Ok ==>
                && entry != null && fresh(entry) && entry !in old(Contents())
                && entry.key == route.prefix && entry.value == old(Stored(route))
                && Table(Contents()) == old(Table(Contents()))[(route.source, route.prefix) := entry.value]
                && Contents() == Minus(old(Contents()), replaced) + {entry}
      ensures err == Ok && replaced != null ==>
                replaced in old(Contents()) && replaced.key == route.prefix && replaced.value.source == route.source
                && Detached(replaced)
      ensures err == Ok && replaced == null ==> (route.source, route.prefix) !in old(Table(Contents()))
      ensures err == Ok && old(AllStand(groups))
              && JoinsComparably(EntriesAt(old(groups), Normalize(route.prefix)), route) ==>
                AllStand(groups)
      ensures err == Ok ==> BestsKept(Plus(old(Contents()), entry), old(groups), groups)
      ensures err != Ok ==>
                && entry == null && replaced == null && Contents() == old(Contents()) && sources == old(sources)
                && groups == old(groups) && tree.Model() == old(tree.Model())
      ensures err == Exists <==> !tracked && route.source == 0 && (route.source, route.prefix) in old(Table(Contents()))
      ensures err == Invalid ==> route.prefix.len > 32
      ensures plentiful && route.prefix.len <= 32 ==> err == Ok || err == Exists
      ensures err == Ok && route.updateId == 0 ==> nextUpdateId == old(nextUpdateId) + 1
    {
      hide Agrees, BestsKept, HashMap.Map.Valid, HashMap.Map.Contents, Radix4.Tree.Valid, Radix4.Tree.Model;
      hide Normalize, AllStand, Table, OneEach;
      entry, replaced := null, null;
      RoutesAreValid();
      var was := Find(route.source, route.prefix);
      FoundInTable(Contents(), route.source, route.prefix, was);
      if !tracked && route.source == 0 && was != null {
        return Exists, null, null;
      }
      var copy: Route;
      err, copy := CloneRoute(route, plentiful);
      if err != Ok {
        return;
      }
      err, entry := Exchange(copy, was, plentiful);
      replaced := if err == Ok then was else null;
    }

    /** Put in an entry for a stored route, then take out the one it replaces. */
    method Exchange(copy: Route, was: HashMap.Entry?<Prefix, Route>, plentiful: bool)
      returns (err: Err, entry: HashMap.Entry?<Prefix, Route>)
      requires Valid() && copy.prefix.len <= 32
      requires was == null ==> (copy.source, copy.prefix) !in Keys(Contents())
      requires was != null ==> was in Contents() && was.key == copy.prefix && was.value.source == copy.source
      modifies this`sources, this`groups, routes, tree, tree.Repr
      ensures Valid() && fresh(tree.Repr - old(tree.Repr))
      ensures err == Ok || (err == NoMem && !plentiful)
      ensures err == Ok ==>
                && entry != null && fresh(entry) && entry.key == copy.prefix && entry.value == copy
                && entry !in old(Contents()) && Contents() == Minus(old(Contents()), was) + {entry}
                && Table(Contents()) == old(Table(Contents()))[(copy.source, copy.prefix) := copy]
                && BestsKept(Plus(old(Contents()), entry), old(groups), groups)
                && (was != null ==> Detached(was))
      ensures err == Ok && old(AllStand(groups))
              && JoinsComparably(EntriesAt(old(groups), Normalize(copy.prefix)), copy) ==>
                AllStand(groups)
      ensures err != Ok ==>
                && entry == null && Contents() == old(Contents()) && sources == old(sources)
                && groups == old(groups) && tree.Model() == old(tree.Model())
    {
      hide SourcesAgree, GroupsAgree, TreeAgrees, SourcesWith, GroupsWith, SourcesWithout, GroupsWithout, BestsKept;
      hide HashMap.Map.Valid, HashMap.Map.Contents, Radix4.Tree.Valid, Radix4.Tree.Model, Normalize, AllStand;
      hide Table, Keys, OneEach;
      ghost var c, g := Contents(), groups;
      err, entry := Link(copy, plentiful);
      if err != Ok {
        return;
      }
      if was != null {
        EntryIsFiled(was);
        Detach(was);
      }
      assert Contents() == Minus(c, was) + {entry};
      InsertTable(c, was, entry);
      InsertKeepsBests(c, g, was, entry);
      if AllStand(g) && JoinsComparably(EntriesAt(g, Normalize(copy.prefix)), copy) {
        InsertBests(c, g, was, entry);
      }
    }

    /** Put a new entry for a stored route into all four structures, beside whatever is there. */
    method Link(copy: Route, plentiful: bool) returns (err: Err, entry: HashMap.Entry?<Prefix, Route>)
      requires Agrees() && copy.prefix.len <= 32
      modifies this`sources, this`groups, routes, tree, tree.Repr
      ensures Agrees() && fresh(tree.Repr - old(tree.Repr))
      ensures err == Ok || (err == NoMem && !plentiful)
      ensures err == Ok ==>
                && entry != null && fresh(entry) && entry.key == copy.prefix && entry.value == copy
                && entry !in old(Contents()) && Contents() == old(Contents()) + {entry}
                && groups == GroupsWith(old(groups), entry)
      ensures err != Ok ==>
                && entry == null && Contents() == old(Contents()) && sources == old(sources)
                && groups == old(groups) && tree.Model() == old(tree.Model())
    {
      hide SourcesAgree, GroupsAgree, TreeAgrees, SourcesWith, GroupsWith, SourcesWithout;
      hide HashMap.Map.Valid, HashMap.Map.Contents, Radix4.Tree.Valid, Radix4.Tree.Model;
      ghost var c := Contents();
      err, entry := routes.Insert(copy.prefix, copy, plentiful);
      if err == Ok {
        assert c + {entry} - {entry} == c;
        err := FileEntry(entry, plentiful);
        if err != Ok {
          entry := null;
        }
      }
    }

    /** Take out the route of a source for a prefix, keeping the entry. */
    method Withdraw(source: nat, prefix: Prefix) returns (err: Err, entry: HashMap.Entry?<Prefix, Route>)
      requires Valid()
      modifies this`sources, this`groups, routes, tree, tree.Repr
      ensures Valid() && fresh(tree.Repr - old(tree.Repr))
      ensures err == (if (source, prefix) in old(Table(Contents())) then Ok else NotFound)
      ensures Table(Contents()) == old(Table(Contents())) - {(source, prefix)}
      ensures Contents() == Minus(old(Contents()), entry)
      ensures err == Ok <==> entry != null
      ensures entry != null ==>
                entry in old(Contents()) && entry.key == prefix && entry.value.source == source && Detached(entry)
      ensures err == NotFound ==> sources == old(sources) && groups == old(groups)
      ensures err == Ok && old(AllStand(groups)) && GroupComparable(EntriesAt(old(groups), Normalize(prefix))) ==>
                AllStand(groups)
      ensures BestsKept(old(Contents()), old(groups), groups)
    {
      hide SourcesAgree, GroupsAgree, TreeAgrees, SourcesWithout, GroupsWithout, BestsKept, GroupComparable;
      hide HashMap.Map.Valid, HashMap.Map.Contents, Radix4.Tree.Valid, Radix4.Tree.Model, Normalize, AllStand;
      hide Table, Keys, OneEach;
      entry := Find(source, prefix);
      FoundInTable(Contents(), source, prefix, entry);
      SameKeepsBests(Contents(), groups);
      if entry == null {
        err := NotFound;
      } else {
        ghost var c, g := Contents(), groups;
        TableWithout(c, entry);
        EntryIsFiled(entry);
        Detach(entry);
        GroupOf(c, g, entry);
        WithdrawKeepsBests(c, g, entry);
        if AllStand(g) && GroupComparable(EntriesAt(g, Normalize(prefix))) {
          StandWithout(c, g, entry);
        }
        err := Ok;
      }
    }

    /** Put an entry back, unless its source has another route for the prefix. */
    method AttachDetached(e: E, plentiful: bool) returns (err: Err)
      requires Valid() && Detached(e)
      modifies this`sources, this`groups, routes, tree, tree.Repr
      ensures Valid() && fresh(tree.Repr - old(tree.Repr))
      ensures err == Exists <==> KeyOf(e) in old(Table(Contents()))
      ensures err == Ok || err == Exists || (err == NoMem && !plentiful)
      ensures err == Ok ==>
                Contents() == old(Contents()) + {e} && Table(Contents()) == old(Table(Contents()))[KeyOf(e) := e.value]
      ensures BestsKept(Plus(old(Contents()), e), old(groups), groups)
      ensures err != Ok ==> Contents() == old(Contents()) && sources == old(sources) && groups == old(groups)
    {
      hide SourcesAgree, GroupsAgree, TreeAgrees, SourcesWith, GroupsWith, BestsKept, AllStand;
      hide HashMap.Map.Valid, HashMap.Map.Contents, Radix4.Tree.Valid, Radix4.Tree.Model, Table, Keys, OneEach;
      ghost var c := Contents();
      SameKeepsBests(Plus(c, e), groups);
      AttachKeepsBests(c, groups, e);
      var was := Find(e.value.source, e.value.prefix);
      FoundInTable(c, e.value.source, e.value.prefix, was);
      if was != null {
        return Exists;
      }
      TableWith(c, e);
      routes.Relink(e);
      assert c + {e} - {e} == c;
      err := FileEntry(e, plentiful);
    }

    /** Take an entry out of the hash map, its group and the tree, leaving its source's list alone. */
    method DropListed(e: E)
      requires routes.Valid() && tree.Valid() && e in Contents()
      requires GroupsAgree(Contents(), groups) && TreeAgrees(groups, tree.Model())
      modifies this`groups, routes, tree, tree.Repr
      ensures routes.Valid() && tree.Valid() && fresh(tree.Repr - old(tree.Repr))
      ensures Contents() == old(Contents()) - {e}
      ensures GroupsAgree(Contents(), groups) && TreeAgrees(groups, tree.Model())
      ensures old(AllStand(groups)) && old(GroupsComparable(groups)) ==> AllStand(groups) && GroupsComparable(groups)
    {
      hide GroupsAgree, TreeAgrees, GroupsWithout, AllStand, GroupsComparable;
      hide HashMap.Map.Valid, HashMap.Map.Contents, Radix4.Tree.Valid, Radix4.Tree.Model;
      ghost var d, g := Contents(), groups;
      var _ := routes.Unlink(e);
      LpmIndexRemove(e, d);
      if AllStand(g) && GroupsComparable(g) {
        StandAfterDrop(d, g, e);
      }
    }

    method DropList(list: seq<E>)
      requires routes.Valid() && tree.Valid()
      requires GroupsAgree(Contents(), groups) && TreeAgrees(groups, tree.Model())
      requires HashMap.NoDup(list) && (forall e :: e in list ==> e in Contents())
      modifies this`groups, routes, tree, tree.Repr
      ensures routes.Valid() && tree.Valid() && fresh(tree.Repr - old(tree.Repr))
      ensures Contents() == old(Contents()) - HashMap.Elems(list)
      ensures GroupsAgree(Contents(), groups) && TreeAgrees(groups, tree.Model())
      ensures old(AllStand(groups)) && old(GroupsComparable(groups)) ==> AllStand(groups)
    {
      hide GroupsAgree, TreeAgrees, AllStand, GroupsComparable;
      hide HashMap.Map.Valid, HashMap.Map.Contents, Radix4.Tree.Valid, Radix4.Tree.Model;
      ghost var c := Contents();
      var i := 0;
      assert c - HashMap.Elems(list[..0]) == c;
      while i < |list|
        invariant 0 <= i <= |list|
        invariant routes.Valid() && tree.Valid() && fresh(tree.Repr - old(tree.Repr))
        invariant Contents() == c - HashMap.Elems(list[..i])
        invariant GroupsAgree(Contents(), groups) && TreeAgrees(groups, tree.Model())
        invariant old(AllStand(groups)) && old(GroupsComparable(groups)) ==>
                    AllStand(groups) && GroupsComparable(groups)
      {
        NextListed(c, list, i);
        DropListed(list[i]);
        i := i + 1;
      }
      assert list[..i] == list;
    }

    /** Drop every route of a source. */
    method RemoveSource(source: nat) returns (removed: nat)
      requires Valid()
      modifies this`sources, this`groups, routes, tree, tree.Repr
      ensures Valid() && fresh(tree.Repr - old(tree.Repr))
      ensures Contents() == OthersThan(old(Contents()), source)
      ensures removed == |old(Contents())| - |Contents()|
      ensures old(AllStand(groups)) && old(GroupsComparable(groups)) ==> AllStand(groups)
      ensures BestsKept(old(Contents()), old(groups), groups)
    {
      hide SourcesAgree, GroupsAgree, TreeAgrees, Filed, AllStand, GroupsComparable, OneEach, OthersThan;
      hide HashMap.Elems, BestsKept;
      hide HashMap.Map.Valid, HashMap.Map.Contents, Radix4.Tree.Valid, Radix4.Tree.Model;
      ghost var c := Contents();
      SameKeepsBests(c, groups);
      SourceListed(c, sources, source);
      if source !in sources {
        return 0;
      }
      AllListed(c, sources, source);
      removed := |sources[source]|;
      DropList(sources[source]);
      OrderlyKeepsBests(c, old(groups), groups);
      sources := sources - {source};
    }

    // ----- lookup

    /** The best route of the longest stored prefix that matches an address. */
    method Lookup(dest: Addr) returns (found: HashMap.Entry?<Prefix, Route>)
      requires Valid()
      ensures found == null <==> forall e :: e in Contents() ==> !AddrMatches(e.key, dest)
      ensures found != null ==>
                && found in Contents() && AddrMatches(found.key, dest)
                && (forall e :: e in Contents() && AddrMatches(e.key, dest) ==> e.key.len <= found.key.len)
                && Normalize(found.key) in groups && groups[Normalize(found.key)].best == Some(found)
      ensures found != null && AllStand(groups) ==>
                forall e :: e in Contents() && AddrMatches(e.key, dest) && e.key.len == found.key.len ==>
                  !Better(e.value, found.value) && Withstands(found.value, e.value)
    {
      hide HashMap.Map.Valid, HashMap.Map.Contents, Radix4.Tree.Valid, Radix4.Tree.Model, Radix4.LongestMatch;
      hide SourcesAgree, GroupsAgree, TreeAgrees, AllStand, AddrMatches, Normalize, Filed, OneEach, Better, Withstands;
      LookupMeaning(Contents(), groups, tree.Model(), dest);
      var best := tree.LookupLpm(dest);
      if best.None? || !AddrMatches(best.value.value.prefix, dest) {
        found := null;
      } else {
        found := best.value;
        UnbeatenWithstands(found.value);
      }
    }

    /** The longest match for an address among one source's routes. */
    method LookupScoped(source: nat, dest: Addr) returns (found: HashMap.Entry?<Prefix, Route>)
      requires Valid()
      ensures found == null <==> forall e :: e in Contents() && e.value.source == source ==> !AddrMatches(e.key, dest)
      ensures found != null ==>
                && found in Contents() && found.value.source == source && AddrMatches(found.key, dest)
                && (forall e :: e in Contents() && e.value.source == source && AddrMatches(e.key, dest) ==>
                      e.key.len <= found.key.len)
      ensures found != null && ScopeComparable(Contents(), source, dest) ==>
                forall e :: e in Contents() && e.value.source == source && AddrMatches(e.key, dest)
                            && e.key.len == found.key.len ==>
                  !Better(e.value, found.value) && Withstands(found.value, e.value)
    {
      hide HashMap.Map.Valid, HashMap.Map.Contents, Radix4.Tree.Valid, Radix4.Tree.Model;
      hide SourcesAgree, GroupsAgree, TreeAgrees, AddrMatches, OneEach, Better, MedComparable, Withstands;
      SourceMembers(Contents(), sources, source);
      if source !in sources {
        return null;
      }
      found := LongestIn(sources[source], dest);
      if found != null {
        UnbeatenWithstands(found.value);
      }
    }

    // ----- reporting changes of the best route

    /** The best entry for a prefix, by the chain scan, is the best map's. */
    method BestOf(prefix: Prefix) returns (best: HashMap.Entry?<Prefix, Route>)
      requires Valid()
      ensures best == null <==> prefix !in Prefixes(Contents())
      ensures best != null ==> best in Contents() && best.key == prefix && best.value.prefix == prefix
      ensures best != null && AllComparable(Contents()) ==> best == BestAt(Contents(), prefix)
    {
      best := BestExact(prefix);
      ghost var c := Contents();
      hide HashMap.Map.Valid, HashMap.Map.Contents, Agrees, Better, MedComparable;
      if best != null {
        EntryIsFiled(best);
        assert best.key in Prefixes(c);
        if AllComparable(c) {
          assert IsBest(c, best);
          BestUnique(c, best, BestAt(c, prefix));
        }
      }
    }

    /** Insert a route and report what happened to the best route of its prefix. When only the
        report's copy cannot be allocated the route is in and the caller must take it out. */
    method InsertTrackBest(route: Route, plentiful: bool)
      returns (err: Err, change: Change, entry: HashMap.Entry?<Prefix, Route>, replaced: HashMap.Entry?<Prefix, Route>)
      requires Valid()
      modifies this, routes, tree, tree.Repr
      ensures Valid() && fresh(tree.Repr - old(tree.Repr))
      ensures err == Ok ==> entry != null
      ensures plentiful && route.prefix.len <= 32 ==> err == Ok
      ensures entry == null ==> Contents() == old(Contents()) && replaced == null && groups == old(groups)
      ensures entry != null ==>
                && fresh(entry) && entry !in old(Contents()) && entry.key == route.prefix
                && entry.value == old(Stored(route))
                && Contents() == Minus(old(Contents()), replaced) + {entry}
                && Table(Contents()) == old(Table(Contents()))[(route.source, route.prefix) := entry.value]
      ensures entry != null && replaced != null ==>
                replaced in old(Contents()) && replaced.key == route.prefix && replaced.value.source == route.source
                && Detached(replaced)
      ensures entry != null && replaced == null ==> (route.source, route.prefix) !in old(Table(Contents()))
      ensures err == Ok && old(Fits(Contents(), route)) ==>
                && AllComparable(Contents())
                && BestMap(Contents()) == AfterChange(old(BestMap(Contents())), route.prefix, change)
                && Apt(old(BestMap(Contents())), route.prefix, change)
      ensures entry != null && route.updateId == 0 ==> nextUpdateId == old(nextUpdateId) + 1
      ensures entry != null ==> BestsKept(Plus(old(Contents()), entry), old(groups), groups)
    {
      hide HashMap.Map.Valid, HashMap.Map.Contents, Agrees, Better, MedComparable, AllComparable, OneEach;
      hide Table, BestsKept, AllStand;
      change := NoBestChange;
      var before := BestOf(route.prefix);
      ghost var c := Contents();
      err, entry, replaced := Insert(route, true, plentiful);
      if err != Ok {
        return;
      }
      var after := BestOf(route.prefix);
      assert entry in Contents() && after != null;
      if before != after {
        var ok := TryAlloc(plentiful);
        if !ok {
          err := NoMem;
          return;
        }
        change := if before == null then NewBest(after.value) else ReplacementBest(after.value);
      }
      if Fits(c, route) {
        FitsStays(c, route, replaced, entry);
        BestMapChange(c, Contents(), route.prefix);
      }
    }

    /** Take out the route of a source for a prefix, keeping the entry, and report what happened to
        the best route of the prefix. A missing route is no error. When only the report's copy cannot
        be allocated the route is out and the caller must put it back. */
    method WithdrawTrackBest(source: nat, prefix: Prefix, plentiful: bool)
      returns (err: Err, change: Change, saved: HashMap.Entry?<Prefix, Route>)
      requires Valid()
      modifies this`sources, this`groups, routes, tree, tree.Repr
      ensures Valid() && fresh(tree.Repr - old(tree.Repr))
      ensures err == Ok || (err == NoMem && !plentiful && saved != null)
      ensures saved != null <==> (source, prefix) in old(Table(Contents()))
      ensures saved == null ==> change == NoBestChange
      ensures saved != null ==>
                saved in old(Contents()) && saved.key == prefix && saved.value.source == source && Detached(saved)
      ensures Contents() == Minus(old(Contents()), saved)
      ensures Table(Contents()) == old(Table(Contents())) - {(source, prefix)}
      ensures err == Ok && old(AllComparable(Contents())) ==>
                && AllComparable(Contents())
                && BestMap(Contents()) == AfterChange(old(BestMap(Contents())), prefix, change)
                && Apt(old(BestMap(Contents())), prefix, change)
      ensures BestsKept(old(Contents()), old(groups), groups)
    {
      hide HashMap.Map.Valid, HashMap.Map.Contents, Agrees, Better, MedComparable, AllComparable, Table;
      hide BestsKept, AllStand;
      change := NoBestChange;
      var before := BestOf(prefix);
      ghost var c := Contents();
      err, saved := Withdraw(source, prefix);
      if err == NotFound {
        return Ok, change, null;
      }
      var after := BestOf(prefix);
      if AllComparable(c) {
        SubsetComparable(c, c - {saved});
        OtherBestStays(c, saved);
        BestMapChange(c, c - {saved}, prefix);
      }
      if before != null && before.value.source == source {
        assert before == saved;
        if after == null {
          change := Unreachable;
        } else {
          var ok := TryAlloc(plentiful);
          if !ok {
            return NoMem, change, saved;
          }
          change := ReplacementBest(after.value);
        }
      }
    }

    /** Withdraw a route only if it is still the one with this update id. */
    method WithdrawIfUpdateId(source: nat, prefix: Prefix, updateId: nat) returns (err: Err)
      requires Valid()
      modifies this`sources, this`groups, routes, tree, tree.Repr
      ensures Valid() && fresh(tree.Repr - old(tree.Repr))
      ensures err == Invalid <==> updateId == 0
      ensures err == NotFound <==> updateId != 0 && (source, prefix) !in old(Keys(Contents()))
      ensures err == Ok || err == Invalid || err == NotFound
      ensures forall e :: e in Contents() <==>
                e in old(Contents())
                && !(updateId != 0 && e.key == prefix && e.value.source == source && e.value.updateId == updateId)
      ensures BestsKept(old(Contents()), old(groups), groups)
    {
      hide HashMap.Map.Valid, HashMap.Map.Contents, Agrees, Table, BestsKept, AllStand;
      RoutesAreValid();
      SameKeepsBests(Contents(), groups);
      if updateId == 0 {
        return Invalid;
      }
      var found := Find(source, prefix);
      ghost var c := Contents();
      FoundInTable(c, source, prefix, found);
      if found == null {
        err := NotFound;
      } else if found.value.updateId == updateId {
        var entry: HashMap.Entry?<Prefix, Route>;
        err, entry := Withdraw(source, prefix);
      } else {
        err := Ok;
      }
    }

    /** Put a saved entry back unless its source has a route for the prefix again. */
    method RestoreIfAbsent(source: nat, saved: HashMap.Entry?<Prefix, Route>, plentiful: bool) returns (err: Err)
      requires Valid() && (saved != null ==> Storable(saved))
      modifies this`sources, this`groups, routes, tree, tree.Repr
      ensures Valid() && fresh(tree.Repr - old(tree.Repr))
      ensures err == Invalid <==> saved != null && saved.value.source != source
      ensures err == Ok || err == Invalid || (err == NoMem && !plentiful)
      ensures Contents() == old(Contents()) || (saved != null && Contents() == old(Contents()) + {saved})
      ensures saved != null && saved.value.source == source && plentiful && KeyOf(saved) !in old(Keys(Contents())) ==>
                Contents() == old(Contents()) + {saved}
      ensures BestsKept(Plus(old(Contents()), saved), old(groups), groups)
    {
      hide HashMap.Map.Valid, HashMap.Map.Contents, Agrees, Table, OneEach, BestsKept, AllStand;
      RoutesAreValid();
      SameKeepsBests(Plus(Contents(), saved), groups);
      if saved == null {
        return Ok;
      }
      if saved.value.source != source {
        return Invalid;
      }
      var found := Find(source, saved.value.prefix);
      FoundInTable(Contents(), source, saved.value.prefix, found);
      if found != null {
        return Ok;
      }
      err := AttachDetached(saved, plentiful);
    }

    /** The prefixes whose best route comes from this source. */
    method CollectActive(source: nat, plentiful: bool) returns (err: Err, active: seq<Prefix>)
      requires Valid()
      ensures err == Ok || (err == NoMem && !plentiful)
      ensures err == Ok && AllComparable(Contents()) ==>
                HashMap.NoDup(active) && forall p :: p in active <==> LedBy(Contents(), source, p)
    {
      hide HashMap.Map.Valid, HashMap.Map.Contents, Agrees, OneEach, AllComparable, Leads, LedBy, Prefixes;
      active := [];
      ghost var c := Contents();
      var list := ListFor(sources, source);
      ListedAreStored(source);
      var i := 0;
      while i < |list|
        invariant 0 <= i <= |list|
        invariant AllComparable(c) ==> Leads(c, list[..i], active)
      {
        if AllComparable(c) {
          NextLead(c, list, i, active);
        }
        assert list[i] in list;
        var best := BestOf(list[i].value.prefix);
        if best == list[i] {
          var ok := TryAlloc(plentiful);
          if !ok {
            return NoMem, active;
          }
          active := active + [list[i].value.prefix];
        }
        i := i + 1;
      }
      err := Ok;
      assert list[..i] == list;
      if AllComparable(c) {
        LeadsFinal(source, active);
      }
    }

    lemma ListedAreStored(source: nat)
      requires Agrees()
      ensures var list := ListFor(sources, source);
              HashMap.NoDup(list) && forall e :: e in list ==> e in Contents() && e.key == e.value.prefix
      ensures AllComparable(Contents()) ==> Leads(Contents(), [], [])
    {
      hide HashMap.Map.Valid, HashMap.Map.Contents, GroupsAgree, TreeAgrees, Radix4.Tree.Valid, Radix4.Tree.Model;
    }

    lemma LeadsFinal(source: nat, active: seq<Prefix>)
      requires Agrees() && AllComparable(Contents()) && Leads(Contents(), ListFor(sources, source), active)
      ensures HashMap.NoDup(active) && forall p :: p in active <==> LedBy(Contents(), source, p)
    {
      hide HashMap.Map.Valid, HashMap.Map.Contents, GroupsAgree, TreeAgrees, SourcesAgree, Radix4.Tree.Valid;
      hide Radix4.Tree.Model, AllComparable, LedBy;
      LeadsAreLed(Contents(), sources, source, active);
    }

    /** For each of these prefixes, its new best route or that it has none. */
    method ReportActive(active: seq<Prefix>, plentiful: bool)
      returns (err: Err, withdrawn: seq<Prefix>, replacements: seq<Route>)
      requires Valid()
      ensures err == Ok || (err == NoMem && !plentiful && withdrawn == [] && replacements == [])
      ensures err == Ok && AllComparable(Contents()) && HashMap.NoDup(active) ==>
                Reports(Contents(), active, withdrawn, replacements)
    {
      hide HashMap.Map.Valid, HashMap.Map.Contents, Agrees, OneEach, AllComparable, Reports, Prefixes, IsBest;
      withdrawn, replacements := [], [];
      ghost var d := Contents();
      ghost var orderly := AllComparable(d) && HashMap.NoDup(active);
      ContentsAreFiled();
      var i := 0;
      while i < |active|
        invariant 0 <= i <= |active|
        invariant orderly ==> Reports(d, active[..i], withdrawn, replacements)
      {
        if orderly {
          NextReport(d, active, i, withdrawn, replacements);
        }
        var best := BestOf(active[i]);
        var ok := TryAlloc(plentiful);
        if !ok {
          return NoMem, [], [];
        }
        if best == null {
          withdrawn := withdrawn + [active[i]];
        } else {
          replacements := replacements + [best.value];
        }
        i := i + 1;
      }
      assert active[..i] == active;
      err := Ok;
    }

    lemma ContentsAreFiled()
      requires Agrees()
      ensures Filed(Contents())
      ensures AllComparable(Contents()) ==> Reports(Contents(), [], [], [])
    {
      hide HashMap.Map.Valid, HashMap.Map.Contents, GroupsAgree, TreeAgrees, SourcesAgree, Radix4.Tree.Valid;
      hide Radix4.Tree.Model, AllComparable, Filed;
    }

    /** Drop every route of a source and report the prefixes that lost their best route: those that
        became unreachable and the new best routes of the others. */
    method DiscardCollect(source: nat, plentiful: bool)
      returns (err: Err, withdrawn: seq<Prefix>, replacements: seq<Route>)
      requires Valid()
      modifies this`sources, this`groups, routes, tree, tree.Repr
      ensures Valid() && fresh(tree.Repr - old(tree.Repr))
      ensures err == Ok || (err == NoMem && !plentiful && withdrawn == [] && replacements == [])
      ensures Contents() == OthersThan(old(Contents()), source) || (err != Ok && Contents() == old(Contents()))
      ensures err == Ok && old(AllComparable(Contents())) ==>
                && AllComparable(Contents())
                && HashMap.NoDup(withdrawn) && HashMap.NoDup(PrefixesOf(replacements))
                && (forall p :: p in withdrawn <==> p in old(BestMap(Contents())) && p !in BestMap(Contents()))
                && (forall p :: p in PrefixesOf(replacements) <==>
                      && p in Prefixes(old(Contents())) && p in Prefixes(Contents())
                      && BestAt(old(Contents()), p) != BestAt(Contents(), p))
                && Mirror(old(BestMap(Contents())), DiscardEvents(withdrawn, replacements)) == BestMap(Contents())
      ensures BestsKept(old(Contents()), old(groups), groups)
    {
      hide HashMap.Map.Valid, HashMap.Map.Contents, Agrees, OneEach, AllComparable, LedBy, OthersThan, Prefixes;
      hide IsBest, Mirror, BestsKept, AllStand;
      withdrawn, replacements := [], [];
      ghost var c := Contents();
      SameKeepsBests(c, groups);
      var active: seq<Prefix>;
      err, active := CollectActive(source, plentiful);
      if err != Ok {
        return;
      }
      var _ := RemoveSource(source);
      ghost var d := Contents();
      OthersComparable(c, source);
      err, withdrawn, replacements := ReportActive(active, plentiful);
      if err == Ok && AllComparable(c) {
        DiscardReport(c, d, source, active, withdrawn, replacements);
      }
    }
  }
}
