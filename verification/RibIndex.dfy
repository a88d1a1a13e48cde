/** What it means for the four structures of the routing table (src/rib4.c) to agree on one set of
    route entries, what each edit of one structure does to that agreement, and the best-route
    map the table stands for. */
module RibIndex {
  import opened Wrappers
  import opened Prefix4
  import opened BestPath
  import HashMap
  import Radix4

  /** A route entry. Indexes refer to the entry object itself. */
  type E = HashMap.Entry<Prefix, Route>

  /** The entries for one normalised prefix. `best` is null only while the group is being made. */
  datatype Group = Group(entries: seq<E>, best: Option<E>)

  // ----- agreement between the structures, relative to a set of entries

  /** Entries are filed under their route's prefix. */
  ghost predicate Filed(c: set<E>) {
    forall e :: e in c ==> e.key == e.value.prefix && e.key.len <= 32
  }

  /** One route per (source, prefix). */
  ghost predicate OneEach(c: set<E>) {
    forall e, f :: e in c && f in c && e.key == f.key && e.value.source == f.value.source ==> e == f
  }

  /** Every entry is listed once, under its source, and no source is left with an empty list. */
  ghost predicate SourcesAgree(c: set<E>, sources: map<nat, seq<E>>) {
    && (forall s :: s in sources ==> sources[s] != [] && HashMap.NoDup(sources[s]))
    && (forall s, e :: s in sources && e in sources[s] ==> e in c && e.value.source == s)
    && (forall e :: e in c ==> e.value.source in sources && e in sources[e.value.source])
  }

  /** Every entry is listed once, in the group of its normalised prefix; each group's best is one
      of its entries, and no group is left empty. */
  ghost predicate GroupsAgree(c: set<E>, groups: map<Prefix, Group>) {
    && (forall p :: p in groups ==>
          groups[p].best.Some? && groups[p].best.value in groups[p].entries && HashMap.NoDup(groups[p].entries))
    && (forall p :: p in groups ==> Canonical(p))
    && (forall p, e :: p in groups && e in groups[p].entries ==> e in c && Normalize(e.key) == p)
    && (forall e :: e in c ==> Normalize(e.key) in groups && e in groups[Normalize(e.key)].entries)
  }

  /** The tree binds exactly the groups' prefixes, each to its group's best. */
  ghost predicate TreeAgrees(groups: map<Prefix, Group>, m: map<Bits, E>) {
    && (forall p :: p in groups ==> p.len <= 32 && Key(p) in m && groups[p].best == Some(m[Key(p)]))
    && (forall k :: k in m ==> exists p :: p in groups && p.len <= 32 && Key(p) == k)
  }

  /** A group's cached best is not beaten by any of its entries. */
  ghost predicate BestStands(g: Group) {
    g.best.Some? && forall e :: e in g.entries ==> !Better(e.value, g.best.value.value)
  }

  ghost predicate GroupComparable(entries: seq<E>) {
    forall e, f :: e in entries && f in entries ==> MedComparable(e.value, f.value)
  }

  /** A route whose MED is comparable with every entry of a list of comparable entries. */
  ghost predicate JoinsComparably(entries: seq<E>, r: Route) {
    GroupComparable(entries) && forall e :: e in entries ==> MedComparable(e.value, r)
  }

  ghost predicate AllStand(groups: map<Prefix, Group>) {
    forall p :: p in groups ==> BestStands(groups[p])
  }

  lemma NothingAgrees()
    ensures Filed({}) && OneEach({}) && SourcesAgree({}, map[]) && GroupsAgree({}, map[]) && TreeAgrees(map[], map[])
            && AllStand(map[])
  {
  }

  // ----- the table the structures stand for

  type RouteKey = (nat, Prefix)

  ghost function KeyOf(e: E): RouteKey {
    (e.value.source, e.key)
  }

  ghost function Keys(c: set<E>): set<RouteKey> {
    set e | e in c :: KeyOf(e)
  }

  ghost function EntryAt(c: set<E>, k: RouteKey): (e: E)
    requires k in Keys(c)
    ensures e in c && KeyOf(e) == k
  {
    var e :| e in c && KeyOf(e) == k;
    e
  }

  /** The plain map (source, prefix) -> route. */
  ghost function Table(c: set<E>): map<RouteKey, Route> {
    map k | k in Keys(c) :: EntryAt(c, k).value
  }

  lemma TableAt(c: set<E>, e: E)
    requires OneEach(c) && e in c
    ensures KeyOf(e) in Table(c) && Table(c)[KeyOf(e)] == e.value && EntryAt(c, KeyOf(e)) == e
  {
  }

  lemma TableWith(c: set<E>, e: E)
    requires OneEach(c) && KeyOf(e) !in Keys(c)
    ensures OneEach(c + {e}) && Table(c + {e}) == Table(c)[KeyOf(e) := e.value]
  {
    assert OneEach(c + {e}) by {
      assert forall f :: f in c ==> KeyOf(f) in Keys(c);
    }
    var d := c + {e};
    assert Keys(d) == Keys(c) + {KeyOf(e)} by {
      assert e in d;
      assert forall f :: f in c ==> f in d;
    }
    forall k | k in Keys(d) ensures Table(d)[k] == Table(c)[KeyOf(e) := e.value][k] {
      if k == KeyOf(e) {
        TableAt(d, e);
      } else {
        TableAt(d, EntryAt(c, k));
      }
    }
  }

  lemma TableWithout(c: set<E>, e: E)
    requires OneEach(c) && e in c
    ensures OneEach(c - {e}) && Table(c - {e}) == Table(c) - {KeyOf(e)}
    ensures KeyOf(e) !in Keys(c - {e})
  {
    var d := c - {e};
    assert Keys(d) == Keys(c) - {KeyOf(e)} by {
      forall k | k in Keys(c) && k != KeyOf(e) ensures k in Keys(d) {
        assert EntryAt(c, k) in d;
      }
    }
    forall k | k in Keys(d) ensures Table(d)[k] == Table(c)[k] {
      TableAt(c, EntryAt(d, k));
    }
  }

  ghost function Minus(c: set<E>, e: HashMap.Entry?<Prefix, Route>): set<E> {
    if e == null then c else c - {e}
  }

  /** The contents with an entry, if there is one. */
  ghost function Plus(c: set<E>, e: HashMap.Entry?<Prefix, Route>): set<E> {
    if e == null then c else c + {e}
  }

  // ----- list edits

  /** Remove position i by moving the last element into its place. */
  function SwapRemove<T>(s: seq<T>, i: nat): seq<T>
    requires i < |s|
  {
    s[i := s[|s| - 1]][..|s| - 1]
  }

  lemma SwapRemoveMembers<T>(s: seq<T>, i: nat)
    requires i < |s| && HashMap.NoDup(s)
    ensures HashMap.NoDup(SwapRemove(s, i))
    ensures forall x :: x in SwapRemove(s, i) <==> x in s && x != s[i]
  {
    var r := SwapRemove(s, i);
    forall x | x in s && x != s[i] ensures x in r {
      var j :| 0 <= j < |s| && s[j] == x;
      if j == |s| - 1 {
        assert r[i] == x;
      } else {
        assert r[j] == x;
      }
    }
  }

  lemma AppendMembers<T>(s: seq<T>, x: T)
    requires HashMap.NoDup(s) && x !in s
    ensures HashMap.NoDup(s + [x])
    ensures forall y :: y in s + [x] <==> y in s || y == x
    ensures SwapRemove(s + [x], |s|) == s
  {
  }

  /** The first position of x in s. */
  function IndexOf<T(==)>(s: seq<T>, x: T): (i: nat)
    requires x in s
    ensures i < |s| && s[i] == x
  {
    if s[0] == x then 0 else 1 + IndexOf(s[1..], x)
  }

  method FindIndex<T(==)>(s: seq<T>, x: T) returns (i: nat)
    requires x in s
    ensures i == IndexOf(s, x)
  {
    i := 0;
    while s[i] != x
      invariant 0 <= i < |s| && x in s[i..] && IndexOf(s, x) == i + IndexOf(s[i..], x)
      decreases |s| - i
    {
      assert s[i..][1..] == s[i + 1..];
      i := i + 1;
    }
  }

  lemma {:induction false} IndexOfAppended<T>(s: seq<T>, x: T)
    requires x !in s
    ensures IndexOf(s + [x], x) == |s|
  {
    if s != [] {
      assert (s + [x])[1..] == s[1..] + [x];
      IndexOfAppended(s[1..], x);
    }
  }

  // ----- the per-source index as a value

  function ListFor(sources: map<nat, seq<E>>, s: nat): seq<E> {
    if s in sources then sources[s] else []
  }

  function SourcesWith(sources: map<nat, seq<E>>, e: E): map<nat, seq<E>> {
    sources[e.value.source := ListFor(sources, e.value.source) + [e]]
  }

  function SourcesWithout(sources: map<nat, seq<E>>, e: E): map<nat, seq<E>>
    requires e.value.source in sources && e in sources[e.value.source]
  {
    var s := e.value.source;
    var list := SwapRemove(sources[s], IndexOf(sources[s], e));
    if list == [] then sources - {s} else sources[s := list]
  }

  lemma SourcesUndo(c: set<E>, sources: map<nat, seq<E>>, e: E)
    requires SourcesAgree(c, sources) && e !in c
    ensures SourcesWithout(SourcesWith(sources, e), e) == sources
  {
    hide IndexOf, SwapRemove;
    var list := ListFor(sources, e.value.source);
    assert e !in list && HashMap.NoDup(list);
    assert e.value.source in sources ==> list != [];
    hide SourcesAgree, HashMap.NoDup;
    IndexOfAppended(list, e);
    AppendMembers(list, e);
  }

  lemma SourcesAfterAdd(c: set<E>, sources: map<nat, seq<E>>, e: E)
    requires SourcesAgree(c, sources) && e !in c
    ensures SourcesAgree(c + {e}, SourcesWith(sources, e))
  {
    hide HashMap.NoDup;
    var s, list := e.value.source, ListFor(sources, e.value.source);
    assert e !in list;
    NoDupNothing<E>();
    AppendMembers(list, e);
    var longer := list + [e];
    hide ListFor;
    ListedAgain(c, sources, e, longer);
  }

  lemma NoDupNothing<T>()
    ensures HashMap.NoDup<T>([])
  {
  }

  /** A source's list replaced by one with exactly one entry more. */
  lemma ListedAgain(c: set<E>, sources: map<nat, seq<E>>, e: E, longer: seq<E>)
    requires SourcesAgree(c, sources) && longer != [] && HashMap.NoDup(longer)
    requires forall x :: x in longer <==> x in ListFor(sources, e.value.source) || x == e
    ensures SourcesAgree(c + {e}, sources[e.value.source := longer])
  {
    hide HashMap.NoDup;
  }

  lemma SourcesAfterRemove(c: set<E>, sources: map<nat, seq<E>>, e: E)
    requires SourcesAgree(c, sources) && e in c
    ensures SourcesAgree(c - {e}, SourcesWithout(sources, e))
  {
    hide IndexOf;
    var s := e.value.source;
    var i := IndexOf(sources[s], e);
    var list := SwapRemove(sources[s], i);
    SwapRemoveMembers(sources[s], i);
    hide SwapRemove;
    var sources' := SourcesWithout(sources, e);
    forall f | f in c - {e} ensures f.value.source in sources' && f in sources'[f.value.source] {
      if f.value.source == s {
        assert f in list;
      }
    }
  }

  // ----- the groups as a value

  function EntriesAt(groups: map<Prefix, Group>, p: Prefix): seq<E> {
    if p in groups then groups[p].entries else []
  }

  /** The groups with e filed: e becomes the best of its group when it is the first or better. */
  ghost function GroupsWith(groups: map<Prefix, Group>, e: E): map<Prefix, Group>
    requires forall p :: p in groups ==> groups[p].best.Some?
  {
    var p := Normalize(e.key);
    groups[p := GroupPlus(groups, p, e)]
  }

  ghost function GroupPlus(groups: map<Prefix, Group>, p: Prefix, e: E): Group
    requires p in groups ==> groups[p].best.Some?
  {
    Group(EntriesAt(groups, p) + [e],
          if p !in groups || Better(e.value, groups[p].best.value.value) then Some(e) else groups[p].best)
  }

  /** The group after dropping an entry, with the best the library then caches. */
  ghost function GroupMinus(g: Group, e: E): Group
    requires e in g.entries
  {
    var list := SwapRemove(g.entries, IndexOf(g.entries, e));
    if list == [] then Group([], None)
    else Group(list, if g.best == Some(e) then Some(list[Scan(RoutesOf(list))]) else g.best)
  }

  ghost function GroupsWithout(groups: map<Prefix, Group>, e: E): map<Prefix, Group>
    requires Normalize(e.key) in groups && e in groups[Normalize(e.key)].entries
  {
    var p := Normalize(e.key);
    var g := GroupMinus(groups[p], e);
    if g.entries == [] then groups - {p} else groups[p := g]
  }

  lemma GroupsAfterAdd(c: set<E>, groups: map<Prefix, Group>, e: E)
    requires GroupsAgree(c, groups) && e !in c && e.key.len <= 32
    ensures GroupsAgree(c + {e}, GroupsWith(groups, e))
  {
    hide Normalize, Canonical, Better;
    var p := Normalize(e.key);
    NormalizeMeaning(e.key, e.key);
    assert e !in EntriesAt(groups, p);
    AppendMembers(EntriesAt(groups, p), e);
    hide HashMap.NoDup, Key;
    var g := GroupPlus(groups, p, e);
    assert g.best.Some? && g.best.value in g.entries && HashMap.NoDup(g.entries);
    hide GroupPlus;
    var groups' := GroupsWith(groups, e);
    forall q, f | q in groups' && f in groups'[q].entries ensures f in c + {e} && Normalize(f.key) == q {
      assert q != p ==> groups'[q] == groups[q];
    }
    forall f | f in c + {e} ensures Normalize(f.key) in groups' && f in groups'[Normalize(f.key)].entries {
      assert Normalize(f.key) == p ==> f == e || f in EntriesAt(groups, p);
    }
  }

  lemma GroupsAfterRemove(c: set<E>, groups: map<Prefix, Group>, e: E)
    requires GroupsAgree(c, groups) && e in c
    ensures GroupsAgree(c - {e}, GroupsWithout(groups, e))
  {
    hide Normalize, Canonical;
    var p := Normalize(e.key);
    var g := GroupMinus(groups[p], e);
    GroupMinusMembers(groups[p], e);
    hide GroupMinus;
    var groups' := GroupsWithout(groups, e);
    forall f | f in c - {e} ensures Normalize(f.key) in groups' && f in groups'[Normalize(f.key)].entries {
      if Normalize(f.key) == p {
        assert f in g.entries;
      }
    }
  }

  lemma GroupMinusMembers(g: Group, e: E)
    requires e in g.entries && HashMap.NoDup(g.entries) && g.best.Some? && g.best.value in g.entries
    ensures var h := GroupMinus(g, e);
            && HashMap.NoDup(h.entries)
            && (forall f :: f in h.entries <==> f in g.entries && f != e)
            && (h.entries != [] ==> h.best.Some? && h.best.value in h.entries)
  {
    hide IndexOf;
    SwapRemoveMembers(g.entries, IndexOf(g.entries, e));
    hide SwapRemove;
  }

  /** Different groups have different tree keys. */
  lemma GroupKeysDiffer(groups: map<Prefix, Group>, p: Prefix)
    requires Canonical(p) && (forall q :: q in groups ==> Canonical(q))
    ensures forall q :: q in groups && q.len <= 32 && q != p ==> Key(q) != Key(p)
  {
    hide Normalize, Key;
    forall q | q in groups && q != p ensures Key(q) != Key(p) {
      assert Normalize(p) == p && Normalize(q) == q;
      NormalizeMeaning(p, q);
    }
  }

  lemma TreeAfterSet(groups: map<Prefix, Group>, m: map<Bits, E>, p: Prefix, entries: seq<E>, best: E)
    requires TreeAgrees(groups, m) && Canonical(p) && (forall q :: q in groups ==> Canonical(q))
    ensures TreeAgrees(groups[p := Group(entries, Some(best))], m[Key(p) := best])
  {
    GroupKeysDiffer(groups, p);
    hide Key, Normalize;
    var groups' := groups[p := Group(entries, Some(best))];
    var m' := m[Key(p) := best];
    forall k | k in m' ensures exists q :: q in groups' && q.len <= 32 && Key(q) == k {
      if k == Key(p) {
        assert p in groups';
      } else {
        var q :| q in groups && q.len <= 32 && Key(q) == k;
        assert q in groups';
      }
    }
  }

  lemma TreeAfterDrop(groups: map<Prefix, Group>, m: map<Bits, E>, p: Prefix)
    requires TreeAgrees(groups, m) && p in groups && (forall q :: q in groups ==> Canonical(q))
    ensures TreeAgrees(groups - {p}, m - {Key(p)})
  {
    hide Key, Normalize, Canonical;
    GroupKeysDiffer(groups, p);
    forall k | k in m - {Key(p)} ensures exists q :: q in groups - {p} && q.len <= 32 && Key(q) == k {
      var q :| q in groups && q.len <= 32 && Key(q) == k;
      assert q in groups - {p};
    }
  }

  // ----- the cached best of one group

  function RoutesOf(entries: seq<E>): (rs: seq<Route>)
    ensures |rs| == |entries| && forall i :: 0 <= i < |rs| ==> rs[i] == entries[i].value
  {
    seq(|entries|, i requires 0 <= i < |entries| => entries[i].value)
  }

  lemma BestAfterAdd(entries: seq<E>, best: E, e: E)
    requires GroupComparable(entries + [e]) && best in entries && BestStands(Group(entries, Some(best)))
    ensures BestStands(Group(entries + [e], Some(if Better(e.value, best.value) then e else best)))
  {
    hide Better, MedComparable;
    assert e in entries + [e] && best in entries + [e];
    forall f | f in entries + [e]
      ensures !Better(f.value, (if Better(e.value, best.value) then e else best).value)
    {
      BetterIsTransitive(e.value, best.value, f.value);
      BetterIsTournament(f.value, e.value);
      BetterIsTournament(e.value, e.value);
    }
  }

  lemma BestAfterRemove(g: Group, e: E)
    requires e in g.entries && HashMap.NoDup(g.entries) && g.best.Some? && g.best.value in g.entries
    requires GroupMinus(g, e).entries != []
    requires GroupComparable(g.entries) && BestStands(g)
    ensures BestStands(GroupMinus(g, e))
  {
    hide Better, MedComparable, Scan, IndexOf;
    GroupMinusMembers(g, e);
    var list := GroupMinus(g, e).entries;
    hide SwapRemove;
    if g.best == Some(e) {
      RescanStands(list);
    }
  }

  lemma StandWith(c: set<E>, groups: map<Prefix, Group>, e: E)
    requires GroupsAgree(c, groups) && AllStand(groups)
    requires GroupComparable(EntriesAt(groups, Normalize(e.key)) + [e])
    ensures AllStand(GroupsWith(groups, e))
  {
    hide Normalize, Better, GroupComparable;
    var p := Normalize(e.key);
    if p in groups {
      BestAfterAdd(groups[p].entries, groups[p].best.value, e);
    } else {
      BetterIsTournament(e.value, e.value);
    }
  }

  lemma StandWithout(c: set<E>, groups: map<Prefix, Group>, e: E)
    requires GroupsAgree(c, groups) && e in c && AllStand(groups)
    requires GroupComparable(groups[Normalize(e.key)].entries)
    ensures AllStand(GroupsWithout(groups, e))
  {
    hide Normalize, Better, GroupComparable, BestStands, GroupMinus;
    var p := Normalize(e.key);
    if GroupMinus(groups[p], e).entries != [] {
      BestAfterRemove(groups[p], e);
    }
  }

  // ----- comparability of whole contents

  /** Routes that fall into one group have comparable MEDs. */
  ghost predicate Orderly(c: set<E>) {
    forall e, f :: e in c && f in c && Normalize(e.key) == Normalize(f.key) ==> MedComparable(e.value, f.value)
  }

  /** A route has a MED comparable with those of the routes it would be grouped with. */
  ghost predicate Joins(c: set<E>, r: Route) {
    forall e :: e in c && Normalize(e.key) == Normalize(r.prefix) ==> MedComparable(e.value, r)
  }

  lemma OrderlyFewer(c: set<E>, d: set<E>)
    requires Orderly(c) && d <= c
    ensures Orderly(d)
  {
    hide MedComparable, Normalize;
  }

  lemma OrderlyMore(c: set<E>, r: Route, e: E)
    requires Orderly(c) && Joins(c, r) && e.key == r.prefix && e.value.med == r.med && e.value.attrs == r.attrs
    ensures Orderly(c + {e})
  {
    hide Normalize;
  }

  lemma OrderlyGroup(c: set<E>, groups: map<Prefix, Group>, p: Prefix)
    requires GroupsAgree(c, groups) && Orderly(c)
    ensures GroupComparable(EntriesAt(groups, p))
  {
    hide MedComparable, Normalize, Canonical;
  }

  lemma OrderlyGroups(c: set<E>, groups: map<Prefix, Group>)
    requires GroupsAgree(c, groups) && Orderly(c)
    ensures GroupsComparable(groups)
  {
    hide GroupsAgree, Orderly, GroupComparable;
    forall p | p in groups ensures GroupComparable(groups[p].entries) {
      OrderlyGroup(c, groups, p);
    }
  }

  lemma OrderlyJoins(c: set<E>, groups: map<Prefix, Group>, e: E)
    requires GroupsAgree(c, groups) && Orderly(c + {e})
    ensures JoinsComparably(EntriesAt(groups, Normalize(e.key)), e.value)
  {
    hide MedComparable, Normalize, Canonical;
  }

  /** Filing an entry whose MED is comparable keeps every cached best right. */
  lemma OrderlyStandWith(c: set<E>, groups: map<Prefix, Group>, e: E)
    requires GroupsAgree(c, groups) && AllStand(groups) && Orderly(c + {e})
    ensures AllStand(GroupsWith(groups, e))
  {
    hide GroupsAgree, Orderly, AllStand, Normalize, GroupsWith;
    GroupFacts(c, groups);
    OrderlyJoins(c, groups, e);
    JoinedComparable(EntriesAt(groups, Normalize(e.key)), e);
    StandWith(c, groups, e);
  }

  /** In going from the groups g to h no cached best becomes wrong, if the entries c are orderly. */
  ghost predicate BestsKept(c: set<E>, g: map<Prefix, Group>, h: map<Prefix, Group>) {
    AllStand(g) && Orderly(c) ==> AllStand(h)
  }

  lemma SameKeepsBests(c: set<E>, g: map<Prefix, Group>)
    ensures BestsKept(c, g, g)
  {
  }

  lemma BestsKeptTwice(c: set<E>, d: set<E>, all: set<E>,
                       g: map<Prefix, Group>, h: map<Prefix, Group>, k: map<Prefix, Group>)
    requires BestsKept(c, g, h) && BestsKept(d, h, k) && c <= all && d <= all
    ensures BestsKept(all, g, k)
  {
    hide Orderly, AllStand;
    if Orderly(all) {
      OrderlyFewer(all, c);
      OrderlyFewer(all, d);
    }
  }

  lemma AttachKeepsBests(c: set<E>, groups: map<Prefix, Group>, e: E)
    requires GroupsAgree(c, groups)
    ensures BestsKept(Plus(c, e), groups, GroupsWith(groups, e))
  {
    hide GroupsAgree, Orderly, AllStand, Normalize, GroupsWith;
    if AllStand(groups) && Orderly(c + {e}) {
      OrderlyStandWith(c, groups, e);
    }
  }

  lemma WithdrawKeepsBests(c: set<E>, groups: map<Prefix, Group>, e: E)
    requires GroupsAgree(c, groups) && e in c
    ensures BestsKept(c, groups, GroupsWithout(groups, e))
  {
    hide Orderly, AllStand, Normalize, GroupsWithout, GroupComparable;
    if AllStand(groups) && Orderly(c) {
      OrderlyGroup(c, groups, Normalize(e.key));
      StandWithout(c, groups, e);
    }
  }

  lemma OrderlyKeepsBests(c: set<E>, g: map<Prefix, Group>, h: map<Prefix, Group>)
    requires GroupsAgree(c, g) && (AllStand(g) && GroupsComparable(g) ==> AllStand(h))
    ensures BestsKept(c, g, h)
  {
    hide GroupsAgree, Orderly, AllStand, GroupsComparable;
    if Orderly(c) {
      OrderlyGroups(c, g);
    }
  }

  /** The cached best of every group. */
  ghost function BestsOf(groups: map<Prefix, Group>): map<Prefix, Option<E>> {
    map p | p in groups :: groups[p].best
  }

  /** No two entries of one group share (update id, source). */
  ghost predicate DistinctAges(c: set<E>) {
    forall e, f :: e in c && f in c && Normalize(e.key) == Normalize(f.key) && SameAge(e.value, f.value) ==> e == f
  }

  /** Two groupings of the same entries whose bests all stand have the same bests. */
  lemma SameBests(c: set<E>, g: map<Prefix, Group>, h: map<Prefix, Group>)
    requires GroupsAgree(c, g) && GroupsAgree(c, h) && AllStand(g) && AllStand(h) && DistinctAges(c)
    ensures BestsOf(g) == BestsOf(h)
  {
    hide Normalize, Canonical, Better;
    forall p | p in g.Keys + h.Keys ensures p in g && p in h && g[p].best == h[p].best {
      SameBest1(c, g, h, p);
      SameBest1(c, h, g, p);
    }
  }

  lemma SameBest1(c: set<E>, g: map<Prefix, Group>, h: map<Prefix, Group>, p: Prefix)
    requires GroupsAgree(c, g) && GroupsAgree(c, h) && AllStand(g) && AllStand(h) && DistinctAges(c)
    ensures p in g ==> p in h && g[p].best == h[p].best
  {
    hide Normalize, Canonical, Better;
    if p in g {
      var a := g[p].best.value;
      assert a in c && Normalize(a.key) == p;
      var b := h[p].best.value;
      assert b in c && Normalize(b.key) == p;
      assert a in h[p].entries && b in g[p].entries;
      BetterIsTournament(a.value, b.value);
    }
  }

  lemma SameTree(g: map<Prefix, Group>, h: map<Prefix, Group>, m: map<Bits, E>, n: map<Bits, E>)
    requires TreeAgrees(g, m) && TreeAgrees(h, n) && BestsOf(g) == BestsOf(h)
    ensures m == n
  {
    hide Key;
    assert g.Keys == BestsOf(g).Keys == h.Keys;
    assert forall p :: p in g ==> BestsOf(g)[p] == g[p].best && BestsOf(h)[p] == h[p].best;
    forall k | k in m ensures k in n && m[k] == n[k] {
      var p :| p in g && p.len <= 32 && Key(p) == k;
    }
    forall k | k in n ensures k in m {
      var p :| p in h && p.len <= 32 && Key(p) == k;
    }
  }

  /** With canonical prefixes, groups are exact prefixes. */
  lemma CanonicalOrderly(c: set<E>)
    requires forall e :: e in c ==> Canonical(e.key)
    ensures AllComparable(c) <==> Orderly(c)
    ensures OneEach(c) ==> DistinctAges(c)
  {
    hide MedComparable, Normalize;
  }

  lemma RescanStands(list: seq<E>)
    requires list != [] && GroupComparable(list)
    ensures BestStands(Group(list, Some(list[Scan(RoutesOf(list))])))
  {
    hide Better, MedComparable, Scan;
    var rs := RoutesOf(list);
    forall a, b | a in rs && b in rs ensures MedComparable(a, b) {
      var x :| 0 <= x < |rs| && rs[x] == a;
      var y :| 0 <= y < |rs| && rs[y] == b;
      assert list[x] in list && list[y] in list;
    }
    ScanIsUnbeaten(rs);
    forall f | f in list ensures !Better(f.value, rs[Scan(rs)]) {
      var x :| 0 <= x < |list| && list[x] == f;
      assert rs[x] in rs;
    }
  }

  /** The routes for one exact prefix have comparable MEDs. */
  ghost predicate ExactComparable(c: set<E>, prefix: Prefix) {
    forall e, f :: e in c && f in c && e.key == prefix && f.key == prefix ==> MedComparable(e.value, f.value)
  }

  /** No route for the same exact prefix is better than b. */
  ghost predicate Unbeaten(c: set<E>, b: E) {
    forall e :: e in c && e.key == b.key ==> !Better(e.value, b.value)
  }

  lemma KeepUnbeaten(c: set<E>, prefix: Prefix, seen: seq<E>, best: E, e: E)
    requires ExactComparable(c, prefix) && best in c && e in c && best.key == prefix && e.key == prefix
    requires forall f :: f in seen ==> f in c
    requires forall j :: 0 <= j < |seen| && seen[j].key == prefix ==> !Better(seen[j].value, best.value)
    ensures var b := if Better(e.value, best.value) then e else best;
            && !Better(e.value, b.value)
            && forall j :: 0 <= j < |seen| && seen[j].key == prefix ==> !Better(seen[j].value, b.value)
  {
    hide Better, MedComparable;
    BetterIsTournament(e.value, e.value);
    forall j | 0 <= j < |seen| && seen[j].key == prefix
      ensures !Better(seen[j].value, (if Better(e.value, best.value) then e else best).value)
    {
      assert seen[j] in seen;
      BetterIsTransitive(e.value, best.value, seen[j].value);
      BetterIsTournament(e.value, seen[j].value);
    }
  }

  // ----- the best-route map

  /** All routes for the same exact prefix have comparable MEDs. */
  ghost predicate AllComparable(c: set<E>) {
    forall e, f :: e in c && f in c && e.key == f.key ==> MedComparable(e.value, f.value)
  }

  ghost function Prefixes(c: set<E>): set<Prefix> {
    set e | e in c :: e.key
  }

  /** b is the route for its prefix that no other beats. */
  ghost predicate IsBest(c: set<E>, b: E) {
    b in c && Unbeaten(c, b)
  }

  lemma BestUnique(c: set<E>, a: E, b: E)
    requires OneEach(c) && IsBest(c, a) && IsBest(c, b) && a.key == b.key
    ensures a == b
  {
    hide Better;
    BetterIsTournament(a.value, b.value);
  }

  /** No step of the decision speaks for another route of the prefix against its best one. */
  lemma BestWithstands(c: set<E>, p: Prefix, e: E)
    requires AllComparable(c) && e in c && e.key == p
    ensures p in BestMap(c) && Withstands(BestMap(c)[p], e.value)
  {
    hide AllComparable, Better, Withstands;
    assert e.key in Prefixes(c);
    WithstandsIff(BestAt(c, p).value, e.value);
  }

  lemma BestExists(c: set<E>, p: Prefix)
    requires AllComparable(c) && p in Prefixes(c)
    ensures exists b :: IsBest(c, b) && b.key == p
  {
    hide Better, MedComparable;
    var x :| x in c && x.key == p;
    var d := c - {x};
    if p in Prefixes(d) {
      BestExists(d, p);
      var y :| IsBest(d, y) && y.key == p;
      var b := if Better(x.value, y.value) then x else y;
      forall e | e in c && e.key == p ensures !Better(e.value, b.value) {
        BetterIsTournament(x.value, x.value);
        BetterIsTournament(x.value, e.value);
        BetterIsTransitive(x.value, y.value, e.value);
      }
      assert IsBest(c, b);
    } else {
      BetterIsTournament(x.value, x.value);
      assert forall e :: e in c && e != x ==> e in d && e.key in Prefixes(d);
      assert IsBest(c, x);
    }
  }

  ghost function BestAt(c: set<E>, p: Prefix): (b: E)
    requires AllComparable(c) && p in Prefixes(c)
    ensures IsBest(c, b) && b.key == p
  {
    BestExists(c, p);
    var b :| IsBest(c, b) && b.key == p;
    b
  }

  /** Every prefix of the table with its best route. */
  ghost function BestMap(c: set<E>): map<Prefix, Route>
    requires AllComparable(c)
  {
    map p | p in Prefixes(c) :: BestAt(c, p).value
  }

  /** What a tracked insertion or withdrawal reports about the best route of its prefix. */
  datatype Change = NoBestChange | NewBest(best: Route) | ReplacementBest(best: Route) | Unreachable

  /** The best map after a reported change for prefix p. */
  function AfterChange(bests: map<Prefix, Route>, p: Prefix, change: Change): map<Prefix, Route> {
    match change
    case NoBestChange => bests
    case NewBest(r) => bests[p := r]
    case ReplacementBest(r) => bests[p := r]
    case Unreachable => bests - {p}
  }

  /** The bus events about best routes. */
  datatype Event = RouteAdded(route: Route) | RouteWithdrawn(prefix: Prefix)

  /** What a subscriber that started from `bests` and follows the events believes in the end. */
  function Mirror(bests: map<Prefix, Route>, events: seq<Event>): map<Prefix, Route> {
    if events == [] then bests
    else
      var before := Mirror(bests, events[..|events| - 1]);
      match events[|events| - 1]
      case RouteAdded(r) => before[r.prefix := r]
      case RouteWithdrawn(p) => before - {p}
  }

  function EventsOf(p: Prefix, change: Change): seq<Event> {
    match change
    case NoBestChange => []
    case NewBest(r) => [RouteAdded(r)]
    case ReplacementBest(r) => [RouteAdded(r)]
    case Unreachable => [RouteWithdrawn(p)]
  }

  lemma MirrorChange(bests: map<Prefix, Route>, events: seq<Event>, p: Prefix, change: Change)
    requires Apt(Mirror(bests, events), p, change)
    ensures Mirror(bests, events + EventsOf(p, change)) == AfterChange(Mirror(bests, events), p, change)
  {
    var more := EventsOf(p, change);
    if more == [] {
      assert events + more == events;
    } else {
      assert (events + more)[..|events + more| - 1] == events;
    }
  }

  lemma {:induction false} MirrorOfConcat(bests: map<Prefix, Route>, events: seq<Event>, more: seq<Event>)
    ensures Mirror(bests, events + more) == Mirror(Mirror(bests, events), more)
    decreases |more|
  {
    if more == [] {
      assert events + more == events;
    } else {
      var n := |more| - 1;
      assert (events + more)[..|events| + n] == events + more[..n];
      MirrorOfConcat(bests, events, more[..n]);
    }
  }

  /** A report is apt: new only for a prefix that had no best, replaced or unreachable only for one that had. */
  predicate Apt(bests: map<Prefix, Route>, p: Prefix, change: Change) {
    match change
    case NoBestChange => true
    case NewBest(r) => r.prefix == p && p !in bests
    case ReplacementBest(r) => r.prefix == p && p in bests
    case Unreachable => p in bests
  }

  /** A route's MED is comparable with those of the routes for the same prefix. */
  ghost predicate Fits(c: set<E>, r: Route) {
    AllComparable(c) && forall e :: e in c && e.key == r.prefix ==> MedComparable(e.value, r)
  }

  /** A subscriber who knew the best routes of c and follows the events knows those of d. */
  ghost predicate Informs(c: set<E>, d: set<E>, events: seq<Event>) {
    AllComparable(c) ==> AllComparable(d) && Mirror(BestMap(c), events) == BestMap(d)
  }

  /** All events that were published in going from one table to the next, in order. */
  function Together(reports: seq<seq<Event>>): seq<Event> {
    if reports == [] then [] else Together(reports[..|reports| - 1]) + reports[|reports| - 1]
  }

  /** Over any run of true reports, by whichever sessions, following all of them in the order of the table
      changes gives the best routes of the table in the end. */
  lemma {:induction false} ReportsAddUp(tables: seq<set<E>>, reports: seq<seq<Event>>)
    requires |tables| == |reports| + 1
    requires forall i :: 0 <= i < |reports| ==> Informs(tables[i], tables[i + 1], reports[i])
    ensures Informs(tables[0], tables[|reports|], Together(reports))
    decreases |reports|
  {
    hide AllComparable, BestMap;
    if reports != [] {
      var n := |reports| - 1;
      ReportsAddUp(tables[..n + 1], reports[..n]);
      assert Informs(tables[n], tables[n + 1], reports[n]);
      if AllComparable(tables[0]) {
        MirrorOfConcat(BestMap(tables[0]), Together(reports[..n]), reports[n]);
      }
    }
  }

  lemma FitsStays(c: set<E>, r: Route, was: HashMap.Entry?<Prefix, Route>, e: E)
    requires Fits(c, r) && e.key == r.prefix && e.value.med == r.med && e.value.attrs == r.attrs
    ensures AllComparable(Minus(c, was) + {e})
  {
  }

  /** The best map after the entries for one prefix have changed. */
  lemma BestMapChange(c: set<E>, d: set<E>, p: Prefix)
    requires AllComparable(c) && AllComparable(d) && OneEach(c) && OneEach(d)
    requires forall e :: e in c + d && e.key != p ==> e in c && e in d
    ensures p !in Prefixes(d) ==> BestMap(d) == BestMap(c) - {p}
    ensures p in Prefixes(d) ==> BestMap(d) == BestMap(c)[p := BestAt(d, p).value]
    ensures p in Prefixes(c) && p in Prefixes(d) && BestAt(c, p) == BestAt(d, p) ==> BestMap(d) == BestMap(c)
  {
    hide Better, MedComparable, AllComparable, OneEach, IsBest, Prefixes;
    BestMapElsewhere(c, d, p);
  }

  lemma SubsetComparable(c: set<E>, d: set<E>)
    requires AllComparable(c) && OneEach(c) && d <= c
    ensures AllComparable(d) && OneEach(d)
  {
    hide MedComparable;
  }

  lemma OtherBestStays(c: set<E>, e: E)
    requires AllComparable(c) && OneEach(c) && e in c
    requires AllComparable(c - {e}) && OneEach(c - {e})
    ensures e.key in Prefixes(c)
    ensures BestAt(c, e.key) != e ==> e.key in Prefixes(c - {e}) && BestAt(c - {e}, e.key) == BestAt(c, e.key)
  {
    hide Better, AllComparable, OneEach;
    var b := BestAt(c, e.key);
    if b != e {
      assert b in c - {e} && IsBest(c - {e}, b);
      BestUnique(c - {e}, b, BestAt(c - {e}, e.key));
    }
  }

  /** How the best map changes when entries for one prefix change: nowhere else. */
  lemma BestMapElsewhere(c: set<E>, d: set<E>, p: Prefix)
    requires AllComparable(c) && AllComparable(d) && OneEach(c) && OneEach(d)
    requires forall e :: e in c + d && e.key != p ==> e in c && e in d
    ensures forall q :: q != p ==> (q in Prefixes(c) <==> q in Prefixes(d))
    ensures forall q :: q != p && q in Prefixes(c) ==> BestAt(c, q) == BestAt(d, q)
  {
    hide Better, MedComparable;
    assert forall e :: e in c && e.key != p ==> e in c + d;
    assert forall e :: e in d && e.key != p ==> e in c + d;
    forall q | q != p && q in Prefixes(c) ensures q in Prefixes(d) && BestAt(c, q) == BestAt(d, q) {
      var e :| e in c && e.key == q;
      assert e in d;
      var b := BestAt(c, q);
      assert IsBest(d, b);
      BestUnique(d, b, BestAt(d, q));
    }
    forall q | q != p && q in Prefixes(d) ensures q in Prefixes(c) {
      var e :| e in d && e.key == q;
      assert e in c;
    }
  }

  // ----- dropping a whole source

  /** The best route for p comes from this source. */
  ghost predicate LedBy(c: set<E>, source: nat, p: Prefix)
    requires AllComparable(c)
  {
    p in Prefixes(c) && BestAt(c, p).value.source == source
  }

  /** Prefixes the scan of a list of a source's entries has to report. */
  ghost predicate Leads(c: set<E>, seen: seq<E>, leads: seq<Prefix>)
    requires AllComparable(c)
  {
    && HashMap.NoDup(leads)
    && (forall p :: p in leads ==> p in Prefixes(c) && BestAt(c, p) in seen)
    && (forall e :: e in seen && e.key in Prefixes(c) && BestAt(c, e.key) == e ==> e.key in leads)
  }

  lemma NextLead(c: set<E>, list: seq<E>, i: nat, leads: seq<Prefix>)
    requires AllComparable(c) && i < |list| && HashMap.NoDup(list) && (forall e :: e in list ==> e in c)
    requires Leads(c, list[..i], leads)
    ensures list[i].key in Prefixes(c)
    ensures Leads(c, list[..i + 1], if BestAt(c, list[i].key) == list[i] then leads + [list[i].key] else leads)
  {
    hide AllComparable, IsBest;
    assert list[..i + 1] == list[..i] + [list[i]];
    assert list[i] in list && list[i].key in Prefixes(c);
    assert list[i] !in list[..i];
  }

  lemma LeadsAreLed(c: set<E>, sources: map<nat, seq<E>>, source: nat, leads: seq<Prefix>)
    requires AllComparable(c) && SourcesAgree(c, sources) && Leads(c, ListFor(sources, source), leads)
    ensures forall p :: p in leads <==> LedBy(c, source, p)
  {
    hide AllComparable, Unbeaten;
    forall p | LedBy(c, source, p) ensures p in leads {
      assert BestAt(c, p) in c;
    }
    forall p | p in leads ensures LedBy(c, source, p) {
      assert BestAt(c, p) in ListFor(sources, source);
    }
  }

  /** The two lists of a discard report for the prefixes seen so far, against the new contents. */
  ghost predicate Reports(d: set<E>, seen: seq<Prefix>, withdrawn: seq<Prefix>, replacements: seq<Route>)
    requires AllComparable(d)
  {
    && HashMap.NoDup(withdrawn) && HashMap.NoDup(PrefixesOf(replacements))
    && (forall p :: p in withdrawn <==> p in seen && p !in Prefixes(d))
    && (forall p :: p in PrefixesOf(replacements) <==> p in seen && p in Prefixes(d))
    && (forall r :: r in replacements ==> r.prefix in Prefixes(d) && r == BestAt(d, r.prefix).value)
  }

  function PrefixesOf(rs: seq<Route>): (ps: seq<Prefix>)
    ensures |ps| == |rs| && forall i :: 0 <= i < |rs| ==> ps[i] == rs[i].prefix
  {
    seq(|rs|, i requires 0 <= i < |rs| => rs[i].prefix)
  }

  lemma NextReport(d: set<E>, active: seq<Prefix>, i: nat, withdrawn: seq<Prefix>, replacements: seq<Route>)
    requires AllComparable(d) && Filed(d) && i < |active| && HashMap.NoDup(active)
    requires Reports(d, active[..i], withdrawn, replacements)
    ensures active[i] !in Prefixes(d) ==> Reports(d, active[..i + 1], withdrawn + [active[i]], replacements)
    ensures active[i] in Prefixes(d) ==>
              Reports(d, active[..i + 1], withdrawn, replacements + [BestAt(d, active[i]).value])
  {
    hide AllComparable, Unbeaten;
    var p := active[i];
    assert active[..i + 1] == active[..i] + [p];
    assert p !in active[..i];
    if p in Prefixes(d) {
      var r := BestAt(d, p).value;
      assert r.prefix == p;
      assert PrefixesOf(replacements + [r]) == PrefixesOf(replacements) + [p];
    }
  }

  function Subject(e: Event): Prefix {
    match e
    case RouteAdded(r) => r.prefix
    case RouteWithdrawn(p) => p
  }

  /** The event says of its prefix what the map says. */
  predicate TrueOf(e: Event, bests: map<Prefix, Route>) {
    match e
    case RouteAdded(r) => r.prefix in bests && bests[r.prefix] == r
    case RouteWithdrawn(p) => p !in bests
  }

  predicate SameAt(a: map<Prefix, Route>, b: map<Prefix, Route>, p: Prefix) {
    (p in a <==> p in b) && (p in a ==> a[p] == b[p])
  }

  predicate About(events: seq<Event>, p: Prefix) {
    exists i :: 0 <= i < |events| && Subject(events[i]) == p
  }

  /** After true events a subscriber is right about every prefix they were about. */
  lemma {:induction false} MirrorOfTrueEvents(bests: map<Prefix, Route>, events: seq<Event>, now: map<Prefix, Route>,
                                              p: Prefix)
    requires forall i :: 0 <= i < |events| ==> TrueOf(events[i], now)
    ensures SameAt(Mirror(bests, events), if About(events, p) then now else bests, p)
  {
    if events != [] {
      var n := |events| - 1;
      MirrorOfTrueEvents(bests, events[..n], now, p);
      assert TrueOf(events[n], now);
      if Subject(events[n]) != p {
        assert About(events, p) ==> About(events[..n], p);
      }
    }
  }

  function DiscardEvents(withdrawn: seq<Prefix>, replacements: seq<Route>): (events: seq<Event>)
    ensures |events| == |withdrawn| + |replacements|
    ensures forall i :: 0 <= i < |withdrawn| ==> events[i] == RouteWithdrawn(withdrawn[i])
    ensures forall i :: 0 <= i < |replacements| ==> events[|withdrawn| + i] == RouteAdded(replacements[i])
  {
    seq(|withdrawn|, i requires 0 <= i < |withdrawn| => RouteWithdrawn(withdrawn[i]))
    + seq(|replacements|, i requires 0 <= i < |replacements| => RouteAdded(replacements[i]))
  }

  lemma DiscardSubjects(withdrawn: seq<Prefix>, replacements: seq<Route>, p: Prefix)
    ensures About(DiscardEvents(withdrawn, replacements), p) <==> p in withdrawn || p in PrefixesOf(replacements)
  {
    var events := DiscardEvents(withdrawn, replacements);
    if p in withdrawn {
      var i :| 0 <= i < |withdrawn| && withdrawn[i] == p;
      assert Subject(events[i]) == p;
    }
    if p in PrefixesOf(replacements) {
      var i :| 0 <= i < |replacements| && replacements[i].prefix == p;
      assert Subject(events[|withdrawn| + i]) == p;
    }
    if About(events, p) {
      var i :| 0 <= i < |events| && Subject(events[i]) == p;
      if i >= |withdrawn| {
        assert PrefixesOf(replacements)[i - |withdrawn|] == p;
      }
    }
  }

  lemma UnledBestStays(c: set<E>, d: set<E>, source: nat, p: Prefix)
    requires AllComparable(c) && OneEach(c) && AllComparable(d) && OneEach(d) && d == OthersThan(c, source)
    ensures p in Prefixes(d) ==> p in Prefixes(c)
    ensures p in Prefixes(c) && !LedBy(c, source, p) ==> p in Prefixes(d) && BestAt(d, p) == BestAt(c, p)
    ensures p in Prefixes(d) && LedBy(c, source, p) ==> BestAt(d, p) != BestAt(c, p)
  {
    hide AllComparable, OneEach, Better;
    if p in Prefixes(c) && !LedBy(c, source, p) {
      var b := BestAt(c, p);
      assert b in d && IsBest(d, b);
      BestUnique(d, b, BestAt(d, p));
    }
  }

  /** Everything a discard report promises, given how it was collected. */
  lemma DiscardReport(c: set<E>, d: set<E>, source: nat, active: seq<Prefix>, withdrawn: seq<Prefix>,
                      replacements: seq<Route>)
    requires AllComparable(c) && OneEach(c) && AllComparable(d) && OneEach(d) && d == OthersThan(c, source)
    requires forall p :: p in active <==> LedBy(c, source, p)
    requires Reports(d, active, withdrawn, replacements)
    ensures forall p :: p in withdrawn <==> p in Prefixes(c) && p !in Prefixes(d)
    ensures forall p :: p in PrefixesOf(replacements) <==>
              p in Prefixes(c) && p in Prefixes(d) && BestAt(c, p) != BestAt(d, p)
    ensures Mirror(BestMap(c), DiscardEvents(withdrawn, replacements)) == BestMap(d)
  {
    hide AllComparable, OneEach, IsBest, OthersThan, Mirror, LedBy;
    forall p
      ensures p in withdrawn <==> p in Prefixes(c) && p !in Prefixes(d)
      ensures p in PrefixesOf(replacements) <==> p in Prefixes(c) && p in Prefixes(d) && BestAt(c, p) != BestAt(d, p)
    {
      UnledBestStays(c, d, source, p);
      LedIsThere(c, source, p);
    }
    var events := DiscardEvents(withdrawn, replacements);
    forall i | 0 <= i < |events| ensures TrueOf(events[i], BestMap(d)) {
      if i < |withdrawn| {
        assert withdrawn[i] in withdrawn;
      } else {
        assert replacements[i - |withdrawn|] in replacements;
      }
    }
    forall p ensures SameAt(Mirror(BestMap(c), events), BestMap(d), p) {
      MirrorOfTrueEvents(BestMap(c), events, BestMap(d), p);
      DiscardSubjects(withdrawn, replacements, p);
      UnledBestStays(c, d, source, p);
    }
    MapsEqual(Mirror(BestMap(c), events), BestMap(d));
  }

  lemma OthersComparable(c: set<E>, source: nat)
    ensures AllComparable(c) ==> AllComparable(OthersThan(c, source))
  {
    hide MedComparable;
  }

  lemma LedIsThere(c: set<E>, source: nat, p: Prefix)
    requires AllComparable(c)
    ensures LedBy(c, source, p) ==> p in Prefixes(c)
  {
  }

  lemma MapsEqual(a: map<Prefix, Route>, b: map<Prefix, Route>)
    requires forall p :: SameAt(a, b, p)
    ensures a == b
  {
    forall p | p in a.Keys + b.Keys ensures p in a && p in b && a[p] == b[p] {
      assert SameAt(a, b, p);
    }
  }

  lemma SourceMembers(c: set<E>, sources: map<nat, seq<E>>, source: nat)
    requires SourcesAgree(c, sources)
    ensures source !in sources ==> forall e :: e in c ==> e.value.source != source
    ensures source in sources ==> forall e :: e in sources[source] ==> e in c && e.value.source == source
    ensures source in sources ==> forall e :: e in c && e.value.source == source ==> e in sources[source]
  {
  }

  /** Canonical prefixes of one length that match an address are equal, so a source's longest
      match is unique. */
  lemma ScopedMatchUnique(c: set<E>, dest: Addr, e: E, f: E)
    requires OneEach(c) && e in c && f in c && e.value.source == f.value.source
    requires Canonical(e.key) && Canonical(f.key) && e.key.len == f.key.len
    requires AddrMatches(e.key, dest) && AddrMatches(f.key, dest)
    ensures e == f
  {
    MatchUnique(e.key, f.key, dest);
  }

  /** What longest-prefix match in the tree means for the routes. */
  lemma LookupMeaning(c: set<E>, groups: map<Prefix, Group>, m: map<Bits, E>, dest: Addr)
    requires Filed(c) && GroupsAgree(c, groups) && TreeAgrees(groups, m)
    ensures var r := Radix4.LongestMatch(m, ToBits(dest), 32);
            && (r.None? <==> forall e :: e in c ==> !AddrMatches(e.key, dest))
            && (r.Some? ==>
                  && r.value in c && AddrMatches(r.value.key, dest) && r.value.key == r.value.value.prefix
                  && (forall e :: e in c && AddrMatches(e.key, dest) ==> e.key.len <= r.value.key.len)
                  && Normalize(r.value.key) in groups && groups[Normalize(r.value.key)].best == Some(r.value)
                  && (AllStand(groups) ==>
                        forall e :: e in c && AddrMatches(e.key, dest) && e.key.len == r.value.key.len ==>
                          !Better(e.value, r.value.value)))
  {
    hide AddrMatches, Normalize, Better, Key, ToBits, Radix4.LongestMatch, AllStand, Filed, GroupsAgree, TreeAgrees;
    var bits := ToBits(dest);
    var r := Radix4.LongestMatch(m, bits, 32);
    Radix4.LongestMatchMeaning(m, bits, 32);
    TreeKeysShort(groups, m);
    forall e | e in c
      ensures e.key.len <= 32 && Key(e.key) in m && (AddrMatches(e.key, dest) <==> Key(e.key) <= bits)
    {
      TreeKeyOf(c, groups, m, e);
      MatchMeaning(e.key, dest);
    }
    if r.Some? {
      var k :| k in m && k <= bits && r == Some(m[k])
               && (forall k' :: k' in m && |k'| <= 32 && k' <= bits ==> |k'| <= |k|);
      FoundEntry(c, groups, m, k);
      KeyLength(c);
      if AllStand(groups) {
        BestOfMatches(c, groups, r.value, dest);
      }
    } else {
      MatchedKeys(m, bits);
    }
  }

  /** The entry a tree key is bound to. */
  lemma FoundEntry(c: set<E>, groups: map<Prefix, Group>, m: map<Bits, E>, k: Bits)
    requires Filed(c) && GroupsAgree(c, groups) && TreeAgrees(groups, m) && k in m
    ensures var e := m[k];
            && e in c && e.key == e.value.prefix && e.key.len <= 32 && Key(e.key) == k
            && Normalize(e.key) in groups && groups[Normalize(e.key)].best == Some(e)
  {
    hide Normalize, Key, Canonical;
    var p :| p in groups && p.len <= 32 && Key(p) == k;
    assert m[k] in groups[p].entries;
    NormalizeMeaning(m[k].key, m[k].key);
  }

  lemma KeyLength(c: set<E>)
    ensures forall e :: e in c && e.key.len <= 32 ==> |Key(e.key)| == e.key.len
  {
  }

  lemma MatchedKeys(m: map<Bits, E>, bits: Bits)
    requires forall k :: k in m ==> |k| <= 32
    requires |bits| == 32 && Radix4.LongestMatch(m, bits, 32).None?
    ensures forall k :: k in m ==> !(k <= bits)
  {
    hide Radix4.LongestMatch;
    Radix4.LongestMatchMeaning(m, bits, 32);
  }

  lemma TreeKeysShort(groups: map<Prefix, Group>, m: map<Bits, E>)
    requires TreeAgrees(groups, m)
    ensures forall k :: k in m ==> |k| <= 32
  {
  }

  /** Matching prefixes of one length are in one group, whose best stands. */
  lemma BestOfMatches(c: set<E>, groups: map<Prefix, Group>, b: E, dest: Addr)
    requires Filed(c) && GroupsAgree(c, groups) && AllStand(groups) && b in c && AddrMatches(b.key, dest)
    requires Normalize(b.key) in groups && groups[Normalize(b.key)].best == Some(b)
    ensures forall e :: e in c && AddrMatches(e.key, dest) && e.key.len == b.key.len ==> !Better(e.value, b.value)
  {
    hide AddrMatches, Normalize, Better, Key;
    forall e | e in c && AddrMatches(e.key, dest) && e.key.len == b.key.len ensures !Better(e.value, b.value) {
      MatchUnique(e.key, b.key, dest);
      assert e in groups[Normalize(e.key)].entries;
    }
  }

  lemma TreeKeyOf(c: set<E>, groups: map<Prefix, Group>, m: map<Bits, E>, e: E)
    requires Filed(c) && GroupsAgree(c, groups) && TreeAgrees(groups, m) && e in c
    ensures e.key.len <= 32 && Key(e.key) in m && Normalize(e.key) in groups && e in groups[Normalize(e.key)].entries
    ensures groups[Normalize(e.key)].best == Some(m[Key(e.key)])
  {
    hide Key, Normalize;
    NormalizeMeaning(e.key, e.key);
  }

  ghost function OthersThan(c: set<E>, source: nat): set<E> {
    set e | e in c && e.value.source != source
  }

  ghost predicate GroupsComparable(groups: map<Prefix, Group>) {
    forall p :: p in groups ==> GroupComparable(groups[p].entries)
  }

  lemma SourceListed(c: set<E>, sources: map<nat, seq<E>>, source: nat)
    requires SourcesAgree(c, sources)
    ensures source !in sources ==> OthersThan(c, source) == c
    ensures source in sources ==>
              HashMap.NoDup(sources[source]) && (forall e :: e in sources[source] ==> e in c)
  {
  }

  lemma NextListed(c: set<E>, list: seq<E>, i: nat)
    requires i < |list| && HashMap.NoDup(list) && (forall e :: e in list ==> e in c)
    ensures list[i] in c - HashMap.Elems(list[..i])
    ensures c - HashMap.Elems(list[..i]) - {list[i]} == c - HashMap.Elems(list[..i + 1])
  {
    assert list[..i + 1] == list[..i] + [list[i]];
  }

  /** Once a source's whole list is gone, the rest of the index fits the remaining entries. */
  lemma AllListed(c: set<E>, sources: map<nat, seq<E>>, source: nat)
    requires SourcesAgree(c, sources) && source in sources && OneEach(c) && Filed(c)
    ensures c - HashMap.Elems(sources[source]) == OthersThan(c, source)
    ensures |c| - |OthersThan(c, source)| == |sources[source]|
    ensures SourcesAgree(OthersThan(c, source), sources - {source})
    ensures OneEach(OthersThan(c, source)) && Filed(OthersThan(c, source))
  {
    hide OneEach, Filed;
    var list := sources[source];
    ElemsCount(list);
    hide HashMap.NoDup;
    assert HashMap.Elems(list) <= c;
    assert c == OthersThan(c, source) + HashMap.Elems(list);
    OthersOrderly(c, source);
  }

  lemma OthersOrderly(c: set<E>, source: nat)
    requires OneEach(c) && Filed(c)
    ensures OneEach(OthersThan(c, source)) && Filed(OthersThan(c, source))
  {
  }

  lemma {:induction false} ElemsCount(list: seq<E>)
    requires HashMap.NoDup(list)
    ensures |HashMap.Elems(list)| == |list|
  {
    if list != [] {
      var init := list[..|list| - 1];
      ElemsCount(init);
      assert list == init + [list[|list| - 1]];
      assert HashMap.Elems(list) == HashMap.Elems(init) + {list[|list| - 1]};
    }
  }

  lemma StandAfterDrop(c: set<E>, groups: map<Prefix, Group>, e: E)
    requires GroupsAgree(c, groups) && e in c && AllStand(groups) && GroupsComparable(groups)
    ensures AllStand(GroupsWithout(groups, e)) && GroupsComparable(GroupsWithout(groups, e))
  {
    GroupOf(c, groups, e);
    GroupFacts(c, groups);
    var p := Normalize(e.key);
    hide GroupsAgree, Normalize, AllStand;
    StandWithout(c, groups, e);
    GroupMinusMembers(groups[p], e);
    hide GroupMinus;
  }

  /** What inserting e and dropping `was` does to the table. */
  lemma InsertTable(c: set<E>, was: HashMap.Entry?<Prefix, Route>, e: E)
    requires OneEach(c)
    requires was == null ==> KeyOf(e) !in Keys(c)
    requires was != null ==> was in c && KeyOf(was) == KeyOf(e)
    ensures OneEach(Minus(c, was) + {e})
    ensures Table(Minus(c, was) + {e}) == Table(c)[KeyOf(e) := e.value]
  {
    hide Table, Keys, OneEach;
    if was != null {
      TableWithout(c, was);
      TableWith(c - {was}, e);
    } else {
      TableWith(c, e);
    }
  }

  /** What inserting e beside `was` and then dropping `was` does to the cached bests. */
  lemma InsertBests(c: set<E>, groups: map<Prefix, Group>, was: HashMap.Entry?<Prefix, Route>, e: E)
    requires GroupsAgree(c, groups) && e !in c && e.key.len <= 32
    requires was != null ==> was in c && was.key == e.key
    requires AllStand(groups) && JoinsComparably(EntriesAt(groups, Normalize(e.key)), e.value)
    ensures AllStand(GroupsPlusMinus(c, groups, was, e))
  {
    GroupsAfterAdd(c, groups, e);
    hide GroupsAgree, Normalize, MedComparable, AllStand;
    JoinedComparable(EntriesAt(groups, Normalize(e.key)), e);
    StandWith(c, groups, e);
    if was != null {
      GroupOf(c + {e}, GroupsWith(groups, e), was);
      StandWithout(c + {e}, GroupsWith(groups, e), was);
    }
  }

  lemma InsertKeepsBests(c: set<E>, groups: map<Prefix, Group>, was: HashMap.Entry?<Prefix, Route>, e: E)
    requires GroupsAgree(c, groups) && e !in c && e.key.len <= 32
    requires was != null ==> was in c && was.key == e.key
    ensures BestsKept(Plus(c, e), groups, GroupsPlusMinus(c, groups, was, e))
  {
    hide GroupsAgree, Orderly, AllStand, GroupsPlusMinus, Normalize;
    if AllStand(groups) && Orderly(c + {e}) {
      OrderlyJoins(c, groups, e);
      InsertBests(c, groups, was, e);
    }
  }

  lemma JoinedComparable(entries: seq<E>, e: E)
    requires JoinsComparably(entries, e.value)
    ensures GroupComparable(entries + [e])
  {
  }

  ghost function GroupsPlusMinus(c: set<E>, groups: map<Prefix, Group>, was: HashMap.Entry?<Prefix, Route>, e: E)
    : map<Prefix, Group>
    requires GroupsAgree(c, groups) && e !in c && e.key.len <= 32 && (was != null ==> was in c)
  {
    GroupsAfterAdd(c, groups, e);
    if was == null then GroupsWith(groups, e) else GroupsWithout(GroupsWith(groups, e), was)
  }

  lemma FoundInTable(c: set<E>, source: nat, prefix: Prefix, found: HashMap.Entry?<Prefix, Route>)
    requires found == null <==> forall e :: e in c ==> !(e.key == prefix && e.value.source == source)
    requires found != null ==> found in c && found.key == prefix && found.value.source == source
    ensures found != null <==> (source, prefix) in Keys(c)
    ensures Table(c).Keys == Keys(c)
  {
  }

  lemma FiledSubset(c: set<E>, d: set<E>)
    requires Filed(c) && d <= c
    ensures Filed(d)
  {
  }

  lemma GroupOf(c: set<E>, groups: map<Prefix, Group>, e: E)
    requires GroupsAgree(c, groups) && e in c
    ensures Normalize(e.key) in groups && e in groups[Normalize(e.key)].entries
  {
  }

  lemma GroupFacts(c: set<E>, groups: map<Prefix, Group>)
    requires GroupsAgree(c, groups)
    ensures forall q :: q in groups ==>
              && Canonical(q) && groups[q].best.Some? && groups[q].best.value in groups[q].entries
              && HashMap.NoDup(groups[q].entries)
  {
  }

  lemma BoundKey(groups: map<Prefix, Group>, m: map<Bits, E>, p: Prefix)
    requires TreeAgrees(groups, m) && p in groups
    ensures p.len <= 32 && Key(p) in m
  {
  }

  lemma SameBest(groups: map<Prefix, Group>, m: map<Bits, E>, p: Prefix, entries: seq<E>)
    requires TreeAgrees(groups, m) && p in groups
    ensures TreeAgrees(groups[p := groups[p].(entries := entries)], m)
  {
    var groups' := groups[p := groups[p].(entries := entries)];
    forall k | k in m ensures exists q :: q in groups' && q.len <= 32 && Key(q) == k {
      var q :| q in groups && q.len <= 32 && Key(q) == k;
      assert q in groups';
    }
  }
}
