/** Applying one received UPDATE to the IPv4 routing table as a transaction (src/fsm.c): every step is
    journaled, a failure rolls the table back, and success publishes the journaled events. */
module UpdateJournal {
  import opened Wrappers
  import opened Prefix4
  import opened BestPath
  import opened RibIndex
  import opened Rib4
  import HashMap
  import Radix4

  type MaybeE = HashMap.Entry?<Prefix, Route>

  /** A journaled insertion. */
  datatype Applied = Applied(prefix: Prefix, updateId: nat, restoreReplaced: bool, replaced: MaybeE, change: Change)

  /** A journaled withdrawal. */
  datatype Withdrawn = Withdrawn(prefix: Prefix, saved: E, change: Change)

  /** What to publish, in order, by position in the two lists. */
  datatype Ref = ToApplied(index: nat) | ToWithdrawn(index: nat)

  // ----- what a journal says about the table

  /** The update id of the last journaled insertion for a prefix. */
  function LastId(applied: seq<Applied>, p: Prefix): Option<nat> {
    if applied == [] then None
    else if applied[|applied| - 1].prefix == p then Some(applied[|applied| - 1].updateId)
    else LastId(applied[..|applied| - 1], p)
  }

  lemma LastIdOfSnoc(applied: seq<Applied>, a: Applied, p: Prefix)
    ensures LastId(applied + [a], p) == if a.prefix == p then Some(a.updateId) else LastId(applied, p)
  {
    assert (applied + [a])[..|applied|] == applied;
  }

  lemma {:induction false} LastIdIsJournaled(applied: seq<Applied>, p: Prefix)
    requires LastId(applied, p).Some?
    ensures exists a :: a in applied && a.prefix == p && a.updateId == LastId(applied, p).value
  {
    if applied[|applied| - 1].prefix == p {
      assert applied[|applied| - 1] in applied;
    } else {
      LastIdIsJournaled(applied[..|applied| - 1], p);
    }
  }

  /** The entries a rollback is to put back. */
  ghost function Displaced(applied: seq<Applied>): set<E> {
    set a | a in applied && a.restoreReplaced && a.replaced != null :: a.replaced
  }

  ghost function Saved(withdrawn: seq<Withdrawn>): set<E> {
    set w | w in withdrawn :: w.saved
  }

  /** Every entry that is new since `base` is the last journaled insertion for its prefix, and no entry
      of the peer is left from `base` where an insertion is journaled. */
  ghost predicate Covers(applied: seq<Applied>, base: set<E>, now: set<E>, peer: nat) {
    && (forall e :: e in now && e !in base ==>
          e.value.source == peer && LastId(applied, e.key) == Some(e.value.updateId))
    && (forall a, e :: a in applied && e in now && e.key == a.prefix && e.value.source == peer ==> e !in base)
  }

  /** The journal holds entries of `base` that are gone, all of the peer and of prefixes the UPDATE names;
      `whole` says it holds all of them. */
  ghost predicate Keeps(applied: seq<Applied>, withdrawn: seq<Withdrawn>, base: set<E>, now: set<E>, peer: nat,
                        named: set<Prefix>, whole: bool) {
    var saves := Displaced(applied) + Saved(withdrawn);
    && saves <= base && saves !! now
    && (forall e :: e in base && e !in now ==> e.value.source == peer && e.key in named)
    && (whole ==> forall e :: e in base && e !in now ==> e in saves)
  }

  ghost predicate Sound(applied: seq<Applied>, withdrawn: seq<Withdrawn>, base: set<E>, now: set<E>, peer: nat,
                        named: set<Prefix>, whole: bool) {
    Covers(applied, base, now, peer) && Keeps(applied, withdrawn, base, now, peer, named, whole)
  }

  lemma SoundAfterWithdraw(withdrawn: seq<Withdrawn>, base: set<E>, now: set<E>, peer: nat, named: set<Prefix>,
                           whole: bool, w: Withdrawn)
    requires Sound([], withdrawn, base, now, peer, named, whole)
    requires w.saved in now && w.saved.value.source == peer && w.saved.key in named
    ensures Sound([], withdrawn + [w], base, now - {w.saved}, peer, named, whole)
  {
    assert LastId([], w.saved.key).None?;
    assert Saved(withdrawn + [w]) == Saved(withdrawn) + {w.saved} by {
      assert forall x :: x in withdrawn + [w] <==> x in withdrawn || x == w;
      assert w in withdrawn + [w];
      assert forall x :: x in withdrawn ==> x in withdrawn + [w];
    }
  }

  /** An entry of the peer lost for want of memory. */
  lemma SoundAfterLoss(applied: seq<Applied>, withdrawn: seq<Withdrawn>, base: set<E>, now: set<E>, peer: nat,
                       named: set<Prefix>, e: E)
    requires Sound(applied, withdrawn, base, now, peer, named, false) && e.value.source == peer && e.key in named
    ensures Sound(applied, withdrawn, base, now - {e}, peer, named, false)
  {
  }

  lemma DisplacedOfSnoc(applied: seq<Applied>, a: Applied)
    ensures Displaced(applied + [a])
            == Displaced(applied) + if a.restoreReplaced && a.replaced != null then {a.replaced} else {}
  {
    assert forall x :: x in applied + [a] <==> x in applied || x == a;
    assert a in applied + [a];
    assert forall x :: x in applied ==> x in applied + [a];
  }

  predicate Has(applied: seq<Applied>, p: Prefix, updateId: nat) {
    exists i :: 0 <= i < |applied| && applied[i].prefix == p && applied[i].updateId == updateId
  }

  /** What a replacement displaces is from before the transaction exactly when it is not journaled. */
  lemma ReplacedIsOld(applied: seq<Applied>, base: set<E>, now: set<E>, peer: nat, e: E)
    requires Covers(applied, base, now, peer) && e in now && e.value.source == peer
    ensures e in base <==> !Has(applied, e.key, e.value.updateId)
  {
    if Has(applied, e.key, e.value.updateId) {
      var i :| 0 <= i < |applied| && applied[i].prefix == e.key && applied[i].updateId == e.value.updateId;
      assert applied[i] in applied;
    }
    if e !in base {
      LastIdIsJournaled(applied, e.key);
    }
  }

  lemma CoversAfterInsert(applied: seq<Applied>, base: set<E>, now: set<E>, peer: nat, a: Applied, e: E)
    requires Covers(applied, base, now, peer)
    requires OneEach(Minus(now, a.replaced) + {e}) && e !in base && e.value.source == peer
    requires a.prefix == e.key && a.updateId == e.value.updateId
    ensures Covers(applied + [a], base, Minus(now, a.replaced) + {e}, peer)
  {
    var now' := Minus(now, a.replaced) + {e};
    forall f | f in now' && f !in base
      ensures f.value.source == peer && LastId(applied + [a], f.key) == Some(f.value.updateId)
    {
      LastIdOfSnoc(applied, a, f.key);
    }
  }

  lemma KeepsAfterInsert(applied: seq<Applied>, withdrawn: seq<Withdrawn>, base: set<E>, now: set<E>, peer: nat,
                         named: set<Prefix>, whole: bool, a: Applied, e: E)
    requires Keeps(applied, withdrawn, base, now, peer, named, whole) && e !in base
    requires a.replaced != null ==>
               && a.replaced in now && a.replaced.value.source == peer && a.replaced.key in named
               && a.restoreReplaced == (a.replaced in base)
    ensures Keeps(applied + [a], withdrawn, base, Minus(now, a.replaced) + {e}, peer, named, whole)
  {
    DisplacedOfSnoc(applied, a);
  }

  lemma SoundAfterInsert(applied: seq<Applied>, withdrawn: seq<Withdrawn>, base: set<E>, now: set<E>, peer: nat,
                         named: set<Prefix>, whole: bool, a: Applied, e: E)
    requires Sound(applied, withdrawn, base, now, peer, named, whole)
    requires OneEach(Minus(now, a.replaced) + {e}) && e !in now && e.value.source == peer
    requires a.prefix == e.key && a.updateId == e.value.updateId && a.prefix in named
    requires a.replaced != null ==>
               && a.replaced in now && a.replaced.key == a.prefix && a.replaced.value.source == peer
               && a.restoreReplaced == !Has(applied, a.prefix, a.replaced.value.updateId)
    requires e !in base
    ensures Sound(applied + [a], withdrawn, base, Minus(now, a.replaced) + {e}, peer, named, whole)
  {
    hide Covers, Keeps, OneEach, Has;
    if a.replaced != null {
      ReplacedIsOld(applied, base, now, peer, a.replaced);
    }
    CoversAfterInsert(applied, base, now, peer, a, e);
    KeepsAfterInsert(applied, withdrawn, base, now, peer, named, whole, a, e);
  }

  /** A journaled insertion. */
  predicate Journaled(applied: seq<Applied>, peer: nat, e: E) {
    e.value.source == peer && Has(applied, e.key, e.value.updateId)
  }

  /** The entries that are not journaled insertions. */
  ghost function Unjournaled(c: set<E>, applied: seq<Applied>, peer: nat): set<E> {
    set e | e in c && !Journaled(applied, peer, e)
  }

  /** What a rollback makes of a table, whatever has happened to it since the journal was written. Routes
      that are not journaled insertions stay; nothing comes in but what the journal saved; and, with memory,
      every saved route has its prefix served again. */
  ghost predicate Undone(applied: seq<Applied>, withdrawn: seq<Withdrawn>, peer: nat, start: set<E>, now: set<E>,
                         spare: bool) {
    var kept, saves := Unjournaled(start, applied, peer), Displaced(applied) + Saved(withdrawn);
    && kept <= now <= kept + saves
    && (spare ==> forall e :: e in saves ==> KeyOf(e) in Keys(now))
  }

  lemma UnjournaledIsOld(applied: seq<Applied>, withdrawn: seq<Withdrawn>, base: set<E>, start: set<E>, peer: nat,
                         named: set<Prefix>, whole: bool)
    requires Sound(applied, withdrawn, base, start, peer, named, whole)
    ensures Unjournaled(start, applied, peer) == start * base
    ensures Displaced(applied) + Saved(withdrawn) <= base && Displaced(applied) + Saved(withdrawn) !! start
    ensures forall e :: e in Displaced(applied) + Saved(withdrawn) ==> e.value.source == peer
  {
    hide Displaced, Saved, Has;
    forall e | e in start ensures e in base <==> !Journaled(applied, peer, e) {
      if e.value.source == peer {
        ReplacedIsOld(applied, base, start, peer, e);
      }
    }
  }

  /** A rollback at once gives back the table of before the UPDATE, or loses some of the routes of the peer that
      the UPDATE names. */
  lemma UndoneAtOnce(applied: seq<Applied>, withdrawn: seq<Withdrawn>, base: set<E>, start: set<E>, now: set<E>,
                     peer: nat, named: set<Prefix>, spare: bool)
    requires Sound(applied, withdrawn, base, start, peer, named, spare) && OneEach(base)
    requires Undone(applied, withdrawn, peer, start, now, spare)
    ensures now <= base && forall e :: e in base && e !in now ==> e.value.source == peer && e.key in named
    ensures spare ==> now == base
  {
    hide Displaced, Saved, Covers, OneEach, Unjournaled, Keys;
    UnjournaledIsOld(applied, withdrawn, base, start, peer, named, spare);
    if spare {
      forall e | e in base ensures e in now {
        if e !in start {
          TakenIsThere(base, now, e);
        }
      }
    }
  }

  /** A late rollback neither removes nor replaces a newer route: every key keeps the route it has, unless that
      is a journaled insertion. */
  lemma NewerRouteStays(applied: seq<Applied>, withdrawn: seq<Withdrawn>, peer: nat, start: set<E>, now: set<E>,
                        spare: bool, e: E)
    requires Undone(applied, withdrawn, peer, start, now, spare) && OneEach(now) && OneEach(start)
    requires e in start && !Journaled(applied, peer, e)
    ensures KeyOf(e) in Table(now) && Table(now)[KeyOf(e)] == e.value
  {
    hide OneEach;
    TableAt(now, e);
  }

  /** But it brings an old route back exactly where there is no newer one, be it that the peer has withdrawn the
      prefix since. */
  lemma RevivedIff(applied: seq<Applied>, withdrawn: seq<Withdrawn>, peer: nat, start: set<E>, now: set<E>, e: E)
    requires Undone(applied, withdrawn, peer, start, now, true) && OneEach(now)
    requires e in Displaced(applied) + Saved(withdrawn)
    requires forall f :: f in Displaced(applied) + Saved(withdrawn) ==> f !in start
    ensures (exists f :: f in now && f in Displaced(applied) + Saved(withdrawn) && KeyOf(f) == KeyOf(e)) <==>
            !(exists f :: f in start && !Journaled(applied, peer, f) && KeyOf(f) == KeyOf(e))
  {
    hide Displaced, Saved, Has;
  }

  // ----- the published events

  function Resolve(applied: seq<Applied>, withdrawn: seq<Withdrawn>, ref: Ref): seq<Event> {
    match ref
    case ToApplied(i) => if i < |applied| then EventsOf(applied[i].prefix, applied[i].change) else []
    case ToWithdrawn(i) => if i < |withdrawn| then EventsOf(withdrawn[i].prefix, withdrawn[i].change) else []
  }

  function Published(applied: seq<Applied>, withdrawn: seq<Withdrawn>, refs: seq<Ref>): seq<Event> {
    if refs == [] then []
    else Published(applied, withdrawn, refs[..|refs| - 1]) + Resolve(applied, withdrawn, refs[|refs| - 1])
  }

  predicate Linked(applied: seq<Applied>, withdrawn: seq<Withdrawn>, refs: seq<Ref>) {
    forall ref :: ref in refs ==> ref.index < if ref.ToApplied? then |applied| else |withdrawn|
  }

  /** Further records do not disturb what is already to be published. */
  lemma {:induction false} PublishedGrows(applied: seq<Applied>, withdrawn: seq<Withdrawn>, refs: seq<Ref>,
                                          a: seq<Applied>, w: seq<Withdrawn>)
    requires Linked(applied, withdrawn, refs)
    ensures Published(applied + a, withdrawn + w, refs) == Published(applied, withdrawn, refs)
  {
    if refs != [] {
      assert refs[|refs| - 1] in refs;
      PublishedGrows(applied, withdrawn, refs[..|refs| - 1], a, w);
    }
  }

  lemma PublishedWithdrawal(applied: seq<Applied>, withdrawn: seq<Withdrawn>, refs: seq<Ref>, w: Withdrawn)
    requires Linked(applied, withdrawn, refs)
    ensures var refs' := if EventsOf(w.prefix, w.change) == [] then refs else refs + [ToWithdrawn(|withdrawn|)];
            && Linked(applied, withdrawn + [w], refs')
            && Published(applied, withdrawn + [w], refs')
               == Published(applied, withdrawn, refs) + EventsOf(w.prefix, w.change)
  {
    PublishedGrows(applied, withdrawn, refs, [], [w]);
    assert applied + [] == applied;
    var refs' := refs + [ToWithdrawn(|withdrawn|)];
    assert refs'[..|refs|] == refs;
  }

  lemma PublishedInsertion(applied: seq<Applied>, withdrawn: seq<Withdrawn>, refs: seq<Ref>, a: Applied)
    requires Linked(applied, withdrawn, refs)
    ensures var refs' := if EventsOf(a.prefix, a.change) == [] then refs else refs + [ToApplied(|applied|)];
            && Linked(applied + [a], withdrawn, refs')
            && Published(applied + [a], withdrawn, refs')
               == Published(applied, withdrawn, refs) + EventsOf(a.prefix, a.change)
  {
    PublishedGrows(applied, withdrawn, refs, [a], []);
    assert withdrawn + [] == withdrawn;
    var refs' := refs + [ToApplied(|applied|)];
    assert refs'[..|refs|] == refs;
  }

  // ----- the specification of a whole UPDATE

  type RouteTable = map<RouteKey, Route>

  function WithdrawAll(t: RouteTable, peer: nat, ps: seq<Prefix>): RouteTable {
    if ps == [] then t else WithdrawAll(t, peer, ps[..|ps| - 1]) - {(peer, ps[|ps| - 1])}
  }

  /** The announced route for a prefix, before it is stored. */
  function RouteFor(template: Route, p: Prefix): Route {
    template.(prefix := p, updateId := 0)
  }

  /** The table and the last update id after announcing a prefix, if it is permitted. */
  function Announce(t: RouteTable, lastId: nat, template: Route, permit: Route -> bool, p: Prefix): (RouteTable, nat) {
    var route := RouteFor(template, p);
    if permit(route) then
      (t[(route.source, p) := route.(localPref := EffectivePref(route), updateId := lastId + 1)], lastId + 1)
    else (t, lastId)
  }

  /** The table and the last update id after announcing prefixes in order. */
  function AnnounceAll(t: RouteTable, lastId: nat, template: Route, permit: Route -> bool,
                       ps: seq<Prefix>): (RouteTable, nat) {
    if ps == [] then (t, lastId)
    else
      var (t', id) := AnnounceAll(t, lastId, template, permit, ps[..|ps| - 1]);
      Announce(t', id, template, permit, ps[|ps| - 1])
  }

  lemma AnnounceNone(t: RouteTable, lastId: nat, template: Route, permit: Route -> bool)
    ensures AnnounceAll(t, lastId, template, permit, []) == (t, lastId)
  {
  }

  lemma AnnounceStep(t: RouteTable, lastId: nat, template: Route, permit: Route -> bool, ps: seq<Prefix>, i: nat)
    requires i < |ps|
    ensures var (t', id) := AnnounceAll(t, lastId, template, permit, ps[..i]);
            AnnounceAll(t, lastId, template, permit, ps[..i + 1]) == Announce(t', id, template, permit, ps[i])
  {
    assert ps[..i + 1][..i] == ps[..i];
  }

  lemma {:induction false} WithdrawMeaning(t: RouteTable, peer: nat, ps: seq<Prefix>, k: RouteKey)
    ensures k in WithdrawAll(t, peer, ps) <==> k in t && !(k.0 == peer && k.1 in ps)
    ensures k in WithdrawAll(t, peer, ps) ==> WithdrawAll(t, peer, ps)[k] == t[k]
  {
    if ps != [] {
      WithdrawMeaning(t, peer, ps[..|ps| - 1], k);
      assert ps == ps[..|ps| - 1] + [ps[|ps| - 1]];
    }
  }

  /** An announced prefix whose route the filter permits ends with the template's route for that prefix, with
      preference 100 if it has none and a new update id; no other route changes. */
  lemma {:induction false} AnnounceMeaning(t: RouteTable, lastId: nat, template: Route, permit: Route -> bool,
                                           ps: seq<Prefix>, k: RouteKey)
    ensures var (t', id) := AnnounceAll(t, lastId, template, permit, ps);
            && id >= lastId
            && if k.0 == template.source && k.1 in ps && permit(template.(prefix := k.1, updateId := 0)) then
                 && k in t' && lastId < t'[k].updateId <= id
                 && t'[k] == template.(prefix := k.1, updateId := t'[k].updateId,
                                       localPref := if template.localPref == 0 then 100 else template.localPref)
               else (k in t' <==> k in t) && (k in t ==> t'[k] == t[k])
  {
    if ps != [] {
      AnnounceMeaning(t, lastId, template, permit, ps[..|ps| - 1], k);
      assert ps == ps[..|ps| - 1] + [ps[|ps| - 1]];
    }
  }

  /** The routes an UPDATE may meet all have MEDs comparable with its own. */
  ghost predicate Welcomes(c: set<E>, template: Route, ps: seq<Prefix>) {
    AllComparable(c) && forall e :: e in c && e.key in ps ==> MedComparable(e.value, template)
  }

  /** As Welcomes, for the routes an UPDATE's own would be grouped with. */
  ghost predicate Ready(c: set<E>, template: Route, ps: seq<Prefix>) {
    Orderly(c) && forall p :: p in ps ==> Joins(c, RouteFor(template, p))
  }

  /** No cached best goes wrong in going from the groups g to h by announcing a route that is grouped
      with comparable ones. */
  ghost predicate Takes(c: set<E>, r: Route, g: map<Prefix, Group>, h: map<Prefix, Group>) {
    AllStand(g) && Orderly(c) && Joins(c, r) ==> AllStand(h)
  }

  /** The table welcomes the rest of an UPDATE and a subscriber who heard the events knows its bests. */
  ghost predicate Told(c: set<E>, template: Route, ps: seq<Prefix>, bests: map<Prefix, Route>, events: seq<Event>) {
    Welcomes(c, template, ps) && Mirror(bests, events) == BestMap(c)
  }

  class Journal {
    var applied: seq<Applied>
    var withdrawn: seq<Withdrawn>
    var refs: seq<Ref>

    constructor ()
      ensures applied == [] && withdrawn == [] && refs == []
    {
      applied, withdrawn, refs := [], [], [];
    }

    ghost predicate Holds(base: set<E>, now: set<E>, peer: nat, named: set<Prefix>, whole: bool)
      reads this
    {
      && Sound(applied, withdrawn, base, now, peer, named, whole) && Linked(applied, withdrawn, refs)
      && (forall a :: a in applied ==> a.updateId != 0)
    }

    function Events(): seq<Event>
      reads this
    {
      Published(applied, withdrawn, refs)
    }

    /** Withdraw a prefix, journaling it. */
    method RecordWithdraw(rib: Rib, peer: nat, prefix: Prefix, plentiful: bool, spare: bool,
                          ghost named: set<Prefix>, ghost base: set<E>, ghost bests: map<Prefix, Route>)
      returns (err: Err)
      requires rib.Valid() && applied == [] && Holds(base, rib.Contents(), peer, named, spare) && prefix in named
      modifies this, rib`sources, rib`groups, rib.routes, rib.tree, rib.tree.Repr
      ensures rib.Valid() && fresh(rib.tree.Repr - old(rib.tree.Repr))
      ensures applied == [] && Holds(base, rib.Contents(), peer, named, spare)
      ensures plentiful ==> err == Ok
      ensures err == Ok ==> Table(rib.Contents()) == old(Table(rib.Contents())) - {(peer, prefix)}
      ensures rib.Contents() <= old(rib.Contents()) && BestsKept(old(rib.Contents()), old(rib.groups), rib.groups)
      ensures err == Ok && old(AllComparable(rib.Contents())) ==>
                && AllComparable(rib.Contents())
                && (Mirror(bests, old(Events())) == old(BestMap(rib.Contents())) ==>
                      Mirror(bests, Events()) == BestMap(rib.Contents()))
    {
      hide Rib.Agrees, OneEach, Rib.Contents, Table, AllComparable, Mirror, Sound, Linked, Published, BestMap;
      hide Apt, AfterChange, KeyOf, Keys;
      hide BestsKept;
      SameKeepsBests(rib.Contents(), rib.groups);
      var ok := TryAlloc(plentiful);
      if !ok {
        return NoMem;
      }
      var change: Change, saved: MaybeE;
      err, change, saved := rib.WithdrawTrackBest(peer, prefix, plentiful);
      ghost var middle := rib.groups;
      if saved == null {
        return;
      }
      ghost var before, now := old(rib.Contents()), rib.Contents();
      var hasEvent := EventsOf(prefix, change) != [];
      if err == Ok && hasEvent {
        ok := TryAlloc(plentiful);
        if !ok {
          err := NoMem;
        }
      }
      if err == Ok {
        var w := Withdrawn(prefix, saved, change);
        SoundAfterWithdraw(withdrawn, base, before, peer, named, spare, w);
        PublishedWithdrawal(applied, withdrawn, refs, w);
        if AllComparable(before) && Mirror(bests, Events()) == BestMap(before) {
          MirrorChange(bests, Events(), prefix, change);
        }
        if hasEvent {
          refs := refs + [ToWithdrawn(|withdrawn|)];
        }
        withdrawn := withdrawn + [w];
      } else {
        assert now == before - {saved};
        KeyIsGone(before, saved);
        var _ := rib.RestoreIfAbsent(peer, saved, spare);
        assert now + {saved} == before;
        BestsKeptTwice(before, before, before, old(rib.groups), middle, rib.groups);
        if !spare {
          SoundAfterLoss(applied, withdrawn, base, before, peer, named, saved);
        }
      }
    }

    method HasRoute(p: Prefix, updateId: nat) returns (found: bool)
      ensures found <==> Has(applied, p, updateId)
    {
      for i := 0 to |applied|
        invariant forall j :: 0 <= j < i ==> !(applied[j].prefix == p && applied[j].updateId == updateId)
      {
        if applied[i].prefix == p && applied[i].updateId == updateId {
          return true;
        }
      }
      return false;
    }

    /** Add the record of an insertion that has been made. */
    method Record(a: Applied, plentiful: bool) returns (err: Err)
      requires Linked(applied, withdrawn, refs)
      modifies this
      ensures err == Ok || (err == NoMem && !plentiful)
      ensures withdrawn == old(withdrawn) && Linked(applied, withdrawn, refs)
      ensures err == Ok ==> applied == old(applied) + [a] && Events() == old(Events()) + EventsOf(a.prefix, a.change)
      ensures err != Ok ==> applied == old(applied) && refs == old(refs)
    {
      hide Linked, Published;
      var ok := TryAlloc(plentiful);
      if !ok {
        return NoMem;
      }
      PublishedInsertion(applied, withdrawn, refs, a);
      if EventsOf(a.prefix, a.change) != [] {
        ok := TryAlloc(plentiful);
        if !ok {
          return NoMem;
        }
        refs := refs + [ToApplied(|applied|)];
      }
      applied := applied + [a];
      err := Ok;
    }

    /** Insert a route and journal it; on failure the insertion may stand unjournaled. */
    method InsertRecorded(rib: Rib, route: Route, plentiful: bool, ghost spare: bool,
                          ghost named: set<Prefix>, ghost base: set<E>, ghost bests: map<Prefix, Route>)
      returns (err: Err, entry: MaybeE, replaced: MaybeE)
      requires rib.Valid() && route.updateId == 0 && Holds(base, rib.Contents(), route.source, named, spare)
      requires route.prefix in named
      modifies this, rib, rib.routes, rib.tree, rib.tree.Repr
      ensures rib.Valid() && fresh(rib.tree.Repr - old(rib.tree.Repr))
      ensures plentiful && route.prefix.len <= 32 ==> err == Ok
      ensures err == Ok ==> Holds(base, rib.Contents(), route.source, named, spare)
      ensures err != Ok ==> applied == old(applied) && withdrawn == old(withdrawn) && refs == old(refs)
      ensures err == Ok ==> entry != null && rib.nextUpdateId == old(rib.nextUpdateId) + 1
      ensures entry == null ==>
                replaced == null && rib.Contents() == old(rib.Contents()) && rib.groups == old(rib.groups)
      ensures entry != null ==>
                && fresh(entry) && entry !in old(rib.Contents())
                && entry.key == route.prefix && entry.value == old(rib.Stored(route))
                && rib.Contents() == Minus(old(rib.Contents()), replaced) + {entry}
                && BestsKept(Plus(old(rib.Contents()), entry), old(rib.groups), rib.groups)
                && Table(rib.Contents()) == old(Table(rib.Contents()))[(route.source, route.prefix) := entry.value]
      ensures replaced != null ==>
                && replaced in old(rib.Contents()) && rib.Detached(replaced)
                && replaced.key == route.prefix && replaced.value.source == route.source
      ensures err == Ok && old(Fits(rib.Contents(), route)) ==>
                && AllComparable(rib.Contents())
                && (Mirror(bests, old(Events())) == old(BestMap(rib.Contents())) ==>
                      Mirror(bests, Events()) == BestMap(rib.Contents()))
    {
      hide Rib.Agrees, OneEach, Rib.Contents, Rib.Storable, Table, AllComparable, Mirror, Sound, Linked;
      hide Published, BestMap;
      hide Apt, AfterChange, Keys, Has, BestsKept;
      var change: Change;
      err, change, entry, replaced := rib.InsertTrackBest(route, plentiful);
      if err != Ok {
        return;
      }
      ghost var before := old(rib.Contents());
      var restore := false;
      if replaced != null {
        var journaled := HasRoute(route.prefix, replaced.value.updateId);
        restore := !journaled;
      }
      var a := Applied(route.prefix, entry.value.updateId, restore, replaced, change);
      SoundAfterInsert(applied, withdrawn, base, before, route.source, named, spare, a, entry);
      if Fits(before, route) && Mirror(bests, Events()) == BestMap(before) {
        MirrorChange(bests, Events(), route.prefix, change);
      }
      err := Record(a, plentiful);
    }

    /** Announce a route, journaling it. */
    method ApplyRoute(rib: Rib, route: Route, plentiful: bool, spare: bool,
                      ghost named: set<Prefix>, ghost base: set<E>, ghost bests: map<Prefix, Route>)
      returns (err: Err)
      requires rib.Valid() && route.updateId == 0 && Holds(base, rib.Contents(), route.source, named, spare)
      requires route.prefix in named
      modifies this, rib, rib.routes, rib.tree, rib.tree.Repr
      ensures rib.Valid() && fresh(rib.tree.Repr - old(rib.tree.Repr))
      ensures Holds(base, rib.Contents(), route.source, named, spare)
      ensures plentiful && route.prefix.len <= 32 ==> err == Ok
      ensures err == Ok ==>
                && rib.nextUpdateId == old(rib.nextUpdateId) + 1
                && Table(rib.Contents())
                   == old(Table(rib.Contents()))[(route.source, route.prefix) := old(rib.Stored(route))]
                && (forall e :: e in rib.Contents() ==>
                      e in old(rib.Contents()) || (e.key == route.prefix && e.value == old(rib.Stored(route))))
      ensures err != Ok ==> rib.Contents() <= old(rib.Contents())
      ensures Takes(old(rib.Contents()), route, old(rib.groups), rib.groups)
      ensures err == Ok && old(Fits(rib.Contents(), route)) ==>
                && AllComparable(rib.Contents())
                && (Mirror(bests, old(Events())) == old(BestMap(rib.Contents())) ==>
                      Mirror(bests, Events()) == BestMap(rib.Contents()))
    {
      hide Rib.Agrees, OneEach, Rib.Contents, Rib.Storable, Table, AllComparable, Mirror, Sound, Linked;
      hide Published, BestMap;
      hide BestsKept, Takes, Keys;
      ghost var before, groups := rib.Contents(), rib.groups;
      SameTakes(before, route, groups);
      var entry: MaybeE, replaced: MaybeE;
      err, entry, replaced := InsertRecorded(rib, route, plentiful, spare, named, base, bests);
      ghost var middle := rib.groups;
      if err != Ok {
        Undo(rib, before, entry, replaced, spare);
        if replaced != null && !spare {
          SoundAfterLoss(applied, withdrawn, base, before, route.source, named, replaced);
        }
        if entry != null {
          BestsKeptTwice(Plus(before, entry), Plus(before, entry), Plus(before, entry), groups, middle, rib.groups);
        }
      }
      if entry != null {
        InsertTakes(before, route, entry, groups, rib.groups);
      }
    }

    /** Take back an insertion that could not be journaled. */
    static method Undo(rib: Rib, ghost before: set<E>, entry: MaybeE, replaced: MaybeE, spare: bool)
      requires rib.Valid()
      requires entry == null ==> replaced == null && rib.Contents() == before
      requires entry != null ==>
                 && entry !in before && entry.value.updateId != 0
                 && entry.key == entry.value.prefix && rib.Contents() == Minus(before, replaced) + {entry}
      requires replaced != null ==> replaced in before && rib.Detached(replaced) && KeyOf(replaced) == KeyOf(entry)
      modifies rib, rib.routes, rib.tree, rib.tree.Repr
      ensures rib.Valid() && fresh(rib.tree.Repr - old(rib.tree.Repr))
      ensures rib.Contents() == before || (!spare && rib.Contents() == Minus(before, replaced))
      ensures entry == null ==> rib.groups == old(rib.groups)
      ensures BestsKept(Plus(before, entry), old(rib.groups), rib.groups)
    {
      hide Rib.Agrees, OneEach, Rib.Contents, Table, Keys, BestsKept;
      SameKeepsBests(Plus(before, entry), rib.groups);
      if entry == null {
        return;
      }
      ghost var now := rib.Contents();
      KeyIsGone(now, entry);
      var _ := rib.WithdrawIfUpdateId(entry.value.source, entry.key, entry.value.updateId);
      SameKeySame(now, entry);
      SameSet(rib.Contents(), now - {entry});
      assert rib.Contents() == Minus(before, replaced);
      ghost var middle, put := rib.groups, Plus(rib.Contents(), replaced);
      var _ := rib.RestoreIfAbsent(entry.value.source, replaced, spare);
      BestsKeptTwice(now, put, Plus(before, entry), old(rib.groups), middle, rib.groups);
      if replaced != null {
        assert before - {replaced} + {replaced} == before;
      }
    }

    /** Take journaled insertions back, last first, each only if it is still there. */
    method RemoveInsertions(rib: Rib, peer: nat)
      requires rib.Valid() && forall a :: a in applied ==> a.updateId != 0
      modifies rib`sources, rib`groups, rib.routes, rib.tree, rib.tree.Repr
      ensures rib.Valid() && fresh(rib.tree.Repr - old(rib.tree.Repr))
      ensures rib.Contents() == Unjournaled(old(rib.Contents()), applied, peer)
      ensures BestsKept(old(rib.Contents()), old(rib.groups), rib.groups)
    {
      hide Rib.Agrees, OneEach, Rib.Contents, BestsKept, Unjournaled;
      ghost var start := rib.Contents();
      SameKeepsBests(start, rib.groups);
      AllUnjournaled(start, peer);
      var i := |applied|;
      assert applied[i..] == [];
      while i > 0
        invariant 0 <= i <= |applied|
        invariant rib.Valid() && fresh(rib.tree.Repr - old(rib.tree.Repr))
        invariant rib.Contents() == Unjournaled(start, applied[i..], peer) && rib.Contents() <= start
        invariant BestsKept(start, old(rib.groups), rib.groups)
      {
        ghost var now, middle := rib.Contents(), rib.groups;
        assert applied[i - 1] in applied;
        var _ := rib.WithdrawIfUpdateId(peer, applied[i - 1].prefix, applied[i - 1].updateId);
        UnjournaledEarlier(start, applied, i, peer, now, rib.Contents());
        BestsKeptTwice(start, now, start, old(rib.groups), middle, rib.groups);
        i := i - 1;
      }
      assert applied[0..] == applied;
    }

    /** Put one saved entry back during a rollback. */
    static method PutBack(rib: Rib, peer: nat, saved: E, spare: bool, ghost all: set<E>)
      requires rib.Valid() && rib.Contents() <= all && saved in all
      requires rib.Storable(saved) && saved.value.source == peer
      modifies rib`sources, rib`groups, rib.routes, rib.tree, rib.tree.Repr
      ensures rib.Valid() && fresh(rib.tree.Repr - old(rib.tree.Repr))
      ensures rib.Contents() == old(rib.Contents()) || rib.Contents() == old(rib.Contents()) + {saved}
      ensures spare ==> KeyOf(saved) in Keys(rib.Contents())
      ensures BestsKept(all, old(rib.groups), rib.groups)
    {
      hide Rib.Agrees, OneEach, Rib.Contents, KeyOf, Keys, BestsKept;
      ghost var before := rib.Contents();
      SameKeepsBests(all, rib.groups);
      var _ := rib.RestoreIfAbsent(peer, saved, spare);
      BestsKeptTwice(all, Plus(before, saved), all, old(rib.groups), old(rib.groups), rib.groups);
      KeysGrow(before, saved);
    }

    method RestoreReplacements(rib: Rib, peer: nat, spare: bool, ghost all: set<E>)
      requires rib.Valid() && rib.Contents() + Displaced(applied) <= all
      requires forall e :: e in Displaced(applied) ==> rib.Storable(e) && e.value.source == peer
      modifies rib`sources, rib`groups, rib.routes, rib.tree, rib.tree.Repr
      ensures rib.Valid() && fresh(rib.tree.Repr - old(rib.tree.Repr))
      ensures old(rib.Contents()) <= rib.Contents() <= old(rib.Contents()) + Displaced(applied)
      ensures spare ==> forall e :: e in Displaced(applied) ==> KeyOf(e) in Keys(rib.Contents())
      ensures BestsKept(all, old(rib.groups), rib.groups)
    {
      hide Rib.Agrees, OneEach, Rib.Contents, Rib.Storable, BestsKept, KeyOf, Keys;
      SameKeepsBests(all, rib.groups);
      var i := 0;
      while i < |applied|
        invariant 0 <= i <= |applied|
        invariant rib.Valid() && fresh(rib.tree.Repr - old(rib.tree.Repr))
        invariant old(rib.Contents()) <= rib.Contents() <= old(rib.Contents()) + Displaced(applied)
        invariant BestsKept(all, old(rib.groups), rib.groups)
        invariant spare ==> forall j :: 0 <= j < i && applied[j].restoreReplaced && applied[j].replaced != null ==>
                              KeyOf(applied[j].replaced) in Keys(rib.Contents())
      {
        if applied[i].restoreReplaced && applied[i].replaced != null {
          assert applied[i] in applied;
          ghost var now, middle := rib.Contents(), rib.groups;
          PutBack(rib, peer, applied[i].replaced, spare, all);
          BestsKeptTwice(all, all, all, old(rib.groups), middle, rib.groups);
          KeysStay(now, rib.Contents());
        }
        i := i + 1;
      }
    }

    method RestoreWithdrawals(rib: Rib, peer: nat, spare: bool, ghost all: set<E>)
      requires rib.Valid() && rib.Contents() + Saved(withdrawn) <= all
      requires forall e :: e in Saved(withdrawn) ==> rib.Storable(e) && e.value.source == peer
      modifies rib`sources, rib`groups, rib.routes, rib.tree, rib.tree.Repr
      ensures rib.Valid() && fresh(rib.tree.Repr - old(rib.tree.Repr))
      ensures old(rib.Contents()) <= rib.Contents() <= old(rib.Contents()) + Saved(withdrawn)
      ensures spare ==> forall e :: e in Saved(withdrawn) ==> KeyOf(e) in Keys(rib.Contents())
      ensures BestsKept(all, old(rib.groups), rib.groups)
    {
      hide Rib.Agrees, OneEach, Rib.Contents, Rib.Storable, BestsKept, KeyOf, Keys;
      SameKeepsBests(all, rib.groups);
      var i := 0;
      while i < |withdrawn|
        invariant 0 <= i <= |withdrawn|
        invariant rib.Valid() && fresh(rib.tree.Repr - old(rib.tree.Repr))
        invariant old(rib.Contents()) <= rib.Contents() <= old(rib.Contents()) + Saved(withdrawn)
        invariant BestsKept(all, old(rib.groups), rib.groups)
        invariant spare ==> forall j :: 0 <= j < i ==> KeyOf(withdrawn[j].saved) in Keys(rib.Contents())
      {
        assert withdrawn[i] in withdrawn;
        ghost var now, middle := rib.Contents(), rib.groups;
        PutBack(rib, peer, withdrawn[i].saved, spare, all);
        BestsKeptTwice(all, all, all, old(rib.groups), middle, rib.groups);
        KeysStay(now, rib.Contents());
        i := i + 1;
      }
    }

    /** Every saved entry may go back into this table. */
    ghost predicate Returnable(rib: Rib, peer: nat)
      reads this
    {
      && (forall a :: a in applied ==> a.updateId != 0)
      && forall e :: e in Displaced(applied) + Saved(withdrawn) ==> rib.Storable(e) && e.value.source == peer
    }

    /** Undo a journaled UPDATE, whatever has happened to the table since. */
    method Rollback(rib: Rib, peer: nat, spare: bool)
      requires rib.Valid() && Returnable(rib, peer)
      modifies rib`sources, rib`groups, rib.routes, rib.tree, rib.tree.Repr
      ensures rib.Valid() && fresh(rib.tree.Repr - old(rib.tree.Repr))
      ensures Undone(applied, withdrawn, peer, old(rib.Contents()), rib.Contents(), spare)
      ensures old(AllStand(rib.groups)) && old(Orderly(rib.Contents()))
              && Orderly(Unjournaled(old(rib.Contents()), applied, peer) + (Displaced(applied) + Saved(withdrawn))) ==>
                AllStand(rib.groups)
    {
      hide Rib.Agrees, OneEach, Rib.Contents, Rib.Storable, Displaced, Saved, KeyOf, Keys, Unjournaled;
      hide AllStand, Orderly;
      ghost var all := Unjournaled(rib.Contents(), applied, peer) + (Displaced(applied) + Saved(withdrawn));
      RemoveInsertions(rib, peer);
      RestoreReplacements(rib, peer, spare, all);
      ghost var c := rib.Contents();
      RestoreWithdrawals(rib, peer, spare, all);
      KeysStay(c, rib.Contents());
    }

    /** Undo a journaled UPDATE at once. With memory to spare the very same entries are back, so also their
        update ids; without, some of the peer's own routes that the UPDATE names may be lost and nothing else. */
    method RollbackAtOnce(rib: Rib, peer: nat, spare: bool, ghost named: set<Prefix>, ghost base: set<E>)
      requires rib.Valid() && Holds(base, rib.Contents(), peer, named, spare)
      requires OneEach(base) && forall e :: e in base ==> rib.Storable(e)
      modifies rib`sources, rib`groups, rib.routes, rib.tree, rib.tree.Repr
      ensures rib.Valid() && fresh(rib.tree.Repr - old(rib.tree.Repr))
      ensures rib.Contents() <= base
      ensures forall e :: e in base && e !in rib.Contents() ==> e.value.source == peer && e.key in named
      ensures spare ==> rib.Contents() == base
      ensures old(AllStand(rib.groups)) && old(Orderly(rib.Contents())) && Orderly(base) ==> AllStand(rib.groups)
    {
      hide Rib.Agrees, OneEach, Rib.Contents, Rib.Storable, Covers, Linked, Displaced, Saved, AllStand, Orderly;
      hide Undone, Unjournaled;
      ghost var start := rib.Contents();
      UnjournaledIsOld(applied, withdrawn, base, start, peer, named, spare);
      Rollback(rib, peer, spare);
      UndoneAtOnce(applied, withdrawn, base, start, rib.Contents(), peer, named, spare);
      if Orderly(base) {
        OrderlyFewer(base, Unjournaled(start, applied, peer) + (Displaced(applied) + Saved(withdrawn)));
      }
    }

    method WithdrawPhase(rib: Rib, peer: nat, ps: seq<Prefix>, plentiful: bool, spare: bool,
                         ghost named: set<Prefix>, ghost base: set<E>, ghost bests: map<Prefix, Route>)
      returns (err: Err)
      requires rib.Valid() && applied == [] && Holds(base, rib.Contents(), peer, named, spare)
      requires forall p :: p in ps ==> p in named
      modifies this, rib`sources, rib`groups, rib.routes, rib.tree, rib.tree.Repr
      ensures rib.Valid() && fresh(rib.tree.Repr - old(rib.tree.Repr))
      ensures applied == [] && Holds(base, rib.Contents(), peer, named, spare)
      ensures plentiful ==> err == Ok
      ensures err == Ok ==> Table(rib.Contents()) == WithdrawAll(old(Table(rib.Contents())), peer, ps)
      ensures rib.Contents() <= old(rib.Contents()) && BestsKept(old(rib.Contents()), old(rib.groups), rib.groups)
      ensures err == Ok && old(AllComparable(rib.Contents()))
              && Mirror(bests, old(Events())) == old(BestMap(rib.Contents())) ==>
                AllComparable(rib.Contents()) && Mirror(bests, Events()) == BestMap(rib.Contents())
    {
      hide Rib.Agrees, OneEach, Rib.Contents, Table, AllComparable, Mirror, Sound, Linked, Published, BestMap;
      hide BestsKept;
      ghost var t, start := Table(rib.Contents()), rib.Contents();
      SameKeepsBests(start, rib.groups);
      ghost var told := AllComparable(start) && Mirror(bests, Events()) == BestMap(start);
      var i := 0;
      while i < |ps|
        invariant 0 <= i <= |ps|
        invariant rib.Valid() && fresh(rib.tree.Repr - old(rib.tree.Repr))
        invariant applied == [] && Holds(base, rib.Contents(), peer, named, spare)
        invariant Table(rib.Contents()) == WithdrawAll(t, peer, ps[..i])
        invariant rib.Contents() <= start && BestsKept(start, old(rib.groups), rib.groups)
        invariant told ==> AllComparable(rib.Contents()) && Mirror(bests, Events()) == BestMap(rib.Contents())
      {
        assert ps[..i + 1][..i] == ps[..i];
        ghost var now, middle := rib.Contents(), rib.groups;
        err := RecordWithdraw(rib, peer, ps[i], plentiful, spare, named, base, bests);
        BestsKeptTwice(start, now, start, old(rib.groups), middle, rib.groups);
        if err != Ok {
          return;
        }
        i := i + 1;
      }
      assert ps[..i] == ps;
      err := Ok;
    }

    /** Announce one of the prefixes of an UPDATE, if the filter permits it. */
    method AnnounceOne(rib: Rib, template: Route, permit: Route -> bool, p: Prefix, plentiful: bool, spare: bool,
                       ghost ps: seq<Prefix>, ghost named: set<Prefix>, ghost base: set<E>,
                       ghost bests: map<Prefix, Route>)
      returns (err: Err)
      requires rib.Valid() && Holds(base, rib.Contents(), template.source, named, spare) && p in ps && p in named
      modifies this, rib, rib.routes, rib.tree, rib.tree.Repr
      ensures rib.Valid() && fresh(rib.tree.Repr - old(rib.tree.Repr))
      ensures Holds(base, rib.Contents(), template.source, named, spare)
      ensures plentiful && p.len <= 32 ==> err == Ok
      ensures err == Ok ==>
                (Table(rib.Contents()), rib.nextUpdateId)
                == Announce(old(Table(rib.Contents())), old(rib.nextUpdateId), template, permit, p)
      ensures old(AllStand(rib.groups)) && old(Ready(rib.Contents(), template, ps)) ==>
                AllStand(rib.groups) && Ready(rib.Contents(), template, ps)
      ensures err == Ok && Told(old(rib.Contents()), template, ps, bests, old(Events())) ==>
                Told(rib.Contents(), template, ps, bests, Events())
    {
      hide Rib.Agrees, OneEach, Rib.Contents, Table, AllComparable, Mirror, Sound, Linked, Published, BestMap;
      hide Fits, MedComparable;
      hide Takes, AllStand, Ready, Told, Welcomes;
      var route := RouteFor(template, p);
      err := Ok;
      if permit(route) {
        ghost var before, groups, stored, events := rib.Contents(), rib.groups, rib.Stored(route), Events();
        err := ApplyRoute(rib, route, plentiful, spare, named, base, bests);
        if AllStand(groups) && Ready(before, template, ps) {
          ReadyTakes(before, rib.Contents(), template, ps, p, stored, groups, rib.groups);
        }
        if err == Ok && Told(before, template, ps, bests, events) {
          ToldAfter(before, rib.Contents(), template, ps, p, stored, bests, events, Events());
        }
      }
    }

    method AnnouncePhase(rib: Rib, template: Route, permit: Route -> bool, ps: seq<Prefix>, plentiful: bool,
                         spare: bool, ghost named: set<Prefix>, ghost base: set<E>, ghost bests: map<Prefix, Route>)
      returns (err: Err)
      requires rib.Valid() && Holds(base, rib.Contents(), template.source, named, spare)
      requires forall p :: p in ps ==> p in named
      modifies this, rib, rib.routes, rib.tree, rib.tree.Repr
      ensures rib.Valid() && fresh(rib.tree.Repr - old(rib.tree.Repr))
      ensures Holds(base, rib.Contents(), template.source, named, spare)
      ensures plentiful && (forall p :: p in ps ==> p.len <= 32) ==> err == Ok
      ensures err == Ok ==>
                (Table(rib.Contents()), rib.nextUpdateId)
                == AnnounceAll(old(Table(rib.Contents())), old(rib.nextUpdateId), template, permit, ps)
      ensures old(AllStand(rib.groups)) && old(Ready(rib.Contents(), template, ps)) ==>
                AllStand(rib.groups) && Ready(rib.Contents(), template, ps)
      ensures err == Ok && Told(old(rib.Contents()), template, ps, bests, old(Events())) ==>
                Told(rib.Contents(), template, ps, bests, Events())
    {
      hide Rib.Agrees, OneEach, Rib.Contents, Table, Sound, Linked, Published, AllStand, Ready, Told;
      hide AnnounceAll, Announce;
      ghost var t, id0 := Table(rib.Contents()), rib.nextUpdateId;
      ghost var right := AllStand(rib.groups) && Ready(rib.Contents(), template, ps);
      ghost var told := Told(rib.Contents(), template, ps, bests, Events());
      AnnounceNone(t, id0, template, permit);
      var i := 0;
      while i < |ps|
        invariant 0 <= i <= |ps|
        invariant rib.Valid() && fresh(rib.tree.Repr - old(rib.tree.Repr))
        invariant Holds(base, rib.Contents(), template.source, named, spare)
        invariant (Table(rib.Contents()), rib.nextUpdateId) == AnnounceAll(t, id0, template, permit, ps[..i])
        invariant right ==> AllStand(rib.groups) && Ready(rib.Contents(), template, ps)
        invariant told ==> Told(rib.Contents(), template, ps, bests, Events())
      {
        AnnounceStep(t, id0, template, permit, ps, i);
        err := AnnounceOne(rib, template, permit, ps[i], plentiful, spare, ps, named, base, bests);
        if err != Ok {
          return;
        }
        i := i + 1;
      }
      assert ps[..i] == ps;
      err := Ok;
    }

    /** Both phases of an UPDATE, up to the first failure. */
    method Perform(rib: Rib, template: Route, withdrawals: seq<Prefix>, nlri: seq<Prefix>, permit: Route -> bool,
                   plentiful: bool, spare: bool, ghost named: set<Prefix>, ghost base: set<E>)
      returns (err: Err)
      requires rib.Valid() && applied == [] && Events() == [] && rib.Contents() == base
      requires forall p :: p in withdrawals || p in nlri ==> p in named
      requires Holds(base, base, template.source, named, spare)
      modifies this, rib, rib.routes, rib.tree, rib.tree.Repr
      ensures rib.Valid() && fresh(rib.tree.Repr - old(rib.tree.Repr))
      ensures Holds(base, rib.Contents(), template.source, named, spare)
      ensures plentiful && (forall p :: p in nlri ==> p.len <= 32) ==> err == Ok
      ensures err == Ok ==>
                (Table(rib.Contents()), rib.nextUpdateId)
                == AnnounceAll(WithdrawAll(Table(base), template.source, withdrawals),
                               old(rib.nextUpdateId), template, permit, nlri)
      ensures err == Ok && Welcomes(base, template, nlri) ==>
                && AllComparable(base) && AllComparable(rib.Contents())
                && Mirror(BestMap(base), Events()) == BestMap(rib.Contents())
      ensures old(AllStand(rib.groups)) && Ready(base, template, nlri) ==>
                Orderly(base) && AllStand(rib.groups) && Orderly(rib.Contents())
    {
      hide Rib.Agrees, OneEach, Rib.Contents, Table, AllComparable, Mirror, Sound, Linked, Published, BestMap, Welcomes;
      hide BestsKept, AllStand, Orderly, Ready;
      WelcomesIsComparable(base, template, nlri);
      ghost var bests := if AllComparable(base) then BestMap(base) else map[];
      MirrorOfNothing(bests);
      err := WithdrawPhase(rib, template.source, withdrawals, plentiful, spare, named, base, bests);
      if old(AllStand(rib.groups)) && Ready(base, template, nlri) {
        ReadyStands(base, rib.Contents(), template, nlri, old(rib.groups), rib.groups);
      }
      if err == Ok {
        if Welcomes(base, template, nlri) {
          WelcomesFewer(base, rib.Contents(), template, nlri);
        }
        err := AnnouncePhase(rib, template, permit, nlri, plentiful, spare, named, base, bests);
        WelcomesIsComparable(rib.Contents(), template, nlri);
        if Ready(rib.Contents(), template, nlri) {
          ReadyIsOrderly(rib.Contents(), template, nlri);
        }
      }
    }

    /** The events to put on the bus, in journal order. */
    method Publish() returns (events: seq<Event>)
      ensures events == Events()
    {
      events := [];
      var i := 0;
      while i < |refs|
        invariant 0 <= i <= |refs|
        invariant events == Published(applied, withdrawn, refs[..i])
      {
        assert refs[..i + 1][..i] == refs[..i];
        events := events + Resolve(applied, withdrawn, refs[i]);
        i := i + 1;
      }
      assert refs[..i] == refs;
    }
  }

  /** The IPv4 half of a received UPDATE: withdrawals, then announcements, all or nothing. `template` is
      the route its attributes describe; `permit` is the inbound filter; `spare` says that putting an entry
      back does not run out of memory. */
  method ApplyUpdate(rib: Rib, template: Route, withdrawals: seq<Prefix>, nlri: seq<Prefix>, permit: Route -> bool,
                     plentiful: bool, spare: bool)
    returns (err: Err, events: seq<Event>)
    requires rib.Valid()
    modifies rib, rib.routes, rib.tree, rib.tree.Repr
    ensures rib.Valid() && fresh(rib.tree.Repr - old(rib.tree.Repr))
    ensures plentiful && (forall p :: p in nlri ==> p.len <= 32) ==> err == Ok
    ensures err == Ok ==>
              (Table(rib.Contents()), rib.nextUpdateId)
              == AnnounceAll(WithdrawAll(old(Table(rib.Contents())), template.source, withdrawals),
                             old(rib.nextUpdateId), template, permit, nlri)
    ensures err == Ok && old(Welcomes(rib.Contents(), template, nlri)) ==>
              && AllComparable(rib.Contents())
              && Mirror(old(BestMap(rib.Contents())), events) == BestMap(rib.Contents())
    ensures err != Ok ==>
              && events == [] && rib.Contents() <= old(rib.Contents())
              && (forall e :: e in old(rib.Contents()) && e !in rib.Contents() ==>
                    e.value.source == template.source && (e.key in withdrawals || e.key in nlri))
    ensures err != Ok && spare ==> rib.Contents() == old(rib.Contents())
    ensures old(AllStand(rib.groups)) && old(Ready(rib.Contents(), template, nlri)) ==> AllStand(rib.groups)
    ensures err != Ok && spare && old(AllStand(rib.groups)) && old(Ready(rib.Contents(), template, nlri))
            && old(DistinctAges(rib.Contents())) ==>
              BestsOf(rib.groups) == old(BestsOf(rib.groups)) && rib.tree.Model() == old(rib.tree.Model())
  {
    hide Rib.Agrees, OneEach, Rib.Contents, Rib.Storable, Table, AllComparable, Mirror, Sound, Linked, BestMap;
    hide Welcomes;
    hide AllStand, Orderly, Ready, DistinctAges, BestsOf, GroupsAgree, TreeAgrees, AnnounceAll, WithdrawAll;
    hide Radix4.Tree.Model;
    rib.GroupsAreRight();
    events := [];
    var ok := TryAlloc(plentiful);
    if !ok {
      return NoMem, events;
    }
    ghost var base, groups := rib.Contents(), rib.groups;
    BaseIsStorable(rib);
    var journal := new Journal();
    ghost var named := (set p | p in withdrawals) + (set p | p in nlri);
    EmptyIsSound(base, template.source, named, spare);
    err := journal.Perform(rib, template, withdrawals, nlri, permit, plentiful, spare, named, base);
    if err != Ok {
      journal.RollbackAtOnce(rib, template.source, spare, named, base);
      rib.GroupsAreRight();
      if spare && AllStand(rib.groups) {
        SameForwarding(base, groups, rib.groups, old(rib.tree.Model()), rib.tree.Model());
      }
      return;
    }
    events := journal.Publish();
  }

  /** A late rollback can bring back a route that the peer has withdrawn. The peer has announced `first`. An
      UPDATE that replaces it by `second` fails later on; before its journal is rolled back, another UPDATE
      withdraws the prefix. The rollback finds the prefix free and puts the first route back. */
  method LateRollbackRevives(rib: Rib, first: Route, second: Route) returns (ghost withdrawn: RouteTable)
    requires rib.Valid() && first.prefix.len <= 32 && first.updateId == 0 && second.updateId == 0
    requires second.source == first.source && second.prefix == first.prefix
    modifies rib, rib.routes, rib.tree, rib.tree.Repr
    ensures rib.Valid() && (first.source, first.prefix) !in withdrawn
    ensures withdrawn == old(Table(rib.Contents())) - {(first.source, first.prefix)}
    ensures Table(rib.Contents()) == withdrawn[(first.source, first.prefix) := old(rib.Stored(first))]
  {
    hide Rib.Agrees, OneEach, Rib.Contents, Rib.Storable, Table, Sound, Linked, Published, AllComparable, Mirror;
    hide BestMap, Undone, BestsKept, Takes, Fits, Orderly, AllStand;
    var _, _, entry, _ := rib.InsertTrackBest(first, true);
    ghost var base, named := rib.Contents(), {first.prefix};
    TableAt(base, entry);
    BaseIsStorable(rib);
    var journal := new Journal();
    EmptyIsSound(base, first.source, named, true);
    var _ := journal.ApplyRoute(rib, second, true, true, named, base, map[]);
    ghost var replaced := rib.Contents();
    SavedEntry(journal.applied, journal.withdrawn, base, replaced, first.source, named, entry);
    JournalReturns(journal, rib, base, replaced, first.source, named);
    var _, _, _ := rib.WithdrawTrackBest(first.source, first.prefix, true);
    ghost var start := rib.Contents();
    withdrawn := Table(start);
    journal.Rollback(rib, first.source, true);
    Revives(journal.applied, journal.withdrawn, base, replaced, start, rib.Contents(), first.source, named, entry);
  }

  /** The entry that a journaled insertion has displaced is saved. */
  lemma SavedEntry(applied: seq<Applied>, withdrawn: seq<Withdrawn>, base: set<E>, now: set<E>, peer: nat,
                   named: set<Prefix>, e: E)
    requires Sound(applied, withdrawn, base, now, peer, named, true) && OneEach(now) && e in base
    requires KeyOf(e) in Table(now) && Table(now)[KeyOf(e)] != e.value
    ensures e in Displaced(applied) + Saved(withdrawn)
  {
    hide Displaced, Saved, OneEach, Table;
    if e in now {
      TableAt(now, e);
    }
  }

  lemma JournalReturns(journal: Journal, rib: Rib, base: set<E>, now: set<E>, peer: nat, named: set<Prefix>)
    requires journal.Holds(base, now, peer, named, true) && forall e :: e in base ==> rib.Storable(e)
    ensures journal.Returnable(rib, peer)
  {
    hide Displaced, Saved, Rib.Storable, Linked, Covers;
  }

  lemma Revives(applied: seq<Applied>, withdrawn: seq<Withdrawn>, base: set<E>, middle: set<E>, start: set<E>,
                now: set<E>, peer: nat, named: set<Prefix>, e: E)
    requires Sound(applied, withdrawn, base, middle, peer, named, true)
    requires OneEach(base) && OneEach(middle) && OneEach(start) && OneEach(now)
    requires Undone(applied, withdrawn, peer, start, now, true) && e in Displaced(applied) + Saved(withdrawn)
    requires named == {e.key} && start <= middle && KeyOf(e) !in Table(start) && e.value.source == peer
    requires Table(middle).Keys == Table(base).Keys
    ensures Table(now) == Table(start)[KeyOf(e) := e.value]
  {
    AllOfStartStays(applied, withdrawn, base, middle, start, peer, named, e);
    forall f | f in Displaced(applied) + Saved(withdrawn) ensures f == e {
      assert f in base && f !in middle;
    }
    hide Displaced, Saved, Unjournaled, Sound;
    var f :| f in now && KeyOf(f) == KeyOf(e);
    assert f !in start by {
      if f in start {
        TableAt(start, f);
      }
    }
    assert now == start + {e};
    KeyNotTaken(start, e);
    TableWith(start, e);
  }

  lemma KeyNotTaken(c: set<E>, e: E)
    requires OneEach(c) && KeyOf(e) !in Table(c)
    ensures KeyOf(e) !in Keys(c)
  {
    if f :| f in c && KeyOf(f) == KeyOf(e) {
      TableAt(c, f);
    }
  }

  /** With the same keys as before, what is new replaces something that is gone, so it is named. */
  lemma NewIsNamed(applied: seq<Applied>, withdrawn: seq<Withdrawn>, base: set<E>, middle: set<E>, peer: nat,
                   named: set<Prefix>, f: E)
    requires Sound(applied, withdrawn, base, middle, peer, named, true) && OneEach(middle)
    requires Table(middle).Keys == Table(base).Keys && f in middle && f !in base
    ensures f.value.source == peer && f.key in named
  {
    hide Displaced, Saved, Has;
    TableAt(middle, f);
    var g := EntryAt(base, KeyOf(f));
    assert g != f;
  }

  lemma AllOfStartStays(applied: seq<Applied>, withdrawn: seq<Withdrawn>, base: set<E>, middle: set<E>, start: set<E>,
                        peer: nat, named: set<Prefix>, e: E)
    requires Sound(applied, withdrawn, base, middle, peer, named, true) && OneEach(middle) && OneEach(start)
    requires named == {e.key} && start <= middle && KeyOf(e) !in Table(start) && e.value.source == peer
    requires Table(middle).Keys == Table(base).Keys
    ensures Unjournaled(start, applied, peer) == start
  {
    hide Displaced, Saved, Has, Table, Keeps;
    forall f | f in start ensures !Journaled(applied, peer, f) {
      TableAt(start, f);
      if f !in base {
        NewIsNamed(applied, withdrawn, base, middle, peer, named, f);
      }
      if f.value.source == peer {
        ReplacedIsOld(applied, base, middle, peer, f);
      }
    }
  }

  lemma BaseIsStorable(rib: Rib)
    requires rib.Valid()
    ensures forall e :: e in rib.Contents() ==> rib.Storable(e)
  {
    hide Rib.Agrees, OneEach, Rib.Contents, Rib.Storable;
    forall e | e in rib.Contents() ensures rib.Storable(e) {
      rib.EntryIsFiled(e);
    }
  }

  lemma EmptyIsSound(base: set<E>, peer: nat, named: set<Prefix>, whole: bool)
    ensures Sound([], [], base, base, peer, named, whole) && Linked([], [], []) && Published([], [], []) == []
  {
  }

  lemma MirrorOfNothing(bests: map<Prefix, Route>)
    ensures Mirror(bests, []) == bests
  {
  }

  /** Two states of a table with the same entries, whose cached bests all stand, forward alike. */
  lemma SameForwarding(c: set<E>, g: map<Prefix, Group>, h: map<Prefix, Group>, m: map<Bits, E>, n: map<Bits, E>)
    requires GroupsAgree(c, g) && GroupsAgree(c, h) && AllStand(h) && TreeAgrees(g, m) && TreeAgrees(h, n)
    ensures AllStand(g) && DistinctAges(c) ==> BestsOf(g) == BestsOf(h) && m == n
  {
    hide GroupsAgree, TreeAgrees, AllStand, BestsOf, DistinctAges;
    if AllStand(g) && DistinctAges(c) {
      SameBests(c, g, h);
      SameTree(g, h, m, n);
    }
  }

  lemma WelcomesIsComparable(c: set<E>, template: Route, ps: seq<Prefix>)
    ensures Welcomes(c, template, ps) ==> AllComparable(c)
  {
  }

  lemma WelcomesFewer(c: set<E>, d: set<E>, template: Route, ps: seq<Prefix>)
    requires Welcomes(c, template, ps) && d <= c
    ensures Welcomes(d, template, ps)
  {
    hide MedComparable;
  }

  lemma ToldAfter(c: set<E>, d: set<E>, template: Route, ps: seq<Prefix>, p: Prefix, stored: Route,
                  bests: map<Prefix, Route>, events: seq<Event>, events': seq<Event>)
    requires Told(c, template, ps, bests, events) && p in ps
    requires stored.med == template.med && stored.attrs == template.attrs
    requires forall e :: e in d ==> e in c || (e.key == p && e.value == stored)
    requires Fits(c, RouteFor(template, p)) ==>
               && AllComparable(d)
               && (Mirror(bests, events) == BestMap(c) ==> Mirror(bests, events') == BestMap(d))
    ensures Told(d, template, ps, bests, events')
  {
    hide AllComparable, Mirror, BestMap;
    assert Fits(c, RouteFor(template, p));
  }

  lemma SameTakes(c: set<E>, r: Route, g: map<Prefix, Group>)
    ensures Takes(c, r, g, g)
  {
  }

  lemma InsertTakes(c: set<E>, r: Route, e: E, g: map<Prefix, Group>, h: map<Prefix, Group>)
    requires e.key == r.prefix && e.value.med == r.med && e.value.attrs == r.attrs && BestsKept(Plus(c, e), g, h)
    ensures Takes(c, r, g, h)
  {
    hide Orderly, Joins, AllStand;
    if Orderly(c) && Joins(c, r) {
      OrderlyMore(c, r, e);
    }
  }

  lemma ReadyIsOrderly(c: set<E>, template: Route, ps: seq<Prefix>)
    requires Ready(c, template, ps)
    ensures Orderly(c)
  {
  }

  lemma ReadyFewer(c: set<E>, d: set<E>, template: Route, ps: seq<Prefix>)
    requires Ready(c, template, ps) && d <= c
    ensures Ready(d, template, ps)
  {
    hide MedComparable, Normalize;
  }

  /** Announcing one of the prefixes leaves the table ready for all of them. */
  lemma ReadyTakes(c: set<E>, d: set<E>, template: Route, ps: seq<Prefix>, p: Prefix, stored: Route,
                   g: map<Prefix, Group>, h: map<Prefix, Group>)
    requires Ready(c, template, ps) && p in ps && AllStand(g) && Takes(c, RouteFor(template, p), g, h)
    requires stored.med == template.med && stored.attrs == template.attrs
    requires forall e :: e in d ==> e in c || (e.key == p && e.value == stored)
    ensures AllStand(h) && Ready(d, template, ps) && Orderly(d)
  {
    hide Normalize, AllStand;
    forall q, e | q in ps && e in d && Normalize(e.key) == Normalize(q)
      ensures MedComparable(e.value, RouteFor(template, q))
    {
      assert e in c ==> MedComparable(e.value, RouteFor(template, q));
    }
    forall e, f | e in d && f in d && Normalize(e.key) == Normalize(f.key) ensures MedComparable(e.value, f.value) {
      ReadyPair(c, template, p, stored, e, f);
    }
  }

  lemma ReadyPair(c: set<E>, template: Route, p: Prefix, stored: Route, e: E, f: E)
    requires Orderly(c) && Joins(c, RouteFor(template, p))
    requires stored.med == template.med && stored.attrs == template.attrs
    requires e in c || (e.key == p && e.value == stored)
    requires f in c || (f.key == p && f.value == stored)
    requires Normalize(e.key) == Normalize(f.key)
    ensures MedComparable(e.value, f.value)
  {
    hide Normalize;
  }

  lemma ReadyStands(c: set<E>, d: set<E>, template: Route, ps: seq<Prefix>,
                    g: map<Prefix, Group>, h: map<Prefix, Group>)
    requires AllStand(g) && Ready(c, template, ps) && d <= c && BestsKept(c, g, h)
    ensures Orderly(c) && AllStand(h) && Ready(d, template, ps) && Orderly(d)
  {
    hide Orderly, Joins, AllStand;
    ReadyFewer(c, d, template, ps);
  }

  /** With canonical prefixes, a table that welcomes an UPDATE is ready for it. */
  lemma WelcomesIsReady(c: set<E>, template: Route, ps: seq<Prefix>)
    requires forall e :: e in c ==> Canonical(e.key)
    requires forall p :: p in ps ==> Canonical(p)
    requires Welcomes(c, template, ps)
    ensures Ready(c, template, ps)
  {
    CanonicalOrderly(c);
    hide Normalize, AllComparable;
  }

  lemma AllUnjournaled(c: set<E>, peer: nat)
    ensures Unjournaled(c, [], peer) == c
  {
  }

  lemma HasEarlier(applied: seq<Applied>, i: nat, p: Prefix, id: nat)
    requires 0 < i <= |applied|
    ensures Has(applied[i - 1..], p, id) <==>
              Has(applied[i..], p, id) || (applied[i - 1].prefix == p && applied[i - 1].updateId == id)
  {
    var s, t := applied[i - 1..], applied[i..];
    assert s == [applied[i - 1]] + t;
    if Has(t, p, id) {
      var k :| 0 <= k < |t| && t[k].prefix == p && t[k].updateId == id;
      assert s[k + 1] == t[k];
    }
    if Has(s, p, id) {
      var k :| 0 <= k < |s| && s[k].prefix == p && s[k].updateId == id;
      assert k > 0 ==> t[k - 1] == s[k];
    }
    assert s[0] == applied[i - 1];
  }

  lemma UnjournaledEarlier(start: set<E>, applied: seq<Applied>, i: nat, peer: nat, now: set<E>, now': set<E>)
    requires 0 < i <= |applied| && now == Unjournaled(start, applied[i..], peer)
    requires var a := applied[i - 1];
             forall e :: e in now' <==>
               e in now && !(e.key == a.prefix && e.value.source == peer && e.value.updateId == a.updateId)
    ensures now' == Unjournaled(start, applied[i - 1..], peer) && now' <= start
  {
    hide Has;
    forall e | e in start ensures e in now' <==> !Journaled(applied[i - 1..], peer, e) {
      HasEarlier(applied, i, e.key, e.value.updateId);
    }
    assert forall e :: e in now' ==> e in start;
    SameSet(now', Unjournaled(start, applied[i - 1..], peer));
  }

  lemma KeysGrow(c: set<E>, e: E)
    ensures KeyOf(e) in Keys(c + {e}) && Keys(c) <= Keys(c + {e})
  {
  }

  lemma KeysStay(c: set<E>, d: set<E>)
    requires c <= d
    ensures Keys(c) <= Keys(d)
  {
  }

  /** Where entries are unique, an entry whose key is taken is itself there. */
  lemma TakenIsThere(base: set<E>, now: set<E>, e: E)
    requires OneEach(base) && now <= base && e in base
    ensures KeyOf(e) in Keys(now) ==> e in now
  {
  }

  lemma SameKeySame(c: set<E>, e: E)
    requires OneEach(c) && e in c
    ensures forall f :: f in c && f.key == e.key && f.value.source == e.value.source ==> f == e
  {
  }

  lemma SameSet(c: set<E>, d: set<E>)
    requires forall e :: e in c <==> e in d
    ensures c == d
  {
  }

  lemma KeyIsGone(c: set<E>, e: E)
    requires OneEach(c) && e in c
    ensures KeyOf(e) !in Keys(c - {e})
  {
    TableWithout(c, e);
  }
}
