/** What a session's steps do to its peers' routes, on the routing table (src/fsm.c): the table of all routes
    and the session's account of its own, prefix by prefix. */
module PeerTable {
  import opened Prefix4
  import opened BestPath
  import opened RibIndex
  import opened UpdateJournal
  import S = Session

  /** A route without its update id. */
  function Plain(r: Route): Route {
    r.(updateId := 0)
  }

  function Erased(t: RouteTable): S.Routes {
    map k | k in t :: Plain(t[k])
  }

  /** The part that belongs to sources outside a set. */
  function Own(t: S.Routes, others: set<nat>): S.Routes {
    map k | k in t && k.0 !in others :: t[k]
  }

  /** The routes an UPDATE announces, as far as the filter permits them. */
  function Announced(template: Route, permit: Route -> bool, nlri: seq<Prefix>): map<Prefix, Route> {
    map p | p in nlri && permit(template.(prefix := p, updateId := 0)) ::
      template.(prefix := p, updateId := 0, localPref := if template.localPref == 0 then 100 else template.localPref)
  }

  function PrefixSet(ps: seq<Prefix>): set<Prefix> {
    set p | p in ps
  }

  /** The prefixes of the entries that are gone. */
  ghost function LostFrom(c: set<E>, d: set<E>): set<Prefix> {
    set e | e in c && e !in d :: e.key
  }

  /** Applying an UPDATE is its withdrawals, then its announcements: each key of the peer that is announced and
      permitted gets the template's route for its prefix, each other one that is withdrawn is gone, and no other
      changes. */
  lemma UpdateMeans(t: RouteTable, t': RouteTable, id: nat, id': nat, template: Route, withdrawals: seq<Prefix>,
                    nlri: seq<Prefix>, permit: Route -> bool)
    requires (t', id') == AnnounceAll(WithdrawAll(t, template.source, withdrawals), id, template, permit, nlri)
    ensures Erased(t')
            == S.Revised(Erased(t), template.source, PrefixSet(withdrawals), Announced(template, permit, nlri))
    ensures forall k: RouteKey ::
              if k.0 == template.source && k.1 in nlri && permit(template.(prefix := k.1, updateId := 0)) then
                && k in t'
                && t'[k] == template.(prefix := k.1, updateId := t'[k].updateId,
                                      localPref := if template.localPref == 0 then 100 else template.localPref)
              else if k.0 == template.source && k.1 in withdrawals then k !in t'
              else (k in t' <==> k in t) && (k in t ==> t'[k] == t[k])
  {
    hide AnnounceAll, WithdrawAll, S.Revised;
    var w, n := PrefixSet(withdrawals), Announced(template, permit, nlri);
    var r := S.Revised(Erased(t), template.source, w, n);
    S.RevisedMeaning(Erased(t), template.source, w, n);
    forall k ensures (k in Erased(t') <==> k in r) && (k in r ==> Erased(t')[k] == r[k]) {
      UpdateMeansAt(t, t', id, id', template, withdrawals, nlri, permit, k);
    }
    forall k: RouteKey
      ensures if k.0 == template.source && k.1 in nlri && permit(template.(prefix := k.1, updateId := 0)) then
                && k in t'
                && t'[k] == template.(prefix := k.1, updateId := t'[k].updateId,
                                      localPref := if template.localPref == 0 then 100 else template.localPref)
              else if k.0 == template.source && k.1 in withdrawals then k !in t'
              else (k in t' <==> k in t) && (k in t ==> t'[k] == t[k])
    {
      WithdrawMeaning(t, template.source, withdrawals, k);
      AnnounceMeaning(WithdrawAll(t, template.source, withdrawals), id, template, permit, nlri, k);
    }
  }

  lemma UpdateMeansAt(t: RouteTable, t': RouteTable, id: nat, id': nat, template: Route, withdrawals: seq<Prefix>,
                      nlri: seq<Prefix>, permit: Route -> bool, k: RouteKey)
    requires (t', id') == AnnounceAll(WithdrawAll(t, template.source, withdrawals), id, template, permit, nlri)
    ensures var n := Announced(template, permit, nlri);
            if k.0 == template.source && k.1 in n then k in t' && Plain(t'[k]) == n[k.1]
            else (k in t' <==> k in t && !(k.0 == template.source && k.1 in withdrawals)) && (k in t' ==> t'[k] == t[k])
  {
    hide AnnounceAll, WithdrawAll;
    var u := WithdrawAll(t, template.source, withdrawals);
    WithdrawMeaning(t, template.source, withdrawals, k);
    AnnounceMeaning(u, id, template, permit, nlri, k);
  }

  /** Entries of one source that are gone are that source's prefixes gone. */
  lemma LossMeans(c: set<E>, d: set<E>, peer: nat)
    requires OneEach(c) && d <= c && forall e :: e in c && e !in d ==> e.value.source == peer
    ensures Erased(Table(d)) == S.Without(Erased(Table(c)), peer, LostFrom(c, d))
  {
    hide S.Without, Table, Keys;
    S.WithoutMeaning(Erased(Table(c)), peer, LostFrom(c, d));
    var w := S.Without(Erased(Table(c)), peer, LostFrom(c, d));
    forall k ensures (k in Table(d) <==> k in w) && (k in w ==> Plain(Table(d)[k]) == w[k]) {
      LossMeansAt(c, d, peer, k);
    }
  }

  lemma LossMeansAt(c: set<E>, d: set<E>, peer: nat, k: RouteKey)
    requires OneEach(c) && d <= c && forall e :: e in c && e !in d ==> e.value.source == peer
    ensures k in Table(d) <==> k in Table(c) && !(k.0 == peer && k.1 in LostFrom(c, d))
    ensures k in Table(d) ==> Table(d)[k] == Table(c)[k]
  {
    if k in Table(c) {
      var e := EntryAt(c, k);
      TableAt(c, e);
      if e in d {
        TableAt(d, e);
      }
      assert forall f :: f in c && KeyOf(f) == k ==> f == e;
    }
    if k in Table(d) {
      assert EntryAt(d, k) in c;
    }
  }

  /** Discarding a source takes all its routes. */
  lemma DiscardMeans(c: set<E>, peer: nat)
    requires OneEach(c)
    ensures Erased(Table(OthersThan(c, peer))) == S.WithoutPeer(Erased(Table(c)), peer)
  {
    hide Table, Keys;
    var d := OthersThan(c, peer);
    forall k ensures k in Table(d) <==> k in Table(c) && k.0 != peer
             ensures k in Table(d) ==> Table(d)[k] == Table(c)[k]
    {
      DiscardMeansAt(c, peer, k);
    }
  }

  lemma DiscardMeansAt(c: set<E>, peer: nat, k: RouteKey)
    requires OneEach(c)
    ensures var d := OthersThan(c, peer);
            && (k in Table(d) <==> k in Table(c) && k.0 != peer) && (k in Table(d) ==> Table(d)[k] == Table(c)[k])
  {
    var d := OthersThan(c, peer);
    if k in Table(c) {
      var e := EntryAt(c, k);
      TableAt(c, e);
      if e in d {
        TableAt(d, e);
      }
    }
    if k in Table(d) {
      assert EntryAt(d, k) in c;
    }
  }

  /** The three changes leave the own parts of two accounts alike. */
  lemma OwnRevised(t: S.Routes, u: S.Routes, others: set<nat>, peer: nat, w: set<Prefix>, n: map<Prefix, Route>)
    requires Own(t, others) == Own(u, others)
    ensures Own(S.Revised(t, peer, w, n), others) == Own(S.Revised(u, peer, w, n), others)
  {
    hide S.Revised;
    S.RevisedMeaning(t, peer, w, n);
    S.RevisedMeaning(u, peer, w, n);
    OwnAlike(t, u, others);
  }

  lemma OwnWithout(t: S.Routes, u: S.Routes, others: set<nat>, peer: nat, ps: set<Prefix>)
    requires Own(t, others) == Own(u, others)
    ensures Own(S.Without(t, peer, ps), others) == Own(S.Without(u, peer, ps), others)
    ensures Own(S.WithoutPeer(t, peer), others) == Own(S.WithoutPeer(u, peer), others)
  {
    hide S.Without;
    S.WithoutMeaning(t, peer, ps);
    S.WithoutMeaning(u, peer, ps);
    OwnAlike(t, u, others);
  }

  lemma OwnAlike(t: S.Routes, u: S.Routes, others: set<nat>)
    requires Own(t, others) == Own(u, others)
    ensures forall k: (nat, Prefix) :: k.0 !in others ==> (k in t <==> k in u) && (k in t ==> t[k] == u[k])
  {
    forall k: (nat, Prefix) | k.0 !in others ensures (k in t <==> k in u) && (k in t ==> t[k] == u[k]) {
      assert k in Own(t, others) <==> k in Own(u, others);
    }
  }

  /** Changes to the entries of others only leave the own part alone. */
  lemma OthersOnly(c: set<E>, d: set<E>, others: set<nat>)
    requires OneEach(c) && OneEach(d)
    requires forall e :: e in c && e.value.source !in others ==> e in d
    requires forall e :: e in d && e.value.source !in others ==> e in c
    ensures Own(Erased(Table(c)), others) == Own(Erased(Table(d)), others)
  {
    hide Table, Keys, OneEach;
    forall k: RouteKey | k.0 !in others ensures k in Table(c) ==> k in Table(d) && Table(d)[k] == Table(c)[k] {
      OthersOnlyAt(c, d, others, k);
    }
    forall k: RouteKey | k.0 !in others ensures k in Table(d) ==> k in Table(c) && Table(c)[k] == Table(d)[k] {
      OthersOnlyAt(d, c, others, k);
    }
  }

  lemma OthersOnlyAt(c: set<E>, d: set<E>, others: set<nat>, k: RouteKey)
    requires OneEach(c) && OneEach(d) && k.0 !in others && forall e :: e in c && e.value.source !in others ==> e in d
    ensures k in Table(c) ==> k in Table(d) && Table(d)[k] == Table(c)[k]
  {
    if k in Table(c) {
      var e := EntryAt(c, k);
      TableAt(c, e);
      TableAt(d, e);
    }
  }

  /** With routes of others only, the own part is empty. */
  lemma NothingOwn(c: set<E>, others: set<nat>)
    requires OneEach(c) && forall e :: e in c ==> e.value.source in others
    ensures Own(Erased(Table(c)), others) == map[]
  {
    forall k | k in Table(c) ensures k.0 in others {
      assert EntryAt(c, k) in c;
    }
  }

  /** The own part of the table, peer by peer. */
  lemma OwnPart(t: S.Routes, u: S.Routes, others: set<nat>, id: nat)
    requires Own(t, others) == Own(u, others) && id !in others
    ensures forall p :: ((id, p) in t <==> (id, p) in u) && ((id, p) in t ==> t[(id, p)] == u[(id, p)])
  {
    OwnAlike(t, u, others);
    forall p ensures ((id, p) in t <==> (id, p) in u) && ((id, p) in t ==> t[(id, p)] == u[(id, p)]) {
      assert (id, p).0 !in others;
    }
  }
}
