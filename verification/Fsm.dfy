/** A session object over a routing table (src/fsm.c): the fields that the locked regions update in
    place, each region a method proved to take the step of the same name in the state machine, and the
    peer's routes in the table. What happens between two regions is up to the caller, who sends what a
    method says and then calls the one that ends it; a teardown says whether the peer's routes are to be
    discarded. Each method also writes down the step it takes, so that what is proved of all runs holds of the
    object. */
module Fsm {
  import opened Wrappers
  import opened Prefix4
  import opened BestPath
  import opened RibIndex
  import opened Rib4
  import opened UpdateJournal
  import opened PeerTable
  import S = Session
  import SessionRoutes

  /** The error an OPEN is answered with; losing a collision is none. */
  function OpenError(c: S.Config, open: S.Packet): Err
    requires open.Open?
  {
    if open.version != 4 then BadLen
    else if !S.OpenAcceptable(open, c.localId) || !S.ConfigValid(c) then Invalid
    else if c.expectedAsn != 0 && open.asn != c.expectedAsn then Invalid
    else Ok
  }

  /** What a received UPDATE asks for, and what its validation says. */
  datatype UpdateBody = UpdateBody(template: Route, withdrawals: seq<Prefix>, nlri: seq<Prefix>, malformed: bool)

  /** The four flags around handshake sends. */
  datatype Flags = Flags(sendPending: bool, keepPending: bool, passiveOpen: bool, passiveKeep: bool)

  const NONE := Flags(false, false, false, false)

  /** What the attempt has learnt about its peer. */
  datatype Peer = Peer(id: nat, asn: nat, hold: nat)

  datatype Clock = Clock(initialized: bool, now: nat, lastRx: nat, lastKeep: nat)

  /** History that the code does not keep. */
  datatype History = History(ops: multiset<S.Op>, keepSent: bool, keepHeard: bool, peerHold: nat)

  /** How a received UPDATE ends. */
  datatype Fate = Taken | Failed | Rejected

  /** What an UPDATE does, in the session's terms. */
  ghost function OutcomeOf(fate: Fate, peer: nat, body: UpdateBody, permit: Route -> bool, lost: set<Prefix>)
    : S.Outcome
  {
    match fate
    case Taken => S.Applied(PrefixSet(body.withdrawals), Announced(body.template.(source := peer), permit, body.nlri))
    case Failed => S.RolledBack(lost)
    case Rejected => S.Refused(lost)
  }

  ghost predicate OwnedBy(c: set<E>, owners: set<nat>) {
    forall e :: e in c ==> e.value.source in owners
  }

  class Fsm {
    const config: S.Config
    const rib: Rib
    ghost const others: set<nat>   // the sources that other users of the table write, now or later

    var state: S.State
    var generation: nat
    var flags: Flags
    var peer: Peer
    var clock: Clock
    ghost var routes: S.Routes
    ghost var past: History
    ghost var run: seq<S.Action>   // the steps taken

    ghost function View(): S.View
      reads this`state, this`generation, this`flags, this`peer, this`clock, this`routes, this`past
    {
      S.View(state, generation, flags.sendPending, flags.keepPending, flags.passiveOpen, flags.passiveKeep,
             peer.id, peer.asn, peer.hold, clock.initialized, clock.now, clock.lastRx, clock.lastKeep,
             routes, past.ops, past.keepSent, past.keepHeard, past.peerHold)
    }

    /** Of the sources that others do not write, the table has exactly the routes this session accounts for. */
    ghost predicate Owned()
      reads this`routes, rib, rib.routes, rib.tree, rib.tree.Repr
    {
      rib.Valid() && Own(Erased(Table(rib.Contents())), others) == Own(routes, others)
    }

    /** The object is where its steps have led. */
    ghost predicate Traced()
      reads this
    {
      S.IsRun(config, S.INIT, run) && View() == S.After(config, S.INIT, run)
    }

    ghost predicate Valid()
      reads this, rib, rib.routes, rib.tree, rib.tree.Repr
    {
      Owned() && Traced()
    }

    constructor (config: S.Config, rib: Rib, ghost others: set<nat>)
      requires rib.Valid() && OwnedBy(rib.Contents(), others)
      ensures this.config == config && this.rib == rib && this.others == others && run == [] && Valid()
    {
      this.config, this.rib, this.others := config, rib, others;
      state, generation, flags := S.Idle, 0, NONE;
      peer, clock := Peer(0, 0, 0), Clock(false, 0, 0, 0);
      routes, past, run := map[], History(multiset{}, false, false, 0), [];
      new;
      hide Rib.Agrees, OneEach, Rib.Contents, Table, Erased, Own;
      NothingOwn(rib.Contents(), others);
      EmptyOwn(others);
      RestIsTraced(config);
    }

    /** Others may write their own sources at any time. */
    twostate lemma OthersMayWrite()
      requires old(Valid()) && View() == old(View()) && run == old(run) && rib.Valid()
      requires forall e :: e in rib.Contents() && e.value.source !in others ==> e in old(rib.Contents())
      requires forall e :: e in old(rib.Contents()) && e.value.source !in others ==> e in rib.Contents()
      ensures Valid()
    {
      hide Rib.Agrees, OneEach, Rib.Contents, Table, Erased, Own;
      OthersOnly(old(rib.Contents()), rib.Contents(), others);
      assert old(routes) == old(View()).routes == View().routes == routes;
    }

    /** Write down a step that has been taken. */
    ghost method Log(was: S.View, a: S.Action)
      requires S.IsRun(config, S.INIT, run) && was == S.After(config, S.INIT, run)
      requires S.Enabled(was, a) && View() == S.Next(config, was, a)
      modifies this`run
      ensures run == old(run) + [a] && Traced()
    {
      hide S.Next, S.Enabled, S.IsRun, S.After;
      S.RunOfSnoc(config, S.INIT, run, a);
      run := run + [a];
    }

    /** Forget the attempt and its peer. */
    method Clear(to: S.State)
      modifies this`state, this`generation, this`flags, this`peer, this`clock, this`past
      ensures View() == S.Cleared(old(View()), to)
    {
      state := to;
      peer := Peer(0, 0, 0);
      clock := clock.(initialized := false);
      flags := NONE;
      generation := generation + 1;
      past := History(past.ops, false, false, 0);
    }

    /** Drop a peer's routes; if the report cannot be collected, drop them unreported. */
    method DiscardPeer(id: nat, plentiful: bool) returns (events: seq<Event>)
      requires Owned()
      modifies this`routes, rib, rib.routes, rib.tree, rib.tree.Repr
      ensures Owned() && fresh(rib.tree.Repr - old(rib.tree.Repr))
      ensures routes == S.WithoutPeer(old(routes), id)
      ensures rib.Contents() == OthersThan(old(rib.Contents()), id)
      ensures plentiful ==> Informs(old(rib.Contents()), rib.Contents(), events)
      ensures BestsKept(old(rib.Contents()), old(rib.groups), rib.groups)
    {
      hide Rib.Agrees, OneEach, Rib.Contents, AllComparable, BestMap, Mirror, Prefixes, BestAt, PrefixesOf, BestsKept;
      hide Table, Erased, Own, S.WithoutPeer, OthersThan;
      DiscardMeans(rib.Contents(), id);
      OwnWithout(Erased(Table(rib.Contents())), routes, others, id, {});
      var err, withdrawn, replacements := rib.DiscardCollect(id, plentiful);
      events := [];
      ghost var c, g := rib.Contents(), rib.groups;
      if err == Ok {
        events := DiscardEvents(withdrawn, replacements);
      } else {
        OthersTwice(old(rib.Contents()), id);
        var _ := rib.RemoveSource(id);
        BestsKeptTwice(old(rib.Contents()), c, old(rib.Contents()), old(rib.groups), g, rib.groups);
      }
      routes := S.WithoutPeer(routes, id);
    }

    /** End the session whatever its state; if it was established, its peer's routes are to be discarded. */
    method TearDown() returns (due: bool)
      modifies this`state, this`generation, this`flags, this`peer, this`clock, this`past
      ensures View() == S.Torn(old(View())) && due == (old(state) == S.Established) && state == S.Idle
      ensures past.ops == old(past.ops) + if due then multiset{S.Discard(old(generation), old(peer.id))} else multiset{}
    {
      due := state == S.Established;
      if due {
        past := past.(ops := past.ops + multiset{S.Discard(generation, peer.id)});
      }
      Clear(S.Idle);
    }

    /** Discard the routes of the peer of a session that was torn down. */
    method DiscardDone(g: nat, id: nat, plentiful: bool) returns (events: seq<Event>)
      requires Valid() && S.Discard(g, id) in past.ops
      modifies this`routes, this`past, this`run, rib, rib.routes, rib.tree, rib.tree.Repr
      ensures Valid() && fresh(rib.tree.Repr - old(rib.tree.Repr))
      ensures run == old(run) + [S.Done(S.Discard(g, id), true)]
      ensures View() == S.Next(config, old(View()), S.Done(S.Discard(g, id), true))
      ensures rib.Contents() == OthersThan(old(rib.Contents()), id)
      ensures plentiful ==> Informs(old(rib.Contents()), rib.Contents(), events)
      ensures BestsKept(old(rib.Contents()), old(rib.groups), rib.groups)
    {
      hide S.IsRun, S.After, S.OnDone, Owned, Rib.Contents, OthersThan, Informs, BestsKept;
      events := EndDiscard(g, id, plentiful);
      Log(old(View()), S.Done(S.Discard(g, id), true));
    }

    method EndDiscard(g: nat, id: nat, plentiful: bool) returns (events: seq<Event>)
      requires Owned()
      modifies this`routes, this`past, rib, rib.routes, rib.tree, rib.tree.Repr
      ensures Owned() && fresh(rib.tree.Repr - old(rib.tree.Repr))
      ensures View() == S.OnDone(old(View()), S.Discard(g, id), true)
      ensures rib.Contents() == OthersThan(old(rib.Contents()), id)
      ensures plentiful ==> Informs(old(rib.Contents()), rib.Contents(), events)
      ensures BestsKept(old(rib.Contents()), old(rib.groups), rib.groups)
    {
      hide Owned, S.OnDone, Rib.Contents, OthersThan, Informs, BestsKept;
      DiscardDoneIs(View(), g, id);
      past := past.(ops := past.ops - multiset{S.Discard(g, id)});
      events := DiscardPeer(id, plentiful);
    }

    // ----- local requests

    method EnterPreOpen(active: bool) returns (err: Err)
      requires Valid()
      modifies this`state, this`generation, this`flags, this`peer, this`clock, this`past, this`run
      ensures Valid() && run == old(run) + [S.EnterPreOpen(active)]
      ensures View() == S.Next(config, old(View()), S.EnterPreOpen(active))
      ensures err == Ok <==> S.PreOpen(old(state))
    {
      hide S.IsRun, S.After, Owned;
      err := Invalid;
      if S.PreOpen(state) {
        Clear(if active then S.Active else S.Connect);
        err := Ok;
      }
      Log(old(View()), S.EnterPreOpen(active));
    }

    /** Begin an active attempt; the caller sends an OPEN if told to. */
    method Start() returns (err: Err, send: bool)
      requires Valid()
      modifies this`state, this`generation, this`flags, this`peer, this`clock, this`past, this`run
      ensures Valid() && run == old(run) + [S.Start]
      ensures View() == S.Next(config, old(View()), S.Start)
      ensures err == if S.ConfigValid(config) then Ok else Invalid
      ensures send <==> err == Ok && S.PreOpen(old(state))
      ensures send ==> S.StartSend(generation, old(state)) in past.ops
    {
      hide S.IsRun, S.After, Owned, S.ConfigValid;
      err, send := Invalid, false;
      if S.ConfigValid(config) {
        err, send := Ok, S.PreOpen(state);
        if send {
          ghost var from := state;
          Clear(S.OpenSent);
          past := past.(ops := past.ops + multiset{S.StartSend(generation, from)});
        }
      }
      Log(old(View()), S.Start);
    }

    method StartDone(g: nat, from: S.State, ok: bool)
      requires Valid() && S.StartSend(g, from) in past.ops
      modifies this`state, this`generation, this`flags, this`past, this`run
      ensures Valid() && run == old(run) + [S.Done(S.StartSend(g, from), ok)]
      ensures View() == S.Next(config, old(View()), S.Done(S.StartSend(g, from), ok))
    {
      hide S.IsRun, S.After, S.OnDone, Owned;
      EndStart(g, from, ok);
      Log(old(View()), S.Done(S.StartSend(g, from), ok));
    }

    method EndStart(g: nat, from: S.State, ok: bool)
      modifies this`state, this`generation, this`flags, this`past
      ensures View() == S.OnDone(old(View()), S.StartSend(g, from), ok)
    {
      hide S.OnDone;
      StartDoneIs(View(), g, from, ok);
      past := past.(ops := past.ops - multiset{S.StartSend(g, from)});
      if !ok && state == S.OpenSent && generation == g {
        state, flags, generation := from, NONE, generation + 1;
      }
    }

    method Reset() returns (due: bool)
      requires Valid()
      modifies this`state, this`generation, this`flags, this`peer, this`clock, this`past, this`run
      ensures Valid() && run == old(run) + [S.Reset]
      ensures View() == S.Next(config, old(View()), S.Reset)
      ensures due <==> old(state) == S.Established && state != S.Established
    {
      hide S.IsRun, S.After, Owned;
      due := TearDown();
      Log(old(View()), S.Reset);
    }

    // ----- the handshake

    /** An OPEN that may start the confirmation of an attempt. */
    method OnOpen(open: S.Packet, handled: bool, passive: bool) returns (err: Err)
      requires open.Open? && state != S.Established
      modifies this`state, this`generation, this`flags, this`peer, this`clock, this`past
      ensures View() == S.OnOpen(config, old(View()), open, handled, passive)
      ensures err == OpenError(config, open)
    {
      hide S.Torn, S.Confirmed, S.ValidPeerId, S.ConfigValid;
      err := Ok;
      var accepted := false;
      if open.version != 4 {
        err := BadLen;
      } else if open.holdTime != 0 && open.holdTime < 3 {
        err := Invalid;
      } else if !S.ValidPeerId(open.bgpId, config.localId) || !S.ConfigValid(config) {
        err := Invalid;
      } else if config.expectedAsn != 0 && open.asn != config.expectedAsn {
        err := Invalid;
      } else {
        accepted := !(handled && config.localId > open.bgpId);
      }
      if !accepted {
        var _ := TearDown();
        return;
      }
      Confirm(open, passive);
    }

    method Confirm(open: S.Packet, passive: bool)
      requires open.Open?
      modifies this`state, this`generation, this`flags, this`peer, this`clock, this`past
      ensures View() == S.Confirmed(config, old(View()), open, passive)
    {
      peer := Peer(open.bgpId, open.asn, S.Negotiate(config.holdTime, open.holdTime));
      state := S.OpenConfirm;
      generation := generation + 1;
      clock := Clock(false, clock.now, 0, 0);
      flags := if passive then Flags(false, false, true, false) else Flags(true, false, false, false);
      past := History(past.ops + multiset{if passive then S.PassiveOpen(generation) else S.ActiveKeep(generation)},
                      false, false, open.holdTime);
    }

    /** Enter ESTABLISHED; the caller then advertises the table. */
    method Establish()
      modifies this`state, this`generation, this`flags, this`past
      ensures View() == S.Up(old(View()))
    {
      state := S.Established;
      generation := generation + 1;
      flags := NONE;
      past := past.(ops := past.ops + multiset{S.Advertise(generation)});
    }

    method RollbackFailedKeepalive(g: nat)
      modifies this`state, this`generation, this`flags, this`peer, this`clock, this`past
      ensures View() == S.Rollback(old(View()), g)
    {
      if (state == S.OpenConfirm && generation == g) || (state == S.Established && generation == g + 1) {
        Clear(S.Idle);
      }
    }

    /** The KEEPALIVE that answers an OPEN in OPEN_SENT has been sent, or not. */
    method ActiveKeepDone(g: nat, ok: bool)
      requires Valid() && S.ActiveKeep(g) in past.ops
      modifies this`state, this`generation, this`flags, this`peer, this`clock, this`past, this`run
      ensures Valid() && run == old(run) + [S.Done(S.ActiveKeep(g), ok)]
      ensures View() == S.Next(config, old(View()), S.Done(S.ActiveKeep(g), ok))
    {
      hide S.IsRun, S.After, S.OnDone, Owned;
      EndActiveKeep(g, ok);
      Log(old(View()), S.Done(S.ActiveKeep(g), ok));
    }

    method EndActiveKeep(g: nat, ok: bool)
      modifies this`state, this`generation, this`flags, this`peer, this`clock, this`past
      ensures View() == S.OnDone(old(View()), S.ActiveKeep(g), ok)
    {
      hide S.Up, S.Rollback, S.OnDone;
      ActiveKeepDoneIs(View(), g, ok);
      past := past.(ops := past.ops - multiset{S.ActiveKeep(g)});
      if !ok {
        RollbackFailedKeepalive(g);
      } else if state == S.OpenConfirm && generation == g {
        past := past.(keepSent := true);
        if flags.keepPending {
          Establish();
        } else {
          flags := flags.(sendPending := false);
        }
      }
    }

    /** The OPEN that answers an OPEN has been sent, or not; the first locked region after it. */
    method PassiveOpenDone(g: nat, ok: bool)
      requires Valid() && S.PassiveOpen(g) in past.ops
      modifies this`state, this`generation, this`flags, this`peer, this`clock, this`past, this`run
      ensures Valid() && run == old(run) + [S.Done(S.PassiveOpen(g), ok)]
      ensures View() == S.Next(config, old(View()), S.Done(S.PassiveOpen(g), ok))
    {
      hide S.IsRun, S.After, S.OnDone, Owned;
      EndPassiveOpen(g, ok);
      Log(old(View()), S.Done(S.PassiveOpen(g), ok));
    }

    method EndPassiveOpen(g: nat, ok: bool)
      modifies this`state, this`generation, this`flags, this`peer, this`clock, this`past
      ensures View() == S.OnDone(old(View()), S.PassiveOpen(g), ok)
    {
      hide S.Rollback, S.OnDone;
      PassiveOpenDoneIs(View(), g, ok);
      past := past.(ops := past.ops - multiset{S.PassiveOpen(g)});
      if !ok {
        RollbackFailedKeepalive(g);
      } else if state == S.OpenConfirm && generation == g {
        flags := flags.(passiveOpen := false);
        past := past.(ops := past.ops + multiset{S.PassiveGap(g)});
      }
    }

    /** The second locked region after it; if told to, the caller then sends a KEEPALIVE. */
    method PassiveGapDone(g: nat) returns (send: bool)
      requires Valid() && S.PassiveGap(g) in past.ops
      modifies this`flags, this`past, this`run
      ensures Valid() && run == old(run) + [S.Done(S.PassiveGap(g), true)]
      ensures View() == S.Next(config, old(View()), S.Done(S.PassiveGap(g), true))
      ensures send <==> state == S.OpenConfirm && generation == g
      ensures send ==> S.PassiveKeep(g) in past.ops
    {
      hide S.IsRun, S.After, S.OnDone, Owned;
      send := EndPassiveGap(g);
      Log(old(View()), S.Done(S.PassiveGap(g), true));
    }

    method EndPassiveGap(g: nat) returns (send: bool)
      modifies this`flags, this`past
      ensures View() == S.OnDone(old(View()), S.PassiveGap(g), true)
      ensures send <==> state == S.OpenConfirm && generation == g
      ensures send ==> S.PassiveKeep(g) in past.ops
    {
      hide S.OnDone;
      PassiveGapDoneIs(View(), g);
      past := past.(ops := past.ops - multiset{S.PassiveGap(g)});
      send := state == S.OpenConfirm && generation == g;
      if send {
        flags := flags.(sendPending := true);
        past := past.(ops := past.ops + multiset{S.PassiveKeep(g)});
      }
    }

    method PassiveKeepDone(g: nat, ok: bool)
      requires Valid() && S.PassiveKeep(g) in past.ops
      modifies this`state, this`generation, this`flags, this`peer, this`clock, this`past, this`run
      ensures Valid() && run == old(run) + [S.Done(S.PassiveKeep(g), ok)]
      ensures View() == S.Next(config, old(View()), S.Done(S.PassiveKeep(g), ok))
    {
      hide S.IsRun, S.After, S.OnDone, Owned;
      EndPassiveKeep(g, ok);
      Log(old(View()), S.Done(S.PassiveKeep(g), ok));
    }

    method EndPassiveKeep(g: nat, ok: bool)
      modifies this`state, this`generation, this`flags, this`peer, this`clock, this`past
      ensures View() == S.OnDone(old(View()), S.PassiveKeep(g), ok)
    {
      hide S.Up, S.Rollback, S.OnDone;
      PassiveKeepDoneIs(View(), g, ok);
      past := past.(ops := past.ops - multiset{S.PassiveKeep(g)});
      if !ok {
        RollbackFailedKeepalive(g);
      } else if state == S.OpenConfirm && generation == g {
        past := past.(keepSent := true);
        if flags.passiveKeep || flags.keepPending {
          Establish();
        } else {
          flags := flags.(sendPending := false);
        }
      }
    }

    method OnOpenConfirm(p: S.Packet)
      requires state == S.OpenConfirm
      modifies this`state, this`generation, this`flags, this`peer, this`clock, this`past
      ensures View() == S.OnOpenConfirm(config, old(View()), p)
    {
      hide S.Torn, S.OpenAcceptable, S.Up;
      if p.Open? && flags.passiveOpen {
        if !S.OpenAcceptable(p, config.localId) {
          var _ := TearDown();
        }
      } else if p.Keepalive? {
        Hear();
      } else {
        var _ := TearDown();
      }
    }

    /** The peer's KEEPALIVE while confirming: establish, or remember it until the local sends are done. */
    method Hear()
      requires state == S.OpenConfirm
      modifies this`state, this`generation, this`flags, this`clock, this`past
      ensures View() == S.OnOpenConfirm(config, old(View()), S.Keepalive)
    {
      hide S.Up;
      if clock.initialized {
        clock := clock.(lastRx := clock.now);
      }
      past := past.(keepHeard := true);
      if flags.passiveOpen {
        flags := flags.(passiveKeep := true);
      } else if flags.sendPending {
        flags := flags.(keepPending := true);
      } else {
        Establish();
      }
    }

    // ----- the established session

    /** Apply a received UPDATE. A malformed one ends the session; running out of memory rolls it back. */
    method OnUpdate(body: UpdateBody, permit: Route -> bool, plentiful: bool, spare: bool)
      returns (fate: Fate, events: seq<Event>, due: bool, ghost outcome: S.Outcome)
      requires Valid() && state == S.Established
      modifies this, rib, rib.routes, rib.tree, rib.tree.Repr
      ensures Valid() && fresh(rib.tree.Repr - old(rib.tree.Repr))
      ensures run == old(run) + [S.Receive(S.Update(outcome), false)]
      ensures View() == S.Next(config, old(View()), S.Receive(S.Update(outcome), false))
      ensures due <==> state != S.Established
      ensures body.malformed ==> fate == Rejected
      ensures !body.malformed && plentiful && (forall p :: p in body.nlri ==> p.len <= 32) ==> fate == Taken
      ensures outcome == OutcomeOf(fate, old(peer.id), body, permit, LostFrom(old(rib.Contents()), rib.Contents()))
      ensures fate == Taken ==>
                (Table(rib.Contents()), rib.nextUpdateId)
                == AnnounceAll(WithdrawAll(old(Table(rib.Contents())), old(peer.id), body.withdrawals),
                               old(rib.nextUpdateId), body.template.(source := old(peer.id)), permit, body.nlri)
      ensures fate != Taken ==>
                && events == [] && rib.Contents() <= old(rib.Contents())
                && (spare || body.malformed ==> rib.Contents() == old(rib.Contents()))
                && (forall e :: e in old(rib.Contents()) && e !in rib.Contents() ==>
                      e.value.source == old(peer.id) && (e.key in body.withdrawals || e.key in body.nlri))
      ensures fate == Taken && old(Welcomes(rib.Contents(), body.template.(source := peer.id), body.nlri)) ==>
                Informs(old(rib.Contents()), rib.Contents(), events)
      ensures fate != Taken && spare ==> Informs(old(rib.Contents()), rib.Contents(), events)
      ensures old(AllStand(rib.groups)) && old(Ready(rib.Contents(), body.template.(source := peer.id), body.nlri)) ==>
                AllStand(rib.groups)
    {
      hide S.IsRun, S.After, S.OnUpdate, Owned, Rib.Valid, Rib.Contents, Table, Welcomes, AnnounceAll, WithdrawAll;
      hide Ready, AllStand, Informs, LostFrom, Own, Erased, OutcomeOf;
      fate, events, outcome := ChangeTable(body, permit, plentiful, spare);
      OutcomeKind(fate, peer.id, body, permit, LostFrom(old(rib.Contents()), rib.Contents()));
      due := Settle(fate, outcome);
      Log(old(View()), S.Receive(S.Update(outcome), false));
      OwnedAgain();
    }

    /** What an UPDATE does to the table. */
    method ChangeTable(body: UpdateBody, permit: Route -> bool, plentiful: bool, spare: bool)
      returns (fate: Fate, events: seq<Event>, ghost outcome: S.Outcome)
      requires Owned()
      modifies rib, rib.routes, rib.tree, rib.tree.Repr
      ensures rib.Valid() && fresh(rib.tree.Repr - old(rib.tree.Repr))
      ensures Own(Erased(Table(rib.Contents())), others) == Own(S.OnUpdate(View(), outcome).routes, others)
      ensures body.malformed ==> fate == Rejected
      ensures !body.malformed && plentiful && (forall p :: p in body.nlri ==> p.len <= 32) ==> fate == Taken
      ensures outcome == OutcomeOf(fate, old(peer.id), body, permit, LostFrom(old(rib.Contents()), rib.Contents()))
      ensures fate == Taken ==>
                (Table(rib.Contents()), rib.nextUpdateId)
                == AnnounceAll(WithdrawAll(old(Table(rib.Contents())), old(peer.id), body.withdrawals),
                               old(rib.nextUpdateId), body.template.(source := old(peer.id)), permit, body.nlri)
      ensures fate != Taken ==>
                && events == [] && rib.Contents() <= old(rib.Contents())
                && (spare || body.malformed ==> rib.Contents() == old(rib.Contents()))
                && (forall e :: e in old(rib.Contents()) && e !in rib.Contents() ==>
                      e.value.source == old(peer.id) && (e.key in body.withdrawals || e.key in body.nlri))
      ensures fate == Taken && old(Welcomes(rib.Contents(), body.template.(source := peer.id), body.nlri)) ==>
                Informs(old(rib.Contents()), rib.Contents(), events)
      ensures fate != Taken && spare ==> Informs(old(rib.Contents()), rib.Contents(), events)
      ensures old(AllStand(rib.groups)) && old(Ready(rib.Contents(), body.template.(source := peer.id), body.nlri)) ==>
                AllStand(rib.groups)
    {
      hide S.OnUpdate, Owned, Rib.Agrees, OneEach, Rib.Contents, Table, AllComparable, Mirror, BestMap, S.Revised;
      hide Welcomes, AnnounceAll, WithdrawAll, Ready, AllStand, Informs, LostFrom, Announced, Own, Erased, S.Without;
      ghost var c, t := rib.Contents(), Table(rib.Contents());
      OwnedParts();
      NothingToReport(c);
      var template := body.template.(source := peer.id);
      var err := Invalid;
      events := [];
      if !body.malformed {
        err, events := ApplyUpdate(rib, template, body.withdrawals, body.nlri, permit, plentiful, spare);
        UpdateInforms(c, rib.Contents(), template, body.nlri, events);
      }
      fate := if err == Ok then Taken else if err == Invalid then Rejected else Failed;
      outcome := OutcomeOf(fate, peer.id, body, permit, LostFrom(c, rib.Contents()));
      if fate == Taken {
        TakenOwned(t, old(rib.nextUpdateId), body.(template := template), permit);
      } else {
        LostOwned(c, peer.id);
      }
      SettledRoutes(View(), outcome);
    }

    lemma OwnedAgain()
      requires rib.Valid() && Own(Erased(Table(rib.Contents())), others) == Own(routes, others)
      ensures Owned()
    {
      hide Rib.Valid, Rib.Contents, Own, Erased, Table;
    }

    lemma OwnedParts()
      requires Owned()
      ensures rib.Valid() && Own(Erased(Table(rib.Contents())), others) == Own(routes, others)
    {
      hide Rib.Valid, Rib.Contents, Own, Erased, Table;
    }

    /** The account after an UPDATE that has been applied is the table's. */
    lemma TakenOwned(was: RouteTable, lastId: nat, body: UpdateBody, permit: Route -> bool)
      requires rib.Valid() && Own(Erased(was), others) == Own(routes, others)
      requires (Table(rib.Contents()), rib.nextUpdateId)
               == AnnounceAll(WithdrawAll(was, body.template.source, body.withdrawals), lastId, body.template, permit,
                              body.nlri)
      ensures Own(Erased(Table(rib.Contents())), others)
              == Own(S.Revised(routes, body.template.source, PrefixSet(body.withdrawals),
                               Announced(body.template, permit, body.nlri)), others)
    {
      hide Rib.Agrees, OneEach, Rib.Contents, Table, AnnounceAll, WithdrawAll, Own, Erased, S.Revised, Announced;
      UpdateMeans(was, Table(rib.Contents()), lastId, rib.nextUpdateId, body.template, body.withdrawals, body.nlri,
                  permit);
      OwnRevised(Erased(was), routes, others, body.template.source, PrefixSet(body.withdrawals),
                 Announced(body.template, permit, body.nlri));
    }

    /** And so it is after a rollback that may have lost some of the peer's routes. */
    lemma LostOwned(c: set<E>, id: nat)
      requires rib.Valid() && OneEach(c) && rib.Contents() <= c && Own(Erased(Table(c)), others) == Own(routes, others)
      requires forall e :: e in c && e !in rib.Contents() ==> e.value.source == id
      ensures Own(Erased(Table(rib.Contents())), others)
              == Own(S.Without(routes, id, LostFrom(c, rib.Contents())), others)
    {
      hide Rib.Agrees, OneEach, Rib.Contents, Table, Own, Erased, S.Without, LostFrom;
      LossMeans(c, rib.Contents(), id);
      OwnWithout(Erased(Table(c)), routes, others, id, LostFrom(c, rib.Contents()));
    }

    /** The session fields after an UPDATE. */
    method Settle(fate: Fate, ghost outcome: S.Outcome) returns (due: bool)
      requires state == S.Established
      requires match fate
               case Taken => outcome.Applied?
               case Failed => outcome.RolledBack?
               case Rejected => outcome.Refused?
      modifies this`state, this`generation, this`flags, this`peer, this`clock, this`past, this`routes
      ensures View() == S.OnUpdate(old(View()), outcome) && (due <==> state != S.Established)
      ensures routes == S.OnUpdate(old(View()), outcome).routes
    {
      hide S.Torn, S.Revised, S.Without;
      due := false;
      match fate
      case Taken =>
        routes := S.Revised(routes, peer.id, outcome.withdrawn, outcome.announced);
        if clock.initialized {
          clock := clock.(lastRx := clock.now);
        }
      case Failed =>
        routes := S.Without(routes, peer.id, outcome.lost);
      case Rejected =>
        ghost var left := S.Without(routes, peer.id, outcome.lost);
        due := TearDown();
        routes := left;
    }

    /** Any packet but an UPDATE in ESTABLISHED. */
    method OnEstablished(p: S.Packet) returns (due: bool)
      requires state == S.Established && !p.Update?
      modifies this`state, this`generation, this`flags, this`peer, this`clock, this`past
      ensures View() == S.OnEstablished(old(View()), p)
      ensures due <==> state != S.Established
    {
      hide S.Torn;
      due := false;
      if p.Keepalive? {
        if clock.initialized {
          clock := clock.(lastRx := clock.now);
        }
      } else {
        due := TearDown();
      }
    }

    /** Any packet, except an UPDATE in ESTABLISHED. */
    method OnPacket(p: S.Packet, handled: bool) returns (due: bool)
      requires Valid() && !(state == S.Established && p.Update?)
      modifies this`state, this`generation, this`flags, this`peer, this`clock, this`past, this`run
      ensures Valid() && run == old(run) + [S.Receive(p, handled)]
      ensures View() == S.Next(config, old(View()), S.Receive(p, handled))
      ensures due <==> old(state) == S.Established && state != S.Established
    {
      hide S.IsRun, S.After, S.OnPacket, Owned;
      due := Dispatch(p, handled);
      Log(old(View()), S.Receive(p, handled));
    }

    method Dispatch(p: S.Packet, handled: bool) returns (due: bool)
      requires !(state == S.Established && p.Update?)
      modifies this`state, this`generation, this`flags, this`peer, this`clock, this`past
      ensures View() == S.OnPacket(config, old(View()), p, handled)
      ensures due <==> old(state) == S.Established && state != S.Established
    {
      hide S.Torn, S.OnOpen, S.OnOpenConfirm, S.OnEstablished;
      due := false;
      if p.Notification? {
        due := TearDown();
        return;
      }
      match state
      case OpenSent =>
        if p.Open? {
          var _ := OnOpen(p, handled, false);
        } else {
          due := TearDown();
        }
      case OpenConfirm => OnOpenConfirm(p);
      case Established => due := OnEstablished(p);
      case _ =>
        if p.Open? {
          var _ := OnOpen(p, handled, true);
        }
    }

    /** Bytes that do not parse, with a notification due. */
    method OnBadBytes() returns (due: bool)
      requires Valid()
      modifies this`state, this`generation, this`flags, this`peer, this`clock, this`past, this`run
      ensures Valid() && run == old(run) + [S.BadBytes]
      ensures View() == S.Next(config, old(View()), S.BadBytes)
      ensures due <==> old(state) == S.Established && state != S.Established
    {
      hide S.IsRun, S.After, Owned;
      due := TearDown();
      Log(old(View()), S.BadBytes);
    }

    /** Another session has received an OPEN from this peer. */
    method OnCollision(id: nat) returns (handled: bool)
      requires Valid()
      modifies this`state, this`generation, this`flags, this`peer, this`clock, this`past, this`run
      ensures Valid() && run == old(run) + [S.Collide(id)]
      ensures View() == S.Next(config, old(View()), S.Collide(id))
      ensures handled <==> old(state) == S.OpenConfirm && old(peer.id) == id
    {
      hide S.IsRun, S.After, S.Torn, Owned;
      handled := state == S.OpenConfirm && peer.id == id;
      if handled && config.localId <= id {
        var _ := TearDown();
      }
      Log(old(View()), S.Collide(id));
    }

    // ----- timers

    /** A clock tick; the caller sends a KEEPALIVE if told to. */
    method Tick(now: nat) returns (send: bool, due: bool)
      requires Valid()
      modifies this`state, this`generation, this`flags, this`peer, this`clock, this`past, this`run
      ensures Valid() && run == old(run) + [S.Tick(now)]
      ensures View() == S.Next(config, old(View()), S.Tick(now))
      ensures past.ops == old(past.ops)
                          + if send then multiset{S.TickKeep(generation, state, now)}
                            else if due then multiset{S.Discard(old(generation), old(peer.id))} else multiset{}
      ensures due <==> old(state) == S.Established && state != S.Established
    {
      hide S.IsRun, S.After, S.OnTick, Owned;
      send, due := Advance(now);
      Log(old(View()), S.Tick(now));
    }

    method Advance(now: nat) returns (send: bool, due: bool)
      modifies this`state, this`generation, this`flags, this`peer, this`clock, this`past
      ensures View() == S.OnTick(config, old(View()), now)
      ensures past.ops == old(past.ops)
                          + if send then multiset{S.TickKeep(generation, state, now)}
                            else if due then multiset{S.Discard(old(generation), old(peer.id))} else multiset{}
      ensures due <==> old(state) == S.Established && state != S.Established
    {
      hide S.Torn, S.Elapsed, S.KeepaliveTime;
      send, due := false, false;
      if !clock.initialized {
        clock := Clock(true, now, now, now);
        return;
      }
      clock := clock.(now := now);
      if peer.hold > 0 && S.HoldActive(state) && S.Elapsed(now, clock.lastRx) >= peer.hold * 1000 {
        due := TearDown();
        return;
      }
      var interval := S.KeepaliveTime(peer.hold, config.keepaliveTime);
      if S.HoldActive(state) && interval > 0 && S.Elapsed(now, clock.lastKeep) >= interval * 1000 {
        past := past.(ops := past.ops + multiset{S.TickKeep(generation, state, now)});
        send := true;
      }
    }

    method TickDone(g: nat, during: S.State, at: nat, ok: bool) returns (due: bool)
      requires Valid() && S.TickKeep(g, during, at) in past.ops
      modifies this`state, this`generation, this`flags, this`peer, this`clock, this`past, this`run
      ensures Valid() && run == old(run) + [S.Done(S.TickKeep(g, during, at), ok)]
      ensures View() == S.Next(config, old(View()), S.Done(S.TickKeep(g, during, at), ok))
      ensures due <==> old(state) == S.Established && state != S.Established
    {
      hide S.IsRun, S.After, S.OnDone, Owned;
      due := EndTick(g, during, at, ok);
      Log(old(View()), S.Done(S.TickKeep(g, during, at), ok));
    }

    method EndTick(g: nat, during: S.State, at: nat, ok: bool) returns (due: bool)
      modifies this`state, this`generation, this`flags, this`peer, this`clock, this`past
      ensures View() == S.OnDone(old(View()), S.TickKeep(g, during, at), ok)
      ensures due <==> old(state) == S.Established && state != S.Established
    {
      hide S.Torn, S.OnDone;
      TickDoneIs(View(), g, during, at, ok);
      due := false;
      past := past.(ops := past.ops - multiset{S.TickKeep(g, during, at)});
      if state == during && generation == g {
        if ok {
          clock := clock.(lastKeep := at);
        } else {
          due := TearDown();
        }
      }
    }

    /** The table has been advertised to the new peer, or not. */
    method AdvertiseDone(g: nat, ok: bool) returns (due: bool)
      requires Valid() && S.Advertise(g) in past.ops
      modifies this`state, this`generation, this`flags, this`peer, this`clock, this`past, this`run
      ensures Valid() && run == old(run) + [S.Done(S.Advertise(g), ok)]
      ensures View() == S.Next(config, old(View()), S.Done(S.Advertise(g), ok))
      ensures due <==> old(state) == S.Established && state != S.Established
    {
      hide S.IsRun, S.After, S.OnDone, Owned;
      due := EndAdvertise(g, ok);
      Log(old(View()), S.Done(S.Advertise(g), ok));
    }

    method EndAdvertise(g: nat, ok: bool) returns (due: bool)
      modifies this`state, this`generation, this`flags, this`peer, this`clock, this`past
      ensures View() == S.OnDone(old(View()), S.Advertise(g), ok)
      ensures due <==> old(state) == S.Established && state != S.Established
    {
      hide S.Torn, S.OnDone;
      AdvertiseDoneIs(View(), g, ok);
      due := false;
      past := past.(ops := past.ops - multiset{S.Advertise(g)});
      if !ok && state == S.Established && generation == g {
        due := TearDown();
      }
    }

    /** Outside ESTABLISHED the table holds no route of any source that others do not write, but for a peer
        whose routes are about to be discarded. */
    lemma NoPeerRoutes(id: nat)
      requires Valid() && state != S.Established && id !in others && !S.Pending(View(), id)
      ensures forall e :: e in rib.Contents() ==> e.value.source != id
    {
      S.RunKeeps(config, S.INIT, run);
      assert S.RoutesInv(View());
      OwnPart(Erased(Table(rib.Contents())), routes, others, id);
      hide Rib.Agrees, OneEach, Rib.Contents, S.Pending, S.IsRun, S.After;
      forall e | e in rib.Contents() ensures e.value.source != id {
        TableAt(rib.Contents(), e);
      }
    }

    /** The table has, of every source that others do not write, exactly what the UPDATEs of the object's life have
        told, less what discards and rollbacks short of memory have taken since. */
    lemma TableIsTold(id: nat)
      requires Valid() && id !in others
      ensures SessionRoutes.Part(Erased(Table(rib.Contents())), id)
              == SessionRoutes.Told(config, S.INIT, run, id) - SessionRoutes.Missing(config, S.INIT, run, id)
    {
      hide Rib.Agrees, OneEach, Rib.Contents, Table, S.IsRun, S.After, SessionRoutes.Part;
      hide SessionRoutes.Told, SessionRoutes.Missing;
      SessionRoutes.RoutesAreEvents(config, S.INIT, run, id);
      OwnPart(Erased(Table(rib.Contents())), routes, others, id);
      SessionRoutes.PartMeaning(Erased(Table(rib.Contents())), id);
      SessionRoutes.PartMeaning(routes, id);
    }
  }

  /** The steps that end a send, one kind at a time. */
  lemma TickDoneIs(v: S.View, g: nat, during: S.State, at: nat, ok: bool)
    ensures var w := v.(ops := v.ops - multiset{S.TickKeep(g, during, at)});
            S.OnDone(v, S.TickKeep(g, during, at), ok)
            == if v.state != during || v.gen != g then w else if ok then w.(lastKeep := at) else S.Torn(w)
  {
    hide S.Torn;
  }

  lemma StartDoneIs(v: S.View, g: nat, from: S.State, ok: bool)
    ensures var w := v.(ops := v.ops - multiset{S.StartSend(g, from)});
            S.OnDone(v, S.StartSend(g, from), ok)
            == if !ok && v.state == S.OpenSent && v.gen == g
               then w.(state := from, gen := v.gen + 1, sendPending := false, keepPending := false,
                       passiveOpen := false, passiveKeep := false)
               else w
  {
  }

  lemma PassiveOpenDoneIs(v: S.View, g: nat, ok: bool)
    ensures var w := v.(ops := v.ops - multiset{S.PassiveOpen(g)});
            S.OnDone(v, S.PassiveOpen(g), ok)
            == if !ok then S.Rollback(w, g)
               else if v.state == S.OpenConfirm && v.gen == g
               then w.(passiveOpen := false, ops := w.ops + multiset{S.PassiveGap(g)})
               else w
  {
    hide S.Rollback;
  }

  lemma ActiveKeepDoneIs(v: S.View, g: nat, ok: bool)
    ensures var w := v.(ops := v.ops - multiset{S.ActiveKeep(g)});
            S.OnDone(v, S.ActiveKeep(g), ok)
            == if !ok then S.Rollback(w, g)
               else if v.state != S.OpenConfirm || v.gen != g then w
               else if v.keepPending then S.Up(w.(keepSent := true))
               else w.(keepSent := true, sendPending := false)
  {
    hide S.Rollback, S.Up;
  }

  lemma PassiveKeepDoneIs(v: S.View, g: nat, ok: bool)
    ensures var w := v.(ops := v.ops - multiset{S.PassiveKeep(g)});
            S.OnDone(v, S.PassiveKeep(g), ok)
            == if !ok then S.Rollback(w, g)
               else if v.state != S.OpenConfirm || v.gen != g then w
               else if v.passiveKeep || v.keepPending then S.Up(w.(keepSent := true))
               else w.(keepSent := true, sendPending := false)
  {
    hide S.Rollback, S.Up;
  }

  lemma PassiveGapDoneIs(v: S.View, g: nat)
    ensures var w := v.(ops := v.ops - multiset{S.PassiveGap(g)});
            S.OnDone(v, S.PassiveGap(g), true)
            == if v.state == S.OpenConfirm && v.gen == g
               then w.(sendPending := true, ops := w.ops + multiset{S.PassiveKeep(g)})
               else w
  {
  }

  lemma AdvertiseDoneIs(v: S.View, g: nat, ok: bool)
    ensures var w := v.(ops := v.ops - multiset{S.Advertise(g)});
            S.OnDone(v, S.Advertise(g), ok)
            == if !ok && v.state == S.Established && v.gen == g then S.Torn(w) else w
  {
    hide S.Torn;
  }

  lemma DiscardDoneIs(v: S.View, g: nat, id: nat)
    ensures S.OnDone(v, S.Discard(g, id), true)
            == v.(ops := v.ops - multiset{S.Discard(g, id)}, routes := S.WithoutPeer(v.routes, id))
  {
  }

  lemma OutcomeKind(fate: Fate, peer: nat, body: UpdateBody, permit: Route -> bool, lost: set<Prefix>)
    ensures match fate
            case Taken => OutcomeOf(fate, peer, body, permit, lost).Applied?
            case Failed => OutcomeOf(fate, peer, body, permit, lost).RolledBack?
            case Rejected => OutcomeOf(fate, peer, body, permit, lost).Refused?
  {
  }

  lemma SettledRoutes(v: S.View, outcome: S.Outcome)
    ensures S.OnUpdate(v, outcome).routes
            == match outcome
               case Applied(withdrawn, announced) => S.Revised(v.routes, v.peerId, withdrawn, announced)
               case RolledBack(lost) => S.Without(v.routes, v.peerId, lost)
               case Refused(lost) => S.Without(v.routes, v.peerId, lost)
  {
    hide S.Revised, S.Without;
  }

  lemma NothingToReport(c: set<E>)
    ensures Informs(c, c, [])
  {
    hide AllComparable, BestMap;
  }

  lemma UpdateInforms(c: set<E>, d: set<E>, template: Route, nlri: seq<Prefix>, events: seq<Event>)
    ensures Welcomes(c, template, nlri)
            && (AllComparable(c) ==> AllComparable(d) && Mirror(BestMap(c), events) == BestMap(d)) ==>
              Informs(c, d, events)
  {
  }

  lemma EmptyOwn(others: set<nat>)
    ensures Own(map[], others) == map[]
  {
  }

  lemma RestIsTraced(config: S.Config)
    ensures S.IsRun(config, S.INIT, []) && S.After(config, S.INIT, []) == S.INIT
  {
  }

  lemma OthersTwice(c: set<E>, peer: nat)
    ensures OthersThan(OthersThan(c, peer), peer) == OthersThan(c, peer) && OthersThan(c, peer) <= c
  {
  }
}
