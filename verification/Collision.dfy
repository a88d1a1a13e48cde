/** Collision resolution between sessions on one event bus (src/fsm.c, section 6.8 of RFC 4271). A session
    that receives an acceptable OPEN first asks all others; publishing is one step with handling the OPEN. */
module Collision {
  import opened Session

  type World = seq<View>

  /** An OPEN that gets as far as the collision check. */
  predicate Asks(c: Config, v: View, a: Action) {
    && a.Receive? && a.packet.Open? && (PreOpen(v.state) || v.state == OpenSent)
    && OpenAcceptable(a.packet, c.localId) && ConfigValid(c) && (c.expectedAsn == 0 || a.packet.asn == c.expectedAsn)
  }

  predicate Confirming(v: View, id: nat) {
    v.state == OpenConfirm && v.peerId == id
  }

  /** Some other session is confirming this peer. */
  predicate Handled(w: World, i: nat, id: nat) {
    exists j :: 0 <= j < |w| && j != i && Confirming(w[j], id)
  }

  function WorldNext(cs: seq<Config>, w: World, i: nat, a: Action): (w': World)
    requires |cs| == |w| && i < |w|
    ensures |w'| == |w|
  {
    if Asks(cs[i], w[i], a) then
      var id := a.packet.bgpId;
      seq(|w|, j requires 0 <= j < |w| =>
        if j == i then Next(cs[i], w[i], Receive(a.packet, Handled(w, i, id)))
        else Next(cs[j], w[j], Collide(id)))
    else w[i := Next(cs[i], w[i], a)]
  }

  /** At most one session confirms any one peer. */
  predicate AtMostOne(w: World) {
    forall i, j :: 0 <= i < |w| && 0 <= j < |w| && w[i].state == OpenConfirm && Confirming(w[j], w[i].peerId) ==> i == j
  }

  /** A step other than handling an OPEN never starts to confirm a peer. */
  lemma ConfirmingComesFromOpen(c: Config, v: View, a: Action)
    requires !Asks(c, v, a) && (a.Done? && a.op.StartSend? ==> PreOpen(a.op.from))
    ensures var x := Next(c, v, a);
            x.state == OpenConfirm ==> v.state == OpenConfirm && x.peerId == v.peerId
  {
    hide Elapsed, KeepaliveTime, OnDone, OnPacket, OpenAcceptable, ConfigValid;
    if a.Done? {
      DoneConfirms(v, a.op, a.ok);
    } else if a.Receive? {
      PacketConfirms(c, v, a.packet, a.handled);
    }
  }

  lemma LaterConfirms(c: Config, v: View, p: Packet)
    ensures OnEstablished(v, p).state == OpenConfirm ==> v.state == OpenConfirm
    ensures var x := OnOpenConfirm(c, v, p);
            v.state == OpenConfirm && x.state == OpenConfirm ==> x.peerId == v.peerId
  {
    hide OpenAcceptable, OnEstablished, Aside;
    EstablishedIs(v, p);
    AsideConfirms(v, OnEstablished(v, p));
  }

  lemma AsideConfirms(v: View, w: View)
    requires Aside(v, w)
    ensures w.state == v.state || w.state == Idle
  {
  }

  lemma RefusedOpen(c: Config, v: View, p: Packet, handled: bool, passive: bool)
    requires p.Open?
    requires !(OpenAcceptable(p, c.localId) && ConfigValid(c) && (c.expectedAsn == 0 || p.asn == c.expectedAsn))
    ensures OnOpen(c, v, p, handled, passive).state == Idle
  {
    hide OpenAcceptable, ConfigValid, Confirmed;
  }

  lemma PacketConfirms(c: Config, v: View, p: Packet, handled: bool)
    requires !Asks(c, v, Receive(p, handled))
    ensures var x := OnPacket(c, v, p, handled);
            x.state == OpenConfirm ==> v.state == OpenConfirm && x.peerId == v.peerId
  {
    hide OpenAcceptable, ConfigValid, OnOpen, OnOpenConfirm, OnEstablished;
    LaterConfirms(c, v, p);
    if p.Open? && (PreOpen(v.state) || v.state == OpenSent) {
      RefusedOpen(c, v, p, handled, v.state != OpenSent);
    }
  }

  lemma DoneConfirms(v: View, op: Op, ok: bool)
    requires op.StartSend? ==> PreOpen(op.from)
    ensures var x := OnDone(v, op, ok);
            x.state == OpenConfirm ==> v.state == OpenConfirm && x.peerId == v.peerId
  {
    hide WithoutPeer, Up, Rollback, Torn;
    var w := v.(ops := v.ops - multiset{op});
    EndsConfirm(w, op.gen);
    EndsConfirm(w.(keepSent := true), op.gen);
  }

  lemma EndsConfirm(v: View, gen: nat)
    ensures Torn(v).state != OpenConfirm && Up(v).state != OpenConfirm
    ensures Rollback(v, gen) == v || Rollback(v, gen).state != OpenConfirm
  {
  }

  lemma AskedOutcome(c: Config, v: View, a: Action, handled: bool)
    requires Asks(c, v, a)
    ensures var x := Next(c, v, Receive(a.packet, handled));
            && (x.state == OpenConfirm <==> !(handled && c.localId > a.packet.bgpId))
            && (x.state == OpenConfirm ==> x.peerId == a.packet.bgpId)
  {
    hide OpenAcceptable, ConfigValid, Negotiate;
  }

  lemma TellOutcome(c: Config, v: View, id: nat)
    ensures var x := Next(c, v, Collide(id));
            && (x.state == OpenConfirm <==> v.state == OpenConfirm && !(v.peerId == id && c.localId <= id))
            && (x.state == OpenConfirm ==> x.peerId == v.peerId)
  {
  }

  /** The local ids of all sessions lie on the same side of a peer's id. */
  predicate SameSide(cs: seq<Config>, id: nat) {
    forall i, j :: 0 <= i < |cs| && 0 <= j < |cs| ==> (cs[i].localId <= id <==> cs[j].localId <= id)
  }

  /** A session of this configuration can come to confirm a peer of this id. */
  predicate CanConfirm(c: Config, id: nat) {
    ConfigValid(c) && ValidPeerId(id, c.localId)
  }

  /** Two sessions that can confirm a peer of this id have local ids on different sides of it. */
  predicate Clash(cs: seq<Config>, id: nat) {
    exists i, j :: 0 <= i < |cs| && 0 <= j < |cs| && Mixed(cs[i], cs[j], id)
  }

  predicate Mixed(c: Config, d: Config, id: nat) {
    CanConfirm(c, id) && CanConfirm(d, id) && c.localId <= id < d.localId
  }

  /** Sessions confirm only peers that they can. */
  predicate Fair(cs: seq<Config>, w: World)
    requires |cs| == |w|
  {
    forall i :: 0 <= i < |w| && w[i].state == OpenConfirm ==> CanConfirm(cs[i], w[i].peerId)
  }

  lemma AskerCanConfirm(c: Config, v: View, a: Action)
    requires Asks(c, v, a)
    ensures CanConfirm(c, a.packet.bgpId)
  {
    hide ValidPeerId, ConfigValid;
  }

  lemma StepKeepsAtMostOne(cs: seq<Config>, w: World, i: nat, a: Action)
    requires |cs| == |w| && i < |w| && AtMostOne(w) && Fair(cs, w)
    requires a.Done? && a.op.StartSend? ==> PreOpen(a.op.from)
    requires a.Receive? && a.packet.Open? ==> !Clash(cs, a.packet.bgpId)
    ensures AtMostOne(WorldNext(cs, w, i, a)) && Fair(cs, WorldNext(cs, w, i, a))
  {
    hide Next, Asks, CanConfirm;
    var w' := WorldNext(cs, w, i, a);
    if Asks(cs[i], w[i], a) {
      var id := AskedId(cs[i], w[i], a);
      AskedOutcome(cs[i], w[i], a, Handled(w, i, id));
      AskerCanConfirm(cs[i], w[i], a);
      assert forall j :: 0 <= j < |w| && CanConfirm(cs[j], id) ==> !Mixed(cs[i], cs[j], id);
      forall j | 0 <= j < |w| && j != i
        ensures w'[j].state == OpenConfirm <==> w[j].state == OpenConfirm && !(w[j].peerId == id && cs[j].localId <= id)
        ensures w'[j].state == OpenConfirm ==> w'[j].peerId == w[j].peerId
      {
        TellOutcome(cs[j], w[j], id);
      }
    } else {
      ConfirmingComesFromOpen(cs[i], w[i], a);
    }
  }

  lemma AskedId(c: Config, v: View, a: Action) returns (id: nat)
    requires Asks(c, v, a)
    ensures a.Receive? && a.packet.Open? && id == a.packet.bgpId
  {
    id := a.packet.bgpId;
  }

  /** When a new OPEN meets a session already confirming that peer, the new one goes on exactly if the local
      id is not above the peer's, and the old one exactly if it is: with ids on one side, just one is left. */
  lemma CollisionOutcome(cs: seq<Config>, w: World, i: nat, j: nat, a: Action)
    requires |cs| == |w| && i < |w| && j < |w| && i != j
    requires Asks(cs[i], w[i], a) && Confirming(w[j], a.packet.bgpId)
    ensures var w' := WorldNext(cs, w, i, a);
            var id := a.packet.bgpId;
            && (Confirming(w'[i], id) <==> cs[i].localId <= id)
            && (Confirming(w'[j], id) <==> cs[j].localId > id)
            && (SameSide(cs, id) ==> (Confirming(w'[i], id) <==> !Confirming(w'[j], id)))
  {
    var id := a.packet.bgpId;
    assert Handled(w, i, id);
    AskedOutcome(cs[i], w[i], a, true);
    TellOutcome(cs[j], w[j], id);
    hide Next;
  }

  // ----- runs of the whole world

  /** Steps of the sessions in some order; in the world only the bus delivers collision notices. */
  predicate IsWorldRun(cs: seq<Config>, w: World, run: seq<(nat, Action)>)
    requires |cs| == |w|
    decreases |run|
  {
    run == [] || (&& run[0].0 < |w| && !run[0].1.Collide? && Enabled(w[run[0].0], run[0].1)
                  && IsWorldRun(cs, WorldNext(cs, w, run[0].0, run[0].1), run[1..]))
  }

  function WorldAfter(cs: seq<Config>, w: World, run: seq<(nat, Action)>): (w': World)
    requires |cs| == |w| && IsWorldRun(cs, w, run)
    ensures |w'| == |w|
    decreases |run|
  {
    if run == [] then w else WorldAfter(cs, WorldNext(cs, w, run[0].0, run[0].1), run[1..])
  }

  predicate AllInv(cs: seq<Config>, w: World)
    requires |cs| == |w|
  {
    forall i :: 0 <= i < |w| ==> Inv(cs[i], w[i])
  }

  lemma WorldStepKeeps(cs: seq<Config>, w: World, i: nat, a: Action)
    requires |cs| == |w| && i < |w| && AllInv(cs, w) && Enabled(w[i], a)
    ensures AllInv(cs, WorldNext(cs, w, i, a))
  {
    hide Inv, Next, Asks;
    var w' := WorldNext(cs, w, i, a);
    NextKeeps(cs[i], w[i], a);
    if Asks(cs[i], w[i], a) {
      var id := AskedId(cs[i], w[i], a);
      forall j | 0 <= j < |w| ensures Inv(cs[j], w'[j]) {
        NextKeeps(cs[j], w[j], if j == i then Receive(a.packet, Handled(w, i, id)) else Collide(id));
      }
    }
  }

  /** No OPEN of a run comes from a peer over which sessions clash. */
  predicate NoClashIn(cs: seq<Config>, run: seq<(nat, Action)>) {
    forall k :: 0 <= k < |run| && run[k].1.Receive? && run[k].1.packet.Open? ==> !Clash(cs, run[k].1.packet.bgpId)
  }

  lemma {:induction false} AtMostOneAlways(cs: seq<Config>, w: World, run: seq<(nat, Action)>)
    requires |cs| == |w| && AllInv(cs, w) && AtMostOne(w) && Fair(cs, w) && IsWorldRun(cs, w, run)
    requires NoClashIn(cs, run)
    ensures AllInv(cs, WorldAfter(cs, w, run)) && AtMostOne(WorldAfter(cs, w, run))
    decreases |run|
  {
    hide AllInv, AtMostOne, WorldNext, Clash, Fair;
    if run != [] {
      var (i, a) := run[0];
      WorldStepKeeps(cs, w, i, a);
      StartsFromPreOpen(cs, w, i, a);
      StepKeepsAtMostOne(cs, w, i, a);
      assert forall k :: 0 <= k < |run[1..]| ==> run[1..][k] == run[k + 1];
      AtMostOneAlways(cs, WorldNext(cs, w, i, a), run[1..]);
    }
  }

  lemma StartsFromPreOpen(cs: seq<Config>, w: World, i: nat, a: Action)
    requires |cs| == |w| && i < |w| && AllInv(cs, w) && Enabled(w[i], a)
    ensures a.Done? && a.op.StartSend? ==> PreOpen(a.op.from)
  {
    assert Inv(cs[i], w[i]);
  }

  /** All sessions at rest. */
  function Rest(cs: seq<Config>): (w: World)
    ensures |w| == |cs|
  {
    seq(|cs|, k => INIT)
  }

  /** Sessions started from rest: at most one is ever confirming any peer, as long as none of the OPENs
      received comes from a peer over which they clash. */
  lemma OneConfirmationPerPeer(cs: seq<Config>, run: seq<(nat, Action)>)
    requires IsWorldRun(cs, Rest(cs), run) && NoClashIn(cs, run)
    ensures AtMostOne(WorldAfter(cs, Rest(cs), run))
  {
    AtMostOneAlways(cs, Rest(cs), run);
  }

  /** Sessions of one speaker never clash. */
  lemma OneSpeakerNeverClashes(cs: seq<Config>, id: nat)
    requires forall i, j :: 0 <= i < |cs| && 0 <= j < |cs| ==> cs[i].localId == cs[j].localId
    ensures !Clash(cs, id)
  {
    hide CanConfirm;
  }

  /** Two sessions whose ids lie on different sides of the peer's, started from rest among any others, both
      keep confirming it. */
  lemma {:induction false} MixedIdsKeepBoth(cs: seq<Config>, i: nat, j: nat, open: Packet, other: Packet)
    requires i < |cs| && j < |cs| && Asks(cs[i], INIT, Receive(open, false)) && Asks(cs[j], INIT, Receive(other, false))
    requires other.bgpId == open.bgpId && cs[i].localId <= open.bgpId < cs[j].localId
    ensures var run := [(j, Receive(other, false)), (i, Receive(open, false))];
            && IsWorldRun(cs, Rest(cs), run)
            && Confirming(WorldAfter(cs, Rest(cs), run)[i], open.bgpId)
            && Confirming(WorldAfter(cs, Rest(cs), run)[j], open.bgpId)
            && !AtMostOne(WorldAfter(cs, Rest(cs), run))
  {
    var a, b := Receive(open, false), Receive(other, false);
    var rest := Rest(cs);
    var w := WorldNext(cs, rest, j, b);
    assert !Handled(rest, j, open.bgpId);
    AskedOutcome(cs[j], rest[j], b, false);
    assert w[i] == Next(cs[i], INIT, Collide(open.bgpId)) == INIT;
    CollisionOutcome(cs, w, i, j, a);
    RunOfTwo(cs, rest, j, b, i, a);
  }

  /** Some run from rest ends with two sessions confirming one peer. */
  ghost predicate CanConfirmTwice(cs: seq<Config>) {
    exists run :: IsWorldRun(cs, Rest(cs), run) && !AtMostOne(WorldAfter(cs, Rest(cs), run))
  }

  /** That is so exactly when the configurations clash over some peer. */
  lemma {:induction false} ConfirmTwiceIff(cs: seq<Config>)
    ensures CanConfirmTwice(cs) <==> exists id :: Clash(cs, id)
  {
    hide AtMostOne, IsWorldRun, WorldAfter, Rest;
    if exists id :: Clash(cs, id) {
      var id :| Clash(cs, id);
      var i, j :| 0 <= i < |cs| && 0 <= j < |cs| && Mixed(cs[i], cs[j], id);
      MixedIdsKeepBoth(cs, i, j, Open(4, 0, id, cs[i].expectedAsn), Open(4, 0, id, cs[j].expectedAsn));
    }
    hide Clash;
    if CanConfirmTwice(cs) {
      var run :| IsWorldRun(cs, Rest(cs), run) && !AtMostOne(WorldAfter(cs, Rest(cs), run));
      if NoClashIn(cs, run) {
        OneConfirmationPerPeer(cs, run);
      }
    }
  }

  lemma RunOfTwo(cs: seq<Config>, w: World, i: nat, a: Action, j: nat, b: Action)
    requires |cs| == |w| && i < |w| && j < |w| && !a.Collide? && !b.Collide?
    requires Enabled(w[i], a) && Enabled(WorldNext(cs, w, i, a)[j], b)
    ensures IsWorldRun(cs, w, [(i, a), (j, b)])
    ensures WorldAfter(cs, w, [(i, a), (j, b)]) == WorldNext(cs, WorldNext(cs, w, i, a), j, b)
  {
    hide WorldNext, Enabled;
    var run := [(i, a), (j, b)];
    assert run[1..] == [(j, b)];
    RunOfOne(cs, WorldNext(cs, w, i, a), j, b);
  }

  lemma RunOfOne(cs: seq<Config>, w: World, i: nat, a: Action)
    requires |cs| == |w| && i < |w| && !a.Collide? && Enabled(w[i], a)
    ensures IsWorldRun(cs, w, [(i, a)]) && WorldAfter(cs, w, [(i, a)]) == WorldNext(cs, w, i, a)
  {
    hide WorldNext, Enabled;
    var none: seq<(nat, Action)> := [(i, a)][1..];
    assert none == [];
  }
}
