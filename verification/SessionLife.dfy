/** How long a handshake or session lives, and on what terms (src/fsm.c), told by the steps of a run alone. */
module SessionLife {
  import opened Session
  import opened SessionHistory

  /** The numbers of an OPEN are acceptable to a speaker. */
  predicate Sound(c: Config, version: nat, holdTime: nat, bgpId: nat) {
    && version == 4 && holdTime != 1 && holdTime != 2
    && bgpId != 0 && bgpId != c.localId
    && var first := bgpId / 0x100_0000 % 256;
    first != 0 && first != 127 && first < 224
  }

  /** An OPEN that the configuration lets through while no handshake is running. */
  predicate Begins(c: Config, v: View, a: Action) {
    && (v.state == Idle || v.state == Connect || v.state == Active || v.state == OpenSent)
    && a.Receive? && a.packet.Open? && Sound(c, a.packet.version, a.packet.holdTime, a.packet.bgpId)
    && c.localId != 0 && c.holdTime != 1 && c.holdTime != 2 && (!c.fourByte ==> c.localAsn < 65536)
    && (c.expectedAsn != 0 ==> a.packet.asn == c.expectedAsn)
    && (a.handled ==> c.localId <= a.packet.bgpId)
  }

  /** A packet that a running handshake or session bears. */
  predicate Borne(c: Config, v: View, p: Packet) {
    match v.state
    case OpenConfirm => p.Keepalive? || (p.Open? && v.passiveOpen && Sound(c, p.version, p.holdTime, p.bgpId))
    case Established => p.Keepalive? || (p.Update? && !p.outcome.Refused?)
    case _ => true
  }

  /** A send on whose success the handshake or session depends. */
  predicate Vital(v: View, op: Op) {
    match op
    case ActiveKeep(g) => v.state == OpenConfirm && g == v.gen
    case PassiveOpen(g) => v.state == OpenConfirm && g == v.gen
    case PassiveKeep(g) => v.state == OpenConfirm && g == v.gen
    case TickKeep(g, during, _) => during == v.state && g == v.gen
    case Advertise(g) => v.state == Established && g == v.gen
    case _ => false
  }

  /** The hold time has passed since the peer was heard. */
  predicate Expires(v: View, now: nat) {
    v.clock && v.hold > 0 && Elapsed(now, v.lastRx) >= v.hold * 1000
  }

  /** A step that does not end a running handshake or session. */
  predicate Harmless(c: Config, v: View, a: Action) {
    match a
    case EnterPreOpen(_) => true
    case Start => true
    case Reset => false
    case BadBytes => false
    case Receive(p, _) => Borne(c, v, p)
    case Collide(id) => !(v.state == OpenConfirm && id == v.peerId && c.localId <= id)
    case Tick(now) => !Expires(v, now)
    case Done(op, ok) => ok || !Vital(v, op)
  }

  /** The same handshake, or the session it has become, on the same terms. */
  predicate Lives(v: View, w: View) {
    && HoldActive(w.state) && Attempt(w) == Attempt(v)
    && w.peerId == v.peerId && w.peerAsn == v.peerAsn && w.hold == v.hold && w.peerHold == v.peerHold
  }

  predicate Over(w: View) {
    PreOpen(w.state)
  }

  /** The terms that an OPEN sets. */
  predicate OnTerms(c: Config, w: View, open: Packet)
    requires open.Open?
  {
    && w.peerId == open.bgpId && w.peerAsn == open.asn && w.peerHold == open.holdTime
    && w.hold == if c.holdTime == 0 || open.holdTime == 0 then 0
                 else if c.holdTime <= open.holdTime then c.holdTime else open.holdTime
  }

  // ----- one step of a running handshake or session

  lemma TornIsOver(v: View)
    ensures Over(Torn(v))
  {
  }

  lemma SoundIff(c: Config, p: Packet)
    requires p.Open?
    ensures Sound(c, p.version, p.holdTime, p.bgpId) <==> OpenAcceptable(p, c.localId)
  {
  }

  lemma ConfirmLife(c: Config, v: View, p: Packet)
    requires v.state == OpenConfirm
    ensures if Borne(c, v, p) then Lives(v, OnOpenConfirm(c, v, p)) else Over(OnOpenConfirm(c, v, p))
  {
    if p.Open? {
      SoundIff(c, p);
    }
    hide OpenAcceptable, Sound, Torn;
    TornIsOver(v);
  }

  lemma AsideLife(v: View, w: View)
    requires v.state == Established && Aside(v, w)
    ensures w.state == Established ==> Lives(v, w)
    ensures w.state == Established || Over(w)
  {
  }

  lemma EstablishedLife(c: Config, v: View, p: Packet)
    requires v.state == Established
    ensures if Borne(c, v, p) then Lives(v, OnEstablished(v, p)) else Over(OnEstablished(v, p))
  {
    EstablishedStays(v, p);
    hide OnEstablished, Aside;
    EstablishedIs(v, p);
    AsideLife(v, OnEstablished(v, p));
  }

  lemma EstablishedStays(v: View, p: Packet)
    requires v.state == Established
    ensures OnEstablished(v, p).state == Established <==> p.Keepalive? || (p.Update? && !p.outcome.Refused?)
  {
    hide Without, Revised, Cleared;
    assert Cleared(v, Idle).state == Idle by {
      ClearedIs(v, Idle);
    }
    ClearedIs(v.(ops := v.ops + multiset{Discard(v.gen, v.peerId)}), Idle);
  }

  lemma PacketLife(c: Config, v: View, p: Packet, handled: bool)
    requires HoldActive(v.state)
    ensures if Borne(c, v, p) then Lives(v, OnPacket(c, v, p, handled)) else Over(OnPacket(c, v, p, handled))
  {
    hide OnOpenConfirm, OnEstablished, Torn, Lives;
    TornIsOver(v);
    if v.state == OpenConfirm {
      ConfirmLife(c, v, p);
    } else {
      EstablishedLife(c, v, p);
    }
  }

  lemma ClockApart(v: View, now: nat, ops: multiset<Op>)
    requires HoldActive(v.state)
    ensures Lives(v, v.(nowMs := now, lastRx := now, lastKeep := now, clock := true))
    ensures Lives(v, v.(nowMs := now)) && Lives(v, v.(nowMs := now).(ops := ops)) && Over(Torn(v.(nowMs := now)))
  {
    TornIsOver(v.(nowMs := now));
    hide Torn, Over;
  }

  lemma TickLife(c: Config, v: View, now: nat)
    requires HoldActive(v.state)
    ensures if Expires(v, now) then Over(OnTick(c, v, now)) else Lives(v, OnTick(c, v, now))
  {
    hide Elapsed, KeepaliveTime, Torn, Lives, Over;
    ClockApart(v, now, v.ops + multiset{TickKeep(v.gen, v.state, now)});
  }

  lemma KeepLife(v: View, op: Op, ok: bool)
    requires v.state == OpenConfirm && (op.ActiveKeep? || op.PassiveKeep?)
    ensures var x := OnDone(v, op, ok); if ok || !Vital(v, op) then Lives(v, x) else Over(x)
  {
  }

  lemma PassiveLife(v: View, op: Op, ok: bool)
    requires v.state == OpenConfirm && (op.PassiveOpen? || op.PassiveGap?)
    ensures var x := OnDone(v, op, ok); if ok || !Vital(v, op) then Lives(v, x) else Over(x)
  {
  }

  lemma StaleLife(v: View, op: Op, ok: bool)
    requires v.state == Established && Handshake(op) && (op.PassiveGap? || op.gen + 1 < v.gen)
    ensures Lives(v, OnDone(v, op, ok)) && !Vital(v, op)
  {
  }

  lemma LateStartLife(v: View, op: Op, ok: bool)
    requires HoldActive(v.state) && (op.StartSend? || op.Discard?)
    ensures Lives(v, OnDone(v, op, ok)) && !Vital(v, op)
  {
    hide WithoutPeer;
  }

  lemma OpsApart(v: View, ops: multiset<Op>, at: nat)
    requires HoldActive(v.state)
    ensures Lives(v, v.(ops := ops)) && Lives(v, v.(ops := ops).(lastKeep := at)) && Over(Torn(v.(ops := ops)))
  {
    TornIsOver(v.(ops := ops));
    hide Torn, Over;
  }

  lemma TickSendLife(v: View, op: Op, ok: bool)
    requires HoldActive(v.state) && op.TickKeep?
    ensures var x := OnDone(v, op, ok); if ok || !Vital(v, op) then Lives(v, x) else Over(x)
  {
    hide Torn, Lives, Over, Up, Rollback, WithoutPeer;
    OpsApart(v, v.ops - multiset{op}, op.at);
  }

  lemma AdvertiseLife(v: View, op: Op, ok: bool)
    requires HoldActive(v.state) && op.Advertise?
    ensures var x := OnDone(v, op, ok); if ok || !Vital(v, op) then Lives(v, x) else Over(x)
  {
    hide Torn, Lives, Over, Up, Rollback, WithoutPeer;
    OpsApart(v, v.ops - multiset{op}, 0);
  }

  lemma DoneLife(v: View, op: Op, ok: bool)
    requires HoldActive(v.state) && UpInv(v) && op in v.ops
    ensures var x := OnDone(v, op, ok); if ok || !Vital(v, op) then Lives(v, x) else Over(x)
  {
    hide OnDone, Lives, Over;
    if op.StartSend? || op.Discard? {
      LateStartLife(v, op, ok);
    } else if op.TickKeep? {
      TickSendLife(v, op, ok);
    } else if op.Advertise? {
      AdvertiseLife(v, op, ok);
    } else if v.state == Established {
      StaleLife(v, op, ok);
    } else if op.PassiveOpen? || op.PassiveGap? {
      PassiveLife(v, op, ok);
    } else {
      KeepLife(v, op, ok);
    }
  }

  /** A step ends a running handshake or session or leaves it on its terms, exactly as said. */
  lemma StepLife(c: Config, v: View, a: Action)
    requires HoldActive(v.state) && UpInv(v) && Enabled(v, a)
    ensures if Harmless(c, v, a) then Lives(v, Next(c, v, a)) else Over(Next(c, v, a))
  {
    hide OnPacket, OnTick, OnDone, Torn, ConfigValid, UpInv, Borne, Vital, Expires;
    TornIsOver(v);
    match a
    case Receive(p, handled) => PacketLife(c, v, p, handled);
    case Tick(now) => TickLife(c, v, now);
    case Done(op, ok) => DoneLife(v, op, ok);
    case _ =>
  }

  // ----- one step outside

  lemma OpenBegins(c: Config, v: View, p: Packet, handled: bool, passive: bool)
    requires p.Open? && (PreOpen(v.state) || v.state == OpenSent)
    ensures var w := OnOpen(c, v, p, handled, passive);
            && (HoldActive(w.state) <==> Begins(c, v, Receive(p, handled)))
            && (HoldActive(w.state) ==> OnTerms(c, w, p) && Attempt(w) == v.gen + 1)
  {
    SoundIff(c, p);
    hide OpenAcceptable, Sound, Torn;
    TornIsOver(v);
  }

  lemma PacketBegins(c: Config, v: View, p: Packet, handled: bool)
    requires !HoldActive(v.state)
    ensures var a, w := Receive(p, handled), OnPacket(c, v, p, handled);
            && (HoldActive(w.state) <==> Begins(c, v, a))
            && (HoldActive(w.state) ==> OnTerms(c, w, p) && Attempt(w) == v.gen + 1)
  {
    hide OnOpen, Torn, Sound;
    TornIsOver(v);
    if p.Open? {
      OpenBegins(c, v, p, handled, v.state != OpenSent);
    }
  }

  lemma DoneOutside(v: View, op: Op, ok: bool)
    requires !HoldActive(v.state) && (op.StartSend? ==> PreOpen(op.from))
    ensures !HoldActive(OnDone(v, op, ok).state)
  {
  }

  /** Outside, a step begins a handshake exactly if it is such an OPEN, and then on its terms. */
  lemma StepBegins(c: Config, v: View, a: Action)
    requires !HoldActive(v.state) && OpsInv(v) && Enabled(v, a)
    ensures var w := Next(c, v, a);
            && (HoldActive(w.state) <==> Begins(c, v, a))
            && (HoldActive(w.state) ==> OnTerms(c, w, a.packet) && Attempt(w) == v.gen + 1)
  {
    hide OnPacket, OnTick, OnDone, ConfigValid, Sound, OpsInv;
    match a
    case Receive(p, handled) => PacketBegins(c, v, p, handled);
    case Tick(now) => TickIdles(c, v, now);
    case Done(op, ok) =>
      StartedBefore(v, op);
      DoneOutside(v, op, ok);
    case _ =>
  }

  // ----- runs

  /** Step i begins a handshake and no later step is harmful. */
  predicate LivesSince(c: Config, run: seq<Action>, i: nat)
    requires i < |run|
  {
    && Begins(c, After(c, INIT, run[..i]), run[i])
    && forall j :: i < j < |run| ==> HarmlessAt(c, run, j)
  }

  predicate HarmlessAt(c: Config, run: seq<Action>, j: nat)
    requires j < |run|
  {
    Harmless(c, After(c, INIT, run[..j]), run[j])
  }

  lemma LivesLonger(c: Config, run: seq<Action>, i: nat)
    requires i + 1 < |run|
    ensures var n := |run| - 1;
            LivesSince(c, run, i) <==> LivesSince(c, run[..n], i) && HarmlessAt(c, run, n)
  {
    hide Begins, Harmless, After;
    var n := |run| - 1;
    var r := run[..n];
    forall j | 0 <= j < n ensures r[..j] == run[..j] && r[j] == run[j] {
    }
    forall j | 0 <= j < n ensures HarmlessAt(c, r, j) <==> HarmlessAt(c, run, j) {
    }
    hide HarmlessAt;
  }

  lemma LivesLast(c: Config, run: seq<Action>)
    requires run != []
    ensures var n := |run| - 1; LivesSince(c, run, n) <==> Begins(c, After(c, INIT, run[..n]), run[n])
  {
  }

  predicate IsOpen(a: Action) {
    a.Receive? && a.packet.Open?
  }

  predicate SameTerms(v: View, w: View) {
    w.peerId == v.peerId && w.peerAsn == v.peerAsn && w.hold == v.hold && w.peerHold == v.peerHold
  }

  /** The last step of a run, in one place. */
  lemma AliveStep(c: Config, v: View, a: Action)
    requires OpsInv(v) && UpInv(v) && Enabled(v, a)
    ensures var w := Next(c, v, a);
            && (HoldActive(w.state) <==> Begins(c, v, a) || (HoldActive(v.state) && Harmless(c, v, a)))
            && (Begins(c, v, a) ==> !HoldActive(v.state) && IsOpen(a) && OnTerms(c, w, a.packet))
            && (HoldActive(v.state) && Harmless(c, v, a) ==> SameTerms(v, w))
  {
    hide Next, Enabled, OpsInv, UpInv, Sound, Harmless, OnTerms;
    if HoldActive(v.state) {
      StepLife(c, v, a);
    } else {
      StepBegins(c, v, a);
    }
  }

  lemma TermsKeep(c: Config, v: View, w: View, open: Packet)
    requires open.Open? && SameTerms(v, w)
    ensures OnTerms(c, v, open) <==> OnTerms(c, w, open)
  {
  }

  /** The same of the whole run: what began before the last step goes on if that step is harmless. */
  lemma LastLives(c: Config, run: seq<Action>)
    requires run != []
    ensures var n := |run| - 1;
            var v := After(c, INIT, run[..n]);
            && (LivesSince(c, run, n) <==> Begins(c, v, run[n]))
            && forall i :: 0 <= i < n ==>
                 (LivesSince(c, run, i) <==> LivesSince(c, run[..n], i) && Harmless(c, v, run[n]))
  {
    var n := |run| - 1;
    LivesLast(c, run);
    forall i | 0 <= i < n
      ensures LivesSince(c, run, i) <==> LivesSince(c, run[..n], i) && HarmlessAt(c, run, n)
    {
      LivesLonger(c, run, i);
    }
    hide LivesSince, Begins, Harmless;
  }

  /** In every run, a handshake or session is alive if and only if some step began it and no later step was harmful;
      and then it is on the terms of the OPEN of that step. */
  lemma {:induction false} AliveIff(c: Config, run: seq<Action>)
    requires IsRun(c, INIT, run)
    ensures HoldActive(After(c, INIT, run).state) <==> exists i :: 0 <= i < |run| && LivesSince(c, run, i)
    ensures forall i :: 0 <= i < |run| && LivesSince(c, run, i) ==>
              IsOpen(run[i]) && OnTerms(c, After(c, INIT, run), run[i].packet)
  {
    hide Next, Enabled, OpsInv, FlagsInv, UpInv, Begins, Harmless, OnTerms, LivesSince, SameTerms;
    if run != [] {
      LastStep(c, run);
      hide After, IsRun, Inv;
      var n := |run| - 1;
      var r, v, w := run[..n], After(c, INIT, run[..n]), After(c, INIT, run);
      AliveIff(c, r);
      LastLives(c, run);
      AliveStep(c, v, run[n]);
      forall i | 0 <= i < n && LivesSince(c, run, i) ensures IsOpen(run[i]) && OnTerms(c, w, run[i].packet) {
        assert LivesSince(c, r, i) && r[i] == run[i];
        TermsKeep(c, v, w, run[i].packet);
      }
      if HoldActive(v.state) && Harmless(c, v, run[n]) {
        var i :| 0 <= i < n && LivesSince(c, r, i);
        assert LivesSince(c, run, i);
      }
    }
  }
}
