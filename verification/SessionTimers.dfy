/** The hold and keepalive timers of a session (src/fsm.c, sections 4.4 and 6.5 of RFC 4271) over runs
    whose clock does not go back. Timers are only looked at by ticks, so times are tick times. */
module SessionTimers {
  import opened Session
  import opened SessionHistory

  const CLOCK_END := 0x1_0000_0000_0000_0000

  /** No tick goes back in time or past the end of the 64-bit clock. */
  predicate Monotone(c: Config, v: View, run: seq<Action>)
    decreases |run|
  {
    run == [] || (OnTime(v, run[0]) && Monotone(c, Next(c, v, run[0]), run[1..]))
  }

  predicate OnTime(v: View, a: Action) {
    a.Tick? ==> v.nowMs <= a.now < CLOCK_END
  }

  /** No remembered time is in the future. */
  predicate TimerInv(v: View) {
    && v.nowMs < CLOCK_END
    && (v.clock ==> v.lastRx <= v.nowMs && v.lastKeep <= v.nowMs)
    && (forall op :: op in v.ops && op.TickKeep? ==> op.at <= v.nowMs)
  }

  /** A step that leaves the clock alone and begins no tick send. */
  predicate Follows(v: View, w: View) {
    && w.nowMs == v.nowMs
    && (w.clock ==> v.clock && (w.lastRx == v.lastRx || w.lastRx == v.nowMs) && w.lastKeep == v.lastKeep)
    && (forall op :: op in w.ops && op.TickKeep? ==> op in v.ops)
  }

  lemma FollowsKeeps(v: View, w: View)
    requires TimerInv(v) && Follows(v, w)
    ensures TimerInv(w)
  {
  }

  lemma CommonFollows(v: View, s: State)
    ensures Follows(v, Cleared(v, s)) && Follows(v, Torn(v)) && Follows(v, Up(v)) && Follows(v, MarkRx(v))
  {
  }

  lemma OpenFollows(c: Config, v: View, p: Packet, handled: bool, passive: bool)
    requires p.Open?
    ensures Follows(v, OnOpen(c, v, p, handled, passive))
  {
    CommonFollows(v, Idle);
    hide OpenAcceptable, ConfigValid, Negotiate, Torn;
  }

  lemma AsideFollows(v: View, w: View)
    requires Aside(v, w)
    ensures Follows(v, w)
  {
    hide Torn;
    CommonFollows(v, Idle);
  }

  lemma LaterFollows(c: Config, v: View, p: Packet)
    ensures v.state == OpenConfirm ==> Follows(v, OnOpenConfirm(c, v, p))
    ensures v.state == Established ==> Follows(v, OnEstablished(v, p))
  {
    hide OpenAcceptable, Torn, Cleared, OnEstablished, Aside;
    CommonFollows(v, Idle);
    EstablishedIs(v, p);
    AsideFollows(v, OnEstablished(v, p));
  }

  lemma PacketTimes(c: Config, v: View, p: Packet, handled: bool)
    requires TimerInv(v)
    ensures TimerInv(OnPacket(c, v, p, handled))
  {
    hide OnOpen, OnOpenConfirm, OnEstablished, Torn, TimerInv;
    CommonFollows(v, Idle);
    if p.Open? {
      OpenFollows(c, v, p, handled, v.state != OpenSent);
    }
    LaterFollows(c, v, p);
    FollowsKeeps(v, OnPacket(c, v, p, handled));
  }

  /** What a send that is not a tick's can turn the state into. */
  lemma DoneOutcomes(w: View, from: State, g: nat)
    ensures Follows(w, w) && Follows(w, w.(keepSent := true, sendPending := false))
            && Follows(w, Up(w.(keepSent := true)))
    ensures Follows(w, w.(state := from, gen := w.gen + 1, sendPending := false, keepPending := false,
                          passiveOpen := false, passiveKeep := false))
    ensures Follows(w, w.(passiveOpen := false, ops := w.ops + multiset{PassiveGap(g)}))
    ensures Follows(w, w.(sendPending := true, ops := w.ops + multiset{PassiveKeep(g)}))
    ensures Follows(w, Rollback(w, g))
  {
    CommonFollows(w, Idle);
    CommonFollows(w.(keepSent := true), Idle);
  }

  lemma DroppedFollows(v: View, op: Op, x: View)
    requires Follows(v.(ops := v.ops - multiset{op}), x)
    ensures Follows(v, x)
  {
    assert forall p :: p in v.ops - multiset{op} ==> p in v.ops;
  }

  lemma HandshakeFollows(v: View, op: Op, ok: bool)
    requires !op.TickKeep?
    ensures Follows(v, OnDone(v, op, ok))
  {
    hide Follows, Torn, Up, Cleared, Rollback;
    var w := v.(ops := v.ops - multiset{op});
    CommonFollows(w, Idle);
    DoneOutcomes(w, if op.StartSend? then op.from else Idle, op.gen);
    DroppedFollows(v, op, OnDone(v, op, ok));
  }

  lemma DoneTimes(v: View, op: Op, ok: bool)
    requires TimerInv(v) && op in v.ops
    ensures TimerInv(OnDone(v, op, ok))
  {
    hide Torn, Up, Cleared, Rollback, Follows;
    if op.TickKeep? {
      var w := v.(ops := v.ops - multiset{op});
      assert forall p :: p in w.ops ==> p in v.ops;
      CommonFollows(w, Idle);
      FollowsKeeps(w, Torn(w));
    } else {
      HandshakeFollows(v, op, ok);
      FollowsKeeps(v, OnDone(v, op, ok));
    }
  }

  lemma ClockTimes(v: View, now: nat)
    requires TimerInv(v) && v.nowMs <= now < CLOCK_END
    ensures TimerInv(v.(nowMs := now)) && TimerInv(v.(nowMs := now, lastRx := now, lastKeep := now, clock := true))
  {
  }

  lemma SendTimes(v: View)
    requires TimerInv(v)
    ensures TimerInv(v.(ops := v.ops + multiset{TickKeep(v.gen, v.state, v.nowMs)}))
  {
  }

  lemma TickTimes(c: Config, v: View, now: nat)
    requires TimerInv(v) && v.nowMs <= now < CLOCK_END
    ensures TimerInv(OnTick(c, v, now))
  {
    hide Elapsed, KeepaliveTime, Torn, TimerInv, Follows;
    ClockTimes(v, now);
    var w := v.(nowMs := now);
    SendTimes(w);
    CommonFollows(w, Idle);
    FollowsKeeps(w, Torn(w));
  }

  lemma NextTimes(c: Config, v: View, a: Action)
    requires TimerInv(v) && Enabled(v, a) && OnTime(v, a)
    ensures TimerInv(Next(c, v, a))
  {
    hide OnDone, OnPacket, OnTick, ConfigValid;
    match a
    case Done(op, ok) => DoneTimes(v, op, ok);
    case Receive(p, handled) => PacketTimes(c, v, p, handled);
    case Tick(now) => TickTimes(c, v, now);
    case _ =>
  }

  lemma {:induction false} RunTimes(c: Config, v: View, run: seq<Action>)
    requires TimerInv(v) && IsRun(c, v, run) && Monotone(c, v, run)
    ensures TimerInv(After(c, v, run))
    decreases |run|
  {
    hide Next, TimerInv;
    if run != [] {
      NextTimes(c, v, run[0]);
      RunTimes(c, Next(c, v, run[0]), run[1..]);
    }
  }

  lemma {:induction false} MonotoneOfSnoc(c: Config, v: View, run: seq<Action>, a: Action)
    ensures Monotone(c, v, run + [a]) <==> Monotone(c, v, run) && OnTime(After(c, v, run), a)
    decreases |run|
  {
    hide Next, OnTime;
    if run == [] {
      assert (run + [a])[1..] == [];
    } else {
      assert (run + [a])[1..] == run[1..] + [a];
      MonotoneOfSnoc(c, Next(c, v, run[0]), run[1..], a);
    }
  }

  // ----- what the events of a run say about the timers

  /** The time of the last tick. */
  function TimeNow(run: seq<Action>): nat {
    if run == [] then 0
    else
      var r, a := run[..|run| - 1], run[|run| - 1];
      if a.Tick? then a.now else TimeNow(r)
  }

  /** There has been a tick in the attempt that the run ends in. */
  predicate Ticked(c: Config, run: seq<Action>) {
    run != [] &&
    var r, a := run[..|run| - 1], run[|run| - 1];
    Attempt(After(c, INIT, run)) == Attempt(After(c, INIT, r)) && (a.Tick? || Ticked(c, r))
  }

  /** A message of the peer that shows it to be alive. */
  predicate Accepts(v: View, a: Action) {
    && a.Receive?
    && match v.state
       case OpenConfirm => a.packet.Keepalive?
       case Established => a.packet.Keepalive? || (a.packet.Update? && a.packet.outcome.Applied?)
       case _ => false
  }

  /** The end of a KEEPALIVE that a tick of this state began. */
  predicate Refreshes(v: View, a: Action) {
    a.Done? && a.ok && a.op.TickKeep? && a.op.gen == v.gen && a.op.during == v.state
  }

  /** When the peer was last heard: at the last accepted message, or at the attempt's first tick. */
  function LastHeard(c: Config, run: seq<Action>): nat {
    if run == [] then 0
    else
      var r, a := run[..|run| - 1], run[|run| - 1];
      if a.Tick? && !Ticked(c, r) then a.now
      else if Accepts(After(c, INIT, r), a) then TimeNow(r)
      else LastHeard(c, r)
  }

  /** When a KEEPALIVE that has since been sent was last due, or the attempt's first tick. */
  function LastKeepalive(c: Config, run: seq<Action>): nat {
    if run == [] then 0
    else
      var r, a := run[..|run| - 1], run[|run| - 1];
      if a.Tick? && !Ticked(c, r) then a.now
      else if Refreshes(After(c, INIT, r), a) then a.op.at
      else LastKeepalive(c, r)
  }

  /** What a step does to the timers of a running handshake or session. */
  predicate Ticks(v: View, a: Action, w: View) {
    && (HoldActive(v.state) && Attempt(w) == Attempt(v) && HoldActive(w.state) ==>
          && w.clock == (v.clock || a.Tick?) && w.hold == v.hold
          && (w.clock ==>
                && w.lastRx == (if a.Tick? && !v.clock then a.now else if Accepts(v, a) then v.nowMs else v.lastRx)
                && w.lastKeep
                   == (if a.Tick? && !v.clock then a.now else if Refreshes(v, a) then a.op.at else v.lastKeep)))
    && (HoldActive(w.state) && !(HoldActive(v.state) && Attempt(w) == Attempt(v)) ==>
          Attempt(w) > Attempt(v) && !w.clock && a.Receive?)
    && w.nowMs == (if a.Tick? then a.now else v.nowMs)
  }

  /** A step that leaves the timers alone or ends the session. */
  predicate Untimed(v: View, w: View) {
    && w.nowMs == v.nowMs
    && (HoldActive(w.state) ==>
          && HoldActive(v.state) && Attempt(w) == Attempt(v)
          && w.clock == v.clock && w.hold == v.hold && w.lastRx == v.lastRx && w.lastKeep == v.lastKeep)
  }

  lemma UntimedTicks(v: View, a: Action, w: View)
    requires Untimed(v, w) && !a.Tick? && !Accepts(v, a) && !Refreshes(v, a)
    ensures Ticks(v, a, w)
  {
  }

  lemma TornTicks(v: View, a: Action)
    requires !a.Tick?
    ensures Untimed(v, Torn(v)) && Ticks(v, a, Torn(v))
  {
  }

  lemma RefreshTicks(v: View, op: Op)
    requires op.TickKeep? && Refreshes(v, Done(op, true))
    ensures Ticks(v, Done(op, true), OnDone(v, op, true))
  {
  }

  lemma RollbackUntimed(v: View, g: nat)
    ensures Untimed(v, Rollback(v, g)) && Untimed(v, v)
  {
  }

  lemma DroppedUntimed(v: View, op: Op, x: View)
    requires Untimed(v.(ops := v.ops - multiset{op}), x)
    ensures Untimed(v, x)
  {
  }

  lemma UpUntimed(w: View)
    requires w.state == OpenConfirm
    ensures Untimed(w, Up(w.(keepSent := true))) && Untimed(w, w.(keepSent := true, sendPending := false))
    ensures Untimed(w, w.(passiveOpen := false, ops := w.ops + multiset{PassiveGap(w.gen)}))
    ensures Untimed(w, w.(sendPending := true, ops := w.ops + multiset{PassiveKeep(w.gen)}))
  {
  }

  lemma HandshakeUntimed(v: View, op: Op, ok: bool)
    requires Handshake(op)
    ensures Untimed(v, OnDone(v, op, ok))
  {
    hide Untimed, Rollback, Up;
    var w := v.(ops := v.ops - multiset{op});
    RollbackUntimed(w, op.gen);
    if w.state == OpenConfirm {
      UpUntimed(w);
    }
    DroppedUntimed(v, op, OnDone(v, op, ok));
  }

  lemma OtherUntimed(v: View, op: Op, ok: bool)
    requires !Handshake(op) && !Refreshes(v, Done(op, ok)) && (op.StartSend? ==> PreOpen(op.from))
    ensures Untimed(v, OnDone(v, op, ok))
  {
    hide Torn, Untimed;
    var w := v.(ops := v.ops - multiset{op});
    TornTicks(w, Done(op, ok));
    RollbackUntimed(w, 0);
    LesserUntimed(w, op);
    DroppedUntimed(v, op, OnDone(v, op, ok));
  }

  lemma LesserUntimed(w: View, op: Op)
    ensures op.Discard? ==> Untimed(w, w.(routes := WithoutPeer(w.routes, op.peer)))
    ensures op.StartSend? && PreOpen(op.from) ==>
              Untimed(w, w.(state := op.from, gen := w.gen + 1, sendPending := false, keepPending := false,
                            passiveOpen := false, passiveKeep := false))
  {
  }

  lemma DoneTicks(v: View, op: Op, ok: bool)
    requires op.StartSend? ==> PreOpen(op.from)
    ensures Ticks(v, Done(op, ok), OnDone(v, op, ok))
  {
    hide OnDone, Untimed, Ticks;
    if Refreshes(v, Done(op, ok)) {
      RefreshTicks(v, op);
    } else {
      if Handshake(op) {
        HandshakeUntimed(v, op, ok);
      } else {
        OtherUntimed(v, op, ok);
      }
      UntimedTicks(v, Done(op, ok), OnDone(v, op, ok));
    }
  }

  lemma OpenTicks(c: Config, v: View, p: Packet, handled: bool, passive: bool)
    requires p.Open? && !HoldActive(v.state)
    ensures Ticks(v, Receive(p, handled), OnOpen(c, v, p, handled, passive))
  {
    hide OpenAcceptable, ConfigValid, Negotiate, Torn;
    TornTicks(v, Receive(p, handled));
  }

  lemma HeardTicks(c: Config, v: View, handled: bool)
    requires v.state == OpenConfirm
    ensures Ticks(v, Receive(Keepalive, handled), OnOpenConfirm(c, v, Keepalive))
  {
  }

  lemma ConfirmTicks(c: Config, v: View, p: Packet, handled: bool)
    requires v.state == OpenConfirm
    ensures Ticks(v, Receive(p, handled), OnOpenConfirm(c, v, p))
  {
    hide OpenAcceptable, Torn, Up;
    TornTicks(v, Receive(p, handled));
    HeardTicks(c, v, handled);
  }

  lemma MarkTicks(v: View, a: Action, routes: Routes)
    requires v.state == Established && Accepts(v, a)
    ensures Ticks(v, a, MarkRx(v)) && Ticks(v, a, MarkRx(v).(routes := routes))
  {
  }

  lemma RoutesUntimed(v: View, a: Action, routes: Routes)
    requires v.state == Established && !a.Tick?
    ensures Untimed(v, v.(routes := routes)) && Untimed(v, Torn(v).(routes := routes))
  {
  }

  lemma EstablishedTicks(v: View, p: Packet, handled: bool)
    requires v.state == Established
    ensures Ticks(v, Receive(p, handled), OnEstablished(v, p))
  {
    hide Torn, MarkRx, Ticks, Without, Revised, Untimed;
    var a := Receive(p, handled);
    TornTicks(v, a);
    if Accepts(v, a) {
      MarkTicks(v, a, OnEstablished(v, p).routes);
    } else if p.Update? {
      RoutesUntimed(v, a, Without(v.routes, v.peerId, p.outcome.lost));
      UntimedTicks(v, a, OnEstablished(v, p));
    }
  }

  lemma PacketTicks(c: Config, v: View, p: Packet, handled: bool)
    ensures Ticks(v, Receive(p, handled), OnPacket(c, v, p, handled))
  {
    hide OnOpen, OnOpenConfirm, OnEstablished, Torn;
    TornTicks(v, Receive(p, handled));
    match v.state
    case OpenConfirm => ConfirmTicks(c, v, p, handled);
    case Established => EstablishedTicks(v, p, handled);
    case _ =>
      if p.Open? {
        OpenTicks(c, v, p, handled, v.state != OpenSent);
      }
  }

  lemma TickCases(c: Config, v: View, now: nat)
    ensures var w := OnTick(c, v, now);
            if v.clock then w == Torn(v.(nowMs := now)) || w == v.(nowMs := now, ops := w.ops)
            else w == v.(nowMs := now, lastRx := now, lastKeep := now, clock := true)
  {
    hide Elapsed, KeepaliveTime, Torn;
  }

  lemma TickTicks(c: Config, v: View, now: nat)
    ensures Ticks(v, Tick(now), OnTick(c, v, now))
  {
    hide OnTick, Torn;
    TickCases(c, v, now);
    TornIsOver(v.(nowMs := now));
  }

  lemma TornIsOver(v: View)
    ensures Torn(v).state == Idle && Torn(v).nowMs == v.nowMs
  {
  }

  lemma StepTicks(c: Config, v: View, a: Action)
    requires OpsInv(v) && UpInv(v) && Enabled(v, a)
    ensures Ticks(v, a, Next(c, v, a))
  {
    hide OnDone, OnPacket, OnTick, ConfigValid, OpsInv, UpInv, Torn;
    if !a.Tick? {
      TornTicks(v, a);
    }
    match a
    case Done(op, ok) =>
      StartedBefore(v, op);
      DoneTicks(v, op, ok);
    case Receive(p, handled) => PacketTicks(c, v, p, handled);
    case Tick(now) => TickTicks(c, v, now);
    case _ =>
  }

  /** The timer fields are what the events of the run say, in every run. */
  lemma {:induction false} TimersAreEvents(c: Config, run: seq<Action>)
    requires IsRun(c, INIT, run)
    ensures var v := After(c, INIT, run);
            && v.nowMs == TimeNow(run)
            && (HoldActive(v.state) ==>
                  && v.clock == Ticked(c, run)
                  && (v.clock ==> v.lastRx == LastHeard(c, run) && v.lastKeep == LastKeepalive(c, run)))
  {
    if run == [] {
      return;
    }
    hide Next, Enabled, Inv, OpsInv, FlagsInv, UpInv, After, IsRun, Accepts, Refreshes;
    LastStep(c, run);
    var r, a := run[..|run| - 1], run[|run| - 1];
    TimersAreEvents(c, r);
    StepTicks(c, After(c, INIT, r), a);
  }

  // ----- the timers over runs

  lemma NoWrap(now: nat, since: nat)
    requires since <= now < CLOCK_END
    ensures Elapsed(now, since) == now - since
  {
  }

  lemma InitTimes()
    ensures TimerInv(INIT)
  {
  }

  /** In every run whose clock does not go back, a tick ends a handshake or session exactly when a whole
      hold time has gone by since the peer was last heard. */
  lemma TickExpiresExactly(c: Config, run: seq<Action>, now: nat)
    requires IsRun(c, INIT, run) && Monotone(c, INIT, run + [Tick(now)]) && HoldActive(After(c, INIT, run).state)
    ensures var v := After(c, INIT, run);
            var w := After(c, INIT, run + [Tick(now)]);
            && (w.state == v.state || w.state == Idle)
            && (w.state == Idle <==> Ticked(c, run) && v.hold > 0 && now - LastHeard(c, run) >= v.hold * 1000)
  {
    hide Next, After, IsRun, Monotone, Ticked, LastHeard, LastKeepalive;
    InitTimes();
    MonotoneOfSnoc(c, INIT, run, Tick(now));
    RunTimes(c, INIT, run);
    RunOfSnoc(c, INIT, run, Tick(now));
    TimersAreEvents(c, run);
    TickIs(c, After(c, INIT, run), now);
  }

  lemma TickIs(c: Config, v: View, now: nat)
    requires TimerInv(v) && v.nowMs <= now < CLOCK_END && HoldActive(v.state)
    ensures var w := Next(c, v, Tick(now));
            && (w.state == v.state || w.state == Idle)
            && (w.state == Idle <==> v.clock && v.hold > 0 && now - v.lastRx >= v.hold * 1000)
            && (w.state == v.state ==> w.hold == v.hold && w.gen == v.gen)
            && (w.state == v.state && v.clock ==> w.lastRx == v.lastRx && w.lastKeep == v.lastKeep)
            && (w.state == v.state && !v.clock ==> w.lastRx == now && w.lastKeep == now)
  {
    hide Elapsed, KeepaliveTime, Torn;
    TornIsOver(v.(nowMs := now));
    if v.clock {
      NoWrap(now, v.lastRx);
    }
  }

  /** In every run whose clock does not go back, wherever it stands, the peer of a running handshake or
      session was heard less than a hold time ago, provided that there is a hold time and that the attempt has
      had a tick; its first tick counts as hearing the peer. */
  lemma {:induction false} AliveIsHeard(c: Config, run: seq<Action>)
    requires IsRun(c, INIT, run) && Monotone(c, INIT, run)
    requires HoldActive(After(c, INIT, run).state) && After(c, INIT, run).hold > 0 && Ticked(c, run)
    ensures LastHeard(c, run) <= TimeNow(run) < LastHeard(c, run) + After(c, INIT, run).hold * 1000
  {
    hide Next, After, IsRun, Monotone, LastHeard, LastKeepalive, TimerInv;
    RunFresh(c, run);
    TimersAreEvents(c, run);
  }

  /** The peer was heard less than a hold time ago. */
  predicate Fresh(v: View) {
    HoldActive(v.state) && v.clock && v.hold > 0 ==> v.lastRx <= v.nowMs < v.lastRx + v.hold * 1000
  }

  lemma FreshStays(c: Config, v: View, a: Action)
    requires TimerInv(v) && Fresh(v) && OpsInv(v) && UpInv(v) && Enabled(v, a) && OnTime(v, a)
    ensures Fresh(Next(c, v, a))
  {
    hide Next, TimerInv, OpsInv, UpInv, Accepts, Refreshes;
    StepTicks(c, v, a);
    if a.Tick? && HoldActive(v.state) {
      TickIs(c, v, a.now);
    }
    NextTimes(c, v, a);
    FreshParts(Next(c, v, a));
  }

  lemma FreshParts(v: View)
    requires TimerInv(v)
    ensures v.clock ==> v.lastRx <= v.nowMs
  {
  }

  lemma {:induction false} RunFresh(c: Config, run: seq<Action>)
    requires IsRun(c, INIT, run) && Monotone(c, INIT, run)
    ensures TimerInv(After(c, INIT, run)) && Fresh(After(c, INIT, run))
  {
    InitTimes();
    RunTimes(c, INIT, run);
    if run == [] {
      return;
    }
    hide Next, Enabled, Inv, OpsInv, FlagsInv, UpInv, After, IsRun, Monotone, TimerInv, Fresh;
    LastStep(c, run);
    var r, a := run[..|run| - 1], run[|run| - 1];
    MonotoneOfSnoc(c, INIT, r, a);
    RunFresh(c, r);
    FreshStays(c, After(c, INIT, r), a);
  }

  /** A tick that leaves a handshake or session alive finds that a KEEPALIVE was sent less than a keepalive
      interval ago or begins to send one; once that is sent, the interval starts again at the tick. */
  lemma SurvivingTick(c: Config, run: seq<Action>, now: nat)
    requires var all := run + [Tick(now)];
             && IsRun(c, INIT, all) && Monotone(c, INIT, all)
             && HoldActive(After(c, INIT, all).state) && After(c, INIT, all).hold > 0
    ensures var all := run + [Tick(now)];
            var w := After(c, INIT, all);
            var send := TickKeep(w.gen, w.state, now);
            && LastHeard(c, all) <= now < LastHeard(c, all) + w.hold * 1000
            && (|| now < LastKeepalive(c, all) + KeepaliveTime(w.hold, c.keepaliveTime) * 1000
                || (send in w.ops && LastKeepalive(c, all + [Done(send, true)]) == now))
  {
    hide Next, Enabled, After, IsRun, Monotone, TimerInv, KeepaliveTime, Inv, OpsInv, FlagsInv, UpInv;
    var all := run + [Tick(now)];
    LastStep(c, all);
    assert all[..|run|] == run && all[|run|] == Tick(now);
    var v, w := After(c, INIT, run), After(c, INIT, all);
    MonotoneOfSnoc(c, INIT, run, Tick(now));
    TimersAreEvents(c, run);
    TimersAreEvents(c, all);
    StepTicks(c, v, Tick(now));
    assert Ticked(c, all);
    AliveIsHeard(c, all);
    assert TimeNow(all) == now;
    RunFresh(c, run);
    TickSends(c, v, now);
    var send := TickKeep(w.gen, w.state, now);
    var more := all + [Done(send, true)];
    assert more[..|more| - 1] == all && more[|more| - 1] == Done(send, true);
    assert Refreshes(w, Done(send, true));
  }

  lemma TickSends(c: Config, v: View, now: nat)
    requires TimerInv(v) && v.nowMs <= now < CLOCK_END
    requires var w := Next(c, v, Tick(now)); HoldActive(w.state) && w.hold > 0
    ensures var w := Next(c, v, Tick(now));
            now < w.lastKeep + KeepaliveTime(w.hold, c.keepaliveTime) * 1000 || TickKeep(w.gen, w.state, now) in w.ops
  {
    hide KeepaliveTime, Torn, Elapsed, TimerInv;
    KeepaliveIsPositive(v.hold, c.keepaliveTime);
    TornIsOver(v.(nowMs := now));
    if v.clock {
      TimerIsPast(v);
      NoWrap(now, v.lastKeep);
    }
  }

  lemma TimerIsPast(v: View)
    requires TimerInv(v) && v.clock
    ensures v.lastKeep <= v.nowMs
  {
  }

  lemma KeepaliveIsPositive(hold: nat, configured: nat)
    ensures hold > 0 ==> KeepaliveTime(hold, configured) > 0
  {
  }

  // ----- silence

  /** The session is over, or is the same and was last heard at the same time. */
  predicate Fading(v: View, w: View) {
    HoldActive(w.state) ==> HoldActive(v.state) && w.clock && w.hold == v.hold && w.lastRx == v.lastRx
  }

  lemma QuietStep(c: Config, v: View, a: Action)
    requires (HoldActive(v.state) ==> v.clock) && OpsInv(v) && UpInv(v) && Enabled(v, a) && !a.Receive?
    ensures Fading(v, Next(c, v, a))
  {
    hide Next, OpsInv, UpInv, Refreshes;
    StepTicks(c, v, a);
  }

  lemma {:induction false} QuietRun(c: Config, run: seq<Action>, more: seq<Action>)
    requires IsRun(c, INIT, run + more) && (HoldActive(After(c, INIT, run).state) ==> After(c, INIT, run).clock)
    requires forall i :: 0 <= i < |more| ==> !more[i].Receive?
    ensures Fading(After(c, INIT, run), After(c, INIT, run + more))
    decreases |more|
  {
    if more == [] {
      assert run + more == run;
      return;
    }
    hide Next, Enabled, Inv, OpsInv, FlagsInv, UpInv, After, IsRun;
    LastStep(c, run + more);
    var most, a := more[..|more| - 1], more[|more| - 1];
    assert (run + more)[..|run + more| - 1] == run + most;
    QuietRun(c, run, most);
    QuietStep(c, After(c, INIT, run + most), a);
  }

  /** A peer that stays silent is dropped: whatever else happens without a packet from it, the first tick
      a hold time after the last word finds the handshake or session over or ends it. */
  lemma SilentPeerIsDropped(c: Config, run: seq<Action>, more: seq<Action>, now: nat)
    requires var all := run + more + [Tick(now)]; IsRun(c, INIT, all) && Monotone(c, INIT, all)
    requires HoldActive(After(c, INIT, run).state) && After(c, INIT, run).hold > 0 && Ticked(c, run)
    requires forall i :: 0 <= i < |more| ==> !more[i].Receive?
    requires now >= LastHeard(c, run) + After(c, INIT, run).hold * 1000
    ensures !HoldActive(After(c, INIT, run + more + [Tick(now)]).state)
  {
    hide Next, Enabled, Inv, OpsInv, FlagsInv, UpInv, After, IsRun, Monotone, TimerInv, Ticked, LastHeard;
    hide LastKeepalive;
    var all := run + more + [Tick(now)];
    LastStep(c, all);
    assert all[..|all| - 1] == run + more;
    PrefixIsRun(c, INIT, run + more, |run|);
    assert (run + more)[..|run|] == run;
    TimersAreEvents(c, run);
    QuietRun(c, run, more);
    MonotoneOfSnoc(c, INIT, run + more, Tick(now));
    RunFresh(c, run + more);
    var w := After(c, INIT, run + more);
    if HoldActive(w.state) {
      TickIs(c, w, now);
    } else {
      StepTicks(c, w, Tick(now));
    }
  }
}
