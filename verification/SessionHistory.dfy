/** What a run of the session (src/fsm.c) says about the handshake of the attempt it ends in: which of
    the local and the peer's messages were sent and received, told by the steps of the run alone. */
module SessionHistory {
  import opened Session

  /** Something a step does for the attempt, or the OPEN, of generation g. */
  datatype Mark =
    | SentOpen(g: nat)         // the OPEN of an active attempt, which is one generation older
    | EntersActive(g: nat)     // an OPEN received in OPEN_SENT begins the attempt
    | EntersPassive(g: nat)    // an OPEN received before OPEN_SENT begins the attempt
    | SentPassiveOpen(g: nat)
    | SentKeepalive(g: nat)
    | HeardKeepalive(g: nat)
    | HeardInGap(g: nat)       // the peer's KEEPALIVE, while a passive attempt is between its two regions

  /** The step a from v to w shows m. */
  predicate Shows(v: View, a: Action, w: View, m: Mark) {
    match m
    case SentOpen(g) => a.Done? && a.ok && a.op.StartSend? && a.op.gen == g
    case EntersActive(g) => v.state == OpenSent && Enters(w, g)
    case EntersPassive(g) => PreOpen(v.state) && Enters(w, g)
    case SentPassiveOpen(g) => a == Done(PassiveOpen(g), true)
    case SentKeepalive(g) => a == Done(ActiveKeep(g), true) || a == Done(PassiveKeep(g), true)
    case HeardKeepalive(g) => Hears(v, a, g)
    case HeardInGap(g) => Hears(v, a, g) && PassiveGap(g) in v.ops
  }

  predicate Enters(w: View, g: nat) {
    w.state == OpenConfirm && w.gen == g
  }

  predicate Hears(v: View, a: Action, g: nat) {
    a.Receive? && a.packet.Keepalive? && v.state == OpenConfirm && v.gen == g
  }

  /** Some step of a run from the initial state shows m. */
  predicate Seen(c: Config, run: seq<Action>, m: Mark) {
    exists i :: 0 <= i < |run| && ShowsAt(c, run, i, m)
  }

  predicate ShowsAt(c: Config, run: seq<Action>, i: nat, m: Mark)
    requires i < |run|
  {
    Shows(After(c, INIT, run[..i]), run[i], After(c, INIT, run[..i + 1]), m)
  }

  lemma SeenOfSnoc(c: Config, r: seq<Action>, a: Action, m: Mark)
    ensures var v := After(c, INIT, r);
            Seen(c, r + [a], m) <==> Seen(c, r, m) || Shows(v, a, Next(c, v, a), m)
  {
    hide Shows, After, Next;
    var run := r + [a];
    RunOfSnoc(c, INIT, r, a);
    assert run[..|r|] == r && run[|r|] == a && run[..|r| + 1] == run;
    forall i | 0 <= i < |r| ensures ShowsAt(c, run, i, m) <==> ShowsAt(c, r, i, m) {
      assert run[..i] == r[..i] && run[i] == r[i] && run[..i + 1] == r[..i + 1];
    }
    assert ShowsAt(c, run, |r|, m) <==> Shows(After(c, INIT, r), a, Next(c, After(c, INIT, r), a), m);
    hide ShowsAt;
    if Seen(c, r, m) {
      var i :| 0 <= i < |r| && ShowsAt(c, r, i, m);
      assert ShowsAt(c, run, i, m);
    }
  }

  /** The last step of a run. */
  lemma LastStep(c: Config, run: seq<Action>)
    requires IsRun(c, INIT, run) && run != []
    ensures var r, a := run[..|run| - 1], run[|run| - 1];
            var v := After(c, INIT, r);
            && run == r + [a] && IsRun(c, INIT, r) && Enabled(v, a) && After(c, INIT, run) == Next(c, v, a)
            && Inv(c, v) && OpsInv(v) && FlagsInv(v) && UpInv(v)
  {
    var r, a := run[..|run| - 1], run[|run| - 1];
    assert run == r + [a];
    hide Next;
    RunOfSnoc(c, INIT, r, a);
    RunKeeps(c, INIT, r);
  }

  lemma InitIsIdle(c: Config)
    ensures After(c, INIT, []).state == Idle
  {
  }

  lemma EmptyShowsNothing(c: Config, m: Mark)
    ensures !Seen(c, [], m)
  {
  }

  /** The generation of the handshake that the state belongs to. */
  function Attempt(v: View): nat {
    if v.state == Established && v.gen > 0 then v.gen - 1 else v.gen
  }

  // ----- what one step shows

  /** A step that leaves the attempt as it is, or ends it. */
  predicate Idles(v: View, w: View) {
    || (w.state == v.state && w.gen == v.gen && w.keepSent == v.keepSent && w.keepHeard == v.keepHeard
        && v.ops <= w.ops)
    || (PreOpen(w.state) && !w.keepSent && !w.keepHeard)
  }

  lemma TornIdles(v: View)
    ensures Idles(v, Torn(v)) && Idles(v, v)
  {
  }

  lemma TickIdles(c: Config, v: View, now: nat)
    ensures Idles(v, OnTick(c, v, now))
  {
    hide Elapsed, KeepaliveTime, Torn;
    TornIdles(v.(nowMs := now));
  }

  /** Where the facts about the KEEPALIVEs of the attempt come from. */
  predicate Evident(v: View, a: Action, w: View) {
    var g := Attempt(w);
    && (w.keepSent ==> (v.keepSent && Attempt(v) == g) || Shows(v, a, w, SentKeepalive(g)))
    && (w.keepHeard ==> (v.keepHeard && Attempt(v) == g) || Shows(v, a, w, HeardKeepalive(g)))
    && (w.state == Established && !w.keepSent ==>
          (v.state == Established && !v.keepSent && Attempt(v) == g) || Shows(v, a, w, HeardInGap(g)))
  }

  /** Ends of callers that do not take the handshake forward. */
  lemma OtherDoneIdles(v: View, op: Op, ok: bool)
    requires !Handshake(op) && (op.StartSend? ==> PreOpen(op.from))
    requires v.state == OpenSent ==> !v.keepSent && !v.keepHeard
    ensures Idles(v.(ops := v.ops - multiset{op}), OnDone(v, op, ok))
  {
    hide Torn;
    TornIdles(v.(ops := v.ops - multiset{op}));
  }

  lemma RollbackIdles(w: View, g: nat)
    ensures Idles(w, Rollback(w, g))
  {
  }

  lemma DroppedEvidence(v: View, op: Op, ok: bool, x: View)
    requires Idles(v.(ops := v.ops - multiset{op}), x)
    ensures Evident(v, Done(op, ok), x)
  {
    hide Shows;
  }

  lemma KeepEvidence(v: View, op: Op)
    requires FlagsInv(v) && (op.ActiveKeep? || op.PassiveKeep?)
    ensures Evident(v, Done(op, true), OnDone(v, op, true))
  {
    hide Evident, FlagsInv, Up;
    var w := v.(ops := v.ops - multiset{op});
    DroppedEvidence(v, op, true, w);
    if v.state == OpenConfirm && v.gen == op.gen {
      FlagsHeard(v);
      KeepShows(v, op, w);
    }
  }

  lemma FlagsHeard(v: View)
    requires FlagsInv(v) && v.state == OpenConfirm
    ensures v.keepPending || v.passiveKeep ==> v.keepHeard
  {
  }

  lemma KeepShows(v: View, op: Op, w: View)
    requires op.ActiveKeep? || op.PassiveKeep?
    requires v.state == OpenConfirm && v.gen == op.gen && w == v.(ops := v.ops - multiset{op})
    ensures Evident(v, Done(op, true), w.(keepSent := true, sendPending := false))
    ensures v.keepHeard ==> Evident(v, Done(op, true), Up(w.(keepSent := true)))
  {
  }

  lemma PassiveEvidence(v: View, op: Op)
    requires op.PassiveOpen? || op.PassiveGap?
    ensures Evident(v, Done(op, true), OnDone(v, op, true))
  {
    hide Shows;
  }

  lemma FailedDone(v: View, op: Op)
    requires Handshake(op) && !op.PassiveGap?
    ensures OnDone(v, op, false) == Rollback(v.(ops := v.ops - multiset{op}), op.gen)
  {
    hide Rollback;
  }

  lemma GapDoneAlways(v: View, op: Op, ok: bool)
    requires op.PassiveGap?
    ensures OnDone(v, op, ok) == OnDone(v, op, true)
  {
  }

  lemma DoneEvidence(v: View, op: Op, ok: bool)
    requires FlagsInv(v) && UpInv(v) && (op.StartSend? ==> PreOpen(op.from))
    ensures Evident(v, Done(op, ok), OnDone(v, op, ok))
  {
    if !Handshake(op) {
      OtherDoneIdles(v, op, ok);
      hide OnDone, Evident, Idles;
      DroppedEvidence(v, op, ok, OnDone(v, op, ok));
    } else if op.PassiveGap? {
      hide OnDone, Shows;
      GapDoneAlways(v, op, ok);
      PassiveEvidence(v, op);
      GapMarks(v, op, ok, OnDone(v, op, ok));
    } else if !ok {
      hide OnDone, Evident, Idles, Rollback;
      FailedDone(v, op);
      RollbackIdles(v.(ops := v.ops - multiset{op}), op.gen);
      DroppedEvidence(v, op, ok, OnDone(v, op, ok));
    } else {
      hide OnDone, Evident;
      if op.PassiveOpen? {
        PassiveEvidence(v, op);
      } else {
        KeepEvidence(v, op);
      }
    }
  }

  lemma GapMarks(v: View, op: Op, ok: bool, w: View)
    requires op.PassiveGap? && Evident(v, Done(op, true), w)
    ensures Evident(v, Done(op, ok), w)
  {
  }

  lemma IdleEvidence(v: View, a: Action, w: View)
    requires Idles(v, w)
    ensures Evident(v, a, w)
  {
  }

  lemma OpenEvidence(c: Config, v: View, p: Packet, handled: bool, passive: bool)
    requires p.Open?
    ensures Evident(v, Receive(p, handled), OnOpen(c, v, p, handled, passive))
  {
    hide OpenAcceptable, ConfigValid, Negotiate, Torn;
    TornIdles(v);
    IdleEvidence(v, Receive(p, handled), Torn(v));
  }

  lemma ConfirmEvidence(c: Config, v: View, p: Packet, handled: bool)
    requires FlagsInv(v) && v.state == OpenConfirm
    ensures Evident(v, Receive(p, handled), OnOpenConfirm(c, v, p))
  {
    hide OpenAcceptable, Torn;
    TornIdles(v);
    IdleEvidence(v, Receive(p, handled), Torn(v));
  }

  lemma AsideIdles(v: View, w: View)
    requires Aside(v, w)
    ensures Idles(v, w)
  {
  }

  lemma EstablishedEvidence(v: View, a: Action, p: Packet)
    ensures Evident(v, a, OnEstablished(v, p))
  {
    hide OnEstablished, Evident, Idles, Aside;
    EstablishedIs(v, p);
    AsideIdles(v, OnEstablished(v, p));
    IdleEvidence(v, a, OnEstablished(v, p));
  }

  lemma PacketEvidence(c: Config, v: View, p: Packet, handled: bool)
    requires FlagsInv(v) && UpInv(v)
    ensures Evident(v, Receive(p, handled), OnPacket(c, v, p, handled))
  {
    hide OnOpen, OnOpenConfirm, OnEstablished, Torn, Shows;
    TornIdles(v);
    IdleEvidence(v, Receive(p, handled), Torn(v));
    if p.Open? {
      OpenEvidence(c, v, p, handled, v.state != OpenSent);
    }
    if v.state == OpenConfirm {
      ConfirmEvidence(c, v, p, handled);
    }
    if v.state == Established {
      EstablishedEvidence(v, Receive(p, handled), p);
    }
  }

  lemma StepEvidence(c: Config, v: View, a: Action)
    requires OpsInv(v) && FlagsInv(v) && UpInv(v) && Enabled(v, a)
    ensures Evident(v, a, Next(c, v, a))
  {
    hide ConfigValid, OnDone, OnPacket, OnTick, Torn, Shows;
    TornIdles(v);
    IdleEvidence(v, a, Torn(v));
    match a
    case Done(op, ok) => DoneEvidence(v, op, ok);
    case Receive(p, handled) => PacketEvidence(c, v, p, handled);
    case Tick(now) =>
      TickIdles(c, v, now);
      IdleEvidence(v, a, OnTick(c, v, now));
    case _ =>
  }

  /** A caller that a step brings out of the lock to open a session. */
  predicate Newcomer(v: View, a: Action, op: Op) {
    || op.gen > v.gen
    || (a.Done? && a.op == PassiveOpen(v.gen) && op == PassiveGap(v.gen))
    || (a.Done? && a.op == PassiveGap(v.gen) && op == PassiveKeep(v.gen))
  }

  /** The opening callers after a step are those before, without the one that came back, and newcomers. */
  predicate OpsFollow(v: View, a: Action, w: View) {
    forall op :: op in w.ops && Opening(op) ==>
      Newcomer(v, a, op) || (op in v.ops && (a.Done? && Opening(a.op) ==> op.gen != a.op.gen))
  }

  lemma DoneOps(v: View, op: Op, ok: bool)
    requires OpsInv(v) && op in v.ops
    ensures OpsFollow(v, Done(op, ok), OnDone(v, op, ok))
  {
    var x := v.(ops := v.ops - multiset{op});
    forall p | p in x.ops && Opening(p) ensures p in v.ops && (Opening(op) ==> p.gen != op.gen) {
      assert v.ops[op] == x.ops[op] + 1;
    }
    DoneAdds(v, op, ok);
    hide OpsInv, OnDone;
  }

  lemma DoneAdds(v: View, op: Op, ok: bool)
    ensures var w := OnDone(v, op, ok);
            forall p :: p in w.ops && Opening(p) ==> p in v.ops - multiset{op} || Newcomer(v, Done(op, ok), p)
  {
  }

  /** What a packet can do to the callers outside the lock. */
  predicate Adds(v: View, w: View) {
    || w.ops == v.ops || w.ops == v.ops + multiset{Advertise(w.gen)}
    || w.ops == v.ops + multiset{Discard(v.gen, v.peerId)}
    || (w.gen > v.gen
        && (w.ops == v.ops + multiset{PassiveOpen(w.gen)} || w.ops == v.ops + multiset{ActiveKeep(w.gen)}))
  }

  lemma OpenAdds(c: Config, v: View, p: Packet, handled: bool, passive: bool)
    requires p.Open?
    ensures Adds(v, OnOpen(c, v, p, handled, passive))
  {
    hide OpenAcceptable, ConfigValid, Negotiate, Torn;
    TornAdds(v);
  }

  lemma TornAdds(v: View)
    ensures Adds(v, Torn(v)) && Adds(v, v)
  {
  }

  lemma AsideAdds(v: View, w: View)
    requires Aside(v, w)
    ensures Adds(v, w)
  {
  }

  lemma LaterAdds(c: Config, v: View, p: Packet)
    ensures Adds(v, OnOpenConfirm(c, v, p)) && Adds(v, OnEstablished(v, p))
  {
    hide OpenAcceptable, Torn, OnEstablished, Aside;
    TornAdds(v);
    EstablishedIs(v, p);
    AsideAdds(v, OnEstablished(v, p));
  }

  lemma PacketOps(c: Config, v: View, p: Packet, handled: bool)
    ensures OpsFollow(v, Receive(p, handled), OnPacket(c, v, p, handled))
  {
    hide OnOpen, OnOpenConfirm, OnEstablished, Torn, Adds, OpsFollow;
    if p.Open? {
      OpenAdds(c, v, p, handled, true);
      OpenAdds(c, v, p, handled, false);
    }
    LaterAdds(c, v, p);
    TornAdds(v);
    AddsFollow(v, Receive(p, handled), OnPacket(c, v, p, handled));
  }

  lemma AddsFollow(v: View, a: Action, w: View)
    requires Adds(v, w) && !a.Done?
    ensures OpsFollow(v, a, w)
  {
  }

  lemma TickOps(c: Config, v: View, now: nat)
    ensures OpsFollow(v, Tick(now), OnTick(c, v, now))
  {
    hide Elapsed, KeepaliveTime, Torn, OpsFollow;
    TornAdds(v.(nowMs := now));
    TickFollow(v, now, OnTick(c, v, now));
  }

  lemma TickFollow(v: View, now: nat, w: View)
    requires Adds(v, w) || w.ops == v.ops + multiset{TickKeep(v.gen, v.state, now)}
    ensures OpsFollow(v, Tick(now), w)
  {
  }

  lemma StepOps(c: Config, v: View, a: Action)
    requires OpsInv(v) && Enabled(v, a)
    ensures OpsFollow(v, a, Next(c, v, a))
  {
    hide ConfigValid, OnDone, OnPacket, OnTick, OpsInv;
    match a
    case Done(op, ok) => DoneOps(v, op, ok);
    case Receive(p, handled) => PacketOps(c, v, p, handled);
    case Tick(now) => TickOps(c, v, now);
    case _ =>
  }

  /** A KEEPALIVE heard in the gap makes the session established, with the gap as its attempt's only caller. */
  lemma GapComesUp(c: Config, v: View, a: Action, g: nat)
    requires OpsInv(v) && FlagsInv(v) && Shows(v, a, Next(c, v, a), HeardInGap(g))
    ensures OnlyGap(Next(c, v, a), g)
  {
  }

  /** Attempt g is past, and no caller of it is left but one in its gap. */
  ghost predicate OnlyGap(v: View, g: nat) {
    g < v.gen && forall op :: op in v.ops && Opening(op) && op.gen == g ==> op.PassiveGap?
  }

  lemma OnlyGapStays(c: Config, v: View, a: Action, g: nat)
    requires OpsInv(v) && Enabled(v, a) && OnlyGap(v, g)
    ensures OnlyGap(Next(c, v, a), g) && !Shows(v, a, Next(c, v, a), SentKeepalive(g))
  {
    hide Next, OpsInv;
    StepOps(c, v, a);
    StateChangeRaisesGeneration(c, v, a);
  }

  // ----- the local KEEPALIVE

  ghost predicate Busy(v: View, g: nat) {
    exists op :: op in v.ops && Opening(op) && op.gen == g
  }

  lemma {:induction false} Evidence(c: Config, run: seq<Action>)
    requires IsRun(c, INIT, run)
    ensures var v := After(c, INIT, run);
            var g := Attempt(v);
            && Inv(c, v)
            && (v.keepSent ==> Seen(c, run, SentKeepalive(g))) && (v.keepHeard ==> Seen(c, run, HeardKeepalive(g)))
            && (v.state == Established && !v.keepSent ==> Seen(c, run, HeardInGap(g)))
  {
    if run == [] {
      return;
    }
    hide Next, Seen, Shows, Enabled, OpsInv, FlagsInv, UpInv, HoldInv, RoutesInv, After, IsRun;
    LastStep(c, run);
    var r, a := run[..|run| - 1], run[|run| - 1];
    Evidence(c, r);
    var v := After(c, INIT, r);
    NextKeeps(c, v, a);
    StepEvidence(c, v, a);
    var g := Attempt(Next(c, v, a));
    SeenOfSnoc(c, r, a, SentKeepalive(g));
    SeenOfSnoc(c, r, a, HeardKeepalive(g));
    SeenOfSnoc(c, r, a, HeardInGap(g));
  }

  /** Once a message of a generation is sent, no caller is left that could open it. */
  lemma {:induction false} SentIsOver(c: Config, run: seq<Action>, m: Mark)
    requires IsRun(c, INIT, run) && Seen(c, run, m) && (m.SentKeepalive? || m.SentOpen?)
    ensures m.g <= After(c, INIT, run).gen && !Busy(After(c, INIT, run), m.g)
  {
    hide Next, Seen, Shows, Enabled, Inv, OpsInv, FlagsInv, UpInv, Busy, After, IsRun;
    EmptyShowsNothing(c, m);
    LastStep(c, run);
    var r, a := run[..|run| - 1], run[|run| - 1];
    var v := After(c, INIT, r);
    SeenOfSnoc(c, r, a, m);
    if Seen(c, r, m) {
      SentIsOver(c, r, m);
    }
    SentStays(c, v, a, m);
  }

  lemma SentStays(c: Config, v: View, a: Action, m: Mark)
    requires OpsInv(v) && Enabled(v, a) && (m.SentKeepalive? || m.SentOpen?)
    requires (m.g <= v.gen && !Busy(v, m.g)) || Shows(v, a, Next(c, v, a), m)
    ensures m.g <= Next(c, v, a).gen && !Busy(Next(c, v, a), m.g)
  {
    hide Next;
    StepOps(c, v, a);
    StateChangeRaisesGeneration(c, v, a);
  }

  /** After a KEEPALIVE heard in the gap the local one of that attempt is never sent. */
  lemma {:induction false} GapIsFinal(c: Config, run: seq<Action>, g: nat)
    requires IsRun(c, INIT, run) && Seen(c, run, HeardInGap(g))
    ensures var v := After(c, INIT, run);
            OnlyGap(v, g) && !Seen(c, run, SentKeepalive(g))
  {
    hide Next, Seen, Shows, Enabled, Inv, OpsInv, FlagsInv, UpInv, Busy, OnlyGap, After, IsRun;
    EmptyShowsNothing(c, HeardInGap(g));
    LastStep(c, run);
    var r, a := run[..|run| - 1], run[|run| - 1];
    var v := After(c, INIT, r);
    SeenOfSnoc(c, r, a, HeardInGap(g));
    SeenOfSnoc(c, r, a, SentKeepalive(g));
    if Seen(c, r, HeardInGap(g)) {
      GapIsFinal(c, r, g);
      OnlyGapStays(c, v, a, g);
    } else {
      GapComesUp(c, v, a, g);
      GapIsUnsent(c, r, a, Next(c, v, a), g);
    }
  }

  lemma GapIsUnsent(c: Config, run: seq<Action>, a: Action, w: View, g: nat)
    requires IsRun(c, INIT, run) && Shows(After(c, INIT, run), a, w, HeardInGap(g))
    ensures !Seen(c, run, SentKeepalive(g)) && !Shows(After(c, INIT, run), a, w, SentKeepalive(g))
  {
    hide Seen, IsRun, After;
    assert PassiveGap(g) in After(c, INIT, run).ops;
    if Seen(c, run, SentKeepalive(g)) {
      SentIsOver(c, run, SentKeepalive(g));
    }
  }

  /** However sends and packets interleave, a session is established only when the peer's KEEPALIVE of its
      own attempt has been received; and the local one has been sent unless the peer's was handled
      between the two regions of a passive attempt, and then it has not. */
  lemma EstablishedKeepalives(c: Config, run: seq<Action>)
    requires IsRun(c, INIT, run) && After(c, INIT, run).state == Established
    ensures var g := Attempt(After(c, INIT, run));
            && g + 1 == After(c, INIT, run).gen && Seen(c, run, HeardKeepalive(g))
            && (Seen(c, run, SentKeepalive(g)) <==> !Seen(c, run, HeardInGap(g)))
  {
    hide Seen;
    Evidence(c, run);
    var g := Attempt(After(c, INIT, run));
    if Seen(c, run, HeardInGap(g)) {
      GapIsFinal(c, run, g);
    }
  }

  /** No step comes between the two regions of a passive attempt, as in a build without threads. */
  ghost predicate Seamless(c: Config, run: seq<Action>) {
    forall i, g :: 0 <= i < |run| && PassiveGap(g) in After(c, INIT, run[..i]).ops ==>
      run[i].Done? && run[i].op == PassiveGap(g)
  }

  /** Without threads both KEEPALIVEs of the attempt precede the established state. */
  lemma EstablishedHasBothKeepalives(c: Config, run: seq<Action>)
    requires IsRun(c, INIT, run) && Seamless(c, run) && After(c, INIT, run).state == Established
    ensures var g := After(c, INIT, run).gen - 1;
            g >= 0 && Seen(c, run, SentKeepalive(g)) && Seen(c, run, HeardKeepalive(g))
  {
    hide IsRun, After;
    EstablishedKeepalives(c, run);
  }

  /** An OPEN that every check of the handshake lets through. */
  predicate Acceptable(c: Config, open: Packet) {
    && ConfigValid(c) && open.Open? && OpenAcceptable(open, c.localId)
    && (c.expectedAsn == 0 || c.expectedAsn == open.asn)
  }

  /** With threads the promise fails: whatever the configuration, a passive attempt can be established and
      all its callers be done although its own KEEPALIVE was never sent. */
  lemma EstablishedWithoutKeepalive(c: Config, open: Packet)
    requires Acceptable(c, open)
    ensures var run := [Receive(open, false), Done(PassiveOpen(1), true), Receive(Keepalive, false),
                        Done(PassiveGap(1), true)];
            && IsRun(c, INIT, run) && !Seen(c, run, SentKeepalive(1))
            && After(c, INIT, run).state == Established && After(c, INIT, run).ops == multiset{Advertise(2)}
  {
    PassiveComesUp(c, open);
    hide Next, Acceptable;
    RunOfFour(c, INIT, Receive(open, false), Done(PassiveOpen(1), true), Receive(Keepalive, false),
              Done(PassiveGap(1), true));
  }

  lemma PassiveComesUp(c: Config, open: Packet)
    requires Acceptable(c, open)
    ensures var v1 := Next(c, INIT, Receive(open, false));
            var v2 := Next(c, v1, Done(PassiveOpen(1), true));
            var v3 := Next(c, v2, Receive(Keepalive, false));
            var v4 := Next(c, v3, Done(PassiveGap(1), true));
            && PassiveOpen(1) in v1.ops && PassiveGap(1) in v3.ops
            && v4.state == Established && v4.ops == multiset{Advertise(2)}
  {
    hide ConfigValid, OpenAcceptable, Negotiate;
    var v1 := Next(c, INIT, Receive(open, false));
    assert v1.state == OpenConfirm && v1.gen == 1 && v1.passiveOpen && !v1.sendPending
           && v1.ops == multiset{PassiveOpen(1)};
    var v2 := Next(c, v1, Done(PassiveOpen(1), true));
    assert v2 == v1.(passiveOpen := false, ops := multiset{PassiveGap(1)});
    var v3 := Next(c, v2, Receive(Keepalive, false));
    assert v3.state == Established && v3.gen == 2 && v3.ops == multiset{PassiveGap(1), Advertise(2)};
  }

  lemma RunOfFour(c: Config, v: View, a0: Action, a1: Action, a2: Action, a3: Action)
    requires Enabled(v, a0) && Enabled(Next(c, v, a0), a1)
    requires var w := Next(c, Next(c, v, a0), a1); Enabled(w, a2) && Enabled(Next(c, w, a2), a3)
    ensures IsRun(c, v, [a0, a1, a2, a3])
    ensures After(c, v, [a0, a1, a2, a3]) == Next(c, Next(c, Next(c, Next(c, v, a0), a1), a2), a3)
  {
    hide Next, Enabled;
    var r0: seq<Action> := [];
    RunOfSnoc(c, v, r0, a0);
    RunOfSnoc(c, v, r0 + [a0], a1);
    RunOfSnoc(c, v, r0 + [a0] + [a1], a2);
    RunOfSnoc(c, v, r0 + [a0] + [a1] + [a2], a3);
    assert r0 + [a0] + [a1] + [a2] + [a3] == [a0, a1, a2, a3];
  }

  // ----- the local OPEN

  /** The OPEN of generation g is being sent. */
  ghost predicate Starting(v: View, g: nat) {
    exists op :: op in v.ops && op.StartSend? && op.gen == g
  }

  /** Where the attempt of a state with a running handshake comes from. */
  predicate Entered(v: View, a: Action, w: View) {
    var g := Attempt(w);
    HoldActive(w.state) ==>
      || (&& HoldActive(v.state) && Attempt(v) == g
          && (PassiveOpen(g) in v.ops ==> PassiveOpen(g) in w.ops || Shows(v, a, w, SentPassiveOpen(g))))
      || Shows(v, a, w, EntersActive(g))
      || (Shows(v, a, w, EntersPassive(g)) && PassiveOpen(g) in w.ops)
  }

  lemma IdleEntered(v: View, a: Action, w: View)
    requires Idles(v, w)
    ensures Entered(v, a, w)
  {
  }

  lemma KeepDoneEntered(v: View, op: Op, ok: bool)
    requires op.ActiveKeep? || op.PassiveKeep?
    ensures Entered(v, Done(op, ok), OnDone(v, op, ok))
  {
  }

  lemma PassiveDoneEntered(v: View, g: nat, ok: bool)
    requires UpInv(v) && PassiveOpen(g) in v.ops
    ensures Entered(v, Done(PassiveOpen(g), ok), OnDone(v, PassiveOpen(g), ok))
  {
  }

  lemma GapDoneEntered(v: View, g: nat, ok: bool)
    ensures Entered(v, Done(PassiveGap(g), ok), OnDone(v, PassiveGap(g), ok))
  {
    hide Shows, Up, Torn, Rollback;
  }

  lemma OtherDoneEntered(v: View, op: Op, ok: bool)
    requires OpsInv(v) && op in v.ops && !Handshake(op)
    ensures Entered(v, Done(op, ok), OnDone(v, op, ok))
  {
    hide OpsInv, OnDone, Entered, Apart;
    StartedBefore(v, op);
    OtherDoneApart(v, op, ok);
    ApartEntered(v, Done(op, ok), op, OnDone(v, op, ok));
  }

  /** A caller outside the handshake leaves the attempt alone or ends it. */
  predicate Apart(v: View, op: Op, w: View) {
    (w.state == v.state && w.gen == v.gen && w.ops == v.ops - multiset{op}) || !HoldActive(w.state)
  }

  lemma StartDoneApart(v: View, g: nat, from: State, ok: bool)
    requires PreOpen(from)
    ensures Apart(v, StartSend(g, from), OnDone(v, StartSend(g, from), ok))
  {
  }

  lemma TickDoneApart(v: View, g: nat, during: State, at: nat, ok: bool)
    ensures Apart(v, TickKeep(g, during, at), OnDone(v, TickKeep(g, during, at), ok))
  {
    hide Torn;
    TornPreOpen(v.(ops := v.ops - multiset{TickKeep(g, during, at)}));
  }

  lemma AdvertiseDoneApart(v: View, g: nat, ok: bool)
    ensures Apart(v, Advertise(g), OnDone(v, Advertise(g), ok))
  {
    hide Torn;
    TornPreOpen(v.(ops := v.ops - multiset{Advertise(g)}));
  }

  lemma DiscardDoneApart(v: View, g: nat, peer: nat, ok: bool)
    ensures Apart(v, Discard(g, peer), OnDone(v, Discard(g, peer), ok))
  {
    hide WithoutPeer;
  }

  lemma OtherDoneApart(v: View, op: Op, ok: bool)
    requires !Handshake(op) && (op.StartSend? ==> PreOpen(op.from))
    ensures Apart(v, op, OnDone(v, op, ok))
  {
    hide OnDone, Apart;
    match op
    case StartSend(g, from) => StartDoneApart(v, g, from, ok);
    case TickKeep(g, during, at) => TickDoneApart(v, g, during, at, ok);
    case Advertise(g) => AdvertiseDoneApart(v, g, ok);
    case Discard(g, peer) => DiscardDoneApart(v, g, peer, ok);
  }

  lemma TornPreOpen(v: View)
    ensures !HoldActive(Torn(v).state)
  {
  }

  lemma ApartEntered(v: View, a: Action, op: Op, w: View)
    requires !Handshake(op) && Apart(v, op, w)
    ensures Entered(v, a, w)
  {
    hide Shows;
  }

  lemma OpenEntered(c: Config, v: View, p: Packet, handled: bool, passive: bool)
    requires p.Open? && (if passive then PreOpen(v.state) else v.state == OpenSent)
    ensures Entered(v, Receive(p, handled), OnOpen(c, v, p, handled, passive))
  {
    hide OpenAcceptable, ConfigValid, Negotiate, Torn;
    TornIdles(v);
  }

  lemma ConfirmEntered(c: Config, v: View, a: Action, p: Packet)
    requires v.state == OpenConfirm
    ensures Entered(v, a, OnOpenConfirm(c, v, p))
  {
    hide OpenAcceptable, Torn, Shows;
    TornIdles(v);
  }

  lemma LaterEntered(c: Config, v: View, a: Action, p: Packet)
    ensures v.state == OpenConfirm ==> Entered(v, a, OnOpenConfirm(c, v, p))
    ensures v.state == Established ==> Entered(v, a, OnEstablished(v, p))
  {
    hide OnOpenConfirm, OnEstablished, Entered, Idles, Aside;
    if v.state == OpenConfirm {
      ConfirmEntered(c, v, a, p);
    }
    EstablishedIs(v, p);
    AsideIdles(v, OnEstablished(v, p));
    IdleEntered(v, a, OnEstablished(v, p));
  }

  lemma PacketEntered(c: Config, v: View, p: Packet, handled: bool)
    requires UpInv(v)
    ensures Entered(v, Receive(p, handled), OnPacket(c, v, p, handled))
  {
    hide OnOpen, OnOpenConfirm, OnEstablished, Torn, Shows;
    TornIdles(v);
    if p.Open? && (v.state == OpenSent || PreOpen(v.state)) {
      OpenEntered(c, v, p, handled, v.state != OpenSent);
    }
    LaterEntered(c, v, Receive(p, handled), p);
  }

  lemma StepEntered(c: Config, v: View, a: Action)
    requires OpsInv(v) && UpInv(v) && Enabled(v, a)
    ensures Entered(v, a, Next(c, v, a))
  {
    hide ConfigValid, OnDone, OnPacket, OnTick, OpsInv, UpInv, Shows, Torn;
    TornIdles(v);
    match a
    case Done(op, ok) =>
      if op.ActiveKeep? || op.PassiveKeep? {
        KeepDoneEntered(v, op, ok);
      } else if op.PassiveOpen? {
        PassiveDoneEntered(v, op.gen, ok);
      } else if op.PassiveGap? {
        GapDoneEntered(v, op.gen, ok);
      } else {
        OtherDoneEntered(v, op, ok);
      }
    case Receive(p, handled) => PacketEntered(c, v, p, handled);
    case Tick(now) =>
      TickIdles(c, v, now);
      IdleEntered(v, a, OnTick(c, v, now));
    case _ =>
  }

  /** Entering an attempt raises the generation to it. */
  lemma EntryIsNew(c: Config, v: View, a: Action, g: nat)
    ensures Shows(v, a, Next(c, v, a), EntersActive(g)) || Shows(v, a, Next(c, v, a), EntersPassive(g)) ==>
              v.gen < g == Next(c, v, a).gen
    ensures !(Shows(v, a, Next(c, v, a), EntersActive(g)) && Shows(v, a, Next(c, v, a), EntersPassive(g)))
  {
    hide Next;
    StateChangeRaisesGeneration(c, v, a);
  }

  lemma {:induction false} EntryIsPast(c: Config, run: seq<Action>, g: nat)
    requires IsRun(c, INIT, run) && (Seen(c, run, EntersActive(g)) || Seen(c, run, EntersPassive(g)))
    ensures g <= After(c, INIT, run).gen
    ensures !(Seen(c, run, EntersActive(g)) && Seen(c, run, EntersPassive(g)))
  {
    hide Next, Seen, Shows, Enabled, Inv, OpsInv, FlagsInv, UpInv, Busy, OnlyGap, After, IsRun;
    EmptyShowsNothing(c, EntersActive(g));
    EmptyShowsNothing(c, EntersPassive(g));
    LastStep(c, run);
    var r, a := run[..|run| - 1], run[|run| - 1];
    var v := After(c, INIT, r);
    SeenOfSnoc(c, r, a, EntersActive(g));
    SeenOfSnoc(c, r, a, EntersPassive(g));
    StateChangeRaisesGeneration(c, v, a);
    EntryIsNew(c, v, a, g);
    if Seen(c, r, EntersActive(g)) || Seen(c, r, EntersPassive(g)) {
      EntryIsPast(c, r, g);
    }
  }

  /** Every running handshake was entered, and a passive one sends or has sent its OPEN. */
  lemma {:induction false} Entry(c: Config, run: seq<Action>)
    requires IsRun(c, INIT, run) && HoldActive(After(c, INIT, run).state)
    ensures var v := After(c, INIT, run);
            var g := Attempt(v);
            && (Seen(c, run, EntersActive(g)) || Seen(c, run, EntersPassive(g)))
            && (Seen(c, run, EntersPassive(g)) ==> PassiveOpen(g) in v.ops || Seen(c, run, SentPassiveOpen(g)))
  {
    hide Next, Seen, Shows, Enabled, Inv, OpsInv, FlagsInv, UpInv, Busy, OnlyGap, After, IsRun;
    InitIsIdle(c);
    LastStep(c, run);
    var r, a := run[..|run| - 1], run[|run| - 1];
    var v := After(c, INIT, r);
    StepEntered(c, v, a);
    var g := Attempt(Next(c, v, a));
    EntryIsNew(c, v, a, g);
    SeenOfSnoc(c, r, a, EntersActive(g));
    SeenOfSnoc(c, r, a, EntersPassive(g));
    SeenOfSnoc(c, r, a, SentPassiveOpen(g));
    if Seen(c, r, EntersPassive(g)) {
      EntryIsPast(c, r, g);
    }
    if HoldActive(v.state) && Attempt(v) == g {
      Entry(c, r);
    }
  }

  // ----- when the OPEN of an active attempt was sent

  /** In OPEN_SENT the OPEN that led there stays with its caller until it is sent. */
  predicate Waits(v: View, a: Action, w: View, op: Op) {
    op.StartSend? && op.gen == v.gen && op in v.ops ==> op in w.ops || Shows(v, a, w, SentOpen(v.gen))
  }

  /** A handshake send of another attempt changes nothing where nothing is confirmed. */
  lemma HandshakeDoneElsewhere(v: View, op: Op, ok: bool)
    requires Handshake(op) && v.state != OpenConfirm
    ensures var x := OnDone(v, op, ok); x == v.(ops := v.ops - multiset{op}) || x.state == Idle
  {
    hide Up, Torn;
  }

  lemma StartDoneInOpenSent(v: View, op: Op, ok: bool)
    requires v.state == OpenSent && op.StartSend? && PreOpen(op.from)
    ensures var x := OnDone(v, op, ok);
            PreOpen(x.state) || (x == v.(ops := v.ops - multiset{op}) && (op.gen == v.gen ==> ok))
  {
  }

  lemma LaterDoneInOpenSent(v: View, op: Op, ok: bool)
    requires v.state == OpenSent && !Handshake(op) && !op.StartSend?
    ensures var x := OnDone(v, op, ok);
            PreOpen(x.state) || (x.state == OpenSent && x.gen == v.gen && x.ops == v.ops - multiset{op})
  {
    hide Torn;
    StatesAfter(v.(ops := v.ops - multiset{op}), 0);
  }

  lemma DoneInOpenSent(v: View, op: Op, ok: bool)
    requires v.state == OpenSent && (op.StartSend? ==> PreOpen(op.from))
    ensures var w := OnDone(v, op, ok);
            || PreOpen(w.state)
            || (w.state == OpenSent && v.gen == w.gen && w.ops == v.ops - multiset{op}
                && (op.StartSend? && op.gen == v.gen ==> ok))
  {
    hide OnDone;
    if Handshake(op) {
      HandshakeDoneElsewhere(v, op, ok);
    } else if op.StartSend? {
      StartDoneInOpenSent(v, op, ok);
    } else {
      LaterDoneInOpenSent(v, op, ok);
    }
  }

  lemma DoneElsewhere(v: View, op: Op, ok: bool)
    requires v.state != OpenSent && (op.StartSend? ==> PreOpen(op.from))
    ensures OnDone(v, op, ok).state != OpenSent
  {
    hide Torn, Up, Rollback;
    var w := v.(ops := v.ops - multiset{op});
    StatesAfter(w, op.gen);
    StatesAfter(w.(keepSent := true), op.gen);
  }

  lemma StatesAfter(w: View, g: nat)
    ensures Torn(w).state == Idle && Up(w).state == Established && (Rollback(w, g) == w || Rollback(w, g).state == Idle)
  {
  }

  lemma DoneWaits(v: View, op: Op, ok: bool, p: Op)
    requires OpsInv(v) && op in v.ops
    ensures var w := OnDone(v, op, ok);
            w.state == OpenSent ==> v.state == OpenSent && v.gen == w.gen && Waits(v, Done(op, ok), w, p)
  {
    hide OnDone, OpsInv;
    StartedBefore(v, op);
    if v.state == OpenSent {
      DoneInOpenSent(v, op, ok);
    } else {
      DoneElsewhere(v, op, ok);
    }
  }

  lemma PacketWaits(c: Config, v: View, p: Packet, handled: bool)
    ensures OnPacket(c, v, p, handled).state != OpenSent
  {
    hide OnOpen, OnOpenConfirm, OnEstablished, Torn;
    StatesAfter(v, 0);
    if p.Open? {
      OpenWaits(c, v, p, handled, true);
      OpenWaits(c, v, p, handled, false);
    }
    LaterWaits(c, v, p);
  }

  lemma OpenWaits(c: Config, v: View, p: Packet, handled: bool, passive: bool)
    requires p.Open?
    ensures OnOpen(c, v, p, handled, passive).state != OpenSent
  {
    hide OpenAcceptable, ConfigValid, Negotiate;
  }

  lemma LaterWaits(c: Config, v: View, p: Packet)
    ensures v.state == OpenConfirm ==> OnOpenConfirm(c, v, p).state != OpenSent
    ensures v.state == Established ==> OnEstablished(v, p).state != OpenSent
  {
    hide OpenAcceptable, OnEstablished, Aside;
    EstablishedIs(v, p);
    AsideIdles(v, OnEstablished(v, p));
  }

  lemma StepWaits(c: Config, v: View, a: Action)
    requires OpsInv(v) && Enabled(v, a) && Next(c, v, a).state == OpenSent
    ensures var w := Next(c, v, a);
            || Starting(w, w.gen)
            || (v.state == OpenSent && v.gen == w.gen && (Starting(v, v.gen) ==> Shows(v, a, w, SentOpen(v.gen))))
  {
    hide ConfigValid, OnDone, OnPacket, OnTick, OpsInv, Cleared;
    var w := Next(c, v, a);
    if Starting(v, v.gen) {
      var op :| op in v.ops && op.StartSend? && op.gen == v.gen;
      if a.Done? {
        DoneWaits(v, a.op, a.ok, op);
      }
    } else if a.Done? {
      DoneWaits(v, a.op, a.ok, a.op);
    }
    match a
    case Receive(p, handled) => PacketWaits(c, v, p, handled);
    case Tick(now) => TickIdles(c, v, now);
    case Start =>
      if w != v {
        ClearedIs(v, OpenSent);
        assert StartSend(v.gen + 1, v.state) in w.ops;
      }
    case EnterPreOpen(active) => ClearedIs(v, if active then Active else Connect);
    case _ => ClearedIs(v, Idle);
  }

  lemma ClearedIs(v: View, s: State)
    ensures Cleared(v, s).state == s && Cleared(v, s).gen == v.gen + 1 && Torn(v).state == Idle
  {
  }

  /** In OPEN_SENT the OPEN is being sent or has been. */
  lemma {:induction false} OpenIsSent(c: Config, run: seq<Action>)
    requires IsRun(c, INIT, run) && After(c, INIT, run).state == OpenSent
    ensures var v := After(c, INIT, run);
            Starting(v, v.gen) || Seen(c, run, SentOpen(v.gen))
  {
    hide Next, Seen, Shows, Enabled, Inv, OpsInv, FlagsInv, UpInv, Starting, After, IsRun;
    InitIsIdle(c);
    LastStep(c, run);
    var r, a := run[..|run| - 1], run[|run| - 1];
    var v := After(c, INIT, r);
    StepWaits(c, v, a);
    SeenOfSnoc(c, r, a, SentOpen(Next(c, v, a).gen));
    if v.state == OpenSent {
      OpenIsSent(c, r);
    }
  }

  lemma ActiveEntry(c: Config, v: View, a: Action, g: nat)
    requires OpsInv(v) && Enabled(v, a) && Shows(v, a, Next(c, v, a), EntersActive(g))
    ensures a.Receive? && v.state == OpenSent && v.gen + 1 == g
  {
    hide OnDone, OnPacket, OnTick, OpsInv, ConfigValid;
    match a
    case Done(op, ok) =>
      StartedBefore(v, op);
      DoneInOpenSent(v, op, ok);
    case Receive(p, handled) => PacketInOpenSent(c, v, p, handled);
    case Tick(now) => TickIdles(c, v, now);
    case _ =>
  }

  lemma PacketInOpenSent(c: Config, v: View, p: Packet, handled: bool)
    requires v.state == OpenSent
    ensures OnPacket(c, v, p, handled).gen == v.gen + 1
  {
    hide OpenAcceptable, ConfigValid, Confirmed, Torn;
    OpenSentMovesOn(c, v, p);
  }

  lemma OpenSentMovesOn(c: Config, v: View, p: Packet)
    ensures Torn(v).gen == v.gen + 1 && (p.Open? ==> Confirmed(c, v, p, false).gen == v.gen + 1)
  {
    hide Negotiate;
  }

  lemma {:induction false} PrefixIsRun(c: Config, v: View, run: seq<Action>, i: nat)
    requires IsRun(c, v, run) && i <= |run|
    ensures IsRun(c, v, run[..i])
    decreases i
  {
    hide Next, Enabled;
    if i > 0 {
      PrefixIsRun(c, Next(c, v, run[0]), run[1..], i - 1);
      assert run[..i][1..] == run[1..][..i - 1];
    }
  }

  /** The step at a position of a run. */
  lemma StepAt(c: Config, run: seq<Action>, i: nat, m: Mark)
    requires IsRun(c, INIT, run) && i < |run|
    ensures var v := After(c, INIT, run[..i]);
            && IsRun(c, INIT, run[..i]) && Enabled(v, run[i]) && OpsInv(v)
            && (ShowsAt(c, run, i, m) <==> Shows(v, run[i], Next(c, v, run[i]), m))
  {
    hide Next, Shows, Enabled, Inv, OpsInv, FlagsInv, UpInv, After, IsRun;
    PrefixIsRun(c, INIT, run, i + 1);
    LastStep(c, run[..i + 1]);
    assert run[..i + 1][..i] == run[..i];
  }

  lemma SeenBefore(c: Config, run: seq<Action>, i: nat, m: Mark)
    requires i <= |run|
    ensures Seen(c, run[..i], m) <==> exists j :: 0 <= j < i && ShowsAt(c, run, j, m)
  {
    hide Shows, After;
    forall j | 0 <= j < i ensures ShowsAt(c, run, j, m) <==> ShowsAt(c, run[..i], j, m) {
      assert run[..i][..j] == run[..j] && run[..i][..j + 1] == run[..j + 1];
    }
    hide ShowsAt;
    if j :| 0 <= j < i && ShowsAt(c, run, j, m) {
      assert ShowsAt(c, run[..i], j, m);
    }
  }

  predicate ShownAfter(c: Config, run: seq<Action>, i: nat, m: Mark) {
    exists j :: i < j < |run| && ShowsAt(c, run, j, m)
  }

  /** The peer's OPEN was received while the local OPEN was still being sent, and afterwards no end of that
      send reported success. */
  ghost predicate AnsweredEarly(c: Config, run: seq<Action>, g: nat) {
    g > 0 && exists i :: 0 <= i < |run| && EarlyAt(c, run, i, g)
  }

  ghost predicate EarlyAt(c: Config, run: seq<Action>, i: nat, g: nat)
    requires i < |run| && g > 0
  {
    && ShowsAt(c, run, i, EntersActive(g)) && Starting(After(c, INIT, run[..i]), g - 1)
    && !ShownAfter(c, run, i, SentOpen(g - 1))
  }

  lemma UnsentIsEarly(c: Config, run: seq<Action>, i: nat, g: nat)
    requires IsRun(c, INIT, run) && i < |run| && ShowsAt(c, run, i, EntersActive(g)) && g > 0
    requires !Seen(c, run, SentOpen(g - 1))
    ensures EarlyAt(c, run, i, g)
  {
    hide Next, Enabled, OpsInv, After, IsRun, ShowsAt;
    StepAt(c, run, i, EntersActive(g));
    var v := After(c, INIT, run[..i]);
    ActiveEntry(c, v, run[i], g);
    OpenIsSent(c, run[..i]);
    SeenBefore(c, run, i, SentOpen(g - 1));
  }

  lemma EarlyIsUnsent(c: Config, run: seq<Action>, i: nat, g: nat)
    requires IsRun(c, INIT, run) && g > 0 && i < |run| && EarlyAt(c, run, i, g)
    ensures !Seen(c, run, SentOpen(g - 1))
  {
    hide Next, Enabled, OpsInv, After, IsRun, ShowsAt, Opening;
    StepAt(c, run, i, EntersActive(g));
    StepAt(c, run, i, SentOpen(g - 1));
    var v := After(c, INIT, run[..i]);
    ActiveEntry(c, v, run[i], g);
    SeenBefore(c, run, i, SentOpen(g - 1));
    if Seen(c, run[..i], SentOpen(g - 1)) {
      SentIsOver(c, run[..i], SentOpen(g - 1));
      StartingIsBusy(v, g - 1);
    }
  }

  lemma StartingIsBusy(v: View, g: nat)
    ensures Starting(v, g) ==> Busy(v, g)
  {
  }

  lemma ActiveIsLater(c: Config, run: seq<Action>, g: nat)
    requires IsRun(c, INIT, run) && Seen(c, run, EntersActive(g))
    ensures g > 0
  {
    hide Next, Enabled, OpsInv, After, IsRun, Shows;
    var i :| 0 <= i < |run| && ShowsAt(c, run, i, EntersActive(g));
    StepAt(c, run, i, EntersActive(g));
    ActiveEntry(c, After(c, INIT, run[..i]), run[i], g);
  }

  /** An established session was entered in one of two ways. A passive one has sent its OPEN. An active one
      has sent its OPEN unless the peer answered while it was still being sent and the send did not then
      succeed. */
  lemma EstablishedOpens(c: Config, run: seq<Action>)
    requires IsRun(c, INIT, run) && After(c, INIT, run).state == Established
    ensures var g := Attempt(After(c, INIT, run));
            && (Seen(c, run, EntersActive(g)) <==> !Seen(c, run, EntersPassive(g)))
            && (Seen(c, run, EntersPassive(g)) ==> Seen(c, run, SentPassiveOpen(g)))
            && (Seen(c, run, EntersActive(g)) ==>
                  g > 0 && (!Seen(c, run, SentOpen(g - 1)) <==> AnsweredEarly(c, run, g)))
  {
    hide After, IsRun, Shows, ShowsAt, EarlyAt;
    var g := Attempt(After(c, INIT, run));
    Entry(c, run);
    EntryIsPast(c, run, g);
    PassiveIsSent(c, run);
    if Seen(c, run, EntersActive(g)) {
      ActiveIsLater(c, run, g);
      if AnsweredEarly(c, run, g) {
        var i :| 0 <= i < |run| && EarlyAt(c, run, i, g);
        EarlyIsUnsent(c, run, i, g);
      } else if !Seen(c, run, SentOpen(g - 1)) {
        var i :| 0 <= i < |run| && ShowsAt(c, run, i, EntersActive(g));
        UnsentIsEarly(c, run, i, g);
      }
    }
  }

  lemma PassiveIsSent(c: Config, run: seq<Action>)
    requires IsRun(c, INIT, run) && After(c, INIT, run).state == Established
    ensures var v := After(c, INIT, run);
            v.gen == Attempt(v) + 1 && PassiveOpen(Attempt(v)) !in v.ops
  {
    RunKeeps(c, INIT, run);
    hide After, IsRun, OpsInv, FlagsInv, HoldInv, RoutesInv;
  }

  /** The exception is real: whatever the configuration, an active attempt can be established although the
      send of its OPEN has failed. */
  lemma EstablishedAfterFailedOpen(c: Config, open: Packet)
    requires Acceptable(c, open)
    ensures var early := [Start, Receive(open, false), Done(ActiveKeep(2), true), Receive(Keepalive, false)];
            var run := early + [Done(StartSend(1, Idle), false)];
            && IsRun(c, INIT, run) && !Seen(c, run, SentOpen(1))
            && After(c, INIT, early).state == Established && StartSend(1, Idle) in After(c, INIT, early).ops
            && After(c, INIT, run).state == Established && After(c, INIT, run).ops == multiset{Advertise(3)}
  {
    ActiveComesUp(c, open);
    hide Next, Acceptable;
    var early := [Start, Receive(open, false), Done(ActiveKeep(2), true), Receive(Keepalive, false)];
    RunOfFour(c, INIT, early[0], early[1], early[2], early[3]);
    RunOfSnoc(c, INIT, early, Done(StartSend(1, Idle), false));
  }

  lemma ActiveComesUp(c: Config, open: Packet)
    requires Acceptable(c, open)
    ensures var v1 := Next(c, INIT, Start);
            var v2 := Next(c, v1, Receive(open, false));
            var v3 := Next(c, v2, Done(ActiveKeep(2), true));
            var v4 := Next(c, v3, Receive(Keepalive, false));
            var v5 := Next(c, v4, Done(StartSend(1, Idle), false));
            && ActiveKeep(2) in v2.ops && v4.state == Established && StartSend(1, Idle) in v4.ops
            && v5.state == Established && v5.ops == multiset{Advertise(3)}
  {
    hide ConfigValid, OpenAcceptable, Negotiate;
    var v1 := Next(c, INIT, Start);
    assert v1.state == OpenSent && v1.gen == 1 && v1.ops == multiset{StartSend(1, Idle)};
    var v2 := Next(c, v1, Receive(open, false));
    assert v2.state == OpenConfirm && v2.gen == 2 && v2.sendPending && !v2.keepPending && !v2.passiveOpen;
    assert v2.ops == multiset{StartSend(1, Idle), ActiveKeep(2)};
    hide Next, Acceptable;
    ConfirmedComesUp(c, v2);
  }

  lemma ConfirmedComesUp(c: Config, v2: View)
    requires v2.state == OpenConfirm && v2.gen == 2 && v2.sendPending && !v2.keepPending && !v2.passiveOpen
    requires v2.ops == multiset{StartSend(1, Idle), ActiveKeep(2)}
    ensures var v3 := Next(c, v2, Done(ActiveKeep(2), true));
            var v4 := Next(c, v3, Receive(Keepalive, false));
            var v5 := Next(c, v4, Done(StartSend(1, Idle), false));
            && v4.state == Established && StartSend(1, Idle) in v4.ops
            && v5.state == Established && v5.ops == multiset{Advertise(3)}
  {
    var v3 := Next(c, v2, Done(ActiveKeep(2), true));
    assert v3 == v2.(keepSent := true, sendPending := false, ops := multiset{StartSend(1, Idle)});
    var v4 := Next(c, v3, Receive(Keepalive, false));
    assert v4.state == Established && v4.gen == 3 && v4.ops == multiset{StartSend(1, Idle), Advertise(3)};
  }
}
