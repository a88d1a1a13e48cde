/** The peers' routes over runs of a session (src/fsm.c). A teardown discards them only after it has given up
    the lock, so between the two they are still there, and a late discard meets whatever has happened since.
    A rollback that runs out of memory again loses routes too. */
module SessionRoutes {
  import opened Prefix4
  import opened BestPath
  import opened Session
  import opened SessionHistory

  // ----- what a step does to the routes

  datatype Effect =
    | Nothing
    | Apply(peer: nat, withdrawn: set<Prefix>, announced: map<Prefix, Route>)   // an UPDATE is applied
    | Lose(peer: nat, lost: set<Prefix>)                                        // an UPDATE is rolled back
    | Drop(peer: nat)                                                           // a discard ends

  function EffectOf(v: View, a: Action): Effect {
    match a
    case Done(op, _) => if op.Discard? then Drop(op.peer) else Nothing
    case Receive(p, _) =>
      if v.state != Established || !p.Update? then Nothing
      else (match p.outcome
            case Applied(withdrawn, announced) => Apply(v.peerId, withdrawn, announced)
            case RolledBack(lost) => Lose(v.peerId, lost)
            case Refused(lost) => Lose(v.peerId, lost))
    case _ => Nothing
  }

  function Take(t: Routes, e: Effect): Routes {
    match e
    case Nothing => t
    case Apply(peer, withdrawn, announced) => Revised(t, peer, withdrawn, announced)
    case Lose(peer, lost) => Without(t, peer, lost)
    case Drop(peer) => WithoutPeer(t, peer)
  }

  /** How one step changes the routes, and whose discards it adds. */
  predicate Shifts(v: View, a: Action, w: View) {
    && w.routes == Take(v.routes, EffectOf(v, a))
    && (forall op :: op in w.ops && op.Discard? ==>
          op in v.ops || (v.state == Established && w.gen > v.gen && op.peer == v.peerId))
    && (w.gen == v.gen ==> w.peerId == v.peerId)
  }

  /** A step that neither brings routes in nor takes any out; only leaving ESTABLISHED adds a discard. */
  predicate Ends(w: View, x: View) {
    && x.routes == w.routes
    && (forall op :: op in x.ops && op.Discard? ==>
          op in w.ops || (w.state == Established && x.gen > w.gen && op.peer == w.peerId))
    && (x.gen == w.gen ==> x.peerId == w.peerId)
  }

  /** Such a step, but for what bringing back one of the callers changes. */
  lemma EndShifts(v: View, op: Op, ok: bool, x: View)
    requires !op.Discard? && Ends(v.(ops := v.ops - multiset{op}), x)
    ensures Shifts(v, Done(op, ok), x)
  {
    assert forall p :: p in v.ops - multiset{op} ==> p in v.ops;
  }

  lemma QuietShifts(v: View, a: Action, x: View)
    requires Ends(v, x) && EffectOf(v, a) == Nothing && !a.Done?
    ensures Shifts(v, a, x)
  {
  }

  lemma EndsTorn(w: View)
    ensures Ends(w, w) && Ends(w, Torn(w))
  {
  }

  lemma EndsCleared(w: View, s: State)
    requires w.state != Established
    ensures Ends(w, Cleared(w, s)) && Ends(w, Cleared(w, s).(ops := w.ops + multiset{StartSend(w.gen + 1, w.state)}))
  {
  }

  lemma EndsRollback(w: View, g: nat)
    ensures Ends(w, Rollback(w, g))
  {
  }

  lemma EndsUp(w: View)
    ensures Ends(w, Up(w.(keepSent := true))) && Ends(w, w.(keepSent := true, sendPending := false))
  {
  }

  lemma EndsPassive(w: View, g: nat)
    ensures Ends(w, w.(passiveOpen := false, ops := w.ops + multiset{PassiveGap(g)}))
    ensures Ends(w, w.(sendPending := true, ops := w.ops + multiset{PassiveKeep(g)}))
  {
  }

  lemma EndsOther(w: View, op: Op)
    ensures op.StartSend? ==>
              Ends(w, w.(state := op.from, gen := w.gen + 1, sendPending := false, keepPending := false,
                         passiveOpen := false, passiveKeep := false))
    ensures op.TickKeep? ==> Ends(w, w.(lastKeep := op.at))
  {
  }

  lemma EndsConfirmed(c: Config, v: View, p: Packet, passive: bool)
    requires p.Open?
    ensures Ends(v, Confirmed(c, v, p, passive))
  {
    hide Negotiate;
  }

  lemma OpenEnds(c: Config, v: View, p: Packet, handled: bool, passive: bool)
    requires p.Open?
    ensures Ends(v, OnOpen(c, v, p, handled, passive))
  {
    hide OpenAcceptable, ConfigValid, Confirmed, Torn, Ends;
    EndsTorn(v);
    EndsConfirmed(c, v, p, passive);
  }

  lemma EndsHeard(v: View)
    ensures var w := MarkRx(v).(keepHeard := true);
            && Ends(v, w.(passiveKeep := true)) && Ends(v, w.(keepPending := true)) && Ends(v, Up(w))
  {
  }

  lemma ConfirmEnds(c: Config, v: View, p: Packet)
    ensures Ends(v, OnOpenConfirm(c, v, p))
  {
    hide OpenAcceptable, Torn, MarkRx, Up, Ends;
    EndsTorn(v);
    EndsHeard(v);
  }

  lemma AsideEnds(v: View, x: View)
    requires Aside(v, x)
    ensures Ends(v.(routes := x.routes), x)
  {
    hide MarkRx, Torn;
    AsideParts(v);
  }

  lemma AsideParts(v: View)
    ensures var m := MarkRx(v); m.ops == v.ops && m.gen == v.gen && m.peerId == v.peerId
    ensures var t := Torn(v);
            && t.gen > v.gen && forall op :: op in t.ops && op.Discard? ==>
                 op in v.ops || (v.state == Established && op.peer == v.peerId)
  {
  }

  lemma RoutesShift(v: View, a: Action, t: Routes, x: View)
    requires !a.Done? && t == Take(v.routes, EffectOf(v, a)) && Ends(v.(routes := t), x)
    ensures Shifts(v, a, x)
  {
    hide Take, EffectOf;
  }

  lemma EstablishedShifts(v: View, p: Packet, handled: bool)
    requires v.state == Established
    ensures Shifts(v, Receive(p, handled), OnEstablished(v, p))
  {
    hide OnEstablished, Shifts, Ends, Take, EffectOf, Aside;
    var a, x := Receive(p, handled), OnEstablished(v, p);
    EstablishedTakes(v, p, handled);
    EstablishedIs(v, p);
    AsideEnds(v, x);
    RoutesShift(v, a, x.routes, x);
  }

  lemma UpdateTakes(v: View, outcome: Outcome, handled: bool)
    requires v.state == Established
    ensures OnUpdate(v, outcome).routes == Take(v.routes, EffectOf(v, Receive(Update(outcome), handled)))
  {
    hide Without, Revised, WithoutPeer, Torn, MarkRx;
  }

  lemma EstablishedTakes(v: View, p: Packet, handled: bool)
    requires v.state == Established
    ensures OnEstablished(v, p).routes == Take(v.routes, EffectOf(v, Receive(p, handled)))
  {
    hide OnUpdate, Without, Revised, WithoutPeer, Torn, MarkRx;
    TornIs(v);
    MarkIs(v);
    if p.Update? {
      UpdateTakes(v, p.outcome, handled);
    }
  }

  lemma PacketShifts(c: Config, v: View, p: Packet, handled: bool)
    ensures Shifts(v, Receive(p, handled), OnPacket(c, v, p, handled))
  {
    hide OnOpen, OnOpenConfirm, OnEstablished, Torn, Shifts, Ends;
    EndsTorn(v);
    if v.state == Established && !p.Notification? {
      EstablishedShifts(v, p, handled);
    } else {
      ConfirmEnds(c, v, p);
      if p.Open? {
        OpenEnds(c, v, p, handled, v.state != OpenSent);
      }
      QuietShifts(v, Receive(p, handled), OnPacket(c, v, p, handled));
    }
  }

  lemma EndsTick(v: View, now: nat)
    ensures Ends(v, v.(nowMs := now, lastRx := now, lastKeep := now, clock := true))
    ensures Ends(v, v.(nowMs := now)) && Ends(v, Torn(v.(nowMs := now)))
    ensures Ends(v, v.(nowMs := now, ops := v.ops + multiset{TickKeep(v.gen, v.state, now)}))
  {
    hide Torn;
    EndsTorn(v.(nowMs := now));
  }

  lemma TickShifts(c: Config, v: View, now: nat)
    ensures Shifts(v, Tick(now), OnTick(c, v, now))
  {
    hide Elapsed, KeepaliveTime, Torn, Shifts, Ends;
    EndsTick(v, now);
    QuietShifts(v, Tick(now), OnTick(c, v, now));
  }

  lemma DiscardShifts(v: View, op: Op, ok: bool)
    requires op.Discard?
    ensures Shifts(v, Done(op, ok), OnDone(v, op, ok))
  {
    assert forall p :: p in v.ops - multiset{op} ==> p in v.ops;
  }

  lemma DoneEnds(w: View, v: View, op: Op, ok: bool)
    requires !op.Discard? && w == v.(ops := v.ops - multiset{op})
    ensures Ends(w, OnDone(v, op, ok))
  {
    hide Torn, Up, Rollback, Ends;
    EndsTorn(w);
    EndsRollback(w, op.gen);
    EndsUp(w);
    EndsPassive(w, op.gen);
    EndsOther(w, op);
  }

  lemma DoneShifts(v: View, op: Op, ok: bool)
    ensures Shifts(v, Done(op, ok), OnDone(v, op, ok))
  {
    hide OnDone, Ends, Shifts;
    if op.Discard? {
      DiscardShifts(v, op, ok);
    } else {
      DoneEnds(v.(ops := v.ops - multiset{op}), v, op, ok);
      EndShifts(v, op, ok, OnDone(v, op, ok));
    }
  }

  lemma StepShifts(c: Config, v: View, a: Action)
    ensures Shifts(v, a, Next(c, v, a))
  {
    hide OnDone, OnPacket, OnTick, ConfigValid, Cleared, Torn, Shifts, Ends;
    match a
    case Done(op, ok) => DoneShifts(v, op, ok);
    case Receive(p, handled) => PacketShifts(c, v, p, handled);
    case Tick(now) => TickShifts(c, v, now);
    case _ =>
      EndsTorn(v);
      if PreOpen(v.state) {
        EndsCleared(v, OpenSent);
        EndsCleared(v, Active);
        EndsCleared(v, Connect);
      }
      QuietShifts(v, a, Next(c, v, a));
  }

  // ----- what the events of a run say about the routes

  /** A peer's routes, by prefix. */
  function Part(t: Routes, id: nat): map<Prefix, Route> {
    map p | p in (set k | k in t && k.0 == id :: k.1) :: t[(id, p)]
  }

  lemma PartMeaning(t: Routes, id: nat)
    ensures forall p :: p in Part(t, id) <==> (id, p) in t
    ensures forall p :: p in Part(t, id) ==> Part(t, id)[p] == t[(id, p)]
  {
    forall p | (id, p) in t ensures p in Part(t, id) {
      assert (id, p).0 == id && (id, p).1 == p;
    }
  }

  predicate Names(e: Effect, id: nat, p: Prefix) {
    e.Apply? && e.peer == id && (p in e.withdrawn || p in e.announced)
  }

  /** A peer's routes after a step. */
  function PartAfter(m: map<Prefix, Route>, e: Effect, id: nat): map<Prefix, Route> {
    if e.Nothing? || e.peer != id then m
    else
      match e
      case Apply(_, withdrawn, announced) => (m - withdrawn) + announced
      case Lose(_, lost) => m - lost
      case Drop(_) => map[]
  }

  /** What a peer has last told for each prefix, after a step. */
  function ToldAfter(told: map<Prefix, Route>, e: Effect, id: nat): map<Prefix, Route> {
    if e.Apply? && e.peer == id then (told - e.withdrawn) + e.announced else told
  }

  /** The prefixes that a discard or a rollback has taken since the peer last named them, after a step. */
  function MissingAfter(missing: set<Prefix>, told: map<Prefix, Route>, e: Effect, id: nat): set<Prefix> {
    if e.Nothing? || e.peer != id then missing
    else
      match e
      case Apply(_, withdrawn, announced) => missing - withdrawn - announced.Keys
      case Lose(_, lost) => missing + lost
      case Drop(_) => missing + told.Keys
  }

  /** What peer id has last told for each prefix in going on from v, discards and rollbacks notwithstanding. */
  function Told(c: Config, v: View, more: seq<Action>, id: nat): map<Prefix, Route> {
    if more == [] then Part(v.routes, id)
    else
      var r, a := more[..|more| - 1], more[|more| - 1];
      ToldAfter(Told(c, v, r, id), EffectOf(After(c, v, r), a), id)
  }

  /** The prefixes that a discard or a rollback has taken since the peer last named them. */
  function Missing(c: Config, v: View, more: seq<Action>, id: nat): set<Prefix> {
    if more == [] then {}
    else
      var r, a := more[..|more| - 1], more[|more| - 1];
      MissingAfter(Missing(c, v, r, id), Told(c, v, r, id), EffectOf(After(c, v, r), a), id)
  }

  lemma TakePart(t: Routes, e: Effect, id: nat)
    ensures Part(Take(t, e), id) == PartAfter(Part(t, id), e, id)
  {
    PartMeaning(t, id);
    PartMeaning(Take(t, e), id);
    hide Part;
    match e
    case Nothing =>
    case Apply(peer, withdrawn, announced) =>
      hide Revised, Without;
      RevisedMeaning(t, peer, withdrawn, announced);
    case Lose(peer, lost) =>
      hide Without;
      WithoutMeaning(t, peer, lost);
    case Drop(peer) =>
  }

  lemma PartIsTold(told: map<Prefix, Route>, missing: set<Prefix>, e: Effect, id: nat)
    ensures PartAfter(told - missing, e, id) == ToldAfter(told, e, id) - MissingAfter(missing, told, e, id)
  {
  }

  /** In every run a peer's routes in the table are exactly what it has last told, less what discards and
      rollbacks have taken since. */
  lemma {:induction false} RoutesAreEvents(c: Config, v: View, more: seq<Action>, id: nat)
    ensures Part(After(c, v, more).routes, id) == Told(c, v, more, id) - Missing(c, v, more, id)
    decreases |more|
  {
    if more != [] {
      var r, a := more[..|more| - 1], more[|more| - 1];
      assert more == r + [a];
      hide Next, Part, Take, EffectOf, PartAfter, ToldAfter, MissingAfter, After;
      RunOfSnoc(c, v, r, a);
      RoutesAreEvents(c, v, r, id);
      var w := After(c, v, r);
      StepShifts(c, w, a);
      TakePart(w.routes, EffectOf(w, a), id);
      PartIsTold(Told(c, v, r, id), Missing(c, v, r, id), EffectOf(w, a), id);
    }
  }

  /** The table has what a peer told exactly if nothing of it is missing. */
  lemma KeepsIff(c: Config, v: View, more: seq<Action>, id: nat)
    ensures Part(After(c, v, more).routes, id) == Told(c, v, more, id) <==>
            Missing(c, v, more, id) !! Told(c, v, more, id).Keys
  {
    RoutesAreEvents(c, v, more, id);
    hide Part, Told, Missing, After;
    var told, missing := Told(c, v, more, id), Missing(c, v, more, id);
    assert (told - missing).Keys == told.Keys - missing;
    if missing !! told.Keys {
      assert told - missing == told;
    }
  }

  /** Step i takes the route of a prefix, and no later step names the prefix. */
  predicate TakenAt(c: Config, v: View, more: seq<Action>, id: nat, p: Prefix, i: nat)
    requires i < |more|
  {
    var e := EffectOf(After(c, v, more[..i]), more[i]);
    && ((e.Drop? && e.peer == id && p in Told(c, v, more[..i], id)) || (e.Lose? && e.peer == id && p in e.lost))
    && forall j :: i < j < |more| ==> !NamedAt(c, v, more, id, p, j)
  }

  predicate NamedAt(c: Config, v: View, more: seq<Action>, id: nat, p: Prefix, j: nat)
    requires j < |more|
  {
    Names(EffectOf(After(c, v, more[..j]), more[j]), id, p)
  }

  /** What missing means: some discard or rollback took it and the peer has not named it since. */
  lemma {:induction false} MissingMeaning(c: Config, v: View, more: seq<Action>, id: nat, p: Prefix)
    ensures p in Missing(c, v, more, id) <==> exists i :: 0 <= i < |more| && TakenAt(c, v, more, id, p, i)
    decreases |more|
  {
    if more != [] {
      hide TakenAt, NamedAt, Missing;
      var n := |more| - 1;
      MissingMeaning(c, v, more[..n], id, p);
      forall i | 0 <= i < n
        ensures TakenAt(c, v, more, id, p, i) <==> TakenAt(c, v, more[..n], id, p, i) && !NamedAt(c, v, more, id, p, n)
      {
        TakenLonger(c, v, more, id, p, i);
      }
      TakenLast(c, v, more, id, p);
    }
  }

  lemma TakenLonger(c: Config, v: View, more: seq<Action>, id: nat, p: Prefix, i: nat)
    requires i + 1 < |more|
    ensures var n := |more| - 1;
            var r := more[..n];
            TakenAt(c, v, more, id, p, i) <==> TakenAt(c, v, r, id, p, i) && !NamedAt(c, v, more, id, p, n)
  {
    hide EffectOf, After, Told;
    var n := |more| - 1;
    var r := more[..n];
    forall j | 0 <= j < n ensures r[..j] == more[..j] && r[j] == more[j] {
    }
    forall j | 0 <= j < n ensures NamedAt(c, v, r, id, p, j) <==> NamedAt(c, v, more, id, p, j) {
    }
    hide NamedAt;
  }

  lemma TakenLast(c: Config, v: View, more: seq<Action>, id: nat, p: Prefix)
    requires more != []
    ensures var n := |more| - 1;
            && (p in Missing(c, v, more, id) <==>
                  || TakenAt(c, v, more, id, p, n)
                  || (p in Missing(c, v, more[..n], id) && !NamedAt(c, v, more, id, p, n)))
  {
    hide EffectOf, After, Told;
  }

  // ----- outside ESTABLISHED

  /** Outside ESTABLISHED only peers with a pending discard have routes; so no route is left exactly when
      everything that such peers have told is missing, and in particular once no discard is pending. */
  lemma NoRoutesOutsideEstablished(c: Config, run: seq<Action>)
    requires IsRun(c, INIT, run) && After(c, INIT, run).state != Established
    ensures var v := After(c, INIT, run);
            && (forall id :: Part(v.routes, id) != map[] ==> Pending(v, id))
            && (v.routes == map[] <==>
                  forall id :: Pending(v, id) ==> Told(c, INIT, run, id).Keys <= Missing(c, INIT, run, id))
            && ((forall op :: op in v.ops ==> !op.Discard?) ==> v.routes == map[])
  {
    var v := After(c, INIT, run);
    RunKeeps(c, INIT, run);
    hide After, IsRun, Told, Missing, OpsInv, FlagsInv, UpInv, HoldInv, Part, Pending;
    assert forall k :: k in v.routes ==> Pending(v, k.0);
    forall id: nat ensures Part(v.routes, id) != map[] ==> Pending(v, id) {
      PartMeaning(v.routes, id);
      if Part(v.routes, id) != map[] {
        var p :| p in Part(v.routes, id);
        assert (id, p) in v.routes;
      }
    }
    forall id: nat ensures Part(v.routes, id) == map[] <==> Told(c, INIT, run, id).Keys <= Missing(c, INIT, run, id) {
      RoutesAreEvents(c, INIT, run, id);
      NothingLeft(Told(c, INIT, run, id), Missing(c, INIT, run, id));
    }
    EmptyIffParts(v.routes);
    NoDiscardNoPending(v);
  }

  lemma NoDiscardNoPending(v: View)
    ensures (forall op :: op in v.ops ==> !op.Discard?) ==> forall id :: !Pending(v, id)
  {
  }

  lemma NothingLeft(m: map<Prefix, Route>, ps: set<Prefix>)
    ensures m - ps == map[] <==> m.Keys <= ps
  {
    forall p | p in m && p !in ps ensures p in m - ps {
    }
    if m.Keys <= ps {
      assert m - ps == map[];
    }
  }

  lemma EmptyIffParts(t: Routes)
    ensures t == map[] <==> forall id :: Part(t, id) == map[]
  {
    hide Part;
    forall id: nat ensures forall p :: p in Part(t, id) <==> (id, p) in t {
      PartMeaning(t, id);
    }
    if t != map[] {
      var k :| k in t;
      assert (k.0, k.1) in t;
      assert k.1 in Part(t, k.0);
    }
    if t == map[] {
      forall id: nat ensures Part(t, id) == map[] {
        assert forall p :: p !in Part(t, id);
      }
    }
  }

  // ----- inside ESTABLISHED

  lemma {:induction false} RunOfConcat(c: Config, v: View, r: seq<Action>, s: seq<Action>)
    ensures After(c, v, r + s) == After(c, After(c, v, r), s)
    ensures IsRun(c, v, r + s) <==> IsRun(c, v, r) && IsRun(c, After(c, v, r), s)
    decreases |r|
  {
    hide Next, Enabled;
    if r == [] {
      assert r + s == s;
    } else {
      assert (r + s)[0] == r[0] && (r + s)[1..] == r[1..] + s;
      RunOfConcat(c, Next(c, v, r[0]), r[1..], s);
    }
  }

  /** From v the session stays as it is throughout. */
  predicate Stays(c: Config, v: View, more: seq<Action>) {
    IsRun(c, v, more) && After(c, v, more).gen == v.gen
  }

  /** Rollbacks have the memory to put everything back. */
  predicate Spare(c: Config, v: View, more: seq<Action>) {
    forall i :: 0 <= i < |more| ==> SpareAt(c, v, more, i)
  }

  predicate SpareAt(c: Config, v: View, more: seq<Action>, i: nat)
    requires i < |more|
  {
    var e := EffectOf(After(c, v, more[..i]), more[i]);
    e.Lose? ==> e.lost == {}
  }

  /** No discard of this peer's routes ends. */
  predicate Unswept(more: seq<Action>, id: nat) {
    forall i :: 0 <= i < |more| && more[i].Done? && more[i].op.Discard? ==> more[i].op.peer != id
  }

  /** The session stays up and yet the table does not have what its peer has told. */
  predicate Loses(c: Config, v: View, more: seq<Action>) {
    Stays(c, v, more) && Part(After(c, v, more).routes, v.peerId) != Told(c, v, more, v.peerId)
  }

  /** The same established session, of a peer whose discard is not pending. */
  predicate Calm(v: View, id: nat, g: nat) {
    v.state == Established && v.gen == g && v.peerId == id && !Pending(v, id)
  }

  lemma CalmStep(c: Config, v: View, a: Action, id: nat, g: nat)
    requires Calm(v, id, g) && Enabled(v, a) && Next(c, v, a).gen == g
    ensures Calm(Next(c, v, a), id, g) && EffectOf(v, a) != Drop(id)
  {
    hide Next;
    StepShifts(c, v, a);
    StateChangeRaisesGeneration(c, v, a);
  }

  lemma {:induction false} GenerationGrows(c: Config, v: View, run: seq<Action>)
    ensures After(c, v, run).gen >= v.gen
    decreases |run|
  {
    hide Next;
    if run != [] {
      StateChangeRaisesGeneration(c, v, run[0]);
      GenerationGrows(c, Next(c, v, run[0]), run[1..]);
    }
  }

  lemma SpareFewer(c: Config, v: View, more: seq<Action>)
    requires more != [] && Spare(c, v, more)
    ensures Spare(c, v, more[..|more| - 1]) && SpareAt(c, v, more, |more| - 1)
  {
    hide EffectOf, After;
    var r := more[..|more| - 1];
    forall i | 0 <= i < |r| ensures SpareAt(c, v, r, i) {
      assert SpareAt(c, v, more, i);
      assert r[..i] == more[..i];
    }
  }

  /** While no discard of its peer is pending and rollbacks have memory, the table has exactly what the peer of
      an established session has told. */
  lemma {:induction false} CalmKeeps(c: Config, v: View, more: seq<Action>)
    requires Calm(v, v.peerId, v.gen) && Stays(c, v, more) && Spare(c, v, more)
    ensures Calm(After(c, v, more), v.peerId, v.gen) && Missing(c, v, more, v.peerId) == {}
    ensures Part(After(c, v, more).routes, v.peerId) == Told(c, v, more, v.peerId)
    decreases |more|
  {
    KeepsIff(c, v, more, v.peerId);
    if more != [] {
      var r, a := more[..|more| - 1], more[|more| - 1];
      assert more == r + [a];
      hide Next, Calm, Enabled, Part, Told, EffectOf, Spare;
      RunOfSnoc(c, v, r, a);
      GenerationGrows(c, v, r);
      StateChangeRaisesGeneration(c, After(c, v, r), a);
      SpareFewer(c, v, more);
      CalmKeeps(c, v, r);
      CalmStep(c, After(c, v, r), a, v.peerId, v.gen);
    }
  }

  /** An established session can lose what its peer tells, although rollbacks have memory, exactly when a
      discard of its own peer, left by an earlier session, is still pending. */
  lemma LossIff(c: Config, v: View)
    requires v.state == Established
    ensures (exists more :: Loses(c, v, more) && Spare(c, v, more)) <==> Pending(v, v.peerId)
  {
    if Pending(v, v.peerId) {
      var op :| op in v.ops && op.Discard? && op.peer == v.peerId;
      LateDiscardRun(c, v, op, SOME_PREFIX, SOME_ROUTE);
    } else if exists more :: Loses(c, v, more) && Spare(c, v, more) {
      hide After, IsRun, Told, Missing, Part, Spare;
      var more :| Loses(c, v, more) && Spare(c, v, more);
      CalmKeeps(c, v, more);
    }
  }

  /** And every established session can lose it, although no discard ends, to a rollback short of memory. */
  lemma ShortMemoryLoses(c: Config, v: View, p: Prefix, r: Route)
    requires v.state == Established
    ensures var more := [Announces(p, r), RollsBack(p)];
            Loses(c, v, more) && Unswept(more, v.peerId) && p in Told(c, v, more, v.peerId)
            && p !in Part(After(c, v, more).routes, v.peerId)
  {
    var a, b := Announces(p, r), RollsBack(p);
    LearnAndStarve(c, v, p, r);
    hide Next, Enabled, Announces, RollsBack, EffectOf;
    RunOfPair(c, v, a, b);
    ToldOfPair(c, v, a, b, p, r);
    hide Told, After, IsRun;
    PartMeaning(Next(c, Next(c, v, a), b).routes, v.peerId);
  }

  const SOME_PREFIX := Prefix(Addr(0, 0, 0, 0), 0)
  const SOME_ROUTE := Route(SOME_PREFIX, 0, 0, 0, 0, 0, 0, false, 0, [])

  /** An UPDATE that announces one route. */
  function Announces(p: Prefix, r: Route): Action {
    Receive(Update(Applied({}, map[p := r])), false)
  }

  /** An UPDATE that fails, and whose rollback loses a route. */
  function RollsBack(p: Prefix): Action {
    Receive(Update(RolledBack({p})), false)
  }

  lemma ToldOfPair(c: Config, v: View, a: Action, b: Action, p: Prefix, r: Route)
    requires EffectOf(v, a) == Apply(v.peerId, {}, map[p := r]) && !EffectOf(Next(c, v, a), b).Apply?
    ensures p in Told(c, v, [a, b], v.peerId)
  {
    hide EffectOf, Next, Part;
    var more := [a, b];
    assert more[..1] == [a] && [a][..0] == [];
    var none: seq<Action> := [];
    assert After(c, v, none) == v;
    RunOfSnoc(c, v, none, a);
    assert none + [a] == [a];
    assert Told(c, v, [a], v.peerId) == (Told(c, v, none, v.peerId) - {}) + map[p := r];
  }

  lemma LateDiscardRun(c: Config, v: View, op: Op, p: Prefix, r: Route)
    requires v.state == Established && op in v.ops && op.Discard? && op.peer == v.peerId
    ensures var more := [Announces(p, r), Done(op, true)];
            Loses(c, v, more) && Spare(c, v, more)
  {
    var a, b := Announces(p, r), Done(op, true);
    LearnAndLose(c, v, op.gen, p, r);
    var more := [a, b];
    forall i | 0 <= i < |more| ensures SpareAt(c, v, more, i) {
      hide After;
    }
    hide Next, Enabled, Announces, EffectOf, Spare;
    RunOfPair(c, v, a, b);
    ToldOfPair(c, v, a, b, p, r);
    hide Told, After, IsRun;
    PartMeaning(Next(c, Next(c, v, a), b).routes, v.peerId);
  }

  lemma RunOfPair(c: Config, v: View, a: Action, b: Action)
    requires Enabled(v, a) && Enabled(Next(c, v, a), b)
    ensures IsRun(c, v, [a, b]) && After(c, v, [a, b]) == Next(c, Next(c, v, a), b)
  {
    hide Next, Enabled;
    var none: seq<Action> := [];
    RunOfSnoc(c, v, none, a);
    RunOfSnoc(c, v, none + [a], b);
    assert none + [a] + [b] == [a, b];
  }

  // ----- the loss is real

  /** A passive handshake without incident, of generation g. */
  function Comes(open: Packet, g: nat): seq<Action> {
    [Receive(open, false), Done(PassiveOpen(g), true), Done(PassiveGap(g), true), Done(PassiveKeep(g), true)]
    + [Receive(Keepalive, false)]
  }

  lemma ComesUp(c: Config, v: View, open: Packet)
    requires Acceptable(c, open) && PreOpen(v.state)
    ensures var run := Comes(open, v.gen + 1);
            var w := After(c, v, run);
            && IsRun(c, v, run) && w.state == Established && w.gen == v.gen + 2 && w.peerId == open.bgpId
            && w.routes == v.routes && w.ops == v.ops + multiset{Advertise(v.gen + 2)}
  {
    hide Next, Enabled, Acceptable, After, IsRun;
    var g := v.gen + 1;
    var a1, a2 := Receive(open, false), Done(PassiveOpen(g), true);
    var a3, a4 := Done(PassiveGap(g), true), Done(PassiveKeep(g), true);
    OpensPassively(c, v, open);
    var v1 := Next(c, v, a1);
    PassiveOpenEnds(c, v1, v.ops, g);
    var v2 := Next(c, v1, a2);
    PassiveGapEnds(c, v2, v.ops, g);
    var v3 := Next(c, v2, a3);
    PassiveKeepEnds(c, v3, v.ops, g);
    var v4 := Next(c, v3, a4);
    HearsUp(c, v4);
    RunOfFour(c, v, a1, a2, a3, a4);
    RunOfSnoc(c, v, [a1, a2, a3, a4], Receive(Keepalive, false));
  }

  lemma PassiveOpenEnds(c: Config, v: View, ops: multiset<Op>, g: nat)
    requires v.state == OpenConfirm && v.gen == g && v.passiveOpen && v.ops == ops + multiset{PassiveOpen(g)}
    ensures Enabled(v, Done(PassiveOpen(g), true))
    ensures Next(c, v, Done(PassiveOpen(g), true)) == v.(passiveOpen := false, ops := ops + multiset{PassiveGap(g)})
  {
    assert v.ops - multiset{PassiveOpen(g)} == ops;
  }

  lemma PassiveGapEnds(c: Config, v: View, ops: multiset<Op>, g: nat)
    requires v.state == OpenConfirm && v.gen == g && v.ops == ops + multiset{PassiveGap(g)}
    ensures Enabled(v, Done(PassiveGap(g), true))
    ensures Next(c, v, Done(PassiveGap(g), true)) == v.(sendPending := true, ops := ops + multiset{PassiveKeep(g)})
  {
    assert v.ops - multiset{PassiveGap(g)} == ops;
  }

  lemma PassiveKeepEnds(c: Config, v: View, ops: multiset<Op>, g: nat)
    requires v.state == OpenConfirm && v.gen == g && v.ops == ops + multiset{PassiveKeep(g)}
    requires !v.keepPending && !v.passiveKeep
    ensures Enabled(v, Done(PassiveKeep(g), true))
    ensures Next(c, v, Done(PassiveKeep(g), true)) == v.(keepSent := true, sendPending := false, ops := ops)
  {
    assert v.ops - multiset{PassiveKeep(g)} == ops;
  }

  lemma OpensPassively(c: Config, v: View, open: Packet)
    requires Acceptable(c, open) && PreOpen(v.state)
    ensures var w := Next(c, v, Receive(open, false));
            && w.state == OpenConfirm && w.gen == v.gen + 1 && w.peerId == open.bgpId && w.routes == v.routes
            && w.passiveOpen && !w.sendPending && !w.keepPending && !w.passiveKeep
            && w.ops == v.ops + multiset{PassiveOpen(v.gen + 1)} && Enabled(v, Receive(open, false))
  {
    hide ConfigValid, OpenAcceptable, Negotiate;
  }

  lemma HearsUp(c: Config, v: View)
    requires v.state == OpenConfirm && !v.passiveOpen && !v.sendPending
    ensures var w := Next(c, v, Receive(Keepalive, false));
            && w.state == Established && w.gen == v.gen + 1 && w.peerId == v.peerId
            && w.routes == v.routes && w.ops == v.ops + multiset{Advertise(v.gen + 1)}
            && Enabled(v, Receive(Keepalive, false))
  {
  }

  /** Two sessions of one peer; the discard that the first leaves ends only after the second has learnt a
      route. */
  function LateDiscard(open: Packet, p: Prefix, r: Route): seq<Action>
    requires open.Open?
  {
    Comes(open, 1) + [Announces(p, r), Reset] + Comes(open, 4) + [Announces(p, r), Done(Discard(2, open.bgpId), true)]
  }

  /** Whatever the configuration, a late discard takes the routes of a live session. */
  lemma LateDiscardLosesRoutes(c: Config, open: Packet, p: Prefix, r: Route)
    requires open.Open? && Acceptable(c, open)
    ensures var run := LateDiscard(open, p, r);
            var before, v, w := After(c, INIT, run[..12]), After(c, INIT, run[..13]), After(c, INIT, run);
            && IsRun(c, INIT, run) && |run| == 14
            && EffectOf(before, run[12]) == Apply(open.bgpId, {}, map[p := r]) && (open.bgpId, p) in v.routes
            && w.state == Established && w.gen == v.gen && w.peerId == open.bgpId && w.routes == map[]
  {
    hide Next, Enabled, Acceptable, After, IsRun, Comes, LateDiscard, EffectOf, Announces;
    var apply, late := Announces(p, r), Done(Discard(2, open.bgpId), true);
    var r1, r2 := Comes(open, 1), Comes(open, 4);
    ComesUp(c, INIT, open);
    var v1 := After(c, INIT, r1);
    LearnAndReset(c, v1, p, r);
    var v2 := Next(c, Next(c, v1, apply), Reset);
    ComesUp(c, v2, open);
    var v3 := After(c, v2, r2);
    LearnAndLose(c, v3, 2, p, r);
    RunOfPair(c, v1, apply, Reset);
    RunOfConcat(c, INIT, r1, [apply, Reset]);
    RunOfConcat(c, INIT, r1 + [apply, Reset], r2);
    var most := r1 + [apply, Reset] + r2;
    RunOfSnoc(c, INIT, most, apply);
    RunOfSnoc(c, INIT, most + [apply], late);
    LateParts(open, p, r, most);
    OnlyOnePeer(v2.routes, v3.routes, open.bgpId);
  }

  lemma OnlyOnePeer(t: Routes, u: Routes, id: nat)
    requires t == u && forall k :: k in t ==> k.0 == id
    ensures WithoutPeer(u, id) == map[]
  {
  }

  lemma LearnAndReset(c: Config, v: View, p: Prefix, r: Route)
    requires v.state == Established && v.routes == map[]
    ensures var w := Next(c, Next(c, v, Announces(p, r)), Reset);
            && Enabled(v, Announces(p, r)) && Enabled(Next(c, v, Announces(p, r)), Reset)
            && w.state == Idle && w.gen == v.gen + 1 && Discard(v.gen, v.peerId) in w.ops
            && forall k :: k in w.routes ==> k.0 == v.peerId
  {
    hide Revised;
    RevisedMeaning(v.routes, v.peerId, {}, map[p := r]);
  }

  lemma LearnAndLose(c: Config, v: View, g: nat, p: Prefix, r: Route)
    requires v.state == Established && Discard(g, v.peerId) in v.ops
    ensures var apply, late := Announces(p, r), Done(Discard(g, v.peerId), true);
            var w := Next(c, v, apply);
            var x := Next(c, w, late);
            && Enabled(v, apply) && Enabled(w, late) && EffectOf(v, apply) == Apply(v.peerId, {}, map[p := r])
            && EffectOf(w, late) == Drop(v.peerId) && (v.peerId, p) in w.routes
            && x.state == Established && x.gen == w.gen == v.gen && x.peerId == v.peerId
            && x.routes == WithoutPeer(v.routes, v.peerId)
  {
    hide Revised;
    RevisedMeaning(v.routes, v.peerId, {}, map[p := r]);
    var w := Next(c, v, Announces(p, r));
    assert w.state == Established && w.gen == v.gen && w.ops == v.ops;
    assert WithoutPeer(w.routes, v.peerId) == WithoutPeer(v.routes, v.peerId);
  }

  lemma LearnAndStarve(c: Config, v: View, p: Prefix, r: Route)
    requires v.state == Established
    ensures var a, b := Announces(p, r), RollsBack(p);
            var w := Next(c, v, a);
            var x := Next(c, w, b);
            && Enabled(v, a) && Enabled(w, b) && EffectOf(v, a) == Apply(v.peerId, {}, map[p := r])
            && !EffectOf(w, b).Apply? && x.gen == v.gen && (v.peerId, p) !in x.routes
            && Unswept([a, b], v.peerId)
  {
    hide Revised;
    RevisedMeaning(v.routes, v.peerId, {}, map[p := r]);
    var w := Next(c, v, Announces(p, r));
    assert w.state == Established && w.gen == v.gen && w.peerId == v.peerId;
  }

  lemma LateParts(open: Packet, p: Prefix, r: Route, most: seq<Action>)
    requires open.Open? && most == Comes(open, 1) + [Announces(p, r), Reset] + Comes(open, 4)
    ensures var run := LateDiscard(open, p, r);
            var apply, late := Announces(p, r), Done(Discard(2, open.bgpId), true);
            && |most| == 12 && |run| == 14 && run[..12] == most && run[12] == apply
            && run[..13] == most + [apply] && run == most + [apply] + [late]
  {
    hide Announces;
  }

  /** The same for a rollback short of memory: a run from rest after which a route that the peer has told is
      gone, with the session up and no discard ever begun. */
  lemma ShortMemoryLosesRoutes(c: Config, open: Packet, p: Prefix, r: Route)
    requires open.Open? && Acceptable(c, open)
    ensures var run := Comes(open, 1) + [Announces(p, r), RollsBack(p)];
            var w := After(c, INIT, run);
            && IsRun(c, INIT, run) && w.state == Established && w.peerId == open.bgpId && (open.bgpId, p) !in w.routes
            && p in Told(c, After(c, INIT, Comes(open, 1)), [Announces(p, r), RollsBack(p)], open.bgpId)
            && forall op :: op in w.ops ==> !op.Discard?
  {
    hide Next, Enabled, Acceptable, After, IsRun, Comes, Announces, RollsBack, Told, Part, EffectOf;
    var r1, a, b := Comes(open, 1), Announces(p, r), RollsBack(p);
    ComesUp(c, INIT, open);
    var v := After(c, INIT, r1);
    LearnAndStarve(c, v, p, r);
    StarveKeepsOps(c, v, p, r);
    RunOfPair(c, v, a, b);
    RunOfConcat(c, INIT, r1, [a, b]);
    ToldOfPair(c, v, a, b, p, r);
  }

  lemma StarveKeepsOps(c: Config, v: View, p: Prefix, r: Route)
    requires v.state == Established
    ensures var w := Next(c, Next(c, v, Announces(p, r)), RollsBack(p));
            w.state == Established && w.ops == v.ops && w.peerId == v.peerId
  {
    hide Revised, Without;
  }
}
