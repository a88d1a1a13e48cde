/** The session state machine (src/fsm.c, section 8 of RFC 4271). Every region that runs under the lock
    is one step; a send is a step that begins it and a later step that ends it, and any other steps may
    run in between. */
module Session {
  import opened Prefix4
  import opened BestPath

  datatype State = Idle | Connect | Active | OpenSent | OpenConfirm | Established

  /** The local configuration; ids and AS numbers are numbers in host order. */
  datatype Config = Config(localId: nat, localAsn: nat, holdTime: nat, keepaliveTime: nat, fourByte: bool,
                           expectedAsn: nat)

  /** A caller outside the lock, with what it remembers of the session. All are sends in progress but two.
      PassiveGap: a passive attempt gives up the lock between clearing the flag of its OPEN and setting
      that of its KEEPALIVE. Discard: a teardown gives up the lock, and perhaps sends a NOTIFICATION,
      before it discards the peer's routes. In a build with threads any step may run there. */
  datatype Op =
    | StartSend(gen: nat, from: State)
    | ActiveKeep(gen: nat)
    | PassiveOpen(gen: nat)
    | PassiveGap(gen: nat)
    | PassiveKeep(gen: nat)
    | TickKeep(gen: nat, during: State, at: nat)
    | Advertise(gen: nat)
    | Discard(gen: nat, peer: nat)

  /** The routes of peers by (peer, prefix), without their update ids. */
  type Routes = map<(nat, Prefix), Route>

  /** How applying an UPDATE ends: applied, with the prefixes it withdraws and the routes it announces; failed
      and rolled back; or refused as malformed, which rolls it back too. For want of memory a rollback may
      lose routes. */
  datatype Outcome =
    | Applied(withdrawn: set<Prefix>, announced: map<Prefix, Route>)
    | RolledBack(lost: set<Prefix>)
    | Refused(lost: set<Prefix>)

  datatype Packet =
    | Open(version: nat, holdTime: nat, bgpId: nat, asn: nat)
    | Update(outcome: Outcome)
    | Keepalive
    | Notification
    | OtherPacket

  datatype View = View(
    state: State, gen: nat,
    sendPending: bool, keepPending: bool, passiveOpen: bool, passiveKeep: bool,
    peerId: nat, peerAsn: nat, hold: nat,
    clock: bool, nowMs: nat, lastRx: nat, lastKeep: nat,
    routes: Routes,      // the routes in the table that this session has put there
    ops: multiset<Op>,   // the callers outside the lock
    keepSent: bool,      // this attempt's KEEPALIVE has been sent
    keepHeard: bool,     // the peer's KEEPALIVE for this attempt has been received
    peerHold: nat)       // the hold time the peer offered

  datatype Action =
    | EnterPreOpen(active: bool)
    | Start
    | Reset
    | Receive(packet: Packet, handled: bool)   // handled: another session answered the collision notice
    | BadBytes
    | Collide(peer: nat)
    | Tick(now: nat)
    | Done(op: Op, ok: bool)

  const INIT := View(Idle, 0, false, false, false, false, 0, 0, 0, false, 0, 0, 0, map[], multiset{}, false, false, 0)

  // ----- validity of configuration and OPEN

  predicate ConfigValid(c: Config) {
    && c.localId != 0 && (c.holdTime == 0 || c.holdTime >= 3)
    && (c.fourByte || c.localAsn <= 65535)
  }

  predicate ValidPeerId(id: nat, localId: nat) {
    var first := id / 0x100_0000 % 256;
    id != 0 && id != localId && first != 0 && first != 127 && first < 224
  }

  predicate OpenAcceptable(open: Packet, localId: nat)
    requires open.Open?
  {
    open.version == 4 && (open.holdTime == 0 || open.holdTime >= 3) && ValidPeerId(open.bgpId, localId)
  }

  predicate PreOpen(s: State) {
    s == Idle || s == Connect || s == Active
  }

  predicate HoldActive(s: State) {
    s == OpenConfirm || s == Established
  }

  function Negotiate(mine: nat, theirs: nat): nat {
    if mine == 0 || theirs == 0 then 0 else if mine < theirs then mine else theirs
  }

  /** The keepalive interval in seconds, 0 for none. */
  function KeepaliveTime(hold: nat, configured: nat): nat {
    if hold == 0 then 0
    else
      var third := if hold / 3 == 0 then 1 else hold / 3;
      if configured == 0 || third < configured then third else configured
  }

  /** The clock is a 64-bit counter and differences wrap. */
  function Elapsed(now: nat, since: nat): nat {
    (now - since) % 0x1_0000_0000_0000_0000
  }

  // ----- the steps

  /** What every new attempt and every teardown forgets. */
  function Cleared(v: View, s: State): View {
    v.(state := s, gen := v.gen + 1, sendPending := false, keepPending := false, passiveOpen := false,
       passiveKeep := false, peerId := 0, peerAsn := 0, hold := 0, clock := false, keepSent := false,
       keepHeard := false, peerHold := 0)
  }

  /** Teardown; from an established session the caller goes on to discard the peer's routes. */
  function Torn(v: View): View {
    Cleared(if v.state == Established then v.(ops := v.ops + multiset{Discard(v.gen, v.peerId)}) else v, Idle)
  }

  /** Become established: the one place where it happens. */
  function Up(v: View): View {
    v.(state := Established, gen := v.gen + 1, sendPending := false, keepPending := false, passiveOpen := false,
       passiveKeep := false, ops := v.ops + multiset{Advertise(v.gen + 1)})
  }

  function MarkRx(v: View): View {
    if v.clock then v.(lastRx := v.nowMs) else v
  }

  /** The handshake that an accepted OPEN starts. */
  function Confirmed(c: Config, v: View, open: Packet, passive: bool): View
    requires open.Open?
  {
    var v' := Cleared(v, OpenConfirm).(peerId := open.bgpId, peerAsn := open.asn,
               hold := Negotiate(c.holdTime, open.holdTime), peerHold := open.holdTime, lastRx := 0, lastKeep := 0);
    if passive then v'.(passiveOpen := true, ops := v.ops + multiset{PassiveOpen(v'.gen)})
    else v'.(sendPending := true, ops := v.ops + multiset{ActiveKeep(v'.gen)})
  }

  /** An OPEN that starts a handshake, from OPEN_SENT or, passively, from a state before it. */
  function OnOpen(c: Config, v: View, open: Packet, handled: bool, passive: bool): View
    requires open.Open?
  {
    if !OpenAcceptable(open, c.localId) || !ConfigValid(c) then Torn(v)
    else if c.expectedAsn != 0 && open.asn != c.expectedAsn then Torn(v)
    else if handled && c.localId > open.bgpId then Torn(v)
    else Confirmed(c, v, open, passive)
  }

  function OnOpenConfirm(c: Config, v: View, p: Packet): View {
    if p.Open? && v.passiveOpen then (if OpenAcceptable(p, c.localId) then v else Torn(v))
    else if p.Keepalive? then
      var v' := MarkRx(v).(keepHeard := true);
      if v.passiveOpen then v'.(passiveKeep := true)
      else if v.sendPending then v'.(keepPending := true)
      else Up(v')
    else Torn(v)
  }

  /** A peer's routes of some prefixes gone. */
  function Without(t: Routes, peer: nat, ps: set<Prefix>): Routes {
    map k | k in t && !(k.0 == peer && k.1 in ps) :: t[k]
  }

  /** All of a peer's routes gone. */
  function WithoutPeer(t: Routes, peer: nat): Routes {
    map k | k in t && k.0 != peer :: t[k]
  }

  /** A peer's withdrawals, then its announcements. */
  function Revised(t: Routes, peer: nat, withdrawn: set<Prefix>, announced: map<Prefix, Route>): Routes {
    Without(t, peer, withdrawn) + map k | k in (set p | p in announced :: (peer, p)) :: announced[k.1]
  }

  function OnUpdate(v: View, outcome: Outcome): View {
    match outcome
    case Applied(withdrawn, announced) => MarkRx(v).(routes := Revised(v.routes, v.peerId, withdrawn, announced))
    case RolledBack(lost) => v.(routes := Without(v.routes, v.peerId, lost))
    case Refused(lost) => Torn(v).(routes := Without(v.routes, v.peerId, lost))
  }

  function OnEstablished(v: View, p: Packet): View {
    match p
    case Keepalive => MarkRx(v)
    case Update(outcome) => OnUpdate(v, outcome)
    case _ => Torn(v)
  }

  function OnPacket(c: Config, v: View, p: Packet, handled: bool): View {
    if p.Notification? then Torn(v)
    else match v.state
      case OpenSent => if p.Open? then OnOpen(c, v, p, handled, false) else Torn(v)
      case OpenConfirm => OnOpenConfirm(c, v, p)
      case Established => OnEstablished(v, p)
      case _ => if p.Open? then OnOpen(c, v, p, handled, true) else v
  }

  function OnTick(c: Config, v: View, now: nat): View {
    if !v.clock then v.(nowMs := now, lastRx := now, lastKeep := now, clock := true)
    else
      var v' := v.(nowMs := now);
      var interval := KeepaliveTime(v.hold, c.keepaliveTime);
      if v.hold > 0 && HoldActive(v.state) && Elapsed(now, v.lastRx) >= v.hold * 1000 then Torn(v')
      else if HoldActive(v.state) && interval > 0 && Elapsed(now, v.lastKeep) >= interval * 1000 then
        v'.(ops := v.ops + multiset{TickKeep(v.gen, v.state, now)})
      else v'
  }

  /** A failed send of the handshake. The second case would leave an established session's routes. */
  function Rollback(v: View, gen: nat): View {
    if (v.state == OpenConfirm && v.gen == gen) || (v.state == Established && v.gen == gen + 1)
    then Cleared(v, Idle) else v
  }

  /** A caller takes the lock again; `ok` says whether its send succeeded. */
  function OnDone(v0: View, op: Op, ok: bool): View {
    var v := v0.(ops := v0.ops - multiset{op});
    var confirming := v.state == OpenConfirm && v.gen == op.gen;
    match op
    case StartSend(g, from) =>
      if !ok && v.state == OpenSent && v.gen == g
      then v.(state := from, gen := v.gen + 1, sendPending := false, keepPending := false, passiveOpen := false,
              passiveKeep := false)
      else v
    case ActiveKeep(g) =>
      if !ok then Rollback(v, g)
      else if !confirming then v
      else if v.keepPending then Up(v.(keepSent := true))
      else v.(keepSent := true, sendPending := false)
    case PassiveOpen(g) =>
      if !ok then Rollback(v, g)
      else if !confirming then v
      else v.(passiveOpen := false, ops := v.ops + multiset{PassiveGap(g)})
    case PassiveGap(g) =>
      if !confirming then v else v.(sendPending := true, ops := v.ops + multiset{PassiveKeep(g)})
    case PassiveKeep(g) =>
      if !ok then Rollback(v, g)
      else if !confirming then v
      else if v.passiveKeep || v.keepPending then Up(v.(keepSent := true))
      else v.(keepSent := true, sendPending := false)
    case TickKeep(g, during, at) =>
      if v.state != during || v.gen != g then v
      else if ok then v.(lastKeep := at)
      else Torn(v)
    case Advertise(g) =>
      if !ok && v.state == Established && v.gen == g then Torn(v) else v
    case Discard(_, peer) => v.(routes := WithoutPeer(v.routes, peer))
  }

  function Next(c: Config, v: View, a: Action): View {
    match a
    case EnterPreOpen(active) => if PreOpen(v.state) then Cleared(v, if active then Active else Connect) else v
    case Start =>
      if !ConfigValid(c) || !PreOpen(v.state) then v
      else Cleared(v, OpenSent).(ops := v.ops + multiset{StartSend(v.gen + 1, v.state)})
    case Reset => Torn(v)
    case Receive(p, handled) => OnPacket(c, v, p, handled)
    case BadBytes => Torn(v)
    case Collide(peer) => if v.state == OpenConfirm && v.peerId == peer && c.localId <= peer then Torn(v) else v
    case Tick(now) => OnTick(c, v, now)
    case Done(op, ok) => OnDone(v, op, ok)
  }

  // ----- runs

  predicate Enabled(v: View, a: Action) {
    a.Done? ==> a.op in v.ops
  }

  /** A run: each send ends at most once and after it has begun. */
  predicate IsRun(c: Config, v: View, run: seq<Action>)
    decreases |run|
  {
    run == [] || (Enabled(v, run[0]) && IsRun(c, Next(c, v, run[0]), run[1..]))
  }

  function After(c: Config, v: View, run: seq<Action>): View
    decreases |run|
  {
    if run == [] then v else After(c, Next(c, v, run[0]), run[1..])
  }

  // ----- what holds in every reachable state

  predicate Handshake(op: Op) {
    op.ActiveKeep? || op.PassiveOpen? || op.PassiveGap? || op.PassiveKeep?
  }

  predicate Opening(op: Op) {
    op.StartSend? || Handshake(op)
  }

  /** Callers belong to the past or the present, and each generation has at most one that opens a session. */
  predicate OpsInv(v: View) {
    && (forall op :: op in v.ops ==> op.gen <= v.gen && (op.StartSend? ==> PreOpen(op.from)))
    && (forall op :: op in v.ops && Opening(op) ==> v.ops[op] == 1)
    && (forall p, q :: p in v.ops && q in v.ops && Opening(p) && Opening(q) && p.gen == q.gen ==> p == q)
  }

  /** What the pending flags mean while confirming, and that they are clear otherwise. */
  predicate FlagsInv(v: View) {
    if v.state == OpenConfirm then
      && (v.passiveOpen <==> PassiveOpen(v.gen) in v.ops)
      && (v.sendPending <==> ActiveKeep(v.gen) in v.ops || PassiveKeep(v.gen) in v.ops)
      && (!v.passiveOpen && !v.sendPending ==> v.keepSent || PassiveGap(v.gen) in v.ops)
      && (v.keepPending || v.passiveKeep ==> v.keepHeard)
    else
      && !v.passiveOpen && !v.sendPending && !v.keepPending && !v.passiveKeep
      && (v.state != Established ==> !v.keepSent && !v.keepHeard)
  }

  /** An established session has the peer's KEEPALIVE, and no handshake send of its attempt is in progress. */
  predicate UpInv(v: View) {
    v.state == Established ==>
      && v.keepHeard && v.gen > 0
      && (forall op :: op in v.ops && Handshake(op) && !op.PassiveGap? ==> op.gen + 1 < v.gen)
  }

  predicate HoldInv(c: Config, v: View) {
    if !HoldActive(v.state) then v.hold == 0
    else if c.holdTime == 0 || v.peerHold == 0 then v.hold == 0
    else 3 <= v.hold && v.hold <= c.holdTime && v.hold <= v.peerHold && (v.hold == c.holdTime || v.hold == v.peerHold)
  }

  /** Someone is about to discard the routes of this peer. */
  predicate Pending(v: View, id: nat) {
    exists op :: op in v.ops && op.Discard? && op.peer == id
  }

  /** Routes that are in the table are the established peer's, or about to be discarded. */
  predicate RoutesInv(v: View) {
    forall k :: k in v.routes ==> (v.state == Established && k.0 == v.peerId) || Pending(v, k.0)
  }

  predicate Owed(v: View) {
    forall k :: k in v.routes ==> Pending(v, k.0)
  }

  predicate Inv(c: Config, v: View) {
    OpsInv(v) && FlagsInv(v) && UpInv(v) && HoldInv(c, v) && RoutesInv(v)
  }

  lemma ClearedKeeps(c: Config, v: View, s: State)
    requires OpsInv(v) && Owed(v) && !HoldActive(s)
    ensures Inv(c, Cleared(v, s))
    ensures forall op :: op in v.ops ==> op.gen < Cleared(v, s).gen
  {
  }

  lemma TornKeeps(c: Config, v: View)
    requires OpsInv(v) && RoutesInv(v)
    ensures Inv(c, Torn(v))
  {
    var w := if v.state == Established then v.(ops := v.ops + multiset{Discard(v.gen, v.peerId)}) else v;
    assert forall op :: op in v.ops ==> op in w.ops;
    assert v.state == Established ==> Discard(v.gen, v.peerId) in w.ops;
    assert OpsInv(w) && Owed(w);
    hide OpsInv, Owed;
    ClearedKeeps(c, w, Idle);
  }

  /** Beginning a send of a generation that is newer than all in progress. */
  lemma BeginKeeps(v: View, op: Op)
    requires forall p :: p in v.ops ==> p.gen <= v.gen
    requires OpsInv(v) && op.gen == v.gen && (op.StartSend? ==> PreOpen(op.from))
    requires Opening(op) ==> forall p :: p in v.ops && Opening(p) ==> p.gen < v.gen
    ensures OpsInv(v.(ops := v.ops + multiset{op}))
  {
  }

  lemma ConfirmedOps(c: Config, v: View, open: Packet, passive: bool)
    requires OpsInv(v) && open.Open?
    ensures OpsInv(Confirmed(c, v, open, passive))
  {
    hide Negotiate;
    var w := Cleared(v, OpenConfirm);
    BeginKeeps(w, if passive then PassiveOpen(w.gen) else ActiveKeep(w.gen));
  }

  lemma ConfirmedFlags(c: Config, v: View, open: Packet, passive: bool)
    requires forall op :: op in v.ops ==> op.gen <= v.gen
    requires open.Open?
    ensures FlagsInv(Confirmed(c, v, open, passive))
  {
    hide Negotiate;
  }

  lemma ConfirmedHold(c: Config, v: View, open: Packet, passive: bool)
    requires open.Open? && ConfigValid(c) && OpenAcceptable(open, c.localId)
    ensures HoldInv(c, Confirmed(c, v, open, passive))
  {
    hide ValidPeerId;
  }

  lemma ConfirmedKeeps(c: Config, v: View, open: Packet, passive: bool)
    requires Inv(c, v) && open.Open? && v.state != Established && ConfigValid(c) && OpenAcceptable(open, c.localId)
    ensures Inv(c, Confirmed(c, v, open, passive))
  {
    ConfirmedOps(c, v, open, passive);
    ConfirmedFlags(c, v, open, passive);
    ConfirmedHold(c, v, open, passive);
    hide OpsInv, FlagsInv, HoldInv, Negotiate, OpenAcceptable, ConfigValid;
  }

  lemma OpenKeeps(c: Config, v: View, open: Packet, handled: bool, passive: bool)
    requires Inv(c, v) && open.Open? && v.state != Established
    ensures Inv(c, OnOpen(c, v, open, handled, passive))
  {
    TornKeeps(c, v);
    hide Inv, OpenAcceptable, ConfigValid, Torn, Confirmed;
    if OpenAcceptable(open, c.localId) && ConfigValid(c) {
      ConfirmedKeeps(c, v, open, passive);
    }
  }

  lemma UpKeeps(c: Config, v: View)
    requires OpsInv(v) && HoldInv(c, v) && RoutesInv(v) && v.state == OpenConfirm && v.keepHeard
    requires forall op :: op in v.ops && Handshake(op) && !op.PassiveGap? ==> op.gen < v.gen
    ensures Inv(c, Up(v))
  {
  }

  /** The clock fields play no part in the invariant. */
  lemma ClockKeeps(c: Config, v: View, clock: bool, now: nat, rx: nat, keep: nat)
    requires Inv(c, v)
    ensures Inv(c, v.(clock := clock, nowMs := now, lastRx := rx, lastKeep := keep))
  {
  }

  lemma MarkKeeps(c: Config, v: View)
    requires Inv(c, v)
    ensures Inv(c, MarkRx(v))
  {
    hide Inv;
    ClockKeeps(c, v, v.clock, v.nowMs, v.nowMs, v.lastKeep);
  }

  lemma HeardKeeps(c: Config, v: View, keep: bool, passive: bool)
    requires Inv(c, v) && v.state == OpenConfirm
    ensures Inv(c, v.(keepHeard := true, keepPending := v.keepPending || keep, passiveKeep := v.passiveKeep || passive))
  {
  }

  lemma ReadyGoesUp(c: Config, v: View)
    requires Inv(c, v) && v.state == OpenConfirm && !v.passiveOpen && !v.sendPending
    ensures Inv(c, Up(v.(keepHeard := true)))
  {
    HeardKeeps(c, v, false, false);
    UpKeeps(c, v.(keepHeard := true));
  }

  lemma ConfirmKeeps(c: Config, v: View, p: Packet)
    requires Inv(c, v) && v.state == OpenConfirm
    ensures Inv(c, OnOpenConfirm(c, v, p))
  {
    hide OpsInv, FlagsInv, UpInv, HoldInv, RoutesInv, OpenAcceptable, Torn, Up;
    TornKeeps(c, v);
    MarkKeeps(c, v);
    var w := MarkRx(v);
    HeardKeeps(c, w, false, true);
    HeardKeeps(c, w, true, false);
    if !v.passiveOpen && !v.sendPending {
      ReadyGoesUp(c, w);
    }
  }

  lemma EstablishedKeeps(c: Config, v: View, p: Packet)
    requires Inv(c, v) && v.state == Established
    ensures Inv(c, OnEstablished(v, p))
  {
    hide OpsInv, FlagsInv, UpInv, HoldInv, RoutesInv, Torn, Without, Revised, MarkRx;
    TornKeeps(c, v);
    MarkKeeps(c, v);
    if p.Update? {
      match p.outcome
      case Applied(withdrawn, announced) =>
        MarkIs(v);
        RevisedMeaning(v.routes, v.peerId, withdrawn, announced);
        RoutesKeep(c, MarkRx(v), Revised(v.routes, v.peerId, withdrawn, announced));
      case RolledBack(lost) =>
        WithoutMeaning(v.routes, v.peerId, lost);
        RoutesKeep(c, v, Without(v.routes, v.peerId, lost));
      case Refused(lost) =>
        WithoutMeaning(v.routes, v.peerId, lost);
        TornIs(v);
        RoutesKeep(c, Torn(v), Without(v.routes, v.peerId, lost));
    }
  }

  lemma TornIs(v: View)
    ensures Torn(v).state == Idle && Torn(v).routes == v.routes
  {
  }

  /** But for the routes, a packet in ESTABLISHED is a sign of life, nothing or the end. */
  predicate Aside(v: View, w: View) {
    w == MarkRx(v).(routes := w.routes) || w == v.(routes := w.routes) || w == Torn(v).(routes := w.routes)
  }

  lemma UpdateIs(v: View, outcome: Outcome)
    ensures Aside(v, OnUpdate(v, outcome))
  {
    hide Torn, Without, Revised, MarkRx;
  }

  lemma MarkAside(v: View)
    ensures Aside(v, MarkRx(v)) && Aside(v, Torn(v))
  {
    hide Torn, MarkRx;
  }

  lemma EstablishedIs(v: View, p: Packet)
    ensures Aside(v, OnEstablished(v, p))
  {
    hide Torn, OnUpdate, MarkRx, Aside;
    MarkAside(v);
    if p.Update? {
      UpdateIs(v, p.outcome);
    }
  }

  lemma MarkIs(v: View)
    ensures MarkRx(v).state == v.state && MarkRx(v).routes == v.routes && MarkRx(v).peerId == v.peerId
  {
  }

  lemma WithoutMeaning(t: Routes, peer: nat, ps: set<Prefix>)
    ensures forall k :: k in Without(t, peer, ps) <==> k in t && !(k.0 == peer && k.1 in ps)
    ensures forall k :: k in Without(t, peer, ps) ==> Without(t, peer, ps)[k] == t[k]
  {
  }

  lemma RevisedMeaning(t: Routes, peer: nat, withdrawn: set<Prefix>, announced: map<Prefix, Route>)
    ensures var r := Revised(t, peer, withdrawn, announced);
            && (forall k :: k in r <==>
                  (k.0 == peer && k.1 in announced) || (k in t && !(k.0 == peer && k.1 in withdrawn)))
            && (forall k :: k in r ==> r[k] == if k.0 == peer && k.1 in announced then announced[k.1] else t[k])
  {
    hide Without;
    WithoutMeaning(t, peer, withdrawn);
    var keys := set p | p in announced :: (peer, p);
    assert forall k :: k in keys <==> k.0 == peer && k.1 in announced by {
      forall k: (nat, Prefix) | k.0 == peer && k.1 in announced ensures k in keys {
        assert k == (peer, k.1);
      }
    }
  }

  /** Another set of routes, of the established peer or of peers that had some. */
  lemma RoutesKeep(c: Config, v: View, t: Routes)
    requires Inv(c, v)
    requires forall k :: k in t ==> k in v.routes || (v.state == Established && k.0 == v.peerId)
    ensures Inv(c, v.(routes := t))
  {
    var w := v.(routes := t);
    assert forall id :: Pending(v, id) ==> Pending(w, id);
    assert OpsInv(w) && FlagsInv(w) && UpInv(w) && HoldInv(c, w);
  }

  lemma PacketKeeps(c: Config, v: View, p: Packet, handled: bool)
    requires Inv(c, v)
    ensures Inv(c, OnPacket(c, v, p, handled))
  {
    hide OpsInv, FlagsInv, UpInv, HoldInv, RoutesInv, Torn, OnOpen, OnOpenConfirm, OnEstablished;
    TornKeeps(c, v);
    if p.Open? && v.state != Established {
      OpenKeeps(c, v, p, handled, v.state != OpenSent);
    }
    if v.state == OpenConfirm {
      ConfirmKeeps(c, v, p);
    }
    if v.state == Established {
      EstablishedKeeps(c, v, p);
    }
  }

  lemma TickKeeps(c: Config, v: View, now: nat)
    requires Inv(c, v)
    ensures Inv(c, OnTick(c, v, now))
  {
    hide OpsInv, FlagsInv, UpInv, HoldInv, RoutesInv, Torn, Elapsed, KeepaliveTime;
    ClockKeeps(c, v, true, now, now, now);
    ClockKeeps(c, v, v.clock, now, v.lastRx, v.lastKeep);
    var w := v.(nowMs := now);
    TornKeeps(c, w);
    TickBeginKeeps(c, w, now);
  }

  lemma TickBeginKeeps(c: Config, v: View, now: nat)
    requires Inv(c, v)
    ensures Inv(c, v.(ops := v.ops + multiset{TickKeep(v.gen, v.state, now)}))
  {
    var op := TickKeep(v.gen, v.state, now);
    BeginKeeps(v, op);
    var w := v.(ops := v.ops + multiset{op});
    assert forall p :: Opening(p) ==> (p in w.ops <==> p in v.ops);
    hide OpsInv;
  }

  /** The end of one caller takes no other's discard away. */
  lemma OthersPend(v: View, op: Op)
    ensures forall id :: Pending(v, id) ==>
              (op.Discard? && op.peer == id) || Pending(v.(ops := v.ops - multiset{op}), id)
  {
    var w := v.(ops := v.ops - multiset{op});
    forall id | Pending(v, id) && !(op.Discard? && op.peer == id) ensures Pending(w, id) {
      var p :| p in v.ops && p.Discard? && p.peer == id;
      assert p in w.ops;
    }
  }

  /** Ending a send that is not part of the handshake. */
  lemma OtherOpDropped(c: Config, v: View, op: Op)
    requires Inv(c, v) && op in v.ops && !Handshake(op) && !op.Discard?
    ensures Inv(c, v.(ops := v.ops - multiset{op}))
  {
    OpDropped(c, v, op);
    OthersPend(v, op);
    hide Inv, Pending;
  }

  lemma OpDropped(c: Config, v: View, op: Op)
    requires Inv(c, v) && op in v.ops && !Handshake(op)
    ensures var w := v.(ops := v.ops - multiset{op});
            OpsInv(w) && FlagsInv(w) && UpInv(w) && HoldInv(c, w)
  {
    var w := v.(ops := v.ops - multiset{op});
    assert forall p :: p in w.ops ==> p in v.ops;
    assert forall p :: p != op ==> w.ops[p] == v.ops[p];
  }

  /** Discarding a peer's routes. */
  lemma DiscardKeeps(c: Config, v: View, op: Op, ok: bool)
    requires Inv(c, v) && op in v.ops && op.Discard?
    ensures Inv(c, OnDone(v, op, ok))
  {
    hide OpsInv, FlagsInv, UpInv, HoldInv, Pending;
    OpDropped(c, v, op);
    OthersPend(v, op);
    var w := v.(ops := v.ops - multiset{op});
    SameButRoutes(c, w, WithoutPeer(v.routes, op.peer));
  }

  lemma SameButRoutes(c: Config, v: View, t: Routes)
    requires OpsInv(v) && FlagsInv(v) && UpInv(v) && HoldInv(c, v)
    ensures var w := v.(routes := t);
            && OpsInv(w) && FlagsInv(w) && UpInv(w) && HoldInv(c, w) && forall id :: Pending(v, id) <==> Pending(w, id)
  {
  }

  lemma StartFailedKeeps(c: Config, v: View, from: State)
    requires Inv(c, v) && v.state == OpenSent && PreOpen(from)
    ensures Inv(c, v.(state := from, gen := v.gen + 1, sendPending := false, keepPending := false,
                      passiveOpen := false, passiveKeep := false))
  {
  }

  lemma StartedBefore(v: View, op: Op)
    requires OpsInv(v) && op in v.ops
    ensures op.StartSend? ==> PreOpen(op.from)
  {
  }

  lemma DoneKeeps(c: Config, v: View, op: Op, ok: bool)
    requires Inv(c, v) && op in v.ops
    ensures Inv(c, OnDone(v, op, ok))
  {
    hide OpsInv, FlagsInv, UpInv, HoldInv, RoutesInv, Torn, Up, Rollback;
    var w := v.(ops := v.ops - multiset{op});
    if Handshake(op) {
      HandshakeDoneKeeps(c, v, op, ok);
    } else if op.Discard? {
      DiscardKeeps(c, v, op, ok);
    } else {
      OtherOpDropped(c, v, op);
      TornKeeps(c, w);
      if op.StartSend? {
        StartedBefore(v, op);
        if w.state == OpenSent {
          StartFailedKeeps(c, w, op.from);
        }
      }
      if op.TickKeep? {
        ClockKeeps(c, w, w.clock, w.nowMs, w.lastRx, op.at);
      }
    }
  }

  /** Ending a handshake send of another attempt. */
  lemma StaleDoneKeeps(c: Config, v: View, op: Op)
    requires Inv(c, v) && op in v.ops && Handshake(op) && !(v.state == OpenConfirm && v.gen == op.gen)
    ensures Inv(c, v.(ops := v.ops - multiset{op}))
    ensures !op.PassiveGap? ==> Rollback(v.(ops := v.ops - multiset{op}), op.gen) == v.(ops := v.ops - multiset{op})
  {
  }

  /** Ending the handshake send of the current attempt leaves no other. */
  lemma CurrentDone(c: Config, v: View, op: Op)
    requires Inv(c, v) && op in v.ops && Handshake(op) && v.state == OpenConfirm && v.gen == op.gen
    ensures var w := v.(ops := v.ops - multiset{op});
            && OpsInv(w) && HoldInv(c, w) && Owed(w)
            && (forall p :: p in w.ops && Opening(p) ==> p.gen < w.gen)
            && (op.PassiveOpen? <==> v.passiveOpen) && (op.ActiveKeep? || op.PassiveKeep? <==> v.sendPending)
            && (v.keepPending || v.passiveKeep ==> v.keepHeard)
  {
    var w := v.(ops := v.ops - multiset{op});
    OthersPend(v, op);
    forall p | p in w.ops && Opening(p) ensures p.gen < w.gen {
      assert p in v.ops;
      assert p == op ==> w.ops[op] == 0;
    }
  }

  lemma SentKeeps(c: Config, w: View)
    requires OpsInv(w) && HoldInv(c, w) && Owed(w) && w.state == OpenConfirm && !w.passiveOpen
    requires forall p :: p in w.ops && Opening(p) ==> p.gen < w.gen
    requires w.keepPending || w.passiveKeep ==> w.keepHeard
    ensures Inv(c, w.(keepSent := true, sendPending := false))
    ensures w.keepHeard ==> Inv(c, Up(w.(keepSent := true)))
  {
    if w.keepHeard {
      UpKeeps(c, w.(keepSent := true));
    }
  }

  lemma PassiveKeeps(c: Config, w: View)
    requires OpsInv(w) && HoldInv(c, w) && Owed(w) && w.state == OpenConfirm && !w.sendPending
    requires forall p :: p in w.ops && Opening(p) ==> p.gen < w.gen
    requires w.keepPending || w.passiveKeep ==> w.keepHeard
    ensures Inv(c, w.(passiveOpen := false, ops := w.ops + multiset{PassiveGap(w.gen)}))
    ensures !w.passiveOpen ==> Inv(c, w.(sendPending := true, ops := w.ops + multiset{PassiveKeep(w.gen)}))
  {
    BeginKeeps(w, PassiveGap(w.gen));
    BeginKeeps(w, PassiveKeep(w.gen));
  }

  lemma HandshakeDoneKeeps(c: Config, v: View, op: Op, ok: bool)
    requires Inv(c, v) && op in v.ops && Handshake(op)
    ensures Inv(c, OnDone(v, op, ok))
  {
    var w := v.(ops := v.ops - multiset{op});
    if v.state == OpenConfirm && v.gen == op.gen {
      CurrentDone(c, v, op);
      hide OpsInv, FlagsInv, UpInv, HoldInv, RoutesInv, Up, Cleared;
      ClearedKeeps(c, w, Idle);
      if op.PassiveOpen? || op.PassiveGap? {
        PassiveKeeps(c, w);
      } else {
        SentKeeps(c, w);
      }
    } else {
      StaleDoneKeeps(c, v, op);
      hide Inv, Up, Rollback;
    }
  }

  lemma NextKeeps(c: Config, v: View, a: Action)
    requires Inv(c, v) && Enabled(v, a)
    ensures Inv(c, Next(c, v, a))
  {
    hide OpsInv, FlagsInv, UpInv, HoldInv, Torn, OnPacket, OnTick, OnDone, ConfigValid;
    TornKeeps(c, v);
    match a
    case Receive(p, handled) => PacketKeeps(c, v, p, handled);
    case Tick(now) => TickKeeps(c, v, now);
    case Done(op, ok) => DoneKeeps(c, v, op, ok);
    case Start =>
      if PreOpen(v.state) {
        ClearedKeeps(c, v, OpenSent);
        StartKeeps(c, Cleared(v, OpenSent), v.state);
      }
    case EnterPreOpen(active) =>
      if PreOpen(v.state) {
        ClearedKeeps(c, v, if active then Active else Connect);
      }
    case _ =>
  }

  lemma StartKeeps(c: Config, v: View, from: State)
    requires Inv(c, v) && v.state == OpenSent && PreOpen(from)
    requires forall p :: p in v.ops ==> p.gen < v.gen
    ensures Inv(c, v.(ops := v.ops + multiset{StartSend(v.gen, from)}))
  {
    BeginKeeps(v, StartSend(v.gen, from));
  }

  lemma {:induction false} RunKeeps(c: Config, v: View, run: seq<Action>)
    requires Inv(c, v) && IsRun(c, v, run)
    ensures Inv(c, After(c, v, run))
    decreases |run|
  {
    hide Inv, Next;
    if run != [] {
      NextKeeps(c, v, run[0]);
      RunKeeps(c, Next(c, v, run[0]), run[1..]);
    }
  }

  lemma {:induction false} RunOfSnoc(c: Config, v: View, run: seq<Action>, a: Action)
    ensures After(c, v, run + [a]) == Next(c, After(c, v, run), a)
    ensures IsRun(c, v, run + [a]) <==> IsRun(c, v, run) && Enabled(After(c, v, run), a)
    decreases |run|
  {
    hide Next, Enabled;
    if run == [] {
      assert (run + [a])[1..] == [];
      assert After(c, Next(c, v, a), []) == Next(c, v, a);
    } else {
      assert (run + [a])[1..] == run[1..] + [a];
      RunOfSnoc(c, Next(c, v, run[0]), run[1..], a);
    }
  }

  // ----- generations

  predicate Onward(v: View, w: View) {
    w.gen >= v.gen && (w.state != v.state ==> w.gen > v.gen)
  }

  lemma OnwardCommon(v: View, g: nat)
    ensures Onward(v, Torn(v)) && Onward(v, Up(v)) && Onward(v, Rollback(v, g)) && Up(v).gen > v.gen
            && Torn(v).gen > v.gen
  {
  }

  lemma OnwardDone(v: View, op: Op, ok: bool)
    ensures Onward(v, OnDone(v, op, ok))
  {
    hide Torn, Up, Rollback, Onward;
    var w := v.(ops := v.ops - multiset{op});
    OnwardCommon(w, op.gen);
    OnwardCommon(w.(keepSent := true), op.gen);
    OnwardEnds(w, op);
    OnwardDropped(v, op, OnDone(v, op, ok));
    OnwardKept(w, Up(w.(keepSent := true)));
  }

  lemma OnwardKept(w: View, x: View)
    ensures Onward(w.(keepSent := true), x) <==> Onward(w, x)
  {
  }

  lemma OnwardDropped(v: View, op: Op, x: View)
    ensures Onward(v.(ops := v.ops - multiset{op}), x) <==> Onward(v, x)
  {
  }

  lemma OnwardEnds(w: View, op: Op)
    ensures Onward(w, w) && Onward(w, w.(keepSent := true, sendPending := false))
    ensures Onward(w, w.(passiveOpen := false, ops := w.ops + multiset{PassiveGap(op.gen)}))
    ensures Onward(w, w.(sendPending := true, ops := w.ops + multiset{PassiveKeep(op.gen)}))
    ensures op.StartSend? ==>
              Onward(w, w.(state := op.from, gen := w.gen + 1, sendPending := false, keepPending := false,
                           passiveOpen := false, passiveKeep := false))
    ensures op.TickKeep? ==> Onward(w, w.(lastKeep := op.at))
    ensures op.Discard? ==> Onward(w, w.(routes := WithoutPeer(w.routes, op.peer)))
  {
  }

  lemma OnwardPacket(c: Config, v: View, p: Packet, handled: bool)
    ensures Onward(v, OnPacket(c, v, p, handled))
  {
    hide OnOpen, OnOpenConfirm, OnEstablished;
    if p.Open? {
      OnwardOpen(c, v, p, handled, true);
      OnwardOpen(c, v, p, handled, false);
    }
    OnwardLater(c, v, p);
  }

  lemma OnwardLater(c: Config, v: View, p: Packet)
    ensures v.state == OpenConfirm ==> Onward(v, OnOpenConfirm(c, v, p))
    ensures v.state == Established ==> Onward(v, OnEstablished(v, p))
  {
    hide OpenAcceptable, OnEstablished;
    EstablishedIs(v, p);
    OnwardAside(v, OnEstablished(v, p));
  }

  lemma OnwardAside(v: View, w: View)
    requires Aside(v, w)
    ensures Onward(v, w)
  {
  }

  lemma OnwardOpen(c: Config, v: View, p: Packet, handled: bool, passive: bool)
    requires p.Open?
    ensures Onward(v, OnOpen(c, v, p, handled, passive))
  {
    hide OpenAcceptable, ConfigValid, Negotiate;
  }

  /** Every change of state raises the generation, which never falls. */
  lemma StateChangeRaisesGeneration(c: Config, v: View, a: Action)
    ensures Next(c, v, a).gen >= v.gen
    ensures Next(c, v, a).state != v.state ==> Next(c, v, a).gen > v.gen
  {
    hide Elapsed, ConfigValid, KeepaliveTime, OnDone, OnPacket;
    if a.Done? {
      OnwardDone(v, a.op, a.ok);
    } else if a.Receive? {
      OnwardPacket(c, v, a.packet, a.handled);
    }
  }

  /** The end of a send that began in an older generation changes nothing; in particular a failed handshake
      send never meets the session it would have established. An older discard still discards. */
  lemma StaleDoneIsInert(c: Config, v: View, op: Op, ok: bool)
    requires Inv(c, v) && op in v.ops && op.gen < v.gen
    ensures !op.Discard? ==> Next(c, v, Done(op, ok)) == v.(ops := v.ops - multiset{op})
    ensures op.Discard? ==>
              Next(c, v, Done(op, ok)) == v.(ops := v.ops - multiset{op}, routes := WithoutPeer(v.routes, op.peer))
    ensures Handshake(op) && !op.PassiveGap? ==> !(v.state == Established && v.gen == op.gen + 1)
  {
    hide Torn, Up, Cleared;
  }

  // ----- the hold time

  /** In every run the hold time of a handshake or session is the smaller of the two offers, and 0 exactly if one
      of them is; otherwise it is at least 3. The keepalive interval is the largest number of seconds that is at
      most a third of it and at most the configured one, if one is configured. */
  lemma HoldTimeIsSane(c: Config, run: seq<Action>)
    requires IsRun(c, INIT, run)
    ensures var v := After(c, INIT, run);
            var k := KeepaliveTime(v.hold, c.keepaliveTime);
            && (!HoldActive(v.state) ==> v.hold == 0)
            && (HoldActive(v.state) ==> (v.hold == 0 <==> c.holdTime == 0 || v.peerHold == 0))
            && (v.hold != 0 ==>
                  && 3 <= v.hold && v.hold <= c.holdTime && v.hold <= v.peerHold
                  && (v.hold == c.holdTime || v.hold == v.peerHold))
            && (v.hold == 0 ==> k == 0)
            && (v.hold != 0 ==>
                  && 1 <= k && 3 * k <= v.hold && (c.keepaliveTime != 0 ==> k <= c.keepaliveTime)
                  && forall m :: 3 * m <= v.hold && (c.keepaliveTime != 0 ==> m <= c.keepaliveTime) ==> m <= k)
  {
    RunKeeps(c, INIT, run);
    hide After, IsRun, OpsInv, FlagsInv, UpInv, RoutesInv;
  }
}
