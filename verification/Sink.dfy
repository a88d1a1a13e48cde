/** The stream sink (src/sink.c): a byte buffer that slides, compacts and grows, and a ring of packets
    that grows by straightening out. */
module Sink {
  import opened Wrappers
  import opened Framing

  /** Position i of a ring that starts at `head`. */
  function Slot(head: nat, i: nat, cap: nat): (k: nat)
    requires head < cap && i < cap
    ensures k < cap && k == if head + i < cap then head + i else head + i - cap
  {
    (head + i) % cap
  }

  lemma SlotNext(head: nat, i: nat, cap: nat)
    requires head < cap && i + 1 < cap
    ensures Slot(Slot(head, 1, cap), i, cap) == Slot(head, i + 1, cap)
  {
  }

  /** The first `count` elements of a ring. */
  function RingOf<P>(ring: seq<P>, head: nat, count: nat): (q: seq<P>)
    requires count <= |ring| && (count > 0 ==> head < |ring|)
    ensures |q| == count && forall i :: 0 <= i < count ==> q[i] == ring[Slot(head, i, |ring|)]
  {
    seq(count, i requires 0 <= i < count => ring[Slot(head, i, |ring|)])
  }

  lemma RingWithoutHead<P>(ring: seq<P>, head: nat, count: nat)
    requires 0 < count <= |ring| && head < |ring|
    ensures var next := (head + 1) % |ring|;
            && next < |ring|
            && RingOf(ring, head, count) == [ring[head]] + RingOf(ring, next, count - 1)
            && (count == 1 ==> RingOf(ring, 0, 0) == RingOf(ring, next, 0))
  {
    var next := (head + 1) % |ring|;
    var q, r := RingOf(ring, head, count), RingOf(ring, next, count - 1);
    assert q[0] == ring[head];
    forall i | 0 <= i < count - 1 ensures q[i + 1] == r[i] {
      SlotNext(head, i, |ring|);
    }
  }

  lemma SliceOfPrefix(b: Bytes, n: nat, i: nat, j: nat)
    requires i <= j <= n <= |b|
    ensures b[..n][i..j] == b[i..j]
  {
  }

  class Sink<P(0,!new)> {
    const parse: Parser<P>
    var buf: array<bv8>
    var bufOff: nat
    var bufLen: nat
    var packets: array<P>
    var packetHead: nat
    var packetCount: nat
    ghost var stream: Bytes     // all bytes fed since the sink was new or cleared
    ghost var popped: seq<P>    // the packets popped since then
    ghost var clean: bool       // no bad frame since then

    ghost predicate Shape()
      reads this`buf, this`bufOff, this`bufLen, this`packets, this`packetHead, this`packetCount
    {
      && bufOff + bufLen <= buf.Length
      && packetCount <= packets.Length
      && (packets.Length > 0 ==> packetHead < packets.Length)
      && (packets.Length == 0 ==> packetHead == 0)
      && (buf as object) != (packets as object)
      && (forall f :: parse(f) != Failure(Ok))
    }

    /** The bytes not yet framed. */
    ghost function Buffered(): Bytes
      requires Shape()
      reads this`buf, this`bufOff, this`bufLen, this`packets, this`packetHead, this`packetCount, buf
    {
      buf[bufOff..bufOff + bufLen]
    }

    /** The packets not yet popped. */
    ghost function Queue(): (q: seq<P>)
      requires Shape()
      reads this`buf, this`bufOff, this`bufLen, this`packets, this`packetHead, this`packetCount, packets
      ensures |q| == packetCount && forall i :: 0 <= i < |q| ==> q[i] == packets[Slot(packetHead, i, packets.Length)]
    {
      RingOf(packets[..], packetHead, packetCount)
    }

    /** Without a bad frame so far, the packets handed out and queued are those of the stream, and the
        buffered bytes are all that is still to be looked at: the future looks as if the whole stream
        had come at once. */
    ghost predicate Valid()
      reads this, buf, packets
    {
      Shape() && (clean ==> Continues(parse, stream, popped + Queue(), Buffered()))
    }

    constructor (parse: Parser<P>)
      requires forall f :: parse(f) != Failure(Ok)
      ensures Valid() && clean && stream == [] && popped == [] && Queue() == [] && Buffered() == []
      ensures fresh(buf) && fresh(packets)
    {
      this.parse := parse;
      buf, bufOff, bufLen := new bv8[0], 0, 0;
      packets, packetHead, packetCount := new P[0], 0, 0;
      stream, popped, clean := [], [], true;
      ContinuesNothing(parse);
      new;
      assert popped + Queue() == [] && Buffered() == [];
    }

    // ----- the buffer

    /** Move the buffered bytes to the front. */
    method Compact()
      requires Shape()
      modifies this`bufOff, buf
      ensures Shape() && bufOff == 0 && Buffered() == old(Buffered()) && Queue() == old(Queue())
    {
      hide RingOf, Slot;
      MoveDown(buf, bufOff, bufLen);
      bufOff := 0;
    }

    static method MoveDown(a: array<bv8>, from: nat, n: nat)
      requires from + n <= a.Length
      modifies a
      ensures a[0..n] == old(a[from..from + n])
    {
      ghost var b := a[from..from + n];
      var i := 0;
      while i < n
        invariant 0 <= i <= n
        invariant forall k :: 0 <= k < i ==> a[k] == b[k]
        invariant forall k :: i <= k < n ==> a[from + k] == b[k]
      {
        a[i] := a[from + i];
        i := i + 1;
      }
    }

    /** Make room for `len` more bytes at the end. */
    method ReserveBuf(len: nat, plentiful: bool) returns (ok: bool)
      requires Shape()
      modifies this`buf, this`bufOff, buf
      ensures Shape() && Buffered() == old(Buffered()) && Queue() == old(Queue()) && (buf == old(buf) || fresh(buf))
      ensures ok ==> bufOff + bufLen + len <= buf.Length
      ensures plentiful ==> ok
    {
      if len <= buf.Length - bufOff - bufLen {
        return true;
      }
      if bufOff > 0 && bufOff >= buf.Length / 2 {
        Compact();
        if len <= buf.Length - bufLen {
          return true;
        }
      } else if bufOff > 0 && bufLen + len <= buf.Length {
        Compact();
        return true;
      }
      ok := TryAlloc(plentiful);
      if ok {
        Grow(bufOff + bufLen + len);
      }
    }

    /** Double the capacity until it suffices. */
    method Grow(required: nat)
      requires Shape() && required >= bufOff + bufLen
      modifies this`buf
      ensures Shape() && Buffered() == old(Buffered()) && Queue() == old(Queue()) && fresh(buf)
              && buf.Length >= required
    {
      hide RingOf, Slot;
      var cap := Doubled(if buf.Length == 0 then HEADER_LEN else buf.Length * 2, required);
      ghost var all, i, j := buf[..], bufOff, bufOff + bufLen;
      assert Buffered() == all[i..j];
      var next := CopyOf(buf, cap);
      assert next[..][..|all|] == all;
      SliceOfPrefix(next[..], |all|, i, j);
      assert next[i..j] == all[i..j];
      buf := next;
    }

    static method Doubled(start: nat, required: nat) returns (cap: nat)
      requires start > 0
      ensures cap >= start && cap >= required
    {
      cap := start;
      while cap < required
        invariant cap >= start
        decreases required - cap
      {
        cap := cap * 2;
      }
    }

    static method CopyOf(from: array<bv8>, cap: nat) returns (next: array<bv8>)
      requires from.Length <= cap
      ensures fresh(next) && next.Length == cap && next[..from.Length] == from[..]
    {
      next := new bv8[cap];
      var i := 0;
      while i < from.Length
        invariant 0 <= i <= from.Length
        invariant forall k :: 0 <= k < i ==> next[k] == from[k]
      {
        next[i] := from[i];
        i := i + 1;
      }
    }

    method DropPrefix(len: nat)
      requires Shape() && len <= bufLen
      modifies this`bufOff, this`bufLen
      ensures Shape() && Buffered() == old(Buffered())[len..] && Queue() == old(Queue())
    {
      if len >= bufLen {
        bufOff, bufLen := 0, 0;
      } else {
        bufOff, bufLen := bufOff + len, bufLen - len;
      }
    }

    // ----- the ring

    /** Room for `needed` packets; a larger ring holds the packets from its start. */
    method ReservePackets(needed: nat, plentiful: bool) returns (ok: bool)
      requires Shape()
      modifies this`packets, this`packetHead
      ensures Shape() && Queue() == old(Queue()) && Buffered() == old(Buffered())
              && (packets == old(packets) || fresh(packets))
      ensures ok ==> needed <= packets.Length
      ensures plentiful ==> ok
    {
      if needed <= packets.Length {
        return true;
      }
      var cap := Doubled(if packets.Length == 0 then 4 else packets.Length * 2, needed);
      ok := TryAlloc(plentiful);
      if !ok {
        return;
      }
      var next := new P[cap];
      var i := 0;
      while i < packetCount
        invariant 0 <= i <= packetCount
        invariant forall k :: 0 <= k < i ==> next[k] == packets[Slot(packetHead, k, packets.Length)]
        modifies next
      {
        next[i] := packets[(packetHead + i) % packets.Length];
        i := i + 1;
      }
      ghost var q := Queue();
      packets, packetHead := next, 0;
      assert Queue() == q;
    }

    method Push(p: P)
      requires Shape() && packetCount < packets.Length
      modifies this`packetCount, packets
      ensures Shape() && Queue() == old(Queue()) + [p] && Buffered() == old(Buffered())
    {
      ghost var q := Queue();
      var tail := (packetHead + packetCount) % packets.Length;
      assert tail == Slot(packetHead, packetCount, packets.Length);
      packets[tail] := p;
      packetCount := packetCount + 1;
      assert Queue() == q + [p];
    }

    // ----- framing

    /** Whether the buffered bytes start with a good marker. */
    method CheckMarker() returns (ok: bool)
      requires Shape() && bufLen >= HEADER_LEN
      ensures ok == MarkerValid(Buffered())
    {
      for i := 0 to MARKER_LEN
        invariant forall k :: 0 <= k < i ==> Buffered()[k] == 0xff
      {
        if buf[bufOff + i] != 0xff {
          assert Buffered()[i] != 0xff;
          return false;
        }
      }
      return true;
    }

    /** The length the header gives. */
    method HeaderLen() returns (n: nat)
      requires Shape() && bufLen >= HEADER_LEN
      ensures n == WireLen(Buffered())
    {
      assert Buffered()[16] == buf[bufOff + 16] && Buffered()[17] == buf[bufOff + 17];
      n := buf[bufOff + 16] as nat * 256 + buf[bufOff + 17] as nat;
    }

    /** The packet of a whole frame, or why there is none. */
    method ParseFront(n: nat) returns (r: Result<P>)
      requires Shape() && HEADER_LEN <= n <= bufLen
      ensures var parsed := parse(Buffered()[..n]);
              match r
              case Success(p) => parsed == Success((p, n))
              case Failure(e) => e == if parsed.Failure? then parsed.error else BadLen
      ensures r.Failure? ==> parse(Buffered()[..n]).Failure? || parse(Buffered()[..n]).value.1 != n
    {
      assert buf[bufOff..bufOff + n] == Buffered()[..n];
      var parsed := parse(buf[bufOff..bufOff + n]);
      match parsed
      case Failure(e) => r := Failure(e);
      case Success(pn) => r := if pn.1 == n then Success(pn.0) else Failure(BadLen);
    }

    method DropAll()
      requires Shape()
      modifies this`bufOff, this`bufLen
      ensures Shape() && Buffered() == [] && Queue() == old(Queue())
    {
      bufOff, bufLen := 0, 0;
    }

    lemma BufferedLength()
      requires Shape()
      ensures |Buffered()| == bufLen
    {
    }

    /** One turn of the framing loop. */
    method FrameOne(plentiful: bool) returns (turn: Turn)
      requires Shape() && bufLen >= HEADER_LEN
      modifies this`bufOff, this`bufLen, this`packets, this`packetHead, this`packetCount, packets
      ensures Shape() && (packets == old(packets) || fresh(packets))
      ensures match turn
              case Queued =>
                var b := old(Buffered());
                && GoodFront(parse, b) && Buffered() == b[WireLen(b)..] && bufLen < |b|
                && Queue() == old(Queue()) + [parse(b[..WireLen(b)]).value.0]
              case Stopped(err) =>
                Queue() == old(Queue()) && Frame(parse, old(Buffered())) == Framed([], Buffered(), err)
              case NoRoom => !plentiful && Queue() == old(Queue()) && Buffered() == old(Buffered())
    {
      hide Frame, MarkerValid, WireLen, Buffered, Queue;
      ghost var b := Buffered();
      BufferedLength();
      FrameStops(parse, b);
      var ok := CheckMarker();
      var n := HeaderLen();
      if !ok || n < HEADER_LEN || n > MAX_LEN {
        DropAll();
        return Stopped(BadLen);
      }
      if bufLen < n {
        return Stopped(Ok);
      }
      ok := ReservePackets(packetCount + 1, plentiful);
      if !ok {
        return NoRoom;
      }
      var parsed := ParseFront(n);
      match parsed {
        case Success(p) =>
          Push(p);
          turn := Queued;
        case Failure(e) =>
          turn := Stopped(e);
      }
      DropPrefix(n);
      BufferedLength();
    }

    /** Queue every whole packet in the buffer. */
    method Process(plentiful: bool) returns (err: Err, ghost d: seq<P>, ghost stalled: bool)
      requires Shape()
      modifies this`bufOff, this`bufLen, this`packets, this`packetHead, this`packetCount, packets
      ensures Shape() && (packets == old(packets) || fresh(packets))
      ensures Queue() == old(Queue()) + d
      ensures !stalled ==> Frame(parse, old(Buffered())) == Framed(d, Buffered(), err)
      ensures stalled ==> err == NoMem && !plentiful && Continues(parse, old(Buffered()), d, Buffered())
    {
      hide Frame, Continues, GoodFront;
      ghost var b, q := Buffered(), Queue();
      ContinuesSelf(parse, b);
      d, stalled := [], false;
      assert q + d == q;
      while bufLen >= HEADER_LEN
        invariant Shape() && (packets == old(packets) || fresh(packets))
        invariant Queue() == q + d && Continues(parse, b, d, Buffered())
        decreases bufLen
      {
        ghost var now := Buffered();
        var turn := FrameOne(plentiful);
        match turn
        case Queued =>
          assert GoodFront(parse, now);
          d := NextDone(parse, b, d, now);
        case Stopped(e) =>
          ContinuesMeans(parse, b, d, now);
          assert d + [] == d;
          return e, d, false;
        case NoRoom =>
          return NoMem, d, true;
      }
      FrameStops(parse, Buffered());
      ContinuesMeans(parse, b, d, Buffered());
      assert d + [] == d;
      err := Ok;
    }

    /** Copy bytes to the end of the buffer. */
    method Append(data: Bytes)
      requires Shape() && bufOff + bufLen + |data| <= buf.Length
      modifies this`bufLen, buf
      ensures Shape() && Buffered() == old(Buffered()) + data && Queue() == old(Queue())
    {
      ghost var b := Buffered();
      var start := bufOff + bufLen;
      var i := 0;
      while i < |data|
        invariant 0 <= i <= |data|
        invariant buf[bufOff..start] == b && buf[start..start + i] == data[..i]
        modifies buf
      {
        buf[start + i] := data[i];
        i := i + 1;
      }
      bufLen := bufLen + |data|;
      assert Buffered() == buf[bufOff..start] + buf[start..start + |data|];
    }

    /** The packets queued and bytes left are those of framing b, which ended in an error: what the error
        dropped is lost. */
    ghost predicate Dropped(q: seq<P>, b: Bytes)
      requires Shape()
      reads this`buf, this`bufOff, this`bufLen, this`packets, this`packetHead, this`packetCount, buf, packets
    {
      var r := Frame(parse, b);
      r.err != Ok && Queue() == q + r.packets && Buffered() == r.rest
    }

    /** Packets were added to the queue q and no byte of b is lost: whatever comes next is framed as if all
        of b were still to be looked at. */
    ghost predicate Waiting(q: seq<P>, b: Bytes)
      requires Shape()
      reads this`buf, this`bufOff, this`bufLen, this`packets, this`packetHead, this`packetCount, buf, packets
    {
      q <= Queue() && Continues(parse, b, Queue()[|q|..], Buffered())
    }

    /** Take in more bytes and queue the packets they complete. If the sink's own arrays cannot grow, the
        bytes either were not taken or wait in the buffer. Bytes are lost exactly when framing itself ends in
        an error, which is out-of-memory if a parser says so. */
    method Feed(data: Bytes, plentiful: bool) returns (err: Err)
      requires Valid()
      modifies this, buf, packets
      ensures Valid() && (packets == old(packets) || fresh(packets)) && (buf == old(buf) || fresh(buf))
      ensures popped == old(popped) && (clean ==> old(clean))
      ensures data == [] ==>
                err == Ok && Queue() == old(Queue()) && Buffered() == old(Buffered()) && stream == old(stream)
                && clean == old(clean)
      ensures err == Ok && data != [] ==> clean == old(clean) && |Buffered()| < MAX_LEN
      ensures err == Ok && data != [] && clean ==> Frame(parse, stream) == Framed(popped + Queue(), Buffered(), Ok)
      ensures err != NoMem && data != [] ==>
                && stream == old(stream) + data
                && var r := Frame(parse, old(Buffered()) + data);
                err == r.err && Queue() == old(Queue()) + r.packets && Buffered() == r.rest
      ensures err != NoMem ==>
                Kept(popped + Queue(), Buffered()) == FeedOne(parse, old(Kept(popped + Queue(), Buffered())), data)
      ensures err == NoMem ==>
                || (&& Queue() == old(Queue()) && Buffered() == old(Buffered())
                    && stream == old(stream) && clean == old(clean))
                || (&& stream == old(stream) + data && clean == old(clean)
                    && Waiting(old(Queue()), old(Buffered()) + data))
                || (&& stream == old(stream) + data && Frame(parse, old(Buffered()) + data).err == NoMem
                    && Dropped(old(Queue()), old(Buffered()) + data))
      ensures stream != old(stream) ==>
                (Waiting(old(Queue()), old(Buffered()) + data) <==> !Dropped(old(Queue()), old(Buffered()) + data))
      ensures plentiful && data != [] ==> err == Frame(parse, old(Buffered()) + data).err
    {
      hide Frame, Continues, Queue, Buffered, FeedOne, Waiting, Dropped;
      if data == [] {
        FeedNothing(parse, Kept(popped + Queue(), Buffered()));
        return Ok;
      }
      ghost var q, b := Queue(), Buffered();
      var ok := ReserveBuf(|data|, plentiful);
      if !ok {
        return NoMem;
      }
      ghost var stalled;
      err, stalled := Take(data, plentiful);
      FeedIs(parse, popped, q, b, data, Frame(parse, b + data).packets);
    }

    /** Append bytes for which there is room and frame; `stalled` if a packet finds no room in the ring. */
    method Take(data: Bytes, plentiful: bool) returns (err: Err, ghost stalled: bool)
      requires Valid() && data != [] && bufOff + bufLen + |data| <= buf.Length
      modifies this, buf, packets
      ensures Valid() && (packets == old(packets) || fresh(packets)) && buf == old(buf)
      ensures popped == old(popped) && stream == old(stream) + data
      ensures clean == (old(clean) && (stalled || err == Ok))
      ensures err == Ok ==> |Buffered()| < MAX_LEN
      ensures err == Ok && clean ==> Frame(parse, stream) == Framed(popped + Queue(), Buffered(), Ok)
      ensures stalled ==> err == NoMem && !plentiful
      ensures !stalled ==>
                var r := Frame(parse, old(Buffered()) + data);
                err == r.err && Queue() == old(Queue()) + r.packets && Buffered() == r.rest
      ensures Waiting(old(Queue()), old(Buffered()) + data) <==> !Dropped(old(Queue()), old(Buffered()) + data)
      ensures stalled || err == Ok ==> Waiting(old(Queue()), old(Buffered()) + data)
      ensures !stalled && err != Ok ==> Dropped(old(Queue()), old(Buffered()) + data)
    {
      hide Frame, Continues, Queue, Buffered, FeedOne, Waiting, Dropped;
      ghost var q, b := Queue(), Buffered();
      Append(data);
      if clean {
        ContinuesFed(parse, stream, popped + q, b, data);
      }
      stream := stream + data;
      ghost var d;
      err, d, stalled := Process(plentiful);
      Settle(q, b + data, d, stalled, err);
      Fate(q, b + data, d, stalled, err);
      if !stalled && err != Ok {
        clean := false;
      }
    }

    /** What has been taken in waits exactly unless it was dropped. */
    lemma Fate(q: seq<P>, b: Bytes, d: seq<P>, stalled: bool, err: Err)
      requires Shape() && Queue() == q + d
      requires !stalled ==> Frame(parse, b) == Framed(d, Buffered(), err)
      requires stalled ==> Continues(parse, b, d, Buffered())
      ensures Waiting(q, b) <==> !Dropped(q, b)
      ensures stalled || err == Ok ==> Waiting(q, b)
      ensures !stalled && err != Ok ==> Dropped(q, b)
    {
      hide Frame, Continues, Queue, Buffered;
      assert Queue()[|q|..] == d;
      if !stalled {
        ContinuesIff(parse, b);
      } else if Dropped(q, b) {
        assert d == Frame(parse, b).packets;
        ContinuesIff(parse, b);
      }
    }

    /** The bookkeeping after a feed. */
    lemma Settle(q: seq<P>, b: Bytes, d: seq<P>, stalled: bool, err: Err)
      requires Shape() && Queue() == q + d
      requires clean ==> Continues(parse, stream, popped + q, b)
      requires !stalled ==> Frame(parse, b) == Framed(d, Buffered(), err)
      requires stalled ==> Continues(parse, b, d, Buffered())
      ensures clean && (stalled || err == Ok) ==> Continues(parse, stream, popped + Queue(), Buffered())
      ensures !stalled && err == Ok ==> |Buffered()| < MAX_LEN
      ensures !stalled && err == Ok && clean ==> Frame(parse, stream) == Framed(popped + Queue(), Buffered(), Ok)
    {
      hide Frame, Continues;
      assert popped + q + d == popped + Queue();
      if !stalled && err == Ok {
        ContinuesAfterOk(parse, b);
        RestIsShort(parse, b);
      }
      if clean && (stalled || err == Ok) {
        ContinuesTwice(parse, stream, popped + q, b, d, Buffered());
        if !stalled {
          ContinuesMeans(parse, stream, popped + Queue(), Buffered());
          assert popped + Queue() + [] == popped + Queue();
        }
      }
    }

    /** Hand out the oldest packet. */
    method Pop() returns (err: Err, p: P)
      requires Valid()
      modifies this`packetHead, this`packetCount, this`popped
      ensures Valid() && Buffered() == old(Buffered())
      ensures err == if old(Queue()) == [] then NotFound else Ok
      ensures err == Ok ==> [p] + Queue() == old(Queue()) && popped == old(popped) + [p]
      ensures err != Ok ==> Queue() == old(Queue()) && popped == old(popped)
    {
      hide Frame, Continues, Queue;
      if packetCount == 0 {
        NothingQueued();
        err := NotFound;
        p := *;
        return;
      }
      ghost var q := Queue();
      p := TakeHead();
      popped := popped + [p];
      assert popped + Queue() == old(popped) + q;
      err := Ok;
    }

    lemma NothingQueued()
      requires Shape()
      ensures packetCount == 0 <==> Queue() == []
    {
    }

    method TakeHead() returns (p: P)
      requires Shape() && packetCount > 0
      modifies this`packetHead, this`packetCount
      ensures Shape() && [p] + Queue() == old(Queue())
    {
      hide RingOf;
      RingWithoutHead(packets[..], packetHead, packetCount);
      p := packets[packetHead];
      packetHead := (packetHead + 1) % packets.Length;
      packetCount := packetCount - 1;
      if packetCount == 0 {
        packetHead := 0;
      }
    }

    /** Forget everything. */
    method Clear()
      requires Valid()
      modifies this
      ensures Valid() && clean && stream == [] && popped == [] && Queue() == [] && Buffered() == []
    {
      packetHead, packetCount, bufOff, bufLen := 0, 0, 0, 0;
      stream, popped, clean := [], [], true;
      ContinuesNothing(parse);
      assert popped + Queue() == [] && Buffered() == [];
    }
  }

  datatype Turn = Queued | Stopped(err: Err) | NoRoom

  lemma NextDone<P(!new)>(parse: Parser<P>, b: Bytes, d: seq<P>, now: Bytes) returns (d': seq<P>)
    requires Continues(parse, b, d, now) && GoodFront(parse, now)
    ensures d' == d + [parse(now[..WireLen(now)]).value.0]
    ensures Continues(parse, b, d', now[WireLen(now)..])
  {
    d' := d + [parse(now[..WireLen(now)]).value.0];
    ContinuesFramed(parse, b, d, now);
  }
}
