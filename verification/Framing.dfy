/** How a byte stream falls into BGP packets (src/sink.c, section 4.1 of RFC 4271), as a function of the
    whole stream. Parsing a single frame is a parameter. */
module Framing {
  import opened Wrappers

  type Bytes = seq<bv8>

  /** Parse one frame: a packet and the number of bytes used, or an error. */
  type Parser<P> = Bytes -> Result<(P, nat)>

  const HEADER_LEN: nat := 19
  const MARKER_LEN: nat := 16
  const MAX_LEN: nat := 4096

  predicate MarkerValid(b: Bytes)
    requires |b| >= MARKER_LEN
  {
    forall i :: 0 <= i < MARKER_LEN ==> b[i] == 0xff
  }

  function WireLen(b: Bytes): nat
    requires |b| >= HEADER_LEN
  {
    b[16] as nat * 256 + b[17] as nat
  }

  predicate HeaderValid(b: Bytes)
    requires |b| >= HEADER_LEN
  {
    MarkerValid(b) && HEADER_LEN <= WireLen(b) <= MAX_LEN
  }

  /** The packets found, the bytes left and how it ended. */
  datatype Framed<P> = Framed(packets: seq<P>, rest: Bytes, err: Err)

  function Frame<P>(parse: Parser<P>, b: Bytes): (r: Framed<P>)
    decreases |b|
  {
    if |b| < HEADER_LEN then Framed([], b, Ok)
    else if !HeaderValid(b) then Framed([], [], BadLen)
    else if |b| < WireLen(b) then Framed([], b, Ok)
    else
      var n := WireLen(b);
      match parse(b[..n])
      case Failure(e) => Framed([], b[n..], e)
      case Success(pn) =>
        if pn.1 != n then Framed([], b[n..], BadLen)
        else
          var r := Frame(parse, b[n..]);
          r.(packets := [pn.0] + r.packets)
  }

  // ----- what framing means

  /** The length in a header, most significant octet first. */
  function SaidLength(b: Bytes): nat
    requires |b| >= 19
  {
    b[16] as nat * 256 + b[17] as nat
  }

  /** Sixteen octets of ones, and a length of at least a header and at most 4096 octets. */
  predicate HeaderSound(b: Bytes)
    requires |b| >= 19
  {
    (forall i :: 0 <= i < 16 ==> b[i] == 0xff) && 19 <= SaidLength(b) <= 4096
  }

  /** A whole packet: its header gives its length and the parser uses all of it. */
  predicate IsFrame<P(==)>(parse: Parser<P>, f: Bytes, p: P) {
    |f| >= 19 && HeaderSound(f) && SaidLength(f) == |f| && parse(f) == Success((p, |f|))
  }

  /** Packets one after the other make up a stream. */
  predicate Frames<P(==)>(parse: Parser<P>, b: Bytes, packets: seq<P>) {
    if packets == [] then b == []
    else
      && |b| >= 19 && SaidLength(b) <= |b| && IsFrame(parse, b[..SaidLength(b)], packets[0])
      && Frames(parse, b[SaidLength(b)..], packets[1..])
  }

  /** Framing stops at these bytes: a packet is not there as a whole yet, and they are kept; or a header is not
      sound, and all bytes go; or the parser refuses a packet or does not use all of it, and that packet goes. */
  predicate Stops<P(==)>(parse: Parser<P>, t: Bytes, rest: Bytes, err: Err) {
    if |t| < 19 then rest == t && err == Ok
    else if !HeaderSound(t) then rest == [] && err == BadLen
    else if |t| < SaidLength(t) then rest == t && err == Ok
    else
      && rest == t[SaidLength(t)..]
      && match parse(t[..SaidLength(t)])
         case Failure(e) => err == e
         case Success(pn) => err == BadLen && pn.1 != SaidLength(t)
  }

  predicate FramesThenStops<P(==)>(parse: Parser<P>, b: Bytes, r: Framed<P>, n: nat)
    requires n <= |b|
  {
    Frames(parse, b[..n], r.packets) && Stops(parse, b[n..], r.rest, r.err)
  }

  lemma HeaderSoundIff(b: Bytes)
    requires |b| >= 19
    ensures HeaderSound(b) <==> HeaderValid(b)
    ensures SaidLength(b) == WireLen(b)
  {
  }

  lemma SameHeader(b: Bytes, n: nat)
    requires 19 <= n <= |b|
    ensures HeaderSound(b[..n]) <==> HeaderSound(b)
    ensures SaidLength(b[..n]) == SaidLength(b)
  {
    assert forall i :: 0 <= i < 19 ==> b[..n][i] == b[i];
  }

  /** The packets, the bytes left and the error are those of the stream cut into whole good packets and the place
      where framing stops. */
  lemma FrameMeaning<P>(parse: Parser<P>, b: Bytes, r: Framed<P>)
    ensures Frame(parse, b) == r <==> exists n: nat :: n <= |b| && FramesThenStops(parse, b, r, n)
  {
    hide Frame, FramesThenStops;
    if Frame(parse, b) == r {
      var n := StopsAt(parse, b);
    }
    if n: nat :| n <= |b| && FramesThenStops(parse, b, r, n) {
      StopsOnce(parse, b, r, n);
    }
  }

  lemma {:induction false} StopsAt<P>(parse: Parser<P>, b: Bytes) returns (n: nat)
    ensures n <= |b| && FramesThenStops(parse, b, Frame(parse, b), n)
    decreases |b|
  {
    hide HeaderSound, SaidLength, HeaderValid, WireLen;
    n := 0;
    assert b[..0] == [] && b[0..] == b;
    if |b| >= 19 {
      HeaderSoundIff(b);
      var len := WireLen(b);
      if HeaderValid(b) && |b| >= len && parse(b[..len]).Success? && parse(b[..len]).value.1 == len {
        HeaderLength(b);
        var k := StopsAt(parse, b[len..]);
        n := len + k;
        SameHeader(b, len);
        assert b[..n][..len] == b[..len] && b[..n][len..] == b[len..][..k] && b[n..] == b[len..][k..];
        assert Frame(parse, b).packets[1..] == Frame(parse, b[len..]).packets;
        SameHeader(b, n);
      }
    }
  }

  lemma HeaderLength(b: Bytes)
    requires |b| >= 19 && HeaderValid(b)
    ensures 19 <= WireLen(b) <= 4096
  {
  }

  lemma {:induction false} StopsOnce<P>(parse: Parser<P>, b: Bytes, r: Framed<P>, n: nat)
    requires n <= |b| && FramesThenStops(parse, b, r, n)
    ensures Frame(parse, b) == r
    decreases |r.packets|
  {
    hide HeaderSound, SaidLength, HeaderValid, WireLen;
    if r.packets == [] {
      assert b[0..] == b;
      if |b| >= 19 {
        HeaderSoundIff(b);
      }
    } else {
      SameHeader(b, n);
      var len := SaidLength(b);
      assert b[..n][..len] == b[..len] && b[..n][len..] == b[len..][..n - len] && b[n..] == b[len..][n - len..];
      SameHeader(b, len);
      HeaderSoundIff(b);
      StopsOnce(parse, b[len..], r.(packets := r.packets[1..]), n - len);
    }
  }

  /** After a good end fewer bytes than a packet can have are left, and they hold no further packet. */
  lemma {:induction false} RestIsShort<P>(parse: Parser<P>, b: Bytes)
    requires Frame(parse, b).err == Ok
    requires forall f :: parse(f) != Failure(Ok)
    ensures |Frame(parse, b).rest| < MAX_LEN
    ensures Frame(parse, Frame(parse, b).rest) == Framed([], Frame(parse, b).rest, Ok)
    decreases |b|
  {
    if |b| >= HEADER_LEN && |b| >= WireLen(b) {
      RestIsShort(parse, b[WireLen(b)..]);
    }
  }

  /** The rest of the work: packets d are done and bytes r are still to be looked at. */
  ghost predicate Continues<P(!new)>(parse: Parser<P>, stream: Bytes, d: seq<P>, r: Bytes) {
    forall more: Bytes :: Resumes(parse, stream, d, r, more)
  }

  predicate Resumes<P(==)>(parse: Parser<P>, stream: Bytes, d: seq<P>, r: Bytes, more: Bytes) {
    var whole, left := Frame(parse, stream + more), Frame(parse, r + more);
    whole == left.(packets := d + left.packets)
  }

  lemma HeaderOfPrefix(a: Bytes, b: Bytes)
    requires |a| >= HEADER_LEN
    ensures HeaderValid(a + b) == HeaderValid(a) && WireLen(a + b) == WireLen(a)
  {
    assert (a + b)[..HEADER_LEN] == a[..HEADER_LEN];
    assert forall i :: 0 <= i < HEADER_LEN ==> (a + b)[i] == a[i];
  }

  /** One good frame at the front. */
  lemma FrontFrame<P>(parse: Parser<P>, b: Bytes, more: Bytes)
    requires |b| >= HEADER_LEN && HeaderValid(b) && |b| >= WireLen(b)
    requires parse(b[..WireLen(b)]).Success? && parse(b[..WireLen(b)]).value.1 == WireLen(b)
    ensures var n := WireLen(b);
            var r := Frame(parse, b[n..] + more);
            Frame(parse, b + more) == r.(packets := [parse(b[..n]).value.0] + r.packets)
  {
    var n := WireLen(b);
    HeaderOfPrefix(b, more);
    assert (b + more)[..n] == b[..n] && (b + more)[n..] == b[n..] + more;
  }

  /** Bytes that begin with a whole frame that parses. */
  predicate GoodFront<P(==)>(parse: Parser<P>, b: Bytes) {
    && |b| >= HEADER_LEN && HeaderValid(b) && |b| >= WireLen(b)
    && parse(b[..WireLen(b)]).Success? && parse(b[..WireLen(b)]).value.1 == WireLen(b)
  }

  lemma NoGoodFront<P>(parse: Parser<P>, a: Bytes, b: Bytes)
    requires !GoodFront(parse, a)
    requires forall f :: parse(f) != Failure(Ok)
    ensures Frame(parse, a).err == Ok ==> Frame(parse, a) == Framed([], a, Ok)
    ensures Frame(parse, a).err != Ok ==> Frame(parse, a + b).err != Ok
  {
    if |a| >= HEADER_LEN {
      HeaderOfPrefix(a, b);
      if HeaderValid(a) && |a| >= WireLen(a) {
        assert (a + b)[..WireLen(a)] == a[..WireLen(a)];
      }
    }
  }

  lemma ResumesNothing<P>(parse: Parser<P>, a: Bytes, b: Bytes)
    ensures Resumes(parse, a, [], a, b)
  {
    assert [] + Frame(parse, a + b).packets == Frame(parse, a + b).packets;
  }

  lemma ResumesFront<P>(parse: Parser<P>, a: Bytes, d: seq<P>, r: Bytes, b: Bytes)
    requires GoodFront(parse, a) && Resumes(parse, a[WireLen(a)..], d, r, b)
    ensures Resumes(parse, a, [parse(a[..WireLen(a)]).value.0] + d, r, b)
  {
    FrontFrame(parse, a, b);
    hide Frame;
    var p, left := parse(a[..WireLen(a)]).value.0, Frame(parse, r + b).packets;
    assert [p] + (d + left) == [p] + d + left;
  }

  /** How a turn of the framing loop can end without a packet. */
  lemma FrameStops<P>(parse: Parser<P>, b: Bytes)
    ensures |b| < HEADER_LEN ==> Frame(parse, b) == Framed([], b, Ok)
    ensures |b| >= HEADER_LEN && !HeaderValid(b) ==> Frame(parse, b) == Framed([], [], BadLen)
    ensures |b| >= HEADER_LEN && HeaderValid(b) && |b| < WireLen(b) ==> Frame(parse, b) == Framed([], b, Ok)
    ensures |b| >= HEADER_LEN && HeaderValid(b) && |b| >= WireLen(b) ==>
              var n := WireLen(b);
              && (parse(b[..n]).Failure? ==> Frame(parse, b) == Framed([], b[n..], parse(b[..n]).error))
              && (parse(b[..n]).Success? && parse(b[..n]).value.1 != n ==>
                    Frame(parse, b) == Framed([], b[n..], BadLen))
  {
  }

  /** Looking at the first bytes early makes no difference, unless it fails. */
  lemma {:induction false} Compose<P>(parse: Parser<P>, a: Bytes, b: Bytes)
    requires forall f :: parse(f) != Failure(Ok)
    ensures Frame(parse, a).err == Ok ==> Resumes(parse, a, Frame(parse, a).packets, Frame(parse, a).rest, b)
    ensures Frame(parse, a + b).err == Ok ==> Frame(parse, a).err == Ok
    decreases |a|
  {
    hide Frame, Resumes;
    if GoodFront(parse, a) {
      var n := WireLen(a);
      Compose(parse, a[n..], b);
      FrontFrame(parse, a, []);
      assert a + [] == a && a[n..] + [] == a[n..];
      FrontFrame(parse, a, b);
      var rest := Frame(parse, a[n..]);
      if rest.err == Ok {
        ResumesFront(parse, a, rest.packets, rest.rest, b);
      }
    } else {
      NoGoodFront(parse, a, b);
      ResumesNothing(parse, a, b);
    }
  }

  // ----- feeding in pieces

  function Joined(chunks: seq<Bytes>): Bytes {
    if chunks == [] then [] else Joined(chunks[..|chunks| - 1]) + chunks[|chunks| - 1]
  }

  /** All packets delivered so far and the bytes kept for the next feed. */
  datatype Kept<P> = Kept(packets: seq<P>, rest: Bytes)

  /** One feed: nothing happens without new bytes, and an error does not stop later feeds. */
  function FeedOne<P>(parse: Parser<P>, k: Kept<P>, data: Bytes): Kept<P> {
    if data == [] then k
    else
      var r := Frame(parse, k.rest + data);
      Kept(k.packets + r.packets, r.rest)
  }

  lemma FeedNothing<P>(parse: Parser<P>, k: Kept<P>)
    ensures FeedOne(parse, k, []) == k
  {
  }

  lemma FeedIs<P>(parse: Parser<P>, popped: seq<P>, queue: seq<P>, b: Bytes, data: Bytes, d: seq<P>)
    requires data != []
    ensures var r := Frame(parse, b + data);
            d == r.packets ==> Kept(popped + (queue + d), r.rest) == FeedOne(parse, Kept(popped + queue, b), data)
  {
    hide Frame;
    assert popped + (queue + d) == popped + queue + d;
  }

  function Fed<P>(parse: Parser<P>, chunks: seq<Bytes>): Kept<P> {
    if chunks == [] then Kept([], [])
    else FeedOne(parse, Fed(parse, chunks[..|chunks| - 1]), chunks[|chunks| - 1])
  }

  /** What one feed of everything gives. */
  function AtOnce<P>(parse: Parser<P>, b: Bytes): Kept<P> {
    var r := Frame(parse, b);
    Kept(r.packets, r.rest)
  }

  predicate Incomplete(b: Bytes) {
    |b| < HEADER_LEN || (HeaderValid(b) && |b| < WireLen(b))
  }

  /** Good frames, and then an incomplete one, or a bad header with no byte behind it, or a frame that does
      not parse with an incomplete one behind it. */
  predicate Settles<P(==)>(parse: Parser<P>, b: Bytes)
    decreases |b|
  {
    if GoodFront(parse, b) then Settles(parse, b[WireLen(b)..])
    else
      || Incomplete(b)
      || (if HeaderValid(b) then Incomplete(b[WireLen(b)..]) else |b| == HEADER_LEN)
  }

  lemma IncompletePrefix(a: Bytes, b: Bytes)
    requires Incomplete(a + b)
    ensures Incomplete(a)
  {
    if |a| >= HEADER_LEN {
      HeaderOfPrefix(a, b);
    }
  }

  /** A front that is a whole frame stays one when bytes follow. */
  lemma GoodFrontStays<P>(parse: Parser<P>, a: Bytes, b: Bytes)
    requires |a| >= HEADER_LEN && (!HeaderValid(a) || |a| >= WireLen(a))
    ensures HeaderValid(a + b) == HeaderValid(a) && WireLen(a + b) == WireLen(a)
    ensures HeaderValid(a) ==> (a + b)[..WireLen(a)] == a[..WireLen(a)] && (a + b)[WireLen(a)..] == a[WireLen(a)..] + b
    ensures GoodFront(parse, a + b) <==> GoodFront(parse, a)
  {
    HeaderOfPrefix(a, b);
    if HeaderValid(a) {
      assert (a + b)[..WireLen(a)] == a[..WireLen(a)];
    }
  }

  lemma {:induction false} SettlesPrefix<P>(parse: Parser<P>, a: Bytes, b: Bytes)
    requires Settles(parse, a + b)
    ensures Settles(parse, a)
    decreases |a|
  {
    if !Incomplete(a) {
      GoodFrontStays(parse, a, b);
      if GoodFront(parse, a) {
        SettlesPrefix(parse, a[WireLen(a)..], b);
      } else if HeaderValid(a) {
        IncompletePrefix(a[WireLen(a)..], b);
      }
    }
  }

  function Delivered<P>(p: P, k: Kept<P>): Kept<P> {
    k.(packets := [p] + k.packets)
  }

  lemma FrontAtOnce<P>(parse: Parser<P>, a: Bytes, b: Bytes)
    requires GoodFront(parse, a)
    ensures AtOnce(parse, a + b) == Delivered(parse(a[..WireLen(a)]).value.0, AtOnce(parse, a[WireLen(a)..] + b))
  {
    FrontFrame(parse, a, b);
    hide Frame;
  }

  lemma FeedDelivered<P>(parse: Parser<P>, p: P, k: Kept<P>, b: Bytes)
    ensures FeedOne(parse, Delivered(p, k), b) == Delivered(p, FeedOne(parse, k, b))
  {
    hide Frame;
    var more := Frame(parse, k.rest + b).packets;
    assert [p] + k.packets + more == [p] + (k.packets + more);
  }

  /** A good frame goes first, whenever it is fed. */
  lemma FeedFront<P>(parse: Parser<P>, a: Bytes, b: Bytes)
    requires GoodFront(parse, a)
    ensures var n := WireLen(a);
            var p := parse(a[..n]).value.0;
            && AtOnce(parse, a + b) == Delivered(p, AtOnce(parse, a[n..] + b))
            && FeedOne(parse, AtOnce(parse, a), b) == Delivered(p, FeedOne(parse, AtOnce(parse, a[n..]), b))
  {
    hide Frame, AtOnce, FeedOne;
    var n := WireLen(a);
    FrontAtOnce(parse, a, []);
    assert a + [] == a && a[n..] + [] == a[n..];
    FrontAtOnce(parse, a, b);
    FeedDelivered(parse, parse(a[..n]).value.0, AtOnce(parse, a[n..]), b);
  }

  /** Looking at the first bytes of such a stream early makes no difference. */
  lemma {:induction false} SettledCompose<P>(parse: Parser<P>, a: Bytes, b: Bytes)
    requires Settles(parse, a + b) && b != []
    ensures FeedOne(parse, AtOnce(parse, a), b) == AtOnce(parse, a + b)
    decreases |a|
  {
    FrameStops(parse, a);
    if Incomplete(a) {
      EmptyFirst(Frame(parse, a + b).packets);
    } else {
      GoodFrontStays(parse, a, b);
      if GoodFront(parse, a) {
        FeedFront(parse, a, b);
        SettledCompose(parse, a[WireLen(a)..], b);
      } else {
        FrameStops(parse, a + b);
        FrameStops(parse, a[WireLen(a)..] + b);
      }
    }
  }

  lemma EmptyFirst<T>(s: seq<T>)
    ensures [] + s == s
  {
  }

  /** Such a stream gives the same packets and leaves the same bytes however it is cut. */
  lemma {:induction false} SplitIndependent<P>(parse: Parser<P>, chunks: seq<Bytes>)
    requires Settles(parse, Joined(chunks))
    ensures Fed(parse, chunks) == AtOnce(parse, Joined(chunks))
  {
    hide Settles, Frame;
    if chunks == [] {
      FrameStops(parse, []);
    } else {
      var init, last := chunks[..|chunks| - 1], chunks[|chunks| - 1];
      var a := Joined(init);
      SettlesPrefix(parse, a, last);
      SplitIndependent(parse, init);
      if last == [] {
        assert a + last == a;
      } else {
        SettledCompose(parse, a, last);
      }
    }
  }

  /** In particular every stream that frames without an error. */
  lemma {:induction false} GoodStreamSettles<P>(parse: Parser<P>, b: Bytes)
    requires forall f :: parse(f) != Failure(Ok)
    requires Frame(parse, b).err == Ok
    ensures Settles(parse, b)
    decreases |b|
  {
    if GoodFront(parse, b) {
      GoodStreamSettles(parse, b[WireLen(b)..]);
    }
  }

  // ----- streams that depend on the cut

  lemma FedTwo<P>(parse: Parser<P>, a: Bytes, b: Bytes)
    requires a != [] && b != []
    ensures Joined([a, b]) == a + b && Joined([a]) == a
    ensures Fed(parse, [a]) == AtOnce(parse, a) && Fed(parse, [a, b]) == FeedOne(parse, AtOnce(parse, a), b)
  {
    hide Frame;
    var none: seq<Bytes> := [a][..0];
    assert none == [] && Joined(none) == [] && [] + a == a;
    assert [a, b][..1] == [a];
    EmptyFirst(Frame(parse, a).packets);
  }

  /** Framing what is not incomplete uses it up. */
  lemma {:induction false} FrameProgress<P>(parse: Parser<P>, b: Bytes)
    ensures |Frame(parse, b).rest| <= |b|
    ensures !Incomplete(b) ==> |Frame(parse, b).rest| < |b|
    decreases |b|
  {
    if GoodFront(parse, b) {
      FrameProgress(parse, b[WireLen(b)..]);
    }
  }

  lemma UnsettledCases<P>(parse: Parser<P>, b: Bytes)
    requires !Settles(parse, b)
    ensures |b| >= HEADER_LEN
    ensures GoodFront(parse, b) ==> 0 < WireLen(b) <= |b| && !Settles(parse, b[WireLen(b)..])
    ensures !GoodFront(parse, b) && HeaderValid(b) ==> 0 < WireLen(b) < |b| && !Incomplete(b[WireLen(b)..])
    ensures !GoodFront(parse, b) && !HeaderValid(b) ==> |b| > HEADER_LEN
  {
    hide Frame, MarkerValid;
  }

  /** Any other stream has a cut that changes what is delivered or left. */
  lemma {:induction false} UnsettledCut<P>(parse: Parser<P>, b: Bytes) returns (k: nat)
    requires !Settles(parse, b)
    ensures 0 < k < |b| && FeedOne(parse, AtOnce(parse, b[..k]), b[k..]) != AtOnce(parse, b)
    decreases |b|
  {
    hide Frame, AtOnce, FeedOne, Settles, Incomplete, GoodFront, HeaderValid, WireLen, MarkerValid;
    UnsettledCases(parse, b);
    if GoodFront(parse, b) {
      var i := UnsettledCut(parse, b[WireLen(b)..]);
      CutLater(parse, b, i);
      k := WireLen(b) + i;
    } else if HeaderValid(b) {
      k := WireLen(b);
      BadFrameCut(parse, b);
    } else {
      k := |b| - 1;
      BadHeaderCut(parse, b);
    }
  }

  lemma CutLater<P>(parse: Parser<P>, b: Bytes, i: nat)
    requires GoodFront(parse, b)
    requires var rest := b[WireLen(b)..];
             i <= |rest| && FeedOne(parse, AtOnce(parse, rest[..i]), rest[i..]) != AtOnce(parse, rest)
    ensures var k := WireLen(b) + i; FeedOne(parse, AtOnce(parse, b[..k]), b[k..]) != AtOnce(parse, b)
  {
    hide Frame, AtOnce, FeedOne, Delivered;
    var n := WireLen(b);
    var rest, k := b[n..], n + i;
    var a := b[..k];
    FrontOfPrefix(parse, b, k);
    assert a + b[k..] == b && b[k..] == rest[i..] && a[n..] == rest[..i] && a[n..] + b[k..] == rest;
    hide GoodFront;
    FeedFront(parse, a, b[k..]);
    var p := parse(b[..n]).value.0;
    if Delivered(p, FeedOne(parse, AtOnce(parse, rest[..i]), rest[i..])) == Delivered(p, AtOnce(parse, rest)) {
      DeliveredInjective(p, FeedOne(parse, AtOnce(parse, rest[..i]), rest[i..]), AtOnce(parse, rest));
    }
  }

  lemma FrontOfPrefix<P>(parse: Parser<P>, b: Bytes, k: nat)
    requires GoodFront(parse, b) && WireLen(b) <= k <= |b|
    ensures GoodFront(parse, b[..k]) && WireLen(b[..k]) == WireLen(b) && b[..k][..WireLen(b)] == b[..WireLen(b)]
  {
    HeaderOfPrefix(b[..k], b[k..]);
    assert b[..k] + b[k..] == b;
    assert b[..k][..WireLen(b)] == b[..WireLen(b)];
  }

  lemma DeliveredInjective<P>(p: P, k: Kept<P>, m: Kept<P>)
    requires Delivered(p, k) == Delivered(p, m)
    ensures k == m
  {
    assert ([p] + k.packets)[1..] == k.packets;
    assert ([p] + m.packets)[1..] == m.packets;
  }

  lemma BadHeaderCut<P>(parse: Parser<P>, b: Bytes)
    requires |b| > HEADER_LEN && !HeaderValid(b)
    ensures var k := |b| - 1; FeedOne(parse, AtOnce(parse, b[..k]), b[k..]) != AtOnce(parse, b)
  {
    var k := |b| - 1;
    HeaderOfPrefix(b[..k], b[k..]);
    assert b[..k] + b[k..] == b;
    assert [] + b[k..] == b[k..];
    FrameStops(parse, b[..k]);
    FrameStops(parse, b[k..]);
    FrameStops(parse, b);
  }

  lemma BadFrameCut<P>(parse: Parser<P>, b: Bytes)
    requires |b| >= HEADER_LEN && HeaderValid(b) && |b| > WireLen(b) && !GoodFront(parse, b)
             && !Incomplete(b[WireLen(b)..])
    ensures var k := WireLen(b); FeedOne(parse, AtOnce(parse, b[..k]), b[k..]) != AtOnce(parse, b)
  {
    var k := WireLen(b);
    HeaderOfPrefix(b[..k], b[k..]);
    assert b[..k] + b[k..] == b;
    assert b[..k][..k] == b[..k] && b[..k][k..] == [];
    assert [] + b[k..] == b[k..];
    FrameStops(parse, b[..k]);
    FrameStops(parse, b);
    FrameProgress(parse, b[k..]);
  }

  /** However a stream is cut, the outcome is the same. */
  ghost predicate CutFree<P(!new)>(parse: Parser<P>, b: Bytes) {
    forall x, y :: Joined(x) == b && Joined(y) == b ==> Fed(parse, x) == Fed(parse, y)
  }

  /** Packets and rest do not depend on the cut exactly for the streams that settle. */
  lemma CutFreeIff<P(!new)>(parse: Parser<P>, b: Bytes)
    ensures CutFree(parse, b) <==> Settles(parse, b)
  {
    hide Settles, Frame, Fed, Joined;
    if Settles(parse, b) {
      forall x, y | Joined(x) == b && Joined(y) == b ensures Fed(parse, x) == Fed(parse, y) {
        SplitIndependent(parse, x);
        SplitIndependent(parse, y);
      }
    } else {
      var k := UnsettledCut(parse, b);
      assert b[..k] + b[k..] == b;
      FedTwo(parse, b[..k], b[k..]);
      FedTwo(parse, b, b);
    }
  }

  /** One stream, two cuts, different packets: a bad header drops whatever was fed with it. */
  lemma BadHeaderDependsOnSplit<P>(parse: Parser<P>, bad: Bytes, good: Bytes)
    requires |bad| == HEADER_LEN && !HeaderValid(bad)
    requires |good| == HEADER_LEN && HeaderValid(good) && WireLen(good) == HEADER_LEN
    requires parse(good).Success? && parse(good).value.1 == HEADER_LEN
    ensures Joined([bad, good]) == Joined([bad + good])
    ensures Fed(parse, [bad, good]) == Kept([parse(good).value.0], []) && Fed(parse, [bad + good]) == Kept([], [])
  {
    FedTwo(parse, bad, good);
    FedTwo(parse, bad + good, good);
    HeaderOfPrefix(bad, good);
    FrameStops(parse, bad);
    FrameStops(parse, bad + good);
    assert [] + good == good && good + [] == good && good[..HEADER_LEN] == good && good[HEADER_LEN..] + [] == [];
    FrontFrame(parse, good, []);
    FrameStops(parse, []);
    hide Frame;
  }

  // ----- what a sink keeps

  lemma ContinuesNothing<P(!new)>(parse: Parser<P>)
    ensures Continues(parse, [], [], [])
  {
    forall more: Bytes ensures Resumes(parse, [], [], [], more) {
      assert [] + Frame(parse, [] + more).packets == Frame(parse, [] + more).packets;
    }
  }

  lemma ContinuesSelf<P(!new)>(parse: Parser<P>, b: Bytes)
    ensures Continues(parse, b, [], b)
  {
    hide Resumes;
    forall more: Bytes ensures Resumes(parse, b, [], b, more) {
      ResumesNothing(parse, b, more);
    }
  }

  lemma ContinuesAfterOk<P(!new)>(parse: Parser<P>, b: Bytes)
    requires Frame(parse, b).err == Ok && forall f :: parse(f) != Failure(Ok)
    ensures Continues(parse, b, Frame(parse, b).packets, Frame(parse, b).rest)
  {
    hide Resumes, Frame;
    forall more: Bytes ensures Resumes(parse, b, Frame(parse, b).packets, Frame(parse, b).rest, more) {
      Compose(parse, b, more);
    }
  }

  /** Framing loses bytes exactly when it ends in an error. */
  lemma ContinuesIff<P(!new)>(parse: Parser<P>, b: Bytes)
    requires forall f :: parse(f) != Failure(Ok)
    ensures Continues(parse, b, Frame(parse, b).packets, Frame(parse, b).rest) <==> Frame(parse, b).err == Ok
  {
    hide Frame, Continues;
    var r := Frame(parse, b);
    if r.err == Ok {
      ContinuesAfterOk(parse, b);
    } else if Continues(parse, b, r.packets, r.rest) {
      ContinuesMeans(parse, b, r.packets, r.rest);
      FrameProgress(parse, r.rest);
      FrameStops(parse, r.rest);
    }
  }

  /** The frame of a KEEPALIVE. */
  const KEEPALIVE: Bytes := seq(MARKER_LEN, i => 0xff) + [0, 19, 4]

  /** A parser that runs out of memory loses a good frame for good: with memory the very same bytes give a
      packet, without it they give none and nothing is left to try again. */
  lemma StarvedParserLosesFrame<P(!new)>(parse: Parser<P>, starved: Parser<P>, p: P)
    requires parse(KEEPALIVE) == Success((p, HEADER_LEN)) && starved(KEEPALIVE) == Failure(NoMem)
    requires forall f :: starved(f) != Failure(Ok)
    ensures Frame(parse, KEEPALIVE) == Framed([p], [], Ok)
    ensures Frame(starved, KEEPALIVE) == Framed([], [], NoMem) && !Continues(starved, KEEPALIVE, [], [])
  {
    var k := KEEPALIVE;
    assert k[..HEADER_LEN] == k && k[HEADER_LEN..] == [] && k + [] == k && k[HEADER_LEN..] + [] == [];
    assert HeaderValid(k) && WireLen(k) == HEADER_LEN;
    FrontFrame(parse, k, []);
    FrameStops(parse, []);
    FrameStops(starved, k);
    hide Frame;
    ContinuesIff(starved, k);
  }

  /** Work done in two parts. */
  lemma ContinuesTwice<P(!new)>(parse: Parser<P>, stream: Bytes, d: seq<P>, b: Bytes, d': seq<P>, r: Bytes)
    requires Continues(parse, stream, d, b) && Continues(parse, b, d', r)
    ensures Continues(parse, stream, d + d', r)
  {
    forall more: Bytes ensures Resumes(parse, stream, d + d', r, more) {
      assert Resumes(parse, stream, d, b, more) && Resumes(parse, b, d', r, more);
      var left := Frame(parse, r + more).packets;
      assert d + (d' + left) == d + d' + left;
    }
  }

  lemma ContinuesFed<P(!new)>(parse: Parser<P>, stream: Bytes, d: seq<P>, r: Bytes, data: Bytes)
    requires Continues(parse, stream, d, r)
    ensures Continues(parse, stream + data, d, r + data)
  {
    forall more: Bytes ensures Resumes(parse, stream + data, d, r + data, more) {
      assert stream + data + more == stream + (data + more) && r + data + more == r + (data + more);
      assert Resumes(parse, stream, d, r, data + more);
    }
  }

  lemma ContinuesFramed<P(!new)>(parse: Parser<P>, stream: Bytes, d: seq<P>, b: Bytes)
    requires Continues(parse, stream, d, b)
    requires |b| >= HEADER_LEN && HeaderValid(b) && |b| >= WireLen(b)
    requires parse(b[..WireLen(b)]).Success? && parse(b[..WireLen(b)]).value.1 == WireLen(b)
    ensures Continues(parse, stream, d + [parse(b[..WireLen(b)]).value.0], b[WireLen(b)..])
  {
    var n := WireLen(b);
    var p := parse(b[..n]).value.0;
    forall more: Bytes ensures Resumes(parse, stream, d + [p], b[n..], more) {
      assert Resumes(parse, stream, d, b, more);
      FrontFrame(parse, b, more);
      var left := Frame(parse, b[n..] + more).packets;
      assert d + ([p] + left) == d + [p] + left;
    }
  }

  /** What the invariant says when nothing more comes. */
  lemma ContinuesMeans<P(!new)>(parse: Parser<P>, stream: Bytes, d: seq<P>, r: Bytes)
    requires Continues(parse, stream, d, r)
    ensures var left := Frame(parse, r);
            Frame(parse, stream) == left.(packets := d + left.packets)
  {
    assert Resumes(parse, stream, d, r, []);
    assert stream + [] == stream && r + [] == r;
  }
}
