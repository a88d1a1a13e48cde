/** Carrying four-octet AS numbers through two-octet speakers (src/update.c, sections 4.2.2 and 4.2.3
    of RFC 6793): downgrade, prepend and restore of AS_PATH and AS4_PATH as functions on attribute
    lists, and the proof that a path survives any number of two-octet hops. */
module As4Path {
  import opened Wrappers
  import opened PathAttr

  const MAX_SHORT: nat := 65535
  const MAX_SEGMENT: nat := 255

  // ----- segment lists

  /** One AS number with the kind of segment it stands in. */
  type Hop = (nat, nat)

  function HopsOf(s: Segment): (hops: seq<Hop>)
    ensures |hops| == |s.asns| && forall i :: 0 <= i < |hops| ==> hops[i] == (s.kind, s.asns[i])
  {
    seq(|s.asns|, i requires 0 <= i < |s.asns| => (s.kind, s.asns[i]))
  }

  /** The path as a flat list; this is what a segment list means. */
  function Flat(segs: seq<Segment>): seq<Hop> {
    if segs == [] then [] else HopsOf(segs[0]) + Flat(segs[1..])
  }

  lemma FlatUnfolds(segs: seq<Segment>)
    requires segs != []
    ensures Flat(segs) == HopsOf(segs[0]) + Flat(segs[1..])
  {
  }

  predicate ValidSegment(s: Segment) {
    (s.kind == AS_SET || s.kind == AS_SEQUENCE) && |s.asns| <= MAX_SEGMENT
  }

  predicate ValidSegs(segs: seq<Segment>) {
    forall i :: 0 <= i < |segs| ==> ValidSegment(segs[i])
  }

  lemma {:induction false} FlatOfConcat(a: seq<Segment>, b: seq<Segment>)
    ensures Flat(a + b) == Flat(a) + Flat(b)
  {
    if a == [] {
      assert a + b == b;
    } else {
      assert (a + b)[1..] == a[1..] + b;
      FlatOfConcat(a[1..], b);
    }
  }

  /** Position n of the flat list lies strictly inside an AS_SET. */
  predicate CutsSet(segs: seq<Segment>, n: nat) {
    if segs == [] then false
    else if n < |segs[0].asns| then n > 0 && segs[0].kind == AS_SET
    else CutsSet(segs[1..], n - |segs[0].asns|)
  }

  /** Some AS_SET begins before position n and ends after it. */
  lemma {:induction false} CutsSetMeaning(segs: seq<Segment>, n: nat)
    ensures CutsSet(segs, n) <==>
            exists i :: 0 <= i < |segs| && segs[i].kind == 1 && Before(segs, i) < n < Before(segs, i) + |segs[i].asns|
  {
    if segs != [] {
      var rest, k := segs[1..], |segs[0].asns|;
      forall i | 0 <= i < |rest| ensures Before(segs, i + 1) == k + Before(rest, i) {
        assert segs[..i + 1] == [segs[0]] + rest[..i];
        FlatUnfolds(segs[..i + 1]);
        assert segs[..i + 1][1..] == rest[..i];
      }
      assert segs[..0] == [] && Before(segs, 0) == 0;
      hide Before;
      if n >= k {
        CutsSetMeaning(rest, n - k);
        if i :| && 0 <= i < |rest| && rest[i].kind == 1
                && Before(rest, i) < n - k < Before(rest, i) + |rest[i].asns|
        {
          assert segs[i + 1] == rest[i];
        }
        if i :| && 0 <= i < |segs| && segs[i].kind == 1
                && Before(segs, i) < n < Before(segs, i) + |segs[i].asns|
        {
          assert i > 0 && segs[i] == rest[i - 1];
          assert Before(segs, i - 1 + 1) == k + Before(rest, i - 1);
        }
      } else {
        forall i | 0 < i < |segs| ensures Before(segs, i) >= k {
          assert Before(segs, i - 1 + 1) == k + Before(rest, i - 1);
        }
      }
    }
  }

  /** The number of AS numbers before segment i. */
  function Before(segs: seq<Segment>, i: nat): nat
    requires i <= |segs|
  {
    |Flat(segs[..i])|
  }

  /** The segments from position n on. */
  function SuffixSegs(segs: seq<Segment>, n: nat): seq<Segment> {
    if segs == [] then []
    else if |segs[0].asns| <= n then SuffixSegs(segs[1..], n - |segs[0].asns|)
    else [Segment(segs[0].kind, segs[0].asns[n..])] + segs[1..]
  }

  /** The segments up to position n, without empty ones. */
  function PrefixSegs(segs: seq<Segment>, n: nat): seq<Segment>
    decreases |segs|
  {
    if segs == [] || n == 0 then []
    else if segs[0].asns == [] then PrefixSegs(segs[1..], n)
    else if n < |segs[0].asns| then [Segment(segs[0].kind, segs[0].asns[..n])]
    else [segs[0]] + PrefixSegs(segs[1..], n - |segs[0].asns|)
  }

  lemma {:induction false} FlatOfSuffix(segs: seq<Segment>, n: nat)
    requires n <= |Flat(segs)|
    ensures Flat(SuffixSegs(segs, n)) == Flat(segs)[n..]
    ensures ValidSegs(segs) ==> ValidSegs(SuffixSegs(segs, n))
  {
    if segs != [] {
      var k := |segs[0].asns|;
      if k <= n {
        FlatOfSuffix(segs[1..], n - k);
      } else {
        var cut := Segment(segs[0].kind, segs[0].asns[n..]);
        assert SuffixSegs(segs, n)[1..] == segs[1..];
        assert HopsOf(cut) == HopsOf(segs[0])[n..];
      }
    }
  }

  lemma {:induction false} FlatOfPrefix(segs: seq<Segment>, n: nat)
    requires n <= |Flat(segs)|
    ensures Flat(PrefixSegs(segs, n)) == Flat(segs)[..n]
    ensures ValidSegs(segs) ==> ValidSegs(PrefixSegs(segs, n))
    ensures n > 0 ==> PrefixSegs(segs, n) != [] && PrefixSegs(segs, n)[0].asns != []
    decreases |segs|
  {
    if segs != [] && n != 0 {
      var k := |segs[0].asns|;
      if k == 0 {
        assert HopsOf(segs[0]) == [];
        FlatOfPrefix(segs[1..], n);
      } else if n < k {
        var cut := Segment(segs[0].kind, segs[0].asns[..n]);
        assert Flat([cut]) == HopsOf(cut) + Flat([]);
        assert HopsOf(cut) == HopsOf(segs[0])[..n];
      } else {
        FlatOfPrefix(segs[1..], n - k);
        FlatOfConcat([segs[0]], PrefixSegs(segs[1..], n - k));
        assert Flat([segs[0]]) == HopsOf(segs[0]) + Flat([]);
      }
    }
  }

  /** The start of one path continued by another. */
  function Rebuild(segs: seq<Segment>, tail: seq<Segment>, n: nat): seq<Segment> {
    PrefixSegs(segs, n) + tail
  }

  lemma FlatOfRebuild(segs: seq<Segment>, tail: seq<Segment>, n: nat)
    requires n <= |Flat(segs)|
    ensures Flat(Rebuild(segs, tail, n)) == Flat(segs)[..n] + Flat(tail)
    ensures ValidSegs(segs) && ValidSegs(tail) ==> ValidSegs(Rebuild(segs, tail, n))
    ensures n > 0 ==> Rebuild(segs, tail, n) != [] && Rebuild(segs, tail, n)[0].asns != []
  {
    FlatOfPrefix(segs, n);
    FlatOfConcat(PrefixSegs(segs, n), tail);
  }

  // ----- narrowing

  /** What a two-octet speaker sees of an AS number. */
  function Narrow(asn: nat): nat {
    if asn > MAX_SHORT then AS_TRANS else asn
  }

  function NarrowSegment(s: Segment): Segment {
    Segment(s.kind, seq(|s.asns|, i requires 0 <= i < |s.asns| => Narrow(s.asns[i])))
  }

  function NarrowSegs(segs: seq<Segment>): (r: seq<Segment>)
    ensures |r| == |segs|
  {
    seq(|segs|, i requires 0 <= i < |segs| => NarrowSegment(segs[i]))
  }

  function NarrowHops(hops: seq<Hop>): (r: seq<Hop>)
    ensures |r| == |hops| && forall i :: 0 <= i < |r| ==> r[i] == (hops[i].0, Narrow(hops[i].1))
  {
    seq(|hops|, i requires 0 <= i < |hops| => (hops[i].0, Narrow(hops[i].1)))
  }

  lemma {:induction false} NarrowPath(segs: seq<Segment>, n: nat)
    ensures Flat(NarrowSegs(segs)) == NarrowHops(Flat(segs))
    ensures ValidSegs(segs) ==> ValidSegs(NarrowSegs(segs))
    ensures CutsSet(NarrowSegs(segs), n) == CutsSet(segs, n)
  {
    if segs != [] {
      var k := |segs[0].asns|;
      NarrowPath(segs[1..], if n < k then 0 else n - k);
      assert NarrowSegs(segs)[1..] == NarrowSegs(segs[1..]);
      hide Flat;
      FlatUnfolds(segs);
      FlatUnfolds(NarrowSegs(segs));
      NarrowFirst(segs[0], Flat(segs[1..]));
    }
  }

  lemma NarrowFirst(s: Segment, rest: seq<Hop>)
    ensures HopsOf(NarrowSegment(s)) + NarrowHops(rest) == NarrowHops(HopsOf(s) + rest)
  {
    assert HopsOf(NarrowSegment(s)) == NarrowHops(HopsOf(s));
  }

  predicate AllShort(hops: seq<Hop>) {
    forall i :: 0 <= i < |hops| ==> hops[i].1 <= MAX_SHORT
  }

  /** The position of the first AS number that does not fit, or the length. */
  function FirstLong(hops: seq<Hop>): (n: nat)
    ensures n <= |hops| && AllShort(hops[..n])
    ensures n < |hops| ==> hops[n].1 > MAX_SHORT
  {
    if hops == [] || hops[0].1 > MAX_SHORT then 0
    else
      var n := FirstLong(hops[1..]);
      assert hops[..n + 1] == [hops[0]] + hops[1..][..n];
      n + 1
  }

  // ----- prepending

  function PrependSegs(segs: seq<Segment>, asn: nat): seq<Segment> {
    if segs != [] && segs[0].kind == AS_SEQUENCE && |segs[0].asns| < MAX_SEGMENT
    then [Segment(AS_SEQUENCE, [asn] + segs[0].asns)] + segs[1..]
    else [Segment(AS_SEQUENCE, [asn])] + segs
  }

  lemma PrependPath(segs: seq<Segment>, asn: nat, n: nat)
    ensures Flat(PrependSegs(segs, asn)) == [(AS_SEQUENCE, asn)] + Flat(segs)
    ensures ValidSegs(segs) ==> ValidSegs(PrependSegs(segs, asn))
    ensures CutsSet(PrependSegs(segs, asn), n + 1) == CutsSet(segs, n)
    ensures PrependSegs(segs, asn) != [] && PrependSegs(segs, asn)[0].asns != []
  {
    var r := PrependSegs(segs, asn);
    if segs != [] && segs[0].kind == AS_SEQUENCE && |segs[0].asns| < MAX_SEGMENT {
      assert r[1..] == segs[1..];
      assert HopsOf(r[0]) == [(AS_SEQUENCE, asn)] + HopsOf(segs[0]);
    } else {
      assert r[1..] == segs;
      assert HopsOf(r[0]) == [(AS_SEQUENCE, asn)];
    }
  }

  /** Overwrite the very first AS number. */
  function SetFirst(segs: seq<Segment>, asn: nat): seq<Segment> {
    if segs != [] && segs[0].asns != []
    then [Segment(segs[0].kind, segs[0].asns[0 := asn])] + segs[1..]
    else segs
  }

  lemma SetFirstHop(s: Segment, asn: nat, rest: seq<Hop>)
    requires s.asns != []
    ensures HopsOf(Segment(s.kind, s.asns[0 := asn])) + rest == [(s.kind, asn)] + (HopsOf(s) + rest)[1..]
  {
  }

  lemma ValidSetFirst(segs: seq<Segment>, asn: nat)
    ensures ValidSegs(segs) ==> ValidSegs(SetFirst(segs, asn))
  {
  }

  lemma FlatOfSetFirst(segs: seq<Segment>, asn: nat)
    requires segs != [] && segs[0].asns != []
    ensures |Flat(segs)| > 0
    ensures Flat(SetFirst(segs, asn)) == [(Flat(segs)[0].0, asn)] + Flat(segs)[1..]
    ensures ValidSegs(segs) ==> ValidSegs(SetFirst(segs, asn))
  {
    ValidSetFirst(segs, asn);
    hide Flat, ValidSegs;
    var r := SetFirst(segs, asn);
    assert r[0] == Segment(segs[0].kind, segs[0].asns[0 := asn]) && r[1..] == segs[1..];
    FlatUnfolds(segs);
    FlatUnfolds(r);
    SetFirstHop(segs[0], asn, Flat(segs[1..]));
  }

  // ----- the two ways of restoring

  /** From position n on, the path agrees with the wide path wherever it does not say AS_TRANS. */
  predicate SuffixMatches(hops: seq<Hop>, wide: seq<Hop>, n: nat) {
    && |hops| == n + |wide|
    && forall i :: 0 <= i < |wide| ==> hops[n + i].1 == AS_TRANS || hops[n + i].1 == wide[i].1
  }

  function TransCount(hops: seq<Hop>): nat {
    if hops == [] then 0 else (if hops[0].1 == AS_TRANS then 1 else 0) + TransCount(hops[1..])
  }

  /** Fill the places that say AS_TRANS, in order, from a list of AS numbers. */
  function FillSegment(asns: seq<nat>, fill: seq<nat>): (r: (seq<nat>, seq<nat>))
    ensures |r.0| == |asns|
  {
    if asns == [] then ([], fill)
    else if asns[0] == AS_TRANS && fill != [] then
      var (rest, left) := FillSegment(asns[1..], fill[1..]);
      ([fill[0]] + rest, left)
    else
      var (rest, left) := FillSegment(asns[1..], fill);
      ([asns[0]] + rest, left)
  }

  function FillSegs(segs: seq<Segment>, fill: seq<nat>): seq<Segment> {
    if segs == [] then []
    else
      var (asns, left) := FillSegment(segs[0].asns, fill);
      [Segment(segs[0].kind, asns)] + FillSegs(segs[1..], left)
  }

  lemma {:induction false} TransOfConcat(a: seq<Hop>, b: seq<Hop>)
    ensures TransCount(a + b) == TransCount(a) + TransCount(b)
  {
    if a == [] {
      assert a + b == b;
    } else {
      assert (a + b)[1..] == a[1..] + b;
      TransOfConcat(a[1..], b);
    }
  }

  /** How many places say AS_TRANS, which is 23456. */
  lemma {:induction false} TransCountMeaning(hops: seq<Hop>)
    ensures TransCount(hops) == |set i | 0 <= i < |hops| && hops[i].1 == 23456|
  {
    if hops != [] {
      var n := |hops| - 1;
      var init, last := hops[..n], [hops[n]];
      assert hops == init + last;
      TransCountMeaning(init);
      TransOfConcat(init, last);
      assert last[1..] == [];
      var few, all := set i | 0 <= i < n && init[i].1 == 23456, set i | 0 <= i < |hops| && hops[i].1 == 23456;
      assert all == few + if hops[n].1 == 23456 then {n} else {};
    }
  }

  /** Place i of a path after filling: the next AS number of the list where the path says AS_TRANS and the list
      reaches so far. */
  function FilledAt(hops: seq<Hop>, fill: seq<nat>, i: nat): nat
    requires i < |hops|
  {
    var k := TransCount(hops[..i]);
    if hops[i].1 == 23456 && k < |fill| then fill[k] else hops[i].1
  }

  function Filled(hops: seq<Hop>, fill: seq<nat>): (r: seq<Hop>)
    ensures |r| == |hops| && forall i :: 0 <= i < |hops| ==> r[i] == (hops[i].0, FilledAt(hops, fill, i))
  {
    seq(|hops|, i requires 0 <= i < |hops| => (hops[i].0, FilledAt(hops, fill, i)))
  }

  function Left(hops: seq<Hop>, fill: seq<nat>): seq<nat> {
    if TransCount(hops) <= |fill| then fill[TransCount(hops)..] else []
  }

  /** What is left to fill with behind the first hop. */
  function Behind(h: Hop, fill: seq<nat>): seq<nat> {
    if h.1 == AS_TRANS && fill != [] then fill[1..] else fill
  }

  lemma FilledStep(hops: seq<Hop>, fill: seq<nat>, i: nat)
    requires 0 < i < |hops|
    ensures FilledAt(hops, fill, i) == FilledAt(hops[1..], Behind(hops[0], fill), i - 1)
  {
    assert hops[..i][1..] == hops[1..][..i - 1] && hops[..i][0] == hops[0];
  }

  lemma FilledFirst(hops: seq<Hop>, fill: seq<nat>)
    requires hops != []
    ensures FilledAt(hops, fill, 0) == if hops[0].1 == AS_TRANS && fill != [] then fill[0] else hops[0].1
    ensures Left(hops, fill) == Left(hops[1..], Behind(hops[0], fill))
  {
    assert hops[..0] == [];
  }

  lemma FillStep(asns: seq<nat>, fill: seq<nat>, kind: nat)
    requires asns != []
    ensures var rest := FillSegment(asns[1..], Behind((kind, asns[0]), fill));
            && FillSegment(asns, fill).1 == rest.1
            && FillSegment(asns, fill).0 == [if asns[0] == AS_TRANS && fill != [] then fill[0] else asns[0]] + rest.0
  {
  }

  lemma FillSegmentTail(s: Segment, fill: seq<nat>)
    requires s.asns != []
    requires var t := Segment(s.kind, s.asns[1..]);
             var (r, left) := FillSegment(t.asns, Behind((s.kind, s.asns[0]), fill));
             && left == Left(HopsOf(t), Behind((s.kind, s.asns[0]), fill))
             && forall i :: 0 <= i < |t.asns| ==> r[i] == FilledAt(HopsOf(t), Behind((s.kind, s.asns[0]), fill), i)
    ensures var (r, left) := FillSegment(s.asns, fill);
            && left == Left(HopsOf(s), fill)
            && forall i :: 0 <= i < |s.asns| ==> r[i] == FilledAt(HopsOf(s), fill, i)
  {
    hide FilledAt, Left, FillSegment, Behind;
    var h, t := HopsOf(s), Segment(s.kind, s.asns[1..]);
    assert h[1..] == HopsOf(t) && h[0] == (s.kind, s.asns[0]);
    FillStep(s.asns, fill, s.kind);
    FilledFirst(h, fill);
    var r, rest := FillSegment(s.asns, fill).0, FillSegment(t.asns, Behind(h[0], fill)).0;
    forall i | 0 < i < |s.asns| ensures r[i] == FilledAt(h, fill, i) {
      FilledStep(h, fill, i);
      assert r[i] == rest[i - 1];
    }
  }

  lemma {:induction false} FillSegmentMeaning(s: Segment, fill: seq<nat>)
    ensures var (r, left) := FillSegment(s.asns, fill);
            && left == Left(HopsOf(s), fill)
            && forall i :: 0 <= i < |s.asns| ==> r[i] == FilledAt(HopsOf(s), fill, i)
    decreases |s.asns|
  {
    hide FilledAt, Left, Behind;
    if s.asns == [] {
      assert HopsOf(s) == [];
      NoneLeft(fill);
    } else {
      hide FillSegment;
      FillSegmentMeaning(Segment(s.kind, s.asns[1..]), Behind((s.kind, s.asns[0]), fill));
      FillSegmentTail(s, fill);
    }
  }

  lemma NoneLeft(fill: seq<nat>)
    ensures Left([], fill) == fill
  {
  }

  /** What filling a path computes. */
  lemma {:induction false} FillSegsMeaning(segs: seq<Segment>, fill: seq<nat>)
    ensures Flat(FillSegs(segs, fill)) == Filled(Flat(segs), fill)
    ensures ValidSegs(segs) ==> ValidSegs(FillSegs(segs, fill))
  {
    if segs != [] {
      var first, rest := HopsOf(segs[0]), Flat(segs[1..]);
      var (asns, left) := FillSegment(segs[0].asns, fill);
      FillSegmentMeaning(segs[0], fill);
      FillSegsMeaning(segs[1..], left);
      var one := Segment(segs[0].kind, asns);
      var r := FillSegs(segs, fill);
      assert r[1..] == FillSegs(segs[1..], left);
      hide Flat, FillSegs, FillSegment;
      FlatUnfolds(segs);
      FlatUnfolds(r);
      forall i | 0 <= i < |first| + |rest|
        ensures (HopsOf(one) + Filled(rest, left))[i] == Filled(first + rest, fill)[i]
      {
        FilledOfConcat(first, rest, fill, i);
      }
      assert HopsOf(one) + Filled(rest, left) == Filled(first + rest, fill);
    }
  }

  lemma FilledOfConcat(a: seq<Hop>, b: seq<Hop>, fill: seq<nat>, i: nat)
    requires i < |a| + |b|
    ensures FilledAt(a + b, fill, i) == if i < |a| then FilledAt(a, fill, i) else FilledAt(b, Left(a, fill), i - |a|)
  {
    if i < |a| {
      assert (a + b)[..i] == a[..i];
    } else {
      assert (a + b)[..i] == a + b[..i - |a|];
      TransOfConcat(a, b[..i - |a|]);
    }
  }

  function Asns(hops: seq<Hop>): (r: seq<nat>)
    ensures |r| == |hops| && forall i :: 0 <= i < |r| ==> r[i] == hops[i].1
  {
    seq(|hops|, i requires 0 <= i < |hops| => hops[i].1)
  }

  // ----- what a two-octet path and its AS4_PATH stand for

  /** The two-octet path `segs` with the optional wide path `shadow` stands for the path `hops`: it is
      its narrowing, and the wide path is the exact tail from some position on, which does not lie inside
      an AS_SET and before which nothing is long. */
  predicate Shadows(segs: seq<Segment>, shadow: Option<seq<Segment>>, hops: seq<Hop>) {
    && ValidSegs(segs) && Flat(segs) == NarrowHops(hops)
    && match shadow
       case None => AllShort(hops)
       case Some(wide) =>
         && ValidSegs(wide) && |Flat(wide)| <= |hops|
         && var n := |hops| - |Flat(wide)|;
         && Flat(wide) == hops[n..] && AllShort(hops[..n]) && !CutsSet(segs, n)
  }

  lemma NarrowShort(hops: seq<Hop>)
    requires AllShort(hops)
    ensures NarrowHops(hops) == hops
  {
  }

  lemma ShadowsAfterDowngrade(segs: seq<Segment>)
    requires ValidSegs(segs)
    ensures var n := FirstLong(Flat(segs));
            && (n == |Flat(segs)| ==> Shadows(NarrowSegs(segs), None, Flat(segs)))
            && (!CutsSet(segs, n) ==> Shadows(NarrowSegs(segs), Some(SuffixSegs(segs, n)), Flat(segs)))
  {
    hide Flat, NarrowSegs, SuffixSegs, CutsSet, ValidSegs, FirstLong, AllShort;
    var hops := Flat(segs);
    var n := FirstLong(hops);
    NarrowPath(segs, n);
    FlatOfSuffix(segs, n);
    assert |hops[n..]| == |hops| - n;
    assert hops[..|hops|] == hops;
  }

  lemma NarrowPrepend(hops: seq<Hop>, asn: nat)
    ensures NarrowHops([(AS_SEQUENCE, asn)] + hops) == [(AS_SEQUENCE, Narrow(asn))] + NarrowHops(hops)
  {
  }

  lemma ShadowsAfterShortPrepend(segs: seq<Segment>, shadow: Option<seq<Segment>>, hops: seq<Hop>, asn: nat)
    requires Shadows(segs, shadow, hops) && asn <= MAX_SHORT
    ensures Shadows(PrependSegs(segs, asn), shadow, [(AS_SEQUENCE, asn)] + hops)
  {
    hide Flat, CutsSet, PrependSegs, ValidSegs;
    var hops' := [(AS_SEQUENCE, asn)] + hops;
    var n := if shadow.Some? then |hops| - |Flat(shadow.value)| else 0;
    PrependPath(segs, asn, n);
    NarrowPrepend(hops, asn);
    assert hops'[n + 1..] == hops[n..];
    assert hops'[..n + 1] == [(AS_SEQUENCE, asn)] + hops[..n];
  }

  /** The wide path after a long AS number is prepended. */
  function NextShadow(segs: seq<Segment>, shadow: Option<seq<Segment>>, asn: nat): seq<Segment>
    requires shadow.Some? ==> |Flat(shadow.value)| <= |Flat(segs)|
  {
    match shadow
    case None => SetFirst(segs, asn)
    case Some(wide) => SetFirst(Rebuild(segs, wide, |Flat(segs)| - |Flat(wide)|), asn)
  }

  /** After a long AS number the wide path is the whole path. */
  lemma NextShadowIsWhole(segs: seq<Segment>, shadow: Option<seq<Segment>>, hops: seq<Hop>, asn: nat)
    requires Shadows(segs, shadow, hops)
    ensures var next := PrependSegs(segs, AS_TRANS);
            && Flat(next) == [(AS_SEQUENCE, AS_TRANS)] + NarrowHops(hops)
            && (shadow.Some? ==> !CutsSet(next, |Flat(next)| - |Flat(shadow.value)|))
            && ValidSegs(next) && ValidSegs(NextShadow(next, shadow, asn))
            && Flat(NextShadow(next, shadow, asn)) == [(AS_SEQUENCE, asn)] + hops
  {
    hide Flat, CutsSet, PrependSegs, ValidSegs, Rebuild, SetFirst;
    var next := PrependSegs(segs, AS_TRANS);
    match shadow
    case None =>
      PrependPath(segs, AS_TRANS, 0);
      NarrowShort(hops);
      FlatOfSetFirst(next, asn);
    case Some(wide) =>
      var n := |hops| - |Flat(wide)|;
      PrependPath(segs, AS_TRANS, n);
      NarrowShort(hops[..n]);
      assert NarrowHops(hops)[..n] == NarrowHops(hops[..n]);
      assert Flat(next)[..n + 1] == [(AS_SEQUENCE, AS_TRANS)] + hops[..n];
      FlatOfRebuild(next, wide, n + 1);
      FlatOfSetFirst(Rebuild(next, wide, n + 1), asn);
      assert hops == hops[..n] + hops[n..];
  }

  lemma ShadowsAfterLongPrepend(segs: seq<Segment>, shadow: Option<seq<Segment>>, hops: seq<Hop>, asn: nat)
    requires Shadows(segs, shadow, hops) && asn > MAX_SHORT
    ensures var next := PrependSegs(segs, AS_TRANS);
            && |Flat(next)| == |Flat(segs)| + 1
            && (shadow.Some? ==> !CutsSet(next, |Flat(next)| - |Flat(shadow.value)|))
            && Shadows(next, Some(NextShadow(next, shadow, asn)), [(AS_SEQUENCE, asn)] + hops)
  {
    hide Flat, CutsSet, PrependSegs, ValidSegs, Rebuild, SetFirst;
    NextShadowIsWhole(segs, shadow, hops, asn);
    NarrowPrepend(hops, asn);
    NotCutAtStart(PrependSegs(segs, AS_TRANS));
  }

  lemma {:induction false} NotCutAtStart(segs: seq<Segment>)
    ensures !CutsSet(segs, 0)
  {
    if segs != [] && segs[0].asns == [] {
      NotCutAtStart(segs[1..]);
    }
  }

  /** Restoring gives back the path: the tail always matches, so the sparse way is never taken. */
  lemma ShadowsRestore(segs: seq<Segment>, wide: seq<Segment>, hops: seq<Hop>)
    requires Shadows(segs, Some(wide), hops)
    ensures var n := |hops| - |Flat(wide)|;
            && |Flat(segs)| == |hops|
            && SuffixMatches(Flat(segs), Flat(wide), n)
            && !CutsSet(segs, n)
            && Flat(Rebuild(segs, wide, n)) == hops && ValidSegs(Rebuild(segs, wide, n))
  {
    var n := |hops| - |Flat(wide)|;
    FlatOfRebuild(segs, wide, n);
    NarrowShort(hops[..n]);
    assert NarrowHops(hops)[..n] == NarrowHops(hops[..n]);
    assert hops == hops[..n] + hops[n..];
  }
}
