/** The loops of src/update.c that edit AS_PATH and AS4_PATH of a message in place, proved against the
    functions of As4Update. */
module As4Message {
  import opened Wrappers
  import opened PathAttr
  import opened As4Path
  import opened As4Update

  // ----- positions in a segment list

  lemma FlatOfSnoc(a: seq<Segment>, s: Segment)
    ensures Flat(a + [s]) == Flat(a) + HopsOf(s)
  {
    FlatOfConcat(a, [s]);
    assert [s][1..] == [] && Flat([]) == [];
    assert Flat([s]) == HopsOf(s);
  }

  lemma SplitAround<T>(s: seq<T>, i: nat)
    requires i < |s|
    ensures s[..i] + [s[i]] == s[..i + 1] && s[..i] + [s[i]] + s[i + 1..] == s
  {
  }

  lemma FlatSplits(segs: seq<Segment>, i: nat)
    requires i < |segs|
    ensures Flat(segs[..i + 1]) == Flat(segs[..i]) + HopsOf(segs[i])
    ensures Flat(segs) == Flat(segs[..i]) + HopsOf(segs[i]) + Flat(segs[i + 1..])
  {
    SplitAround(segs, i);
    hide *;
    FlatOfSnoc(segs[..i], segs[i]);
    FlatOfConcat(segs[..i] + [segs[i]], segs[i + 1..]);
  }

  /** Position j of segment i, as a position in the flat list. */
  lemma FlatAt(segs: seq<Segment>, i: nat, j: nat)
    requires i < |segs| && j < |segs[i].asns|
    ensures |Flat(segs[..i])| + j < |Flat(segs)| && Flat(segs)[|Flat(segs[..i])| + j] == (segs[i].kind, segs[i].asns[j])
  {
    FlatSplits(segs, i);
  }

  // ----- reading loops

  method ValidateSegs(segs: seq<Segment>) returns (ok: bool, count: nat)
    ensures ok <==> ValidSegs(segs)
    ensures ok ==> count == |Flat(segs)|
  {
    hide Flat;
    count := 0;
    var i := 0;
    assert |Flat(segs[..0])| == 0 by { EmptyFlat(segs); }
    while i < |segs|
      invariant 0 <= i <= |segs|
      invariant forall k :: 0 <= k < i ==> ValidSegment(segs[k])
      invariant count == |Flat(segs[..i])|
    {
      var s := segs[i];
      if (s.kind != AS_SET && s.kind != AS_SEQUENCE) || |s.asns| > MAX_SEGMENT {
        return false, 0;
      }
      FlatSplits(segs, i);
      count := count + |s.asns|;
      i := i + 1;
    }
    assert segs[..i] == segs;
    ok := true;
  }

  lemma EmptyFlat(segs: seq<Segment>)
    ensures Flat(segs[..0]) == [] && Flat([]) == []
  {
  }

  /** The first long AS number within a segment. */
  method FirstLongIn(asns: seq<nat>) returns (j: nat)
    ensures j <= |asns| && (forall k :: 0 <= k < j ==> asns[k] <= MAX_SHORT)
    ensures j < |asns| ==> asns[j] > MAX_SHORT
  {
    j := 0;
    while j < |asns| && asns[j] <= MAX_SHORT
      invariant j <= |asns| && forall k :: 0 <= k < j ==> asns[k] <= MAX_SHORT
    {
      j := j + 1;
    }
  }

  lemma {:induction false} FirstLongIs(hops: seq<Hop>, n: nat)
    requires n <= |hops| && AllShort(hops[..n]) && (n < |hops| ==> hops[n].1 > MAX_SHORT)
    ensures FirstLong(hops) == n
  {
    if hops != [] && n > 0 {
      assert hops[..n][0].1 <= MAX_SHORT;
      assert hops[1..][..n - 1] == hops[..n][1..];
      FirstLongIs(hops[1..], n - 1);
    }
  }

  method FirstShadowIndex(segs: seq<Segment>) returns (n: nat)
    ensures n == FirstLong(Flat(segs))
  {
    hide Flat, FirstLong;
    n := 0;
    var i := 0;
    EmptyFlat(segs);
    while i < |segs|
      invariant 0 <= i <= |segs|
      invariant n == |Flat(segs[..i])| && AllShort(Flat(segs[..i]))
    {
      var j := FirstLongIn(segs[i].asns);
      FlatSplits(segs, i);
      if j < |segs[i].asns| {
        FlatAt(segs, i, j);
        assert AllShort(Flat(segs)[..n + j]);
        FirstLongIs(Flat(segs), n + j);
        return n + j;
      }
      n := n + |segs[i].asns|;
      i := i + 1;
    }
    assert segs[..i] == segs;
    assert Flat(segs)[..n] == Flat(segs);
    FirstLongIs(Flat(segs), n);
  }

  /** Whether a position lies strictly inside an AS_SET. */
  method CheckCut(segs: seq<Segment>, start: nat) returns (cut: bool)
    ensures cut == CutsSet(segs, start)
  {
    var pos, i := 0, 0;
    while i < |segs|
      invariant 0 <= i <= |segs|
      invariant CutsSet(segs, start) == (pos <= start && CutsSet(segs[i..], start - pos))
    {
      var s := segs[i];
      assert segs[i..][1..] == segs[i + 1..];
      if pos < start < pos + |s.asns| && s.kind == AS_SET {
        return true;
      }
      if pos == start {
        NotCutAtStart(segs[i..]);
        NotCutAtStart(segs[i + 1..]);
      }
      pos := pos + |s.asns|;
      i := i + 1;
    }
    cut := false;
  }

  // ----- building loops

  /** The segments from a position on (update_clone_path_suffix_as_type). */
  method CloneSuffix(segs: seq<Segment>, start: nat) returns (out: seq<Segment>)
    ensures out == SuffixSegs(segs, start)
  {
    out := [];
    var pos, i := 0, 0;
    while i < |segs|
      invariant 0 <= i <= |segs|
      invariant pos <= start ==> out == [] && SuffixSegs(segs, start) == SuffixSegs(segs[i..], start - pos)
      invariant pos > start ==> SuffixSegs(segs, start) == out + segs[i..]
    {
      var s := segs[i];
      assert segs[i..] == [s] + segs[i + 1..];
      if pos + |s.asns| > start {
        var skip := if start > pos then start - pos else 0;
        out := out + [Segment(s.kind, s.asns[skip..])];
      }
      pos := pos + |s.asns|;
      i := i + 1;
    }
    assert segs[i..] == [];
  }

  lemma PrefixStarts(segs: seq<Segment>, n: nat)
    ensures PrefixSegs(segs, n) == [] + if 0 < n then PrefixSegs(segs[0..], n) else []
  {
    assert segs[0..] == segs;
  }

  lemma PrefixStep(segs: seq<Segment>, i: nat, n: nat, keep: nat, out: seq<Segment>)
    requires i < |segs| && n > 0 && keep == if |segs[i].asns| > n then n else |segs[i].asns|
    ensures var s := segs[i];
            out + PrefixSegs(segs[i..], n)
            == (if keep != 0 then out + [Segment(s.kind, s.asns[..keep])] else out)
               + if |s.asns| < n then PrefixSegs(segs[i + 1..], n - |s.asns|) else []
  {
    var s := segs[i];
    assert segs[i..][0] == s && segs[i..][1..] == segs[i + 1..];
    if |s.asns| <= n {
      assert s.asns[..|s.asns|] == s.asns;
      assert Segment(s.kind, s.asns) == s;
    }
  }

  lemma PrefixEnds(segs: seq<Segment>, i: nat, n: nat, pos: nat, out: seq<Segment>)
    requires i <= |segs| && (i == |segs| || pos >= n)
    ensures out + (if pos < n then PrefixSegs(segs[i..], n - pos) else []) == out
  {
  }

  /** The first AS numbers of one path, then another path (update_rebuild_as_path_from_as4_suffix). */
  method RebuildSuffix(segs: seq<Segment>, wide: seq<Segment>, start: nat) returns (out: seq<Segment>)
    ensures out == Rebuild(segs, wide, start)
  {
    hide PrefixSegs;
    out := [];
    var pos: nat, i: nat := 0, 0;
    PrefixStarts(segs, start);
    while i < |segs| && pos < start
      invariant 0 <= i <= |segs|
      invariant PrefixSegs(segs, start) == out + if pos < start then PrefixSegs(segs[i..], start - pos) else []
    {
      var s := segs[i];
      var keep := if pos + |s.asns| > start then start - pos else |s.asns|;
      PrefixStep(segs, i, start - pos, keep, out);
      if keep != 0 {
        out := out + [Segment(s.kind, s.asns[..keep])];
      }
      pos := pos + |s.asns|;
      i := i + 1;
    }
    PrefixEnds(segs, i, start, pos, out);
    out := out + wide;
  }

  /** Replace what does not fit by AS_TRANS. */
  method NarrowAll(segs: seq<Segment>) returns (out: seq<Segment>)
    ensures out == NarrowSegs(segs)
  {
    out := segs;
    var i := 0;
    while i < |out|
      invariant 0 <= i <= |out| == |segs|
      invariant forall k :: 0 <= k < i ==> out[k] == NarrowSegment(segs[k])
      invariant forall k :: i <= k < |segs| ==> out[k] == segs[k]
    {
      var asns := out[i].asns;
      var j := 0;
      while j < |asns|
        invariant 0 <= j <= |asns| == |segs[i].asns|
        invariant forall k :: 0 <= k < j ==> asns[k] == Narrow(segs[i].asns[k])
        invariant forall k :: j <= k < |asns| ==> asns[k] == segs[i].asns[k]
      {
        if asns[j] > MAX_SHORT {
          asns := asns[j := AS_TRANS];
        }
        j := j + 1;
      }
      assert asns == NarrowSegment(segs[i]).asns;
      out := out[i := Segment(segs[i].kind, asns)];
      i := i + 1;
    }
  }

  // ----- walking two paths at once

  /** Segment s, place a is position c of the flat list. */
  ghost predicate At(wide: seq<Segment>, s: nat, a: nat, c: nat) {
    && s <= |wide| && |Flat(wide[..s])| + a == c
    && if s < |wide| then a <= |wide[s].asns| else a == 0
  }

  /** Step over finished segments. */
  method SkipDone(wide: seq<Segment>, s0: nat, a0: nat, ghost c: nat) returns (s: nat, a: nat)
    requires At(wide, s0, a0, c)
    ensures At(wide, s, a, c) && s <= |wide|
    ensures s < |wide| ==>
              a < |wide[s].asns| && c < |Flat(wide)| && Flat(wide)[c].1 == wide[s].asns[a] && At(wide, s, a + 1, c + 1)
    ensures s == |wide| ==> c == |Flat(wide)|
  {
    hide Flat;
    s, a := s0, a0;
    while s < |wide| && a >= |wide[s].asns|
      invariant At(wide, s, a, c)
      decreases |wide| - s
    {
      FlatSplits(wide, s);
      s, a := s + 1, 0;
    }
    if s < |wide| {
      FlatAt(wide, s, a);
    } else {
      assert wide[..s] == wide;
    }
  }

  /** The path agrees with the wide path at position k, counted from the start of the overlap. */
  predicate AgreesAt(hops: seq<Hop>, wide: seq<Hop>, start: nat, k: nat) {
    start + k < |hops| && k < |wide| && (hops[start + k].1 == AS_TRANS || hops[start + k].1 == wide[k].1)
  }

  method MatchSuffix(segs: seq<Segment>, wide: seq<Segment>, start: nat) returns (matches: bool)
    requires start <= |Flat(segs)|
    ensures matches == SuffixMatches(Flat(segs), Flat(wide), start)
  {
    hide Flat, At;
    ghost var hops, tail := Flat(segs), Flat(wide);
    var pos: nat, s: nat, a: nat, i: nat := 0, 0, 0, 0;
    EmptyFlat(segs);
    AtStart(wide);
    ghost var c := 0;
    while i < |segs|
      invariant 0 <= i <= |segs| && pos == |Flat(segs[..i])| <= |hops|
      invariant c == (if pos > start then pos - start else 0) && At(wide, s, a, c)
      invariant forall k :: 0 <= k < c ==> AgreesAt(hops, tail, start, k)
    {
      FlatSplits(segs, i);
      var asns := segs[i].asns;
      var j := 0;
      while j < |asns|
        invariant 0 <= j <= |asns| && pos == |Flat(segs[..i])| + j <= |hops|
        invariant c == (if pos > start then pos - start else 0) && At(wide, s, a, c)
        invariant forall k :: 0 <= k < c ==> AgreesAt(hops, tail, start, k)
      {
        FlatAt(segs, i, j);
        if pos >= start {
          s, a := SkipDone(wide, s, a, c);
          if s >= |wide| {
            return false;
          }
          if asns[j] != AS_TRANS && asns[j] != wide[s].asns[a] {
            assert hops[start + c].1 != tail[c].1;
            return false;
          }
          a, c := a + 1, c + 1;
        }
        pos, j := pos + 1, j + 1;
      }
      i := i + 1;
    }
    assert segs[..i] == segs;
    s, a := SkipDone(wide, s, a, c);
    matches := s == |wide|;
    if matches {
      forall k | 0 <= k < |tail| ensures hops[start + k].1 == AS_TRANS || hops[start + k].1 == tail[k].1 {
        assert AgreesAt(hops, tail, start, k);
      }
    }
  }

  lemma AtStart(wide: seq<Segment>)
    ensures At(wide, 0, 0, 0)
  {
  }

  // ----- the sparse way of restoring

  function TransIn(asns: seq<nat>): (n: nat) {
    if asns == [] then 0 else (if asns[0] == AS_TRANS then 1 else 0) + TransIn(asns[1..])
  }

  lemma {:induction false} TransOfConcat(a: seq<Hop>, b: seq<Hop>)
    ensures TransCount(a + b) == TransCount(a) + TransCount(b)
  {
    if a == [] {
      assert a + b == b;
    } else {
      assert (a + b)[1..] == a[1..] + b;
      TransOfConcat(a[1..], b);
    }
  }

  lemma {:induction false} TransOfSegment(kind: nat, asns: seq<nat>)
    ensures TransCount(HopsOf(Segment(kind, asns))) == TransIn(asns)
  {
    if asns != [] {
      assert HopsOf(Segment(kind, asns))[1..] == HopsOf(Segment(kind, asns[1..]));
      TransOfSegment(kind, asns[1..]);
    }
  }

  method CountTrans(segs: seq<Segment>) returns (n: nat)
    ensures n == TransCount(Flat(segs))
  {
    assert TransCount([]) == 0;
    hide Flat, TransCount;
    n := 0;
    EmptyFlat(segs);
    var i := 0;
    while i < |segs|
      invariant 0 <= i <= |segs|
      invariant n == TransCount(Flat(segs[..i]))
    {
      var asns := segs[i].asns;
      var j := 0;
      ghost var before := n;
      while j < |asns|
        invariant 0 <= j <= |asns|
        invariant n + TransIn(asns[j..]) == before + TransIn(asns)
      {
        assert asns[j..][1..] == asns[j + 1..];
        if asns[j] == AS_TRANS {
          n := n + 1;
        }
        j := j + 1;
      }
      FlatSplits(segs, i);
      TransOfConcat(Flat(segs[..i]), HopsOf(segs[i]));
      TransOfSegment(segs[i].kind, asns);
      i := i + 1;
    }
    assert segs[..i] == segs;
  }

  /** One place of a segment, filled if it says AS_TRANS. */
  lemma FillStep(asns: seq<nat>, fill: seq<nat>, done: seq<nat>, j: nat, c: nat)
    requires j < |asns| && c <= |fill| && (asns[j] == AS_TRANS ==> c < |fill|)
    ensures var filled := asns[j] == AS_TRANS;
            var x, c' := if filled then fill[c] else asns[j], if filled then c + 1 else c;
            && done + FillSegment(asns[j..], fill[c..]).0 == done + [x] + FillSegment(asns[j + 1..], fill[c'..]).0
            && FillSegment(asns[j..], fill[c..]).1 == FillSegment(asns[j + 1..], fill[c'..]).1
            && TransIn(asns[j..]) == (if filled then 1 else 0) + TransIn(asns[j + 1..])
  {
    assert asns[j..][0] == asns[j] && asns[j..][1..] == asns[j + 1..];
    if asns[j] == AS_TRANS {
      assert fill[c..][0] == fill[c] && fill[c..][1..] == fill[c + 1..];
    }
  }

  /** Fill one segment from the wide path, place by place. */
  method FillOne(asns: seq<nat>, wide: seq<Segment>, s0: nat, a0: nat, ghost c0: nat)
    returns (out: seq<nat>, s: nat, a: nat, ghost c: nat)
    requires At(wide, s0, a0, c0) && c0 + TransIn(asns) <= |Flat(wide)|
    ensures At(wide, s, a, c) && c == c0 + TransIn(asns)
    ensures FillSegment(asns, Asns(Flat(wide))[c0..]) == (out, Asns(Flat(wide))[c..])
  {
    hide Flat, At, FillSegment, TransIn;
    ghost var fill := Asns(Flat(wide));
    out, s, a, c := [], s0, a0, c0;
    var j := 0;
    FillStarts(asns, fill[c0..]);
    while j < |asns|
      invariant 0 <= j <= |asns|
      invariant At(wide, s, a, c) && c + TransIn(asns[j..]) == c0 + TransIn(asns) && c <= |fill|
      invariant FillSegment(asns, fill[c0..]).0 == out + FillSegment(asns[j..], fill[c..]).0
      invariant FillSegment(asns, fill[c0..]).1 == FillSegment(asns[j..], fill[c..]).1
    {
      TransAhead(asns, j);
      FillStep(asns, fill, out, j, c);
      if asns[j] == AS_TRANS {
        s, a := SkipDone(wide, s, a, c);
        if s >= |wide| {
          assert false;
        }
        out, a, c := out + [wide[s].asns[a]], a + 1, c + 1;
      } else {
        out := out + [asns[j]];
      }
      j := j + 1;
    }
    FillEnds(asns, j, fill, c, out);
  }

  lemma FillStarts(asns: seq<nat>, fill: seq<nat>)
    ensures asns[0..] == asns && [] + FillSegment(asns, fill).0 == FillSegment(asns, fill).0
  {
  }

  lemma TransAhead(asns: seq<nat>, j: nat)
    requires j < |asns|
    ensures asns[j] == AS_TRANS ==> TransIn(asns[j..]) > 0
  {
    assert asns[j..][0] == asns[j];
  }

  lemma FillEnds(asns: seq<nat>, j: nat, fill: seq<nat>, c: nat, out: seq<nat>)
    requires j == |asns| && c <= |fill|
    ensures TransIn(asns[j..]) == 0 && FillSegment(asns[j..], fill[c..]) == ([], fill[c..])
    ensures out + FillSegment(asns[j..], fill[c..]).0 == out
  {
    assert asns[j..] == [];
  }

  method FillSparse(segs: seq<Segment>, wide: seq<Segment>) returns (out: seq<Segment>)
    requires TransCount(Flat(segs)) == |Flat(wide)|
    ensures out == FillSegs(segs, Asns(Flat(wide)))
  {
    hide At, FillSegment, TransIn, TransCount, Flat, FillSegs;
    ghost var fill := Asns(Flat(wide));
    AtStart(wide);
    var s: nat, a: nat, i: nat := 0, 0, 0;
    ghost var c: nat := 0;
    out := [];
    SparseStarts(segs, fill);
    while i < |segs|
      invariant 0 <= i <= |segs|
      invariant At(wide, s, a, c) && c <= |fill| && c + TransCount(Flat(segs[i..])) == |fill|
      invariant FillSegs(segs, fill) == out + FillSegs(segs[i..], fill[c..])
    {
      SparseStep(segs, i, fill, c, out);
      var asns;
      asns, s, a, c := FillOne(segs[i].asns, wide, s, a, c);
      out := out + [Segment(segs[i].kind, asns)];
      i := i + 1;
    }
    SparseEnds(segs, i, fill, c, out);
  }

  lemma SparseStarts(segs: seq<Segment>, fill: seq<nat>)
    ensures segs[0..] == segs && fill[0..] == fill && [] + FillSegs(segs, fill) == FillSegs(segs, fill)
  {
  }

  lemma SparseStep(segs: seq<Segment>, i: nat, fill: seq<nat>, c: nat, out: seq<Segment>)
    requires i < |segs| && c <= |fill|
    ensures TransCount(Flat(segs[i..])) == TransIn(segs[i].asns) + TransCount(Flat(segs[i + 1..]))
    ensures var (asns, left) := FillSegment(segs[i].asns, fill[c..]);
            out + FillSegs(segs[i..], fill[c..]) == out + [Segment(segs[i].kind, asns)] + FillSegs(segs[i + 1..], left)
  {
    hide FillSegment, TransIn, TransCount;
    assert segs[i..][0] == segs[i] && segs[i..][1..] == segs[i + 1..];
    FlatUnfolds(segs[i..]);
    TransOfConcat(HopsOf(segs[i]), Flat(segs[i + 1..]));
    TransOfSegment(segs[i].kind, segs[i].asns);
  }

  lemma SparseEnds(segs: seq<Segment>, i: nat, fill: seq<nat>, c: nat, out: seq<Segment>)
    requires i == |segs| && c <= |fill|
    ensures out + FillSegs(segs[i..], fill[c..]) == out
  {
    assert segs[i..] == [];
  }

  // ----- the message

  class Message {
    var attrs: AttrList

    constructor (attrs: AttrList)
      ensures this.attrs == attrs
    {
      this.attrs := attrs;
    }

    method FindAttr(w: Which) returns (r: Option<nat>)
      ensures r == FirstOf(attrs, w)
    {
      for i := 0 to |attrs|
        invariant forall j :: 0 <= j < i ==> !Is(attrs[j], w)
      {
        if Is(attrs[i], w) {
          FoundAt(attrs, w, i);
          return Some(i);
        }
      }
      FoundNowhere(attrs, w);
      return None;
    }

    method Set(w: Which, attr: Attr)
      modifies this
      ensures attrs == SetAttr(old(attrs), w, attr)
    {
      var at := FindAttr(w);
      match at
      case None => attrs := attrs + [Some(attr)];
      case Some(i) => attrs := attrs[i := Some(attr)];
    }

    method Remove(w: Which)
      modifies this
      ensures attrs == RemoveAttr(old(attrs), w)
    {
      var at := FindAttr(w);
      if at.Some? {
        attrs := attrs[..at.value] + attrs[at.value + 1..];
      }
    }

    /** Any failure leaves the message as it was. */
    method Downgrade(plentiful: bool) returns (err: Err)
      modifies this
      ensures err == Ok ==> Downgraded(old(attrs)) == Success(attrs)
      ensures err != Ok ==> attrs == old(attrs)
      ensures err != Ok ==> Downgraded(attrs) == Failure(err) || (err == NoMem && !plentiful)
    {
      hide SetAttr, RemoveAttr, NarrowSegs, SuffixSegs, Flat, FirstOf, FirstLong, CutsSet, ValidSegs;
      var at := FindAttr(ThePath);
      if at.None? || !attrs[at.value].value.body.is4b {
        return Ok;
      }
      var segs := attrs[at.value].value.body.segments;
      var ok, count := ValidateSegs(segs);
      if !ok {
        return BadLen;
      }
      ok := TryAlloc(plentiful);
      if !ok {
        return NoMem;
      }
      var first := FirstShadowIndex(segs);
      if first == count {
        var narrow := NarrowAll(segs);
        Set(ThePath, NewPath(narrow, false));
        Remove(TheAs4);
        return Ok;
      }
      var cut := CheckCut(segs, first);
      if cut {
        return Invalid;
      }
      var tail := CloneSuffix(segs, first);
      var narrow := NarrowAll(segs);
      Set(ThePath, NewPath(narrow, false));
      Set(TheAs4, NewAs4(tail));
      return Ok;
    }

    method HasCode(code: nat) returns (found: bool)
      ensures found <==> exists i :: 0 <= i < |attrs| && attrs[i].Some? && attrs[i].value.code == code
    {
      for i := 0 to |attrs|
        invariant forall j :: 0 <= j < i ==> !(attrs[j].Some? && attrs[j].value.code == code)
      {
        if attrs[i].Some? && attrs[i].value.code == code {
          return true;
        }
      }
      return false;
    }

    method Prepend(asn: nat, wide: bool, plentiful: bool) returns (err: Err)
      modifies this
      ensures err == Ok ==> Prepended(old(attrs), asn, wide) == Success(attrs)
      ensures err != Ok ==> attrs == old(attrs)
      ensures err != Ok ==> Prepended(attrs, asn, wide) == Failure(err) || (err == NoMem && !plentiful)
    {
      hide SetAttr, PrependSegs, Flat, FirstOf, CutsSet, ValidSegs, Rebuild, SetFirst;
      var pathAt := FindAttr(ThePath);
      var as4At := FindAttr(TheAs4);
      if wide && as4At.Some? {
        return Invalid;
      }
      var segs := [];
      if pathAt.Some? {
        if attrs[pathAt.value].value.body.is4b != wide {
          return Invalid;
        }
        segs := attrs[pathAt.value].value.body.segments;
      }
      var ok, count := ValidateSegs(segs);
      if !ok {
        NothingIsValid();
        return BadLen;
      }
      ok := TryAlloc(plentiful);
      if !ok {
        return NoMem;
      }
      var next := PrependSegs(segs, if wide then asn else Narrow(asn));
      if wide || asn <= MAX_SHORT {
        var taken := HasCode(2);
        if pathAt.None? && taken {
          return Exists;
        }
        Set(ThePath, NewPath(next, wide));
        return Ok;
      }
      PrependPath(segs, Narrow(asn), 0);
      var shadow;
      err, shadow := LongShadow(next, count, if as4At.Some? then Some(attrs[as4At.value].value.body) else None, asn);
      if err == Ok {
        Set(ThePath, NewPath(next, false));
        Set(TheAs4, NewAs4(shadow));
      }
    }

    /** The wide path that goes with a path to which a long AS number was just prepended. */
    static method LongShadow(next: seq<Segment>, count: nat, as4: Option<Body>, asn: nat)
      returns (err: Err, shadow: seq<Segment>)
      requires as4.Some? ==> as4.value.As4Path?
      requires |Flat(next)| == count + 1
      ensures var wide := if as4.Some? then Some(as4.value.segments) else None;
              if as4.Some? && !GoodAs4(as4.value) then err == BadLen
              else if as4.Some? && (|Flat(wide.value)| > count || CutsSet(next, |Flat(next)| - |Flat(wide.value)|))
              then err == Invalid
              else err == Ok && shadow == NextShadow(next, wide, asn)
    {
      hide Flat, CutsSet, ValidSegs, Rebuild, SetFirst;
      if as4.None? {
        return Ok, SetFirst(next, asn);
      }
      var wide := as4.value.segments;
      var ok, wideCount := ValidateSegs(wide);
      if !as4.value.is4b || !ok {
        return BadLen, [];
      }
      if wideCount > count {
        return Invalid, [];
      }
      var cut := CheckCut(next, count + 1 - wideCount);
      if cut {
        return Invalid, [];
      }
      shadow := RebuildSuffix(next, wide, count + 1 - wideCount);
      return Ok, SetFirst(shadow, asn);
    }

    method Restore(plentiful: bool) returns (err: Err)
      modifies this
      ensures err == Ok ==> Restored(old(attrs)) == Success(attrs)
      ensures err != Ok ==> attrs == old(attrs)
      ensures err != Ok ==> Restored(attrs) == Failure(err) || (err == NoMem && !plentiful)
    {
      hide RemoveAttr, Flat, FirstOf, CutsSet, ValidSegs, Rebuild, TransCount, SuffixMatches, FillSegs, Widened;
      var pathAt := FindAttr(ThePath);
      var as4At := FindAttr(TheAs4);
      if pathAt.None? {
        return Ok;
      }
      var segs := attrs[pathAt.value].value.body.segments;
      if as4At.None? {
        var ok, _ := ValidateSegs(segs);
        if !ok {
          return BadLen;
        }
        Widen(segs);
        return Ok;
      }
      var as4 := attrs[as4At.value].value.body;
      var joined;
      err, joined := Join(segs, as4, plentiful);
      if err == Ok {
        Widen(joined);
        Remove(TheAs4);
      }
    }

    method Widen(segs: seq<Segment>)
      requires BodyOf(attrs, ThePath).Some?
      modifies this
      ensures attrs == Widened(old(attrs), segs)
    {
      var at := FindAttr(ThePath);
      attrs := attrs[at.value := Some(attrs[at.value].value.(body := AsPath(segs, true)))];
    }

    /** Put a path and its wide tail together, one way or the other. */
    static method Join(segs: seq<Segment>, as4: Body, plentiful: bool) returns (err: Err, joined: seq<Segment>)
      requires as4.As4Path?
      ensures err == NoMem ==> !plentiful
      ensures err != NoMem ==>
                var hops, tail := Flat(segs), Flat(as4.segments);
                if !GoodAs4(as4) || !ValidSegs(segs) then err == BadLen
                else if |tail| > |hops| then err == Invalid
                else
                  var n := |hops| - |tail|;
                  if n != 0 && TransCount(hops) == |tail| && !SuffixMatches(hops, tail, n) then
                    err == Ok && joined == FillSegs(segs, Asns(tail))
                  else if CutsSet(segs, n) then err == Invalid
                  else err == Ok && joined == Rebuild(segs, as4.segments, n)
    {
      hide Flat, CutsSet, ValidSegs, Rebuild, TransCount, SuffixMatches, FillSegs;
      joined := [];
      var wide := as4.segments;
      var wideOk, wideCount := ValidateSegs(wide);
      var ok, count := ValidateSegs(segs);
      if !as4.is4b || !wideOk || !ok {
        return BadLen, [];
      }
      if wideCount > count {
        return Invalid, [];
      }
      var start := count - wideCount;
      if start != 0 {
        var trans := CountTrans(segs);
        var matches := MatchSuffix(segs, wide, start);
        if trans == wideCount && !matches {
          joined := FillSparse(segs, wide);
          return Ok, joined;
        }
      }
      var cut := CheckCut(segs, start);
      if cut {
        return Invalid, [];
      }
      ok := TryAlloc(plentiful);
      if !ok {
        return NoMem, [];
      }
      joined := RebuildSuffix(segs, wide, start);
      return Ok, joined;
    }
  }

  lemma NothingIsValid()
    ensures ValidSegs([])
  {
  }
}
