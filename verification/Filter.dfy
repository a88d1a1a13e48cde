/** Route filters (src/filter.c, src/attr_view.h). Attribute tests go through a table by type code; the
    table must say what a scan of the whole attribute list by type says. */
module Filter {
  import opened Wrappers
  import opened Prefix4
  import opened PathAttr
  import opened BestPath

  // ----- tests on one attribute

  predicate IsPath(b: Body) {
    b.AsPath? || b.As4Path?
  }

  predicate PathContains(b: Body, asn: nat) {
    IsPath(b) && exists i :: 0 <= i < |b.segments| && asn in b.segments[i].asns
  }

  predicate CommunityContains(b: Body, value: nat) {
    b.Community? && value in b.values
  }

  /** The last AS number of the last non-empty AS_SEQUENCE. */
  function OriginOf(segs: seq<Segment>): Option<nat> {
    if segs == [] then None
    else
      var last := segs[|segs| - 1];
      if last.kind == AS_SEQUENCE && last.asns != [] then Some(last.asns[|last.asns| - 1])
      else OriginOf(segs[..|segs| - 1])
  }

  function PathOrigin(b: Body): Option<nat> {
    if IsPath(b) then OriginOf(b.segments) else None
  }

  // ----- the reference: a scan by type

  predicate HaveAsn(attrs: AttrList, asn: nat) {
    exists i :: 0 <= i < |attrs| && attrs[i].Some? && PathContains(attrs[i].value.body, asn)
  }

  predicate HaveCommunity(attrs: AttrList, value: nat) {
    exists i :: 0 <= i < |attrs| && attrs[i].Some? && CommunityContains(attrs[i].value.body, value)
  }

  /** The origin of the first path that has one. */
  function OriginAsn(attrs: AttrList): Option<nat> {
    if attrs == [] then None
    else if attrs[0].Some? && PathOrigin(attrs[0].value.body).Some? then PathOrigin(attrs[0].value.body)
    else OriginAsn(attrs[1..])
  }

  // ----- the loops that scan

  method ScanPath(b: Body, asn: nat) returns (found: bool)
    ensures found == PathContains(b, asn)
  {
    if !IsPath(b) {
      return false;
    }
    for i := 0 to |b.segments|
      invariant forall k :: 0 <= k < i ==> asn !in b.segments[k].asns
    {
      var asns := b.segments[i].asns;
      for j := 0 to |asns|
        invariant asn !in asns[..j]
      {
        if asns[j] == asn {
          return true;
        }
      }
      assert asns[..|asns|] == asns;
    }
    return false;
  }

  method ScanOrigin(b: Body) returns (origin: Option<nat>)
    ensures origin == PathOrigin(b)
  {
    origin := None;
    if !IsPath(b) {
      return;
    }
    for i := 0 to |b.segments|
      invariant origin == OriginOf(b.segments[..i])
    {
      var s := b.segments[i];
      assert b.segments[..i + 1][..i] == b.segments[..i];
      if s.kind == AS_SEQUENCE && s.asns != [] {
        origin := Some(s.asns[|s.asns| - 1]);
      }
    }
    assert b.segments[..|b.segments|] == b.segments;
  }

  method ScanForAsn(attrs: AttrList, asn: nat) returns (found: bool)
    ensures found == HaveAsn(attrs, asn)
  {
    for i := 0 to |attrs|
      invariant forall k :: 0 <= k < i ==> !(attrs[k].Some? && PathContains(attrs[k].value.body, asn))
    {
      if attrs[i].Some? {
        found := ScanPath(attrs[i].value.body, asn);
        if found {
          return;
        }
      }
    }
    return false;
  }

  method ScanForCommunity(attrs: AttrList, value: nat) returns (found: bool)
    ensures found == HaveCommunity(attrs, value)
  {
    for i := 0 to |attrs|
      invariant forall k :: 0 <= k < i ==> !(attrs[k].Some? && CommunityContains(attrs[k].value.body, value))
    {
      if attrs[i].Some? && CommunityContains(attrs[i].value.body, value) {
        return true;
      }
    }
    return false;
  }

  method ScanForOrigin(attrs: AttrList) returns (origin: Option<nat>)
    ensures origin == OriginAsn(attrs)
  {
    for i := 0 to |attrs|
      invariant OriginAsn(attrs) == OriginAsn(attrs[i..])
    {
      assert attrs[i..][1..] == attrs[i + 1..];
      if attrs[i].Some? {
        origin := ScanOrigin(attrs[i].value.body);
        if origin.Some? {
          return;
        }
      }
    }
    return None;
  }

  // ----- the table

  /** The type code that goes with a type; only the types the filter looks at have one here. */
  function ExpectedCode(b: Body): nat {
    match b
    case AsPath(_, _) => 2
    case As4Path(_, _) => 17
    case Community(_) => 8
    case _ => 0
  }

  predicate Mismatched(a: Attr) {
    ExpectedCode(a.body) != 0 && a.code != ExpectedCode(a.body)
  }

  predicate SomeMismatched(attrs: AttrList) {
    exists i :: 0 <= i < |attrs| && attrs[i].Some? && Mismatched(attrs[i].value)
  }

  predicate SomePath(attrs: AttrList) {
    exists i :: 0 <= i < |attrs| && attrs[i].Some? && attrs[i].value.body.AsPath?
  }

  predicate SomeAs4Path(attrs: AttrList) {
    exists i :: 0 <= i < |attrs| && attrs[i].Some? && attrs[i].value.body.As4Path?
  }

  lemma OneMore(attrs: AttrList, a: Option<Attr>)
    ensures var all := attrs + [a];
            && (SomeMismatched(all) <==> SomeMismatched(attrs) || (a.Some? && Mismatched(a.value)))
            && (SomePath(all) <==> SomePath(attrs) || (a.Some? && a.value.body.AsPath?))
            && (SomeAs4Path(all) <==> SomeAs4Path(attrs) || (a.Some? && a.value.body.As4Path?))
  {
    var all := attrs + [a];
    assert all[|attrs|] == a && forall i :: 0 <= i < |attrs| ==> all[i] == attrs[i];
    hide Mismatched;
    if SomeMismatched(attrs) {
      var i :| 0 <= i < |attrs| && attrs[i].Some? && Mismatched(attrs[i].value);
      assert all[i].Some? && Mismatched(all[i].value);
    }
    if SomePath(attrs) {
      var i :| 0 <= i < |attrs| && attrs[i].Some? && attrs[i].value.body.AsPath?;
      assert all[i].Some? && all[i].value.body.AsPath?;
    }
    if SomeAs4Path(attrs) {
      var i :| 0 <= i < |attrs| && attrs[i].Some? && attrs[i].value.body.As4Path?;
      assert all[i].Some? && all[i].value.body.As4Path?;
    }
  }

  /** The table holds an attribute of every code that occurs, and, unless a code occurs twice, the one. */
  ghost predicate Tabled(attrs: AttrList, table: seq<Option<Attr>>, duplicate: bool) {
    && |table| == 256
    && (forall i :: 0 <= i < |attrs| && attrs[i].Some? ==> table[attrs[i].value.code].Some?)
    && (forall c :: 0 <= c < 256 && table[c].Some? ==> table[c] in attrs && table[c].value.code == c)
    && (!duplicate ==> forall i :: 0 <= i < |attrs| && attrs[i].Some? ==> table[attrs[i].value.code] == attrs[i])
    && (!duplicate ==> NoTwins(attrs))
  }

  ghost predicate NoTwins(attrs: AttrList) {
    forall i, j :: 0 <= i < j < |attrs| && attrs[i].Some? && attrs[j].Some? ==>
      attrs[i].value.code != attrs[j].value.code
  }

  lemma TableMore(attrs: AttrList, table: seq<Option<Attr>>, duplicate: bool, a: Attr)
    requires Tabled(attrs, table, duplicate)
    ensures Tabled(attrs + [Some(a)], if table[a.code].Some? then table else table[a.code := Some(a)],
                   duplicate || table[a.code].Some?)
  {
    assert Some(a) in attrs + [Some(a)];
    assert forall x :: x in attrs ==> x in attrs + [Some(a)];
  }

  lemma TableSkip(attrs: AttrList, table: seq<Option<Attr>>, duplicate: bool)
    requires Tabled(attrs, table, duplicate)
    ensures Tabled(attrs + [None], table, duplicate)
  {
    assert forall x :: x in attrs ==> x in attrs + [None];
  }

  /** The attributes by type code, the first of each code, and what was noticed on the way. */
  class AttrState {
    const byType: array<Option<Attr>>
    var duplicateFound: bool
    var codeMismatch: bool
    var hasPath: bool
    var hasAs4Path: bool

    /** The state describes these attributes. */
    ghost predicate Describes(attrs: AttrList)
      reads this, byType
    {
      && Tabled(attrs, byType[..], duplicateFound)
      && codeMismatch == SomeMismatched(attrs) && hasPath == SomePath(attrs) && hasAs4Path == SomeAs4Path(attrs)
    }

    constructor (attrs: AttrList)
      ensures Describes(attrs) && fresh(byType)
    {
      byType := new Option<Attr>[256](_ => None);
      duplicateFound, codeMismatch, hasPath, hasAs4Path := false, false, false, false;
      new;
      hide Tabled, SomeMismatched, SomePath, SomeAs4Path;
      EmptyDescribed(byType[..]);
      var i := 0;
      assert attrs[..0] == [];
      while i < |attrs|
        invariant 0 <= i <= |attrs| && Describes(attrs[..i])
        modifies this, byType
      {
        assert attrs[..i + 1] == attrs[..i] + [attrs[i]];
        OneMore(attrs[..i], attrs[i]);
        if attrs[i].Some? {
          Add(attrs[i].value, attrs[..i]);
        } else {
          TableSkip(attrs[..i], byType[..], duplicateFound);
        }
        i := i + 1;
      }
      assert attrs[..i] == attrs;
    }

    method Add(attr: Attr, ghost seen: AttrList)
      requires Describes(seen)
      modifies this, byType
      ensures Describes(seen + [Some(attr)])
    {
      hide SomeMismatched, SomePath, SomeAs4Path;
      TableMore(seen, byType[..], duplicateFound, attr);
      OneMore(seen, Some(attr));
      assert byType.Length == 256;
      hide Tabled;
      if byType[attr.code].Some? {
        duplicateFound := true;
      } else {
        ghost var table := byType[..];
        byType[attr.code] := Some(attr);
        assert byType[..] == table[attr.code := Some(attr)];
      }
      if Mismatched(attr) {
        codeMismatch := true;
      }
      if attr.body.AsPath? {
        hasPath := true;
      } else if attr.body.As4Path? {
        hasAs4Path := true;
      }
    }
  }

  lemma EmptyDescribed(table: seq<Option<Attr>>)
    requires |table| == 256 && forall c :: 0 <= c < 256 ==> table[c] == None
    ensures Tabled([], table, false) && !SomeMismatched([]) && !SomePath([]) && !SomeAs4Path([])
  {
  }

  // ----- the table against the scan

  /** A table entry as the tests see it. */
  predicate AtContains(table: seq<Option<Attr>>, c: Code, asn: nat)
    requires |table| == 256
  {
    table[c].Some? && PathContains(table[c].value.body, asn)
  }

  function AtOrigin(table: seq<Option<Attr>>, c: Code): Option<nat>
    requires |table| == 256
  {
    if table[c].Some? then PathOrigin(table[c].value.body) else None
  }

  /** Without twins and mismatches a typed attribute is in the table at its code. */
  lemma TypedIsTabled(attrs: AttrList, table: seq<Option<Attr>>, i: nat)
    requires Tabled(attrs, table, false) && !SomeMismatched(attrs)
    requires i < |attrs| && attrs[i].Some? && ExpectedCode(attrs[i].value.body) != 0
    ensures table[ExpectedCode(attrs[i].value.body)] == attrs[i]
  {
    assert !Mismatched(attrs[i].value);
  }

  lemma AsnAgrees(attrs: AttrList, table: seq<Option<Attr>>, asn: nat)
    requires Tabled(attrs, table, false) && !SomeMismatched(attrs)
    ensures HaveAsn(attrs, asn) <==> AtContains(table, 2, asn) || AtContains(table, 17, asn)
  {
    hide PathContains, SomeMismatched;
    if HaveAsn(attrs, asn) {
      var i :| 0 <= i < |attrs| && attrs[i].Some? && PathContains(attrs[i].value.body, asn);
      ContainsIsPath(attrs[i].value.body, asn);
      TypedIsTabled(attrs, table, i);
    }
  }

  lemma ContainsIsPath(b: Body, asn: nat)
    ensures PathContains(b, asn) ==> IsPath(b)
    ensures CommunityContains(b, asn) ==> b.Community?
  {
  }

  lemma CommunityAgrees(attrs: AttrList, table: seq<Option<Attr>>, value: nat)
    requires Tabled(attrs, table, false) && !SomeMismatched(attrs)
    ensures HaveCommunity(attrs, value) <==> table[8].Some? && CommunityContains(table[8].value.body, value)
  {
    hide SomeMismatched, CommunityContains;
    if HaveCommunity(attrs, value) {
      var i :| 0 <= i < |attrs| && attrs[i].Some? && CommunityContains(attrs[i].value.body, value);
      ContainsIsPath(attrs[i].value.body, value);
      TypedIsTabled(attrs, table, i);
    }
  }

  /** The scan's origin is that of an attribute at some position before which none has one. */
  lemma {:induction false} OriginComesFrom(attrs: AttrList)
    ensures OriginAsn(attrs).None? ==>
              forall i :: 0 <= i < |attrs| && attrs[i].Some? ==> PathOrigin(attrs[i].value.body).None?
    ensures OriginAsn(attrs).Some? ==>
              exists i :: 0 <= i < |attrs| && attrs[i].Some? && PathOrigin(attrs[i].value.body) == OriginAsn(attrs)
  {
    hide PathOrigin;
    if attrs != [] {
      OriginComesFrom(attrs[1..]);
      if !(attrs[0].Some? && PathOrigin(attrs[0].value.body).Some?) && OriginAsn(attrs).Some? {
        var j :| 0 <= j < |attrs[1..]| && attrs[1..][j].Some?
                 && PathOrigin(attrs[1..][j].value.body) == OriginAsn(attrs);
        assert attrs[j + 1].Some? && PathOrigin(attrs[j + 1].value.body) == OriginAsn(attrs);
      }
    }
  }

  /** A path in the table is of the type of its code, and stands in the list. */
  lemma PathAtCode(attrs: AttrList, table: seq<Option<Attr>>, c: Code)
    requires Tabled(attrs, table, false) && !SomeMismatched(attrs) && AtOrigin(table, c).Some?
    ensures c == 2 ==> SomePath(attrs)
    ensures c == 17 ==> SomeAs4Path(attrs)
    ensures OriginAsn(attrs).Some?
  {
    hide OriginOf;
    var i :| 0 <= i < |attrs| && attrs[i] == table[c];
    assert !Mismatched(attrs[i].value);
    OriginComesFrom(attrs);
    assert PathOrigin(attrs[i].value.body).Some?;
  }

  /** With paths of one of the two types only, the order of the attributes does not matter. */
  lemma OriginAgrees(attrs: AttrList, table: seq<Option<Attr>>)
    requires Tabled(attrs, table, false) && !SomeMismatched(attrs) && !(SomePath(attrs) && SomeAs4Path(attrs))
    ensures OriginAsn(attrs) == if AtOrigin(table, 2).Some? then AtOrigin(table, 2) else AtOrigin(table, 17)
  {
    if AtOrigin(table, 2).Some? {
      PathAtCode(attrs, table, 2);
    }
    if AtOrigin(table, 17).Some? {
      PathAtCode(attrs, table, 17);
    }
    hide OriginOf, SomePath, SomeAs4Path, OriginAsn;
    OriginComesFrom(attrs);
    if OriginAsn(attrs).Some? {
      var i :| 0 <= i < |attrs| && attrs[i].Some? && PathOrigin(attrs[i].value.body) == OriginAsn(attrs);
      TypedIsTabled(attrs, table, i);
    }
  }

  // ----- rules

  datatype Match =
    | Covers(prefix: Prefix)
    | Exactly(prefix: Prefix)
    | MoreSpecific(prefix: Prefix)
    | LessSpecific(prefix: Prefix)
    | LessOrEqual(prefix: Prefix)
    | PathHas(asn: nat)
    | PathLacks(asn: nat)
    | OriginIs(asn: nat)
    | OriginIsNot(asn: nat)
    | CommunityHas(value: nat)
    | CommunityLacks(value: nat)
    | Anything
    | OtherFamily

  datatype Rule = Rule(test: Match, permit: bool)

  /** What a rule means, by scans alone. */
  predicate Matches(m: Match, r: Route) {
    match m
    case Covers(p) => Includes(p, r.prefix)
    case Exactly(p) => p == r.prefix
    case MoreSpecific(p) => r.prefix.len > p.len && Includes(p, r.prefix)
    case LessSpecific(p) => r.prefix.len < p.len && Includes(r.prefix, p)
    case LessOrEqual(p) => Includes(r.prefix, p)
    case PathHas(asn) => HaveAsn(r.attrs, asn)
    case PathLacks(asn) => !HaveAsn(r.attrs, asn)
    case OriginIs(asn) => OriginAsn(r.attrs) == Some(asn)
    case OriginIsNot(asn) => OriginAsn(r.attrs).Some? && OriginAsn(r.attrs) != Some(asn)
    case CommunityHas(v) => HaveCommunity(r.attrs, v)
    case CommunityLacks(v) => !HaveCommunity(r.attrs, v)
    case Anything => true
    case OtherFamily => false
  }

  /** Each matching rule in list order overrides the decision so far. */
  function Decide(rules: seq<Rule>, r: Route, permit: bool): bool {
    if rules == [] then permit
    else Decide(rules[1..], r, if Matches(rules[0].test, r) then rules[0].permit else permit)
  }

  /** A rule that matches and is followed by none that does decides. */
  lemma {:induction false} LastMatchDecides(rules: seq<Rule>, r: Route, permit: bool, k: nat)
    requires k <= |rules| && forall j :: k <= j < |rules| ==> !Matches(rules[j].test, r)
    requires k > 0 ==> Matches(rules[k - 1].test, r)
    ensures Decide(rules, r, permit) == if k > 0 then rules[k - 1].permit else permit
  {
    hide Matches;
    if rules != [] {
      var now := if Matches(rules[0].test, r) then rules[0].permit else permit;
      if k == 0 {
        assert !Matches(rules[0].test, r);
      }
      LastMatchDecides(rules[1..], r, now, if k == 0 then 0 else k - 1);
    }
  }

  // ----- what rules and lists mean, bit by bit and number by number

  /** Inner has at least the bits of outer. */
  predicate Under(outer: Prefix, inner: Prefix) {
    && outer.len <= inner.len <= 32
    && forall i :: 0 <= i < outer.len ==> Bit(outer.addr, i) == Bit(inner.addr, i)
  }

  /** Attribute i is a path whose segment k has asn at place j. */
  predicate NumberAt(attrs: AttrList, i: nat, k: nat, j: nat, asn: nat) {
    && i < |attrs| && attrs[i].Some? && (attrs[i].value.body.AsPath? || attrs[i].value.body.As4Path?)
    && k < |attrs[i].value.body.segments| && j < |attrs[i].value.body.segments[k].asns|
    && attrs[i].value.body.segments[k].asns[j] == asn
  }

  predicate ValueAt(attrs: AttrList, i: nat, j: nat, value: nat) {
    && i < |attrs| && attrs[i].Some? && attrs[i].value.body.Community?
    && j < |attrs[i].value.body.values| && attrs[i].value.body.values[j] == value
  }

  /** Segment k of attribute i is a sequence with a number in it. */
  predicate SequenceAt(attrs: AttrList, i: nat, k: nat) {
    && i < |attrs| && attrs[i].Some? && (attrs[i].value.body.AsPath? || attrs[i].value.body.As4Path?)
    && k < |attrs[i].value.body.segments| && attrs[i].value.body.segments[k].kind == 2
    && attrs[i].value.body.segments[k].asns != []
  }

  /** No attribute before i has such a sequence, and attribute i has none behind segment k. */
  ghost predicate OriginatesAt(attrs: AttrList, i: nat, k: nat) {
    && SequenceAt(attrs, i, k)
    && (forall k': nat :: k' > k ==> !SequenceAt(attrs, i, k'))
    && (forall i': nat, k': nat :: i' < i ==> !SequenceAt(attrs, i', k'))
  }

  /** asn is the last number of the last sequence of the first path that has one. */
  ghost predicate Originates(attrs: AttrList, asn: nat) {
    exists i: nat, k: nat :: OriginatesAt(attrs, i, k) && Last(attrs[i].value.body.segments[k].asns) == asn
  }

  function Last(ns: seq<nat>): nat
    requires ns != []
  {
    ns[|ns| - 1]
  }

  /** What a rule asks of a route. */
  ghost predicate Asks(m: Match, r: Route) {
    match m
    case Covers(p) => Under(p, r.prefix)
    case Exactly(p) => r.prefix.addr == p.addr && r.prefix.len == p.len
    case MoreSpecific(p) => Under(p, r.prefix) && r.prefix.len > p.len
    case LessSpecific(p) => Under(r.prefix, p) && r.prefix.len < p.len
    case LessOrEqual(p) => Under(r.prefix, p)
    case PathHas(asn) => exists i: nat, k: nat, j: nat :: NumberAt(r.attrs, i, k, j, asn)
    case PathLacks(asn) => forall i: nat, k: nat, j: nat :: !NumberAt(r.attrs, i, k, j, asn)
    case OriginIs(asn) => Originates(r.attrs, asn)
    case OriginIsNot(asn) => exists other: nat :: other != asn && Originates(r.attrs, other)
    case CommunityHas(v) => exists i: nat, j: nat :: ValueAt(r.attrs, i, j, v)
    case CommunityLacks(v) => forall i: nat, j: nat :: !ValueAt(r.attrs, i, j, v)
    case Anything => true
    case OtherFamily => false
  }

  lemma KeysIff(outer: Prefix, inner: Prefix)
    requires outer.len <= 32 && inner.len <= 32
    ensures Key(outer) <= Key(inner) <==> Under(outer, inner)
  {
    hide Bit;
    var x, y := Key(outer), Key(inner);
    assert forall i :: 0 <= i < outer.len ==> x[i] == Bit(outer.addr, i);
    assert forall i :: 0 <= i < inner.len ==> y[i] == Bit(inner.addr, i);
    hide Key;
    if Under(outer, inner) {
      assert x == y[..outer.len];
    }
  }

  lemma UnderIff(outer: Prefix, inner: Prefix)
    ensures Includes(outer, inner) <==> Under(outer, inner)
  {
    hide CidrToMask, And, Bit;
    if outer.len <= 32 && inner.len <= 32 {
      hide Includes, Under, Key;
      IncludesMeaning(outer, inner);
      KeysIff(outer, inner);
    }
  }

  lemma NumbersIff(attrs: AttrList, asn: nat)
    ensures HaveAsn(attrs, asn) <==> exists i: nat, k: nat, j: nat :: NumberAt(attrs, i, k, j, asn)
  {
    if HaveAsn(attrs, asn) {
      var i: nat :| i < |attrs| && attrs[i].Some? && PathContains(attrs[i].value.body, asn);
      var k: nat :| k < |attrs[i].value.body.segments| && asn in attrs[i].value.body.segments[k].asns;
      var j: nat :| j < |attrs[i].value.body.segments[k].asns| && attrs[i].value.body.segments[k].asns[j] == asn;
      assert NumberAt(attrs, i, k, j, asn);
    }
    if i: nat, k: nat, j: nat :| NumberAt(attrs, i, k, j, asn) {
      assert asn in attrs[i].value.body.segments[k].asns;
      assert PathContains(attrs[i].value.body, asn);
    }
  }

  lemma ValuesIff(attrs: AttrList, v: nat)
    ensures HaveCommunity(attrs, v) <==> exists i: nat, j: nat :: ValueAt(attrs, i, j, v)
  {
    if HaveCommunity(attrs, v) {
      var i: nat :| i < |attrs| && attrs[i].Some? && CommunityContains(attrs[i].value.body, v);
      var j: nat :| j < |attrs[i].value.body.values| && attrs[i].value.body.values[j] == v;
      assert ValueAt(attrs, i, j, v);
    }
    if i: nat, j: nat :| ValueAt(attrs, i, j, v) {
      assert CommunityContains(attrs[i].value.body, v);
    }
  }

  predicate SequenceIn(segs: seq<Segment>, k: nat) {
    k < |segs| && segs[k].kind == 2 && segs[k].asns != []
  }

  /** The last sequence of a path. */
  lemma {:induction false} LastSequence(segs: seq<Segment>) returns (k: nat)
    ensures if OriginOf(segs).None? then forall k': nat :: !SequenceIn(segs, k')
            else && SequenceIn(segs, k) && (forall k': nat :: k' > k ==> !SequenceIn(segs, k'))
                 && OriginOf(segs) == Some(Last(segs[k].asns))
  {
    k := 0;
    if segs != [] {
      var n := |segs| - 1;
      if SequenceIn(segs, n) {
        k := n;
      } else {
        k := LastSequence(segs[..n]);
        forall k': nat | SequenceIn(segs, k') ensures k' < n && SequenceIn(segs[..n], k') {
        }
      }
    }
  }

  lemma SequenceOf(attrs: AttrList, i: nat, k: nat)
    requires i < |attrs|
    ensures SequenceAt(attrs, i, k) <==>
            attrs[i].Some? && IsPath(attrs[i].value.body) && SequenceIn(attrs[i].value.body.segments, k)
  {
  }

  lemma SequenceShift(attrs: AttrList, i: nat, k: nat)
    requires attrs != []
    ensures SequenceAt(attrs, i + 1, k) <==> SequenceAt(attrs[1..], i, k)
  {
  }

  /** The last sequence of the first path that has one. */
  lemma {:induction false} FirstOrigin(attrs: AttrList) returns (i: nat, k: nat)
    ensures if OriginAsn(attrs).None? then forall i': nat, k': nat :: !SequenceAt(attrs, i', k')
            else OriginatesAt(attrs, i, k) && OriginAsn(attrs) == Some(Last(attrs[i].value.body.segments[k].asns))
  {
    i, k := 0, 0;
    if attrs != [] {
      hide SequenceAt, SequenceIn, OriginOf;
      if attrs[0].Some? && IsPath(attrs[0].value.body) {
        k := LastSequence(attrs[0].value.body.segments);
      }
      forall k': nat ensures SequenceAt(attrs, 0, k') <==>
        attrs[0].Some? && IsPath(attrs[0].value.body) && SequenceIn(attrs[0].value.body.segments, k')
      {
        SequenceOf(attrs, 0, k');
      }
      if attrs[0].None? || PathOrigin(attrs[0].value.body).None? {
        i, k := FirstOrigin(attrs[1..]);
        forall i': nat, k': nat ensures SequenceAt(attrs, i' + 1, k') <==> SequenceAt(attrs[1..], i', k') {
          SequenceShift(attrs, i', k');
        }
        assert forall k': nat :: !SequenceAt(attrs, 0, k');
        forall i': nat, k': nat | SequenceAt(attrs, i', k') ensures i' > 0 && SequenceAt(attrs[1..], i' - 1, k') {
          SequenceShift(attrs, if i' > 0 then i' - 1 else 0, k');
        }
        i := i + 1;
      }
    }
  }

  lemma OriginIff(attrs: AttrList, asn: nat)
    ensures Originates(attrs, asn) <==> OriginAsn(attrs) == Some(asn)
  {
    hide OriginAsn;
    var i, k := FirstOrigin(attrs);
    if Originates(attrs, asn) {
      var i': nat, k': nat :| OriginatesAt(attrs, i', k') && Last(attrs[i'].value.body.segments[k'].asns) == asn;
      assert SequenceAt(attrs, i', k') && SequenceAt(attrs, i, k);
      assert i == i' && k == k';
    }
  }

  /** Every kind of rule, by the bits of prefixes and the numbers in attributes. */
  lemma MatchesMeaning(m: Match, r: Route)
    ensures Matches(m, r) <==> Asks(m, r)
  {
    hide Includes, Under, HaveAsn, HaveCommunity, OriginAsn, NumberAt, ValueAt, Originates;
    match m
    case Covers(p) => UnderIff(p, r.prefix);
    case Exactly(p) =>
    case MoreSpecific(p) => UnderIff(p, r.prefix);
    case LessSpecific(p) => UnderIff(r.prefix, p);
    case LessOrEqual(p) => UnderIff(r.prefix, p);
    case PathHas(asn) => NumbersIff(r.attrs, asn);
    case PathLacks(asn) => NumbersIff(r.attrs, asn);
    case OriginIs(asn) => OriginIff(r.attrs, asn);
    case OriginIsNot(asn) =>
      forall other: nat ensures Originates(r.attrs, other) <==> OriginAsn(r.attrs) == Some(other) {
        OriginIff(r.attrs, other);
      }
    case CommunityHas(v) => ValuesIff(r.attrs, v);
    case CommunityLacks(v) => ValuesIff(r.attrs, v);
    case Anything =>
    case OtherFamily =>
  }

  /** Rule k asks for the route and no rule behind it does. */
  ghost predicate Decisive(rules: seq<Rule>, r: Route, k: nat) {
    && k < |rules| && Asks(rules[k].test, r)
    && forall j :: k < j < |rules| ==> !Asks(rules[j].test, r)
  }

  /** A route is permitted exactly if the last rule that asks for it permits it, or there is none and the default
      does. */
  lemma DecideMeaning(rules: seq<Rule>, r: Route, permit: bool)
    ensures Decide(rules, r, permit) <==>
            || (exists k: nat :: Decisive(rules, r, k) && rules[k].permit)
            || (permit && forall j :: 0 <= j < |rules| ==> !Asks(rules[j].test, r))
  {
    hide Matches, Asks;
    forall j | 0 <= j < |rules| ensures Matches(rules[j].test, r) <==> Asks(rules[j].test, r) {
      MatchesMeaning(rules[j].test, r);
    }
    var k := |rules|;
    while k > 0 && !Matches(rules[k - 1].test, r)
      invariant 0 <= k <= |rules|
      invariant forall j :: k <= j < |rules| ==> !Matches(rules[j].test, r)
    {
      k := k - 1;
    }
    LastMatchDecides(rules, r, permit, k);
    if k > 0 {
      assert Decisive(rules, r, k - 1);
    }
  }

  method HasAsn(state: AttrState, attrs: AttrList, asn: nat) returns (found: bool)
    requires state.Describes(attrs)
    ensures found == HaveAsn(attrs, asn)
  {
    hide HaveAsn, PathContains, SomeMismatched, SomePath, SomeAs4Path;
    if state.duplicateFound || state.codeMismatch {
      found := ScanForAsn(attrs, asn);
      return;
    }
    AsnAgrees(attrs, state.byType[..], asn);
    found := false;
    if state.byType[2].Some? {
      found := ScanPath(state.byType[2].value.body, asn);
    }
    if !found && state.byType[17].Some? {
      found := ScanPath(state.byType[17].value.body, asn);
    }
  }

  method HasCommunity(state: AttrState, attrs: AttrList, value: nat) returns (found: bool)
    requires state.Describes(attrs)
    ensures found == HaveCommunity(attrs, value)
  {
    hide HaveCommunity, SomeMismatched, SomePath, SomeAs4Path;
    if state.duplicateFound || state.codeMismatch {
      found := ScanForCommunity(attrs, value);
      return;
    }
    CommunityAgrees(attrs, state.byType[..], value);
    found := state.byType[8].Some? && CommunityContains(state.byType[8].value.body, value);
  }

  method FindOrigin(state: AttrState, attrs: AttrList) returns (origin: Option<nat>)
    requires state.Describes(attrs)
    ensures origin == OriginAsn(attrs)
  {
    hide OriginAsn, OriginOf, SomeMismatched, SomePath, SomeAs4Path;
    if state.duplicateFound || state.codeMismatch || (state.hasPath && state.hasAs4Path) {
      origin := ScanForOrigin(attrs);
      return;
    }
    OriginAgrees(attrs, state.byType[..]);
    origin := None;
    if state.byType[2].Some? {
      origin := ScanOrigin(state.byType[2].value.body);
    }
    if origin.None? && state.byType[17].Some? {
      origin := ScanOrigin(state.byType[17].value.body);
    }
  }

  method RuleMatches(m: Match, r: Route, state: AttrState) returns (yes: bool)
    requires state.Describes(r.attrs)
    ensures yes == Matches(m, r)
  {
    hide HaveAsn, HaveCommunity, OriginAsn, Includes;
    match m
    case PathHas(asn) => yes := HasAsn(state, r.attrs, asn);
    case PathLacks(asn) => yes := HasAsn(state, r.attrs, asn); yes := !yes;
    case OriginIs(asn) => var origin := FindOrigin(state, r.attrs); yes := origin == Some(asn);
    case OriginIsNot(asn) => var origin := FindOrigin(state, r.attrs); yes := origin.Some? && origin.value != asn;
    case CommunityHas(v) => yes := HasCommunity(state, r.attrs, v);
    case CommunityLacks(v) => yes := HasCommunity(state, r.attrs, v); yes := !yes;
    case Covers(p) => yes := Includes(p, r.prefix);
    case Exactly(p) => yes := p == r.prefix;
    case MoreSpecific(p) => yes := r.prefix.len > p.len && Includes(p, r.prefix);
    case LessSpecific(p) => yes := r.prefix.len < p.len && Includes(r.prefix, p);
    case LessOrEqual(p) => yes := Includes(r.prefix, p);
    case Anything => yes := true;
    case OtherFamily => yes := false;
  }

  class RouteFilter {
    var rules: seq<Rule>

    constructor ()
      ensures rules == []
    {
      rules := [];
    }

    method AddRule(rule: Rule, plentiful: bool) returns (err: Err)
      modifies this
      ensures err == Ok || (err == NoMem && !plentiful)
      ensures rules == if err == Ok then old(rules) + [rule] else old(rules)
    {
      var ok := TryAlloc(plentiful);
      if !ok {
        return NoMem;
      }
      rules := rules + [rule];
      return Ok;
    }

    /** Search backwards for the first rule that matches. */
    method Apply(r: Route, permit: bool) returns (decision: bool)
      ensures decision == Decide(rules, r, permit)
    {
      hide Matches, Decide;
      var state := new AttrState(r.attrs);
      var i := |rules|;
      while i > 0
        invariant 0 <= i <= |rules| && state.Describes(r.attrs)
        invariant forall j :: i <= j < |rules| ==> !Matches(rules[j].test, r)
      {
        var yes := RuleMatches(rules[i - 1].test, r, state);
        if yes {
          LastMatchDecides(rules, r, permit, i);
          return rules[i - 1].permit;
        }
        i := i - 1;
      }
      LastMatchDecides(rules, r, permit, 0);
      decision := permit;
    }
  }
}
