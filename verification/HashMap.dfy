/** The chained hash map (src/hashmap.c). A chain is a sequence, head first; an entry is an
    object, so that the same entry can be told from an equal one. */
module HashMap {
  import opened Wrappers

  // ----- bit masks and powers of two

  /** Bitwise and of two numbers. */
  function BitAnd(x: nat, y: nat): nat {
    if x == 0 || y == 0 then 0
    else (if x % 2 == 1 && y % 2 == 1 then 1 else 0) + 2 * BitAnd(x / 2, y / 2)
  }

  predicate IsPowerOfTwo(v: nat) {
    v != 0 && BitAnd(v, v - 1) == 0
  }

  /** The chain a hash belongs to, as hashmap.c picks it. */
  function BucketIndex(hash: nat, count: nat): nat
    requires count > 0
  {
    BitAnd(hash, count - 1)
  }

  lemma {:induction false} AndSelf(x: nat)
    ensures BitAnd(x, x) == x
  {
    if x != 0 {
      AndSelf(x / 2);
    }
  }

  lemma HalfIsPowerOfTwo(v: nat)
    requires IsPowerOfTwo(v) && v > 1
    ensures v % 2 == 0 && IsPowerOfTwo(v / 2)
  {
    if v % 2 == 1 {
      assert (v - 1) / 2 == v / 2;
      AndSelf(v / 2);
      assert false;
    }
    assert (v - 1) / 2 == v / 2 - 1;
  }

  lemma {:induction false} DoubleIsPowerOfTwo(v: nat)
    requires IsPowerOfTwo(v)
    ensures IsPowerOfTwo(2 * v)
  {
    assert (2 * v) / 2 == v && (2 * v - 1) / 2 == v - 1;
  }

  lemma ModOfDouble(h: nat, d: nat)
    requires d > 0
    ensures h % (2 * d) == h % 2 + 2 * ((h / 2) % d)
  {
    var q, r := (h / 2) / d, (h / 2) % d;
    assert h / 2 == d * q + r;
    assert h == (2 * d) * q + (2 * r + h % 2) by {
      assert h == 2 * (h / 2) + h % 2;
      assert 2 * (d * q) == (2 * d) * q;
    }
    ModUnique(h, 2 * d, q, 2 * r + h % 2);
  }

  lemma MulAtLeast(c: nat, d: int)
    ensures d >= 1 ==> c * d >= c
    ensures d <= -1 ==> c * d + c <= 0
  {
  }

  lemma ModUnique(h: nat, c: nat, q: nat, r: nat)
    requires c > 0 && h == c * q + r && r < c
    ensures h % c == r
  {
    var q', r' := h / c, h % c;
    assert c * (q - q') == r' - r;
    MulAtLeast(c, q - q');
  }

  /** Masking with a power of two less one is taking the remainder, so hashmap.c (mask) and
      rib4.c (remainder) always pick the same chain. */
  lemma {:induction false} MaskIsRemainder(hash: nat, count: nat)
    requires IsPowerOfTwo(count)
    ensures BucketIndex(hash, count) == hash % count < count
    decreases count
  {
    if count > 1 {
      HalfIsPowerOfTwo(count);
      assert (count - 1) / 2 == count / 2 - 1 && (count - 1) % 2 == 1;
      MaskIsRemainder(hash / 2, count / 2);
      ModOfDouble(hash, count / 2);
      if hash == 0 {
      } else {
        assert BitAnd(hash, count - 1) == hash % 2 + 2 * BitAnd(hash / 2, count / 2 - 1);
      }
    }
  }

  // ----- chains

  class Entry<K, V> {
    const key: K
    const value: V
    const hash: nat

    constructor (key: K, value: V, hash: nat)
      ensures this.key == key && this.value == value && this.hash == hash
    {
      this.key, this.value, this.hash := key, value, hash;
    }
  }

  ghost predicate NoDup<T>(s: seq<T>) {
    forall i, j :: 0 <= i < j < |s| ==> s[i] != s[j]
  }

  ghost function Elems<T>(s: seq<T>): set<T> {
    set x | x in s
  }

  /** All entries on the chains. */
  ghost function Members<K, V>(buckets: seq<seq<Entry<K, V>>>): set<Entry<K, V>> {
    set i, e | 0 <= i < |buckets| && e in buckets[i] :: e
  }

  /** Every entry is on the chain of its own hash, once. */
  ghost predicate Placed<K(!new), V>(buckets: seq<seq<Entry<K, V>>>, hash: K -> nat) {
    && |buckets| > 0
    && (forall i, e :: 0 <= i < |buckets| && e in buckets[i] ==>
         e.hash == hash(e.key) && BucketIndex(e.hash, |buckets|) == i)
    && (forall i :: 0 <= i < |buckets| ==> NoDup(buckets[i]))
  }

  lemma PlacedMember<K(!new), V>(buckets: seq<seq<Entry<K, V>>>, hash: K -> nat, e: Entry<K, V>)
    requires Placed(buckets, hash) && IsPowerOfTwo(|buckets|)
    ensures BucketIndex(e.hash, |buckets|) < |buckets|
    ensures e in Members(buckets) <==> e in buckets[BucketIndex(e.hash, |buckets|)]
  {
    MaskIsRemainder(e.hash, |buckets|);
  }

  /** Pushing an entry on its chain adds that entry and keeps every placement. */
  lemma PushKeeps<K(!new), V>(buckets: seq<seq<Entry<K, V>>>, hash: K -> nat, e: Entry<K, V>)
    requires Placed(buckets, hash) && IsPowerOfTwo(|buckets|)
    requires e !in Members(buckets) && e.hash == hash(e.key)
    ensures var i := BucketIndex(e.hash, |buckets|);
            && i < |buckets|
            && Placed(buckets[i := [e] + buckets[i]], hash)
            && Members(buckets[i := [e] + buckets[i]]) == Members(buckets) + {e}
  {
    MaskIsRemainder(e.hash, |buckets|);
    var i := BucketIndex(e.hash, |buckets|);
    var b := buckets[i := [e] + buckets[i]];
    assert e !in buckets[i];
    assert e in b[i];
    forall x ensures x in Members(b) <==> x in Members(buckets) + {e} {
      if x in Members(buckets) {
        var j :| 0 <= j < |buckets| && x in buckets[j];
        assert x in b[j];
      }
    }
  }

  /** Dropping position k from chain i removes that entry and keeps every placement. */
  lemma DropKeeps<K(!new), V>(buckets: seq<seq<Entry<K, V>>>, hash: K -> nat, i: nat, k: nat)
    requires Placed(buckets, hash) && i < |buckets| && k < |buckets[i]|
    ensures var b := buckets[i := buckets[i][..k] + buckets[i][k + 1..]];
            Placed(b, hash) && Members(b) == Members(buckets) - {buckets[i][k]}
  {
    var c := buckets[i];
    var e := c[k];
    var c' := c[..k] + c[k + 1..];
    var b := buckets[i := c'];
    DropElement(c, k);
    assert e in buckets[i];
    forall x ensures x in Members(b) <==> x in Members(buckets) && x != e {
      if x in Members(buckets) && x != e {
        var j :| 0 <= j < |buckets| && x in buckets[j];
        assert x in b[j];
      }
      if x in Members(b) {
        var j :| 0 <= j < |b| && x in b[j];
        OneChain(buckets, hash, x, j);
      }
    }
  }

  /** An entry on chain j is on no other chain. */
  lemma OneChain<K(!new), V>(buckets: seq<seq<Entry<K, V>>>, hash: K -> nat, e: Entry<K, V>, j: nat)
    requires Placed(buckets, hash) && j < |buckets| && e in buckets[j]
    ensures forall i :: 0 <= i < |buckets| && i != j ==> e !in buckets[i]
  {
    assert BucketIndex(e.hash, |buckets|) == j;
  }

  lemma DropElement<T>(c: seq<T>, k: nat)
    requires NoDup(c) && k < |c|
    ensures NoDup(c[..k] + c[k + 1..])
    ensures forall x :: x in c[..k] + c[k + 1..] <==> x in c && x != c[k]
  {
    var c' := c[..k] + c[k + 1..];
    forall x ensures x in c' <==> x in c && x != c[k] {
      if x in c && x != c[k] {
        var j :| 0 <= j < |c| && c[j] == x;
        assert c'[if j < k then j else j - 1] == x;
      }
      if x in c' {
        var j :| 0 <= j < |c'| && c'[j] == x;
        assert x == c[if j < k then j else j + 1];
      }
    }
  }

  lemma NextChain<K(!new), V>(buckets: seq<seq<Entry<K, V>>>, hash: K -> nat, i: nat)
    requires Placed(buckets, hash) && i < |buckets|
    ensures Members(buckets[..i + 1]) == Members(buckets[..i]) + Elems(buckets[i])
    ensures NoDup(buckets[i])
    ensures forall e :: e in buckets[i] ==> e.hash == hash(e.key) && e !in Members(buckets[..i])
  {
    var b := buckets[..i + 1];
    forall e ensures e in Members(b) <==> e in Members(buckets[..i]) || e in buckets[i] {
      if e in Members(b) {
        var j :| 0 <= j < |b| && e in b[j];
        assert j < i ==> e in buckets[..i][j];
      }
      if e in Members(buckets[..i]) {
        var j :| 0 <= j < i && e in buckets[..i][j];
        assert e in b[j];
      }
      if e in buckets[i] {
        assert e in b[i];
      }
    }
    forall e | e in Members(buckets[..i]) ensures e !in buckets[i] {
      var j :| 0 <= j < i && e in buckets[..i][j];
      OneChain(buckets, hash, e, j);
    }
  }

  class Map<K(==, !new), V> {
    const hash: K -> nat
    var buckets: seq<seq<Entry<K, V>>>
    var len: nat

    ghost predicate Valid()
      reads this
    {
      && IsPowerOfTwo(|buckets|)
      && Placed(buckets, hash)
      && len == |Members(buckets)|
    }

    ghost function Contents(): set<Entry<K, V>>
      reads this
    {
      Members(buckets)
    }

    constructor (hash: K -> nat)
      ensures Valid() && Contents() == {} && this.hash == hash
    {
      this.hash := hash;
      len := 0;
      buckets := seq(16, _ => []);
      new;
      assert IsPowerOfTwo(16) by {
        DoubleIsPowerOfTwo(1);
        DoubleIsPowerOfTwo(2);
        DoubleIsPowerOfTwo(4);
        DoubleIsPowerOfTwo(8);
      }
      assert Members(buckets) == {};
    }

    /** Move the entries of one chain to the table `table`. */
    method MoveChain(table: seq<seq<Entry<K, V>>>, chain: seq<Entry<K, V>>) returns (r: seq<seq<Entry<K, V>>>)
      requires Placed(table, hash) && IsPowerOfTwo(|table|)
      requires NoDup(chain) && (forall e :: e in chain ==> e.hash == hash(e.key) && e !in Members(table))
      ensures |r| == |table| && Placed(r, hash)
      ensures Members(r) == Members(table) + Elems(chain)
    {
      r := table;
      var rest := chain;
      assert Elems(chain[..0]) == {};
      while rest != []
        invariant |rest| <= |chain| && rest == chain[|chain| - |rest|..]
        invariant |r| == |table| && Placed(r, hash)
        invariant Members(r) == Members(table) + Elems(chain[..|chain| - |rest|])
      {
        hide Placed, Members, BucketIndex;
        var entry := rest[0];
        ghost var n := |chain| - |rest|;
        assert entry == chain[n] && chain[..n + 1] == chain[..n] + [entry];
        PushKeeps(r, hash, entry);
        var idx := BucketIndex(entry.hash, |r|);
        r := r[idx := [entry] + r[idx]];
        rest := rest[1..];
      }
      assert chain[..|chain|] == chain;
    }

    /** Move every entry onto a chain of a table twice the size. */
    method Resize(newCount: nat, plentiful: bool) returns (err: Err)
      requires Valid()
      modifies this`buckets
      ensures Valid() && Contents() == old(Contents())
      ensures err == Invalid <==> !IsPowerOfTwo(newCount)
      ensures err == Ok ==> |buckets| == newCount
      ensures err == Ok || err == Invalid || (err == NoMem && !plentiful)
      ensures err != Ok ==> buckets == old(buckets)
    {
      if !IsPowerOfTwo(newCount) {
        return Invalid;
      }
      var ok := TryAlloc(plentiful);
      if !ok {
        return NoMem;
      }
      var table: seq<seq<Entry<K, V>>> := seq(newCount, _ => []);
      var source := buckets;
      assert Members(table) == {} == Members(source[..0]);
      var i := 0;
      while i < |source|
        invariant 0 <= i <= |source|
        invariant |table| == newCount && Placed(table, hash)
        invariant Members(table) == Members(source[..i])
      {
        hide Placed, Members, IsPowerOfTwo;
        NextChain(source, hash, i);
        table := MoveChain(table, source[i]);
        i := i + 1;
      }
      assert source[..i] == source;
      buckets := table;
      return Ok;
    }

    function Threshold(count: nat): nat {
      count - count / 4
    }

    /** Add an entry for key, growing the table first when it is three quarters full. */
    method Insert(key: K, value: V, plentiful: bool) returns (err: Err, entry: Entry?<K, V>)
      requires Valid()
      modifies this
      ensures Valid()
      ensures err == Ok || (err == NoMem && !plentiful)
      ensures err == Ok ==>
                && entry != null && fresh(entry) && entry.key == key && entry.value == value && entry.hash == hash(key)
                && entry !in old(Contents()) && Contents() == old(Contents()) + {entry}
      ensures err != Ok ==> entry == null && Contents() == old(Contents())
    {
      hide Placed, IsPowerOfTwo, BucketIndex;
      entry := null;
      if len >= Threshold(|buckets|) {
        DoubleIsPowerOfTwo(|buckets|);
        err := Resize(2 * |buckets|, plentiful);
        if err != Ok {
          return;
        }
      }
      var ok := TryAlloc(plentiful);
      if !ok {
        return NoMem, null;
      }
      ghost var before := Contents();
      entry := new Entry<K, V>(key, value, hash(key));
      assert entry !in before;
      PushKeeps(buckets, hash, entry);
      var idx := BucketIndex(entry.hash, |buckets|);
      buckets := buckets[idx := [entry] + buckets[idx]];
      len := len + 1;
      err := Ok;
    }

    /** The first entry for key on its chain, if the map has any entry for key. */
    method FindFirst(key: K) returns (entry: Entry?<K, V>)
      requires Valid()
      ensures entry == null <==> forall e :: e in Contents() ==> e.key != key
      ensures entry != null ==> entry in Contents() && entry.key == key
    {
      MaskIsRemainder(hash(key), |buckets|);
      var chain := buckets[BucketIndex(hash(key), |buckets|)];
      assert forall e :: e in Contents() && e.key == key ==> e in chain;
      var i := 0;
      while i < |chain|
        invariant 0 <= i <= |chain|
        invariant forall j :: 0 <= j < i ==> chain[j].key != key
      {
        if chain[i].hash == hash(key) && chain[i].key == key {
          assert chain[i] in chain;
          return chain[i];
        }
        assert chain[i] in chain;
        i := i + 1;
      }
      return null;
    }

    /** Take one entry off its chain, located by remainder as rib4.c does. */
    method Unlink(entry: Entry<K, V>) returns (found: bool)
      requires Valid()
      modifies this
      ensures Valid()
      ensures found <==> entry in old(Contents())
      ensures Contents() == old(Contents()) - {entry}
    {
      hide IsPowerOfTwo, BucketIndex;
      PlacedMember(buckets, hash, entry);
      MaskIsRemainder(entry.hash, |buckets|);
      var idx := entry.hash % |buckets|;
      var chain := buckets[idx];
      var k := 0;
      while k < |chain|
        invariant 0 <= k <= |chain|
        invariant forall j :: 0 <= j < k ==> chain[j] != entry
      {
        if chain[k] == entry {
          DropKeeps(buckets, hash, idx, k);
          buckets := buckets[idx := chain[..k] + chain[k + 1..]];
          len := len - 1;
          return true;
        }
        k := k + 1;
      }
      return false;
    }

    /** Put an entry that is not on any chain back on the head of its own. */
    method Relink(entry: Entry<K, V>)
      requires Valid() && entry !in Contents() && entry.hash == hash(entry.key)
      modifies this
      ensures Valid() && Contents() == old(Contents()) + {entry}
    {
      hide IsPowerOfTwo, BucketIndex, Placed;
      PushKeeps(buckets, hash, entry);
      MaskIsRemainder(entry.hash, |buckets|);
      var idx := entry.hash % |buckets|;
      buckets := buckets[idx := [entry] + buckets[idx]];
      len := len + 1;
    }
  }
}
