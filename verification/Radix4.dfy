/** The binary radix tree behind longest-prefix match (src/radix4.c).

    The tree is a linked structure of nodes. The ghost map `at` names every node by the
    bit string that leads to it from the root; the tree's meaning is the finite map
    `Model()` from bit strings to values.

    Allocation may fail: with `plentiful` set every allocation succeeds, otherwise each
    one succeeds or fails arbitrarily. */
module Radix4 {
  import opened Wrappers
  import opened Prefix4

  class Node<V> {
    var child0: Node?<V>
    var child1: Node?<V>
    var value: Option<V>

    constructor ()
      ensures child0 == null && child1 == null && value == None
    {
      child0, child1, value := null, null, None;
    }

    function Child(b: bool): Node?<V>
      reads this
    {
      if b then child1 else child0
    }

    method SetChild(b: bool, n: Node?<V>)
      modifies this`child0, this`child1
      ensures Child(b) == n && Child(!b) == old(Child(!b))
    {
      if b {
        child1 := n;
      } else {
        child0 := n;
      }
    }

    predicate Empty()
      reads this
    {
      value.None? && child0 == null && child1 == null
    }
  }

  ghost function NodeAt<V>(at: map<Bits, Node<V>>, w: Bits): Node?<V> {
    if w in at then at[w] else null
  }

  ghost predicate ParentClosed<V>(at: map<Bits, Node<V>>) {
    forall w {:trigger Parent(w)} :: w in at && w != [] ==> Parent(w) in at
  }

  ghost function Parent(w: Bits): Bits
    requires w != []
  {
    w[..|w| - 1]
  }

  lemma SnocInjective(u: Bits, x: bool, w: Bits, b: bool)
    ensures u + [x] == w + [b] <==> u == w && x == b
    ensures Parent(u + [x]) == u
  {
    assert (u + [x])[..|u|] == u && (w + [b])[..|w|] == w;
    assert (u + [x])[|u|] == x && (w + [b])[|w|] == b;
  }

  lemma LeafHasNoDescendant<V>(at: map<Bits, Node<V>>, cut: Bits)
    requires cut + [false] !in at && cut + [true] !in at
    ensures forall u {:trigger Parent(u)} :: u in at && u != [] ==> Parent(u) != cut
  {
    forall u | u in at && u != [] ensures Parent(u) != cut {
      if u[|u| - 1] {
        assert u == Parent(u) + [true];
      } else {
        assert u == Parent(u) + [false];
      }
    }
  }

  /** Naming a new node, or dropping one, changes only its own entry. */
  lemma NodeAtChange<V>(at: map<Bits, Node<V>>, w: Bits, b: bool, child: Node<V>, u: Bits, x: bool)
    ensures NodeAt(at[w + [b] := child], u + [x]) == if u == w && x == b then child else NodeAt(at, u + [x])
    ensures NodeAt(at - {w + [b]}, u + [x]) == if u == w && x == b then null else NodeAt(at, u + [x])
  {
    SnocInjective(u, x, w, b);
  }

  /** The name w holds a value or leads to another name. */
  ghost predicate Alive<V>(names: set<Bits>, m: map<Bits, V>, w: Bits) {
    w in m || w + [false] in names || w + [true] in names
  }

  ghost predicate AllAlive<V>(names: set<Bits>, m: map<Bits, V>) {
    forall w {:trigger Alive(names, m, w)} :: w in names ==> Alive(names, m, w)
  }

  /** The names on the way to `key` at depths from .. to. */
  ghost function NewNames(key: Bits, from: nat, to: nat): set<Bits>
    requires to <= |key|
  {
    set i | from <= i <= to :: key[..i]
  }

  lemma AliveInLarger<V>(small: set<Bits>, large: set<Bits>, m: map<Bits, V>)
    requires small <= large && AllAlive(small, m)
    ensures forall w {:trigger Alive(large, m, w)} :: w in small ==> Alive(large, m, w)
  {
    forall w | w in small ensures Alive(large, m, w) {
      assert Alive(small, m, w);
    }
  }

  lemma AliveAfterCut<V>(names: set<Bits>, m: map<Bits, V>, w: Bits, b: bool, u: Bits)
    requires Alive(names, m, u) && u != w
    ensures Alive(names - {w + [b]}, m, u)
  {
    SnocInjective(u, false, w, b);
    SnocInjective(u, true, w, b);
  }

  /** The deepest of the new names holds no value and leads nowhere. */
  lemma NewestIsDeadEnd<V>(pre: map<Bits, Node<V>>, m: map<Bits, V>, key: Bits, from: nat, to: nat)
    requires from <= to <= |key| && ParentClosed(pre) && m.Keys <= pre.Keys
    requires key[..to] !in pre
    ensures !Alive(pre.Keys + NewNames(key, from, to), m, key[..to])
  {
    SnocInjective(key[..to], false, [], false);
    SnocInjective(key[..to], true, [], false);
  }

  lemma NewNamesStep(key: Bits, from: nat, to: nat)
    requires 0 < to <= |key|
    ensures from <= to ==> NewNames(key, from, to) == NewNames(key, from, to - 1) + {key[..to]}
    ensures key[..to] !in NewNames(key, from, to - 1)
    ensures from > to ==> NewNames(key, from, to) == {}
  {
    forall i | from <= i <= to - 1 ensures key[..i] != key[..to] {
      assert |key[..i]| != |key[..to]|;
    }
  }

  lemma NewNamesNone(key: Bits, from: nat, to: nat)
    requires to <= |key|
    ensures from > to ==> NewNames(key, from, to) == {}
  {
  }

  /** With the whole way to `key` named, only `key` itself can be a dead end. */
  lemma WholePathAlive<V>(pre: set<Bits>, m: map<Bits, V>, key: Bits, from: nat, w: Bits)
    requires AllAlive(pre, m) && w in pre + NewNames(key, from, |key|) && w != key
    ensures Alive(pre + NewNames(key, from, |key|), m, w)
  {
    var names := pre + NewNames(key, from, |key|);
    if w in pre {
      AliveInLarger(pre, names, m);
    } else {
      var i :| from <= i <= |key| && w == key[..i];
      assert key[..|key|] == key;
      assert key[..i + 1] in names;
      if key[i] {
        assert key[..i + 1] == w + [true];
      } else {
        assert key[..i + 1] == w + [false];
      }
    }
  }

  lemma DistinctNames(key: Bits, to: nat)
    requires to <= |key|
    ensures forall i :: 0 <= i < to ==> key[..i] != key[..to]
  {
    forall i | 0 <= i < to ensures key[..i] != key[..to] {
      assert |key[..i]| != |key[..to]|;
    }
  }

  /** Once the way to `key` leaves the names it does not come back. */
  lemma LeftForGood<V>(pre: map<Bits, Node<V>>, key: Bits, from: nat, i: nat)
    requires ParentClosed(pre) && from <= i <= |key| && key[..from] !in pre
    ensures key[..i] !in pre
    decreases i
  {
    if from < i {
      LeftForGood(pre, key, from, i - 1);
      assert Parent(key[..i]) == key[..i - 1];
    }
  }

  lemma RootIsNamed<V>(at: map<Bits, Node<V>>, w: Bits)
    requires ParentClosed(at) && w in at
    ensures [] in at
    decreases |w|
  {
    if w != [] {
      RootIsNamed(at, Parent(w));
    }
  }

  /** The value bound to the longest key among the first n bits' prefixes. */
  ghost function LongestMatch<V>(m: map<Bits, V>, bits: Bits, n: nat): Option<V>
    requires n <= |bits|
  {
    if bits[..n] in m then Some(m[bits[..n]])
    else if n == 0 then None
    else LongestMatch(m, bits, n - 1)
  }

  /** LongestMatch is longest-prefix match: nothing exactly when no key is a prefix of the
      bits, and otherwise the value of a matching key that no other matching key exceeds. */
  lemma {:induction false} LongestMatchMeaning<V>(m: map<Bits, V>, bits: Bits, n: nat)
    requires n <= |bits|
    ensures LongestMatch(m, bits, n).None? <==> forall k :: k in m && |k| <= n ==> !(k <= bits)
    ensures LongestMatch(m, bits, n).Some? ==>
              exists k :: k in m && k <= bits && LongestMatch(m, bits, n) == Some(m[k]) &&
                (forall k' :: k' in m && |k'| <= n && k' <= bits ==> |k'| <= |k|)
  {
    assert forall k :: k in m && k <= bits ==> k == bits[..|k|];
    if bits[..n] in m {
      assert bits[..n] <= bits;
    } else if n > 0 {
      LongestMatchMeaning(m, bits, n - 1);
    }
  }

  /** Below the last named prefix of the bits there is nothing more to find. */
  lemma LongestMatchStops<V>(at: map<Bits, Node<V>>, m: map<Bits, V>, bits: Bits, from: nat, n: nat)
    requires ParentClosed(at) && m.Keys <= at.Keys
    requires 0 < from <= n <= |bits| && bits[..from] !in at
    ensures LongestMatch(m, bits, n) == LongestMatch(m, bits, from - 1)
    decreases n
  {
    LeftForGood(at, bits, from, n);
    if from < n {
      LongestMatchStops(at, m, bits, from, n - 1);
    }
  }

  class Tree<V> {
    var root: Node?<V>
    var len: nat
    ghost var at: map<Bits, Node<V>>
    ghost var Repr: set<Node<V>>

    // ----- invariant

    /** The node named w has exactly the children the map names. */
    ghost predicate Linked(w: Bits)
      requires w in at && at[w] in Repr
      reads this`at, this`Repr, Repr
    {
      && at[w].Child(false) == NodeAt(at, w + [false])
      && at[w].Child(true) == NodeAt(at, w + [true])
    }

    ghost predicate Shape()
      reads this`root, this`at, this`Repr, Repr
    {
      && root == NodeAt(at, [])
      && (forall w {:trigger at[w]} :: w in at ==> at[w] in Repr)
      && (forall w {:trigger Linked(w)} :: w in at ==> Linked(w))
      && (forall w {:trigger w in at} :: w in at ==> |w| <= 32)
      && ParentClosed(at)
      && (forall v, w :: v in at && w in at && at[v] == at[w] ==> v == w)
    }

    ghost predicate Valid()
      reads this, Repr
    {
      && Shape()
      && AllAlive(at.Keys, Model())
      && len == |Model()|
    }

    lemma EmptyIsNotAlive(w: Bits)
      requires Shape() && w in at
      ensures at[w] in Repr
      ensures at[w].Empty() <==> !Alive(at.Keys, Model(), w)
    {
      assert Linked(w);
    }

    /** The finite map the tree stands for. */
    ghost function Model(): (m: map<Bits, V>)
      reads this`at, this`Repr, Repr
    {
      map w | w in at && at[w] in Repr && at[w].value.Some? :: at[w].value.value
    }

    constructor ()
      ensures Valid() && Model() == map[] && Repr == {}
    {
      root, len := null, 0;
      at := map[];
      Repr := {};
    }

    // ----- structural steps

    /** A new name for an empty node binds nothing. */
    lemma AttachModel(m: map<Bits, V>, pre: map<Bits, Node<V>>, name: Bits, child: Node<V>)
      requires name !in pre && at == pre[name := child] && child.value.None? && m.Keys <= pre.Keys
      requires forall w :: w in at ==> at[w] in Repr
      requires forall w :: w in pre ==> pre[w].value == if w in m then Some(m[w]) else None
      ensures Model() == m
    {
      forall w ensures w in Model() <==> w in m {
        assert w in pre ==> at[w] == pre[w];
      }
      forall w | w in m ensures Model()[w] == m[w] {
        assert at[w] == pre[w];
      }
    }

    /** Hang a new node below the node named w. */
    method Attach(ghost w: Bits, parent: Node<V>, b: bool, child: Node<V>)
      requires Shape() && w in at && at[w] == parent && |w| < 32
      requires w + [b] !in at && child !in Repr
      requires child.Empty()
      modifies this`at, this`Repr, parent`child0, parent`child1
      ensures Shape()
      ensures at == old(at)[w + [b] := child] && Repr == old(Repr) + {child}
      ensures Model() == old(Model())
      ensures child.Empty()
      ensures parent.value == old(parent.value) && parent.Child(b) == child
    {
      ghost var m, pre := Model(), at;
      assert forall u :: u in pre ==> pre[u].value == if u in m then Some(m[u]) else None;
      assert Linked(w);
      Hang(w, parent, b, child);
      hide Model, Linked;
      AttachModel(m, pre, w + [b], child);
    }

    method Hang(ghost w: Bits, parent: Node<V>, b: bool, child: Node<V>)
      requires Shape() && w in at && at[w] == parent && |w| < 32
      requires w + [b] !in at && child !in Repr
      requires child.Empty()
      modifies this`at, this`Repr, parent`child0, parent`child1
      ensures Shape()
      ensures at == old(at)[w + [b] := child] && Repr == old(Repr) + {child}
      ensures child.Empty()
      ensures parent.value == old(parent.value) && parent.Child(b) == child
    {
      assert Linked(w);
      SnocInjective(w + [b], false, w, b);
      SnocInjective(w + [b], true, w, b);
      parent.SetChild(b, child);
      at := at[w + [b] := child];
      Repr := Repr + {child};
      forall u | u in at ensures Linked(u) {
        NodeAtChange(old(at), w, b, child, u, false);
        NodeAtChange(old(at), w, b, child, u, true);
        assert u in old(at) ==> old(Linked(u));
      }
      SnocInjective(w, b, w, b);
    }

    /** Cut off an empty node below the node named w. */
    method Detach(ghost w: Bits, parent: Node<V>, b: bool)
      requires Shape() && w in at && at[w] == parent
      requires w + [b] in at && at[w + [b]].Empty()
      modifies this`at, parent`child0, parent`child1
      ensures Shape()
      ensures at == old(at) - {w + [b]}
      ensures Model() == old(Model())
      ensures parent.value == old(parent.value) && parent.Child(!b) == old(parent.Child(!b)) && parent.Child(b) == null
    {
      ghost var cut := w + [b];
      assert Linked(w) && Linked(cut);
      assert |cut| == |w| + 1;
      LeafHasNoDescendant(at, cut);
      parent.SetChild(b, null);
      at := at - {cut};
      forall u | u in at ensures Linked(u) {
        NodeAtChange(old(at), w, b, parent, u, false);
        NodeAtChange(old(at), w, b, parent, u, true);
        assert old(Linked(u));
      }
    }

    // ----- insertion

    /** The tree while a path towards `key` is being built: `pre` plus valueless nodes at depths from .. to. */
    ghost predicate Partial(pre: map<Bits, Node<V>>, m: map<Bits, V>, key: Bits, from: nat, to: nat, path: seq<Node<V>>)
      requires to <= |key| && to < |path|
      reads this, Repr
    {
      && Shape() && Model() == m
      && pre.Keys <= at.Keys && (forall w :: w in pre ==> at[w] == pre[w])
      && at.Keys == pre.Keys + NewNames(key, from, to)
      && (forall i :: 0 <= i <= to ==> key[..i] in at && path[i] == at[key[..i]])
    }

    /** `pre` was a whole tree for m, and the way to `key` leaves it at depth from. */
    static ghost predicate Before(pre: map<Bits, Node<V>>, m: map<Bits, V>, key: Bits, from: nat) {
      && ParentClosed(pre) && AllAlive(pre.Keys, m) && m.Keys <= pre.Keys
      && (forall i :: from <= i <= |key| ==> key[..i] !in pre)
    }

    /** Free the empty nodes built so far on the way to `key`, deepest first. */
    method Unwind(ghost pre: map<Bits, Node<V>>, ghost m: map<Bits, V>, ghost key: Bits, ghost from: nat,
                  depth: nat, path: seq<Node<V>>, addr: Addr)
      requires depth <= |key| <= 32 && |path| == depth + 1 && key <= ToBits(addr)
      requires Partial(pre, m, key, from, depth, path) && Before(pre, m, key, from)
      modifies this`root, this`at, this`Repr, Repr
      ensures Shape() && at == pre && Model() == m && Repr == old(Repr)
    {
      hide Partial, Before, Shape, Model;
      var bit := depth;
      while bit > 0 && path[bit].Empty()
        invariant 0 <= bit <= depth
        invariant Partial(pre, m, key, from, bit, path)
        invariant Repr == old(Repr)
      {
        UnwindStep(pre, m, key, from, bit, path, Bit(addr, bit - 1));
        bit := bit - 1;
      }
      UnwindRoot(pre, m, key, from, bit, path);
    }

    method UnwindStep(ghost pre: map<Bits, Node<V>>, ghost m: map<Bits, V>, ghost key: Bits, ghost from: nat,
                      bit: nat, path: seq<Node<V>>, b: bool)
      requires 0 < bit <= |key| && bit < |path| && b == key[bit - 1]
      requires Partial(pre, m, key, from, bit, path) && Before(pre, m, key, from)
      requires path[bit].Empty()
      modifies this`at, this`Repr, Repr
      ensures Partial(pre, m, key, from, bit - 1, path)
      ensures Repr == old(Repr)
    {
      hide Shape, Model, AllAlive, NewNames, ParentClosed;
      assert key[..bit] == key[..bit - 1] + [key[bit - 1]];
      EmptyIsNotAlive(key[..bit]);
      EmptyIsNotAlive(key[..bit - 1]);
      AliveInLarger(pre.Keys, at.Keys, Model());
      NewNamesStep(key, from, bit);
      assert key[..bit] !in pre;
      DistinctNames(key, bit);
      Detach(key[..bit - 1], path[bit - 1], b);
    }

    method UnwindRoot(ghost pre: map<Bits, Node<V>>, ghost m: map<Bits, V>, ghost key: Bits, ghost from: nat,
                      bit: nat, path: seq<Node<V>>)
      requires bit <= |key| && bit < |path|
      requires Partial(pre, m, key, from, bit, path) && Before(pre, m, key, from)
      requires bit == 0 || !path[bit].Empty()
      modifies this`root, this`at
      ensures Shape() && at == pre && Model() == m
    {
      hide Shape, Model;
      assert Shape();
      EmptyIsNotAlive(key[..bit]);
      AliveInLarger(pre.Keys, at.Keys, Model());
      if from <= bit {
        NewestIsDeadEnd(pre, Model(), key, from, bit);
      }
      if path[0].Empty() {
        RootPath();
        assert path[0] == root by { assert key[..0] == []; }
        DropRoot();
        assert pre.Keys <= {[]} && (key[..0] == [] && key[..0] !in pre);
      }
    }

    lemma RootPath()
      requires Shape() && [] in at
      ensures root == at[[]]
    {
    }

    method DropRoot()
      requires Shape() && root != null && root.Empty()
      modifies this`root, this`at
      ensures Shape() && at == map[] && Model() == map[] && root == null
      ensures old(at.Keys) == {[]} && old(Model()) == map[]
    {
      OnlyRoot();
      root := null;
      at := map[];
    }

    lemma OnlyRoot()
      requires Shape() && root != null && root.Empty()
      ensures at.Keys == {[]} && Model() == map[]
    {
      assert Linked([]);
      LeafHasNoDescendant(at, []);
      forall w | w in at ensures w == [] {
        if w != [] {
          NothingBelow(w);
        }
      }
    }

    lemma NothingBelow(w: Bits)
      requires ParentClosed(at) && w in at && w != []
      requires forall u {:trigger Parent(u)} :: u in at && u != [] ==> Parent(u) != []
      ensures false
      decreases |w|
    {
      NothingBelow(Parent(w));
    }

    /** One new node at depth bit + 1 on the way to `key`. */
    method Extend(ghost pre: map<Bits, Node<V>>, ghost m: map<Bits, V>, ghost key: Bits, ghost from: nat,
                  bit: nat, path: seq<Node<V>>, node: Node<V>, b: bool, child: Node<V>) returns (ghost from': nat)
      requires bit < |key| <= 32 && |path| == bit + 1 && node == path[bit] && b == key[bit]
      requires Partial(pre, m, key, from, bit, path) && Before(pre, m, key, from)
      requires from <= bit || from == |key| + 1
      requires key[..bit + 1] !in at && child !in Repr && child.Empty()
      modifies this`at, this`Repr, node`child0, node`child1
      ensures Partial(pre, m, key, from', bit + 1, path + [child]) && Before(pre, m, key, from')
      ensures from' <= bit + 1
      ensures Repr == old(Repr) + {child}
    {
      hide Shape, Model, AllAlive, NewNames, ParentClosed;
      assert key[..bit + 1] == key[..bit] + [b];
      from' := if from <= bit then from else bit + 1;
      forall i | from' <= i <= |key| ensures key[..i] !in pre {
        if from > bit {
          LeftForGood(pre, key, bit + 1, i);
        }
      }
      NewNamesStep(key, from', bit + 1);
      NewNamesNone(key, from, bit);
      NewNamesNone(key, from', bit);
      DistinctNames(key, bit + 1);
      Attach(key[..bit], node, b, child);
    }

    /** The child on the way to `key` is there exactly when its name is. */
    lemma Follow(pre: map<Bits, Node<V>>, m: map<Bits, V>, key: Bits, from: nat, bit: nat, path: seq<Node<V>>)
      requires bit < |key| && |path| == bit + 1
      requires Partial(pre, m, key, from, bit, path) && Before(pre, m, key, from)
      requires from <= bit || from == |key| + 1
      ensures path[bit] in Repr
      ensures path[bit].Child(key[bit]) == NodeAt(at, key[..bit + 1])
      ensures key[..bit + 1] !in at ==> key !in pre
      ensures key[..bit + 1] in at ==>
                from == |key| + 1 && Partial(pre, m, key, from, bit + 1, path + [at[key[..bit + 1]]])
    {
      hide Model, AllAlive, ParentClosed;
      assert key[..bit + 1] == key[..bit] + [key[bit]];
      assert Linked(key[..bit]);
      if key[bit] {
      } else {
      }
      NewNamesNone(key, |key| + 1, bit);
      NewNamesNone(key, |key| + 1, bit + 1);
      DistinctNames(key, bit + 1);
      assert key[..|key|] == key;
      if key[..bit + 1] !in pre {
        LeftForGood(pre, key, bit + 1, |key|);
      }
    }

    /** One step of the walk: follow the child, or build it. */
    method Advance(ghost pre: map<Bits, Node<V>>, ghost m: map<Bits, V>, ghost key: Bits, ghost from: nat,
                   bit: nat, path: seq<Node<V>>, b: bool, plentiful: bool) returns (child: Node?<V>, ghost from': nat)
      requires bit < |key| <= 32 && |path| == bit + 1 && b == key[bit]
      requires Partial(pre, m, key, from, bit, path) && Before(pre, m, key, from)
      requires from <= bit || (from == |key| + 1 && at == pre)
      modifies this`at, this`Repr, Repr
      ensures child == null ==>
                at == old(at) && from' == from && Partial(pre, m, key, from, bit, path) && !plentiful && key !in pre
      ensures child != null ==>
                && Partial(pre, m, key, from', bit + 1, path + [child]) && Before(pre, m, key, from')
                && (from' <= bit + 1 || (from' == |key| + 1 && at == pre))
      ensures fresh(Repr - old(Repr)) && old(Repr) <= Repr
    {
      hide Partial, Before;
      Follow(pre, m, key, from, bit, path);
      var parent := path[bit];
      child := parent.Child(b);
      from' := from;
      if child == null {
        var ok := TryAlloc(plentiful);
        if ok {
          var fresh_ := new Node<V>();
          from' := Extend(pre, m, key, from, bit, path, parent, b, fresh_);
          child := fresh_;
        }
      }
    }

    lemma Arrived(pre: map<Bits, Node<V>>, m: map<Bits, V>, key: Bits, from: nat, path: seq<Node<V>>)
      requires |path| == |key| + 1
      requires Partial(pre, m, key, from, |key|, path) && Before(pre, m, key, from)
      ensures Shape() && Model() == m
      ensures key in at && path[|key|] == at[key] && at[key] in Repr
      ensures forall w :: w in at ==> w == key || Alive(at.Keys, Model(), w)
    {
      hide Shape, Model, AllAlive, NewNames, ParentClosed, Alive;
      assert key[..|key|] == key;
      EmptyIsNotAlive(key);
      forall w | w in at && w != key ensures Alive(at.Keys, Model(), w) {
        WholePathAlive(pre.Keys, m, key, from, w);
      }
    }

    method EnsureRoot(ghost key: Bits, plentiful: bool) returns (top: Node?<V>, ghost from: nat)
      requires Valid()
      modifies this`root, this`at, this`Repr
      ensures top == null ==> at == old(at) == map[] && !plentiful
      ensures top == null ==> Shape() && Model() == old(Model())
      ensures top != null ==>
                Partial(old(at), old(Model()), key, from, 0, [top]) && Before(old(at), old(Model()), key, from)
      ensures from == 0 || (from == |key| + 1 && at == old(at))
      ensures fresh(Repr - old(Repr)) && old(Repr) <= Repr
    {
      hide Shape, Model, Partial, Before;
      from := |key| + 1;
      if root == null {
        NamesNeedRoot();
        var ok := TryAlloc(plentiful);
        if !ok {
          return null, from;
        }
        PlantRoot();
        from := 0;
        NewRootIsPartial(key);
      } else {
        OldRootIsPartial(key);
      }
      top := root;
    }

    method PlantRoot()
      requires root == null && at == map[]
      modifies this`root, this`at, this`Repr
      ensures root != null && fresh(root) && at == map[[] := root] && Repr == old(Repr) + {root}
      ensures Shape() && Model() == map[]
    {
      root := new Node<V>();
      at := map[[] := root];
      Repr := Repr + {root};
      assert Linked([]);
    }

    lemma NewRootIsPartial(key: Bits)
      requires Shape() && Model() == map[] && root != null && at == map[[] := root]
      ensures Partial(map[], map[], key, 0, 0, [root]) && Before(map[], map[], key, 0)
    {
      hide Shape, Model;
      assert key[..0] == [];
    }

    lemma OldRootIsPartial(key: Bits)
      requires Valid() && root != null
      ensures Partial(at, Model(), key, |key| + 1, 0, [root]) && Before(at, Model(), key, |key| + 1)
    {
      assert key[..0] == [];
      hide Model;
    }

    lemma NamesNeedRoot()
      requires Shape() && root == null
      ensures at == map[] && Model() == map[]
    {
      if w :| w in at {
        RootIsNamed(at, w);
      }
    }

    /** Walk to the node for the first prefixLen bits of addr, building what is missing. */
    method Descend(addr: Addr, prefixLen: nat, ghost key: Bits, plentiful: bool) returns (node: Node?<V>)
      requires Valid() && prefixLen == |key| <= 32 && key <= ToBits(addr)
      modifies this`root, this`at, this`Repr, Repr
      ensures Shape() && Model() == old(Model())
      ensures node == null ==> at == old(at) && !plentiful && key !in at
      ensures node != null ==>
                && key in at && node == at[key] && node in Repr
                && (forall w :: w in at ==> w == key || Alive(at.Keys, Model(), w))
      ensures fresh(Repr - old(Repr)) && old(Repr) <= Repr
    {
      hide Shape, Model, Partial, Before, AllAlive, NewNames, Bit, Alive;
      ghost var pre, m := at, Model();
      ghost var from: nat;
      node, from := EnsureRoot(key, plentiful);
      if node == null {
        return;
      }
      var path: seq<Node<V>> := [node];
      var bit := 0;
      while bit < prefixLen
        invariant 0 <= bit <= prefixLen && |path| == bit + 1
        invariant Partial(pre, m, key, from, bit, path) && Before(pre, m, key, from)
        invariant from <= bit || (from == |key| + 1 && at == pre)
        invariant fresh(Repr - old(Repr)) && old(Repr) <= Repr
      {
        node, from := Advance(pre, m, key, from, bit, path, Bit(addr, bit), plentiful);
        if node == null {
          Unwind(pre, m, key, from, bit, path, addr);
          return;
        }
        path, bit := path + [node], bit + 1;
      }
      node := path[bit];
      Arrived(pre, m, key, from, path);
    }

    /** Give the node named key another value, or none. */
    method SetValue(ghost key: Bits, node: Node<V>, value: Option<V>)
      requires Shape() && key in at && at[key] == node
      modifies node`value
      ensures Shape() && node.value == value
      ensures Model() == if value.Some? then old(Model())[key := value.value] else old(Model()) - {key}
      ensures old(node.value).Some? <==> key in old(Model())
    {
      ghost var m := Model();
      assert forall w :: w in at ==> at[w].value == if w in m then Some(m[w]) else None;
      node.value := value;
      forall w | w in at ensures Linked(w) {
        assert old(Linked(w));
      }
      hide Linked;
      assert Shape();
      ValueModel(m, key, node, value);
    }

    lemma ValueModel(m: map<Bits, V>, key: Bits, node: Node<V>, value: Option<V>)
      requires Shape() && key in at && at[key] == node && node.value == value && m.Keys <= at.Keys
      requires forall w :: w in at && at[w] != node ==> at[w].value == if w in m then Some(m[w]) else None
      ensures Model() == if value.Some? then m[key := value.value] else m - {key}
    {
      assert forall w :: w in at && w != key ==> at[w] != node;
      hide Linked;
    }

    lemma StillAlive(names: set<Bits>, m: map<Bits, V>, key: Bits, v: V)
      requires forall w :: w in names ==> w == key || Alive(names, m, w)
      ensures AllAlive(names, m[key := v])
      ensures |m[key := v]| == if key in m then |m| else |m| + 1
    {
      var m' := m[key := v];
      forall w | w in names ensures Alive(names, m', w) {
        assert w == key || Alive(names, m, w);
      }
      assert m'.Keys == m.Keys + {key};
    }

    /** Bind the first prefixLen bits of addr to v. A failed allocation at any depth leaves the
        tree exactly as it was; a key already bound never needs memory. */
    method Insert(addr: Addr, prefixLen: nat, v: V, plentiful: bool) returns (err: Err)
      requires Valid()
      modifies this, Repr
      ensures Valid() && fresh(Repr - old(Repr)) && old(Repr) <= Repr
      ensures prefixLen > 32 ==> err == Invalid
      ensures err == Ok || err == NoMem || (err == Invalid && prefixLen > 32)
      ensures err == Ok ==> Model() == old(Model())[ToBits(addr)[..prefixLen] := v]
      ensures err != Ok ==> Model() == old(Model()) && at == old(at)
      ensures err == NoMem ==> !plentiful && ToBits(addr)[..prefixLen] !in old(Model())
    {
      hide Shape, Alive, AllAlive, ToBits;
      if prefixLen > 32 {
        return Invalid;
      }
      ghost var key := ToBits(addr)[..prefixLen];
      ghost var m := Model();
      assert m.Keys <= at.Keys;
      hide Model;
      var node := Descend(addr, prefixLen, key, plentiful);
      if node == null {
        return NoMem;
      }
      StillAlive(at.Keys, m, key, v);
      if node.value.None? {
        len := len + 1;
      }
      SetValue(key, node, Some(v));
      return Ok;
    }

    // ----- removal

    ghost predicate OnPath(key: Bits, bit: nat, path: seq<Node<V>>)
      reads this`at
    {
      && bit <= |key| && bit < |path|
      && (forall i :: 0 <= i <= bit ==> key[..i] in at && path[i] == at[key[..i]])
    }

    lemma ChildOnPath(key: Bits, bit: nat, path: seq<Node<V>>)
      requires Shape() && OnPath(key, bit, path) && bit < |key|
      ensures path[bit] in Repr
      ensures path[bit].Child(key[bit]) == NodeAt(at, key[..bit + 1])
      ensures key[..bit + 1] !in at ==> key !in at
    {
      hide ParentClosed, Model;
      assert key[..bit + 1] == key[..bit] + [key[bit]];
      assert Linked(key[..bit]);
      assert key[..|key|] == key;
      if key[bit] {
      } else {
      }
      if key[..bit + 1] !in at {
        LeftForGood(at, key, bit + 1, |key|);
      }
    }

    /** The nodes from the root to the one named key, or none when there is no such node. */
    method FindPath(addr: Addr, prefixLen: nat, ghost key: Bits) returns (path: seq<Node<V>>)
      requires Shape() && prefixLen == |key| <= 32 && key <= ToBits(addr)
      ensures path == [] ==> key !in at
      ensures path != [] ==> |path| == |key| + 1 && OnPath(key, |key|, path)
    {
      if root == null {
        NamesNeedRoot();
        return [];
      }
      var top: Node<V> := root;
      path := [top];
      var bit := 0;
      assert key[..0] == [];
      hide Shape;
      while bit < prefixLen
        invariant 0 <= bit <= prefixLen && |path| == bit + 1
        invariant OnPath(key, bit, path)
      {
        ChildOnPath(key, bit, path);
        var child := path[bit].Child(Bit(addr, bit));
        if child == null {
          return [];
        }
        path := path + [child];
        bit := bit + 1;
      }
    }

    /** All names but the one at depth bit on the way to key are alive. */
    ghost predicate AliveBut(m: map<Bits, V>, key: Bits, bit: nat)
      requires bit <= |key|
      reads this`at
    {
      forall w {:trigger Alive(at.Keys, m, w)} :: w in at ==> w == key[..bit] || Alive(at.Keys, m, w)
    }

    method PruneStep(ghost m: map<Bits, V>, ghost key: Bits, bit: nat, path: seq<Node<V>>, b: bool)
      requires Shape() && Model() == m && OnPath(key, bit, path) && AliveBut(m, key, bit)
      requires 0 < bit && b == key[bit - 1] && path[bit].Empty()
      modifies this`at, Repr
      ensures Shape() && Model() == m && AliveBut(m, key, bit - 1) && OnPath(key, bit - 1, path)
    {
      hide Shape, Model, Alive;
      assert key[..bit] == key[..bit - 1] + [b];
      EmptyIsNotAlive(key[..bit - 1]);
      DistinctNames(key, bit);
      ghost var names := at.Keys;
      Detach(key[..bit - 1], path[bit - 1], b);
      forall w | w in at && w != key[..bit - 1] ensures Alive(at.Keys, m, w) {
        assert Alive(names, m, w);
        AliveAfterCut(names, m, key[..bit - 1], b, w);
      }
    }

    /** Free the nodes on the way to key that hold nothing any more, deepest first. */
    method Prune(ghost m: map<Bits, V>, ghost key: Bits, prefixLen: nat, path: seq<Node<V>>, addr: Addr)
      requires prefixLen == |key| <= 32 && key <= ToBits(addr) && |path| == |key| + 1
      requires Shape() && Model() == m && AliveBut(m, key, |key|) && OnPath(key, |key|, path)
      modifies this`root, this`at, Repr
      ensures Shape() && Model() == m && AllAlive(at.Keys, m)
    {
      hide Shape, Model, AliveBut, OnPath;
      var bit := prefixLen;
      while bit > 0 && path[bit].Empty()
        invariant 0 <= bit <= |key|
        invariant Shape() && Model() == m && AliveBut(m, key, bit) && OnPath(key, bit, path)
      {
        PruneStep(m, key, bit, path, Bit(addr, bit - 1));
        bit := bit - 1;
      }
      PruneRoot(m, key, bit, path);
    }

    method PruneRoot(ghost m: map<Bits, V>, ghost key: Bits, bit: nat, path: seq<Node<V>>)
      requires Shape() && Model() == m && OnPath(key, bit, path) && AliveBut(m, key, bit)
      requires bit == 0 || !path[bit].Empty()
      modifies this`root, this`at
      ensures Shape() && Model() == m && AllAlive(at.Keys, m)
    {
      hide Shape, Model, Alive;
      EmptyIsNotAlive(key[..bit]);
      assert key[..0] == [];
      if path[0].Empty() {
        RootPath();
        DropRoot();
      }
    }

    /** Take the value from the end of a path and prune the nodes this leaves empty. */
    method Unbind(ghost key: Bits, prefixLen: nat, path: seq<Node<V>>, addr: Addr)
      requires Shape() && AllAlive(at.Keys, Model()) && key in Model()
      requires prefixLen == |key| <= 32 && key <= ToBits(addr) && |path| == |key| + 1 && OnPath(key, |key|, path)
      modifies this`root, this`at, Repr
      ensures Shape() && Model() == old(Model()) - {key} && AllAlive(at.Keys, Model())
      ensures |Model()| == |old(Model())| - 1
    {
      hide ToBits, Shape, Alive, AllAlive, Model;
      ghost var m := Model();
      StillAliveBut(at.Keys, m, key);
      assert key[..|key|] == key;
      EmptyIsNotAlive(key);
      SetValue(key, path[prefixLen], None);
      Prune(m - {key}, key, prefixLen, path, addr);
    }

    /** Unbind the first prefixLen bits of addr and prune the nodes this leaves empty. */
    method Remove(addr: Addr, prefixLen: nat) returns (err: Err)
      requires Valid()
      modifies this, Repr
      ensures Valid() && Repr == old(Repr)
      ensures prefixLen > 32 ==> err == Invalid && Model() == old(Model())
      ensures prefixLen <= 32 ==>
                var key := ToBits(addr)[..prefixLen];
                && err == (if key in old(Model()) then Ok else NotFound)
                && Model() == old(Model()) - {key}
      ensures err != Ok ==> at == old(at)
    {
      hide ToBits, Shape, Alive, AllAlive;
      if prefixLen > 32 {
        return Invalid;
      }
      ghost var key := ToBits(addr)[..prefixLen];
      ghost var m := Model();
      assert m.Keys <= at.Keys;
      var path := FindPath(addr, prefixLen, key);
      if path == [] {
        return NotFound;
      }
      assert key[..|key|] == key;
      EmptyIsNotAlive(key);
      if path[prefixLen].value.None? {
        return NotFound;
      }
      hide Model;
      Unbind(key, prefixLen, path, addr);
      len := len - 1;
      return Ok;
    }

    lemma StillAliveBut(names: set<Bits>, m: map<Bits, V>, key: Bits)
      requires AllAlive(names, m) && key in m
      ensures forall w {:trigger Alive(names, m - {key}, w)} :: w in names ==> w == key || Alive(names, m - {key}, w)
      ensures |m - {key}| == |m| - 1
    {
      forall w | w in names && w != key ensures Alive(names, m - {key}, w) {
        assert Alive(names, m, w);
      }
      assert (m - {key}).Keys == m.Keys - {key};
    }

    // ----- lookup

    /** Longest-prefix match for an address. */
    method LookupLpm(addr: Addr) returns (best: Option<V>)
      requires Valid()
      ensures best == LongestMatch(Model(), ToBits(addr), 32)
    {
      ghost var bits := ToBits(addr);
      ghost var m := Model();
      best := None;
      assert m.Keys <= at.Keys && bits[..0] == [];
      if root == null {
        NamesNeedRoot();
        LongestMatchMeaning(m, bits, 32);
        return;
      }
      var node: Node<V> := root;
      best := node.value;
      var bit := 0;
      hide Alive, AllAlive, Shape, ToBits, Bit;
      while bit < 32
        invariant 0 <= bit <= 32
        invariant bits[..bit] in at && node == at[bits[..bit]]
        invariant best == LongestMatch(m, bits, bit)
      {
        ChildOf(bits, bit);
        var child := node.Child(Bit(addr, bit));
        if child == null {
          LongestMatchStops(at, m, bits, bit + 1, 32);
          return;
        }
        node := child;
        bit := bit + 1;
        if node.value.Some? {
          best := node.value;
        }
      }
    }

    lemma ChildOf(bits: Bits, bit: nat)
      requires Shape() && bit < |bits| && bits[..bit] in at
      ensures ParentClosed(at)
      ensures at[bits[..bit]].Child(bits[bit]) == NodeAt(at, bits[..bit + 1])
      ensures bits[..bit + 1] in at ==>
                (at[bits[..bit + 1]].value ==
                 if bits[..bit + 1] in Model() then Some(Model()[bits[..bit + 1]]) else None)
    {
      assert bits[..bit + 1] == bits[..bit] + [bits[bit]];
      assert Linked(bits[..bit]);
      if bits[bit] {
      } else {
      }
    }

    /** No empty node survives: the nodes are exactly the prefixes of the bound keys. */
    lemma NodesArePrefixesOfKeys(w: Bits)
      requires Valid()
      ensures w in at <==> exists k :: k in Model() && w <= k
    {
      hide Alive;
      if w in at {
        LeadsToKey(w);
      }
      if k :| k in Model() && w <= k {
        PrefixIsNamed(at, k, |w|);
        assert k[..|w|] == w;
      }
    }

    lemma LeadsToKey(w: Bits)
      requires Valid() && w in at
      ensures exists k :: k in Model() && w <= k
      decreases 32 - |w|
    {
      assert Alive(at.Keys, Model(), w);
      if w in Model() {
      } else {
        var u := if w + [false] in at then w + [false] else w + [true];
        LeadsToKey(u);
        var k :| k in Model() && u <= k;
        assert w <= k;
      }
    }
  }

  lemma PrefixIsNamed<V>(at: map<Bits, Node<V>>, k: Bits, n: nat)
    requires ParentClosed(at) && k in at && n <= |k|
    ensures k[..n] in at
    decreases |k| - n
  {
    assert k[..|k|] == k;
    if n < |k| {
      PrefixIsNamed(at, k, n + 1);
      assert Parent(k[..n + 1]) == k[..n];
    }
  }
}
