/**
 * The map itself: an AVL-style binary search tree of integer values with a
 * duplicate counter per node, stored in an arena of parallel slots. Handle 0
 * is the end sentinel (value 0, count -1, no links) and `Null` (-1) stands
 * for a missing pointer. The ghost `shape` is the tree the links describe.
 */
module SMap {
  import opened Trees
  import opened Arena
  import opened Rebalancing

  /** The handle of the end sentinel. */
  const Sentinel: int := 0

  /**
   * A bidirectional in-order cursor: the bounds it was made with and the
   * node it is on. Two iterators are equal when they are on the same node.
   */
  datatype Iterator = Iterator(begin: int, end: int, current: int)

  /**
   * The past-the-end iterator: every field is the sentinel. Over a tree
   * that leaves the sentinel out, neither `++` nor `--` moves it.
   */
  function End(): (e: Iterator)
    ensures e.end == e.current == Sentinel
    ensures forall t :: Sentinel !in Handles(t) ==>
      Forward(t, e.current) == e.current && Backward(t, e.current, e.begin) == e.current
  {
    Iterator(Sentinel, Sentinel, Sentinel)
  }

  /** Iterator `==`: the two are on the same node (`!=` is its negation). */
  predicate Same(a: Iterator, b: Iterator)
    ensures Same(a, b) ==> forall t :: Forward(t, a.current) == Forward(t, b.current)
  {
    a.current == b.current
  }

  /**
   * The representation invariant over explicit slot contents: equal slot
   * counts, the sentinel record in slot 0, and a tree `t` of distinct
   * non-sentinel handles that the links `k` realise from `root` down and
   * whose values are in search-tree order.
   */
  ghost predicate Wellformed(t: Tree, value: seq<int>, count: seq<int>, bf: seq<int>, k: Links, root: int)
  {
    && |value| == |count| && |count| == |bf| && |bf| == |k.parent|
    && |k.parent| == |k.left| && |k.left| == |k.right| && Sentinel < |value|
    && value[Sentinel] == 0 && count[Sentinel] == -1
    && k.parent[Sentinel] == Null && k.left[Sentinel] == Null && k.right[Sentinel] == Null
    && Sentinel !in Handles(t)
    && Distinct(t)
    && Linked(t, Null, k)
    && Bst(t, value)
    && Fits(t, |value|)
    && root == Root(t)
  }

  /**
   * Each value stored in `t` with the number of extra copies inserted after
   * the first, gathered node by node.
   */
  ghost function Stored(t: Tree, value: seq<int>, count: seq<int>): map<int, int>
    requires Bst(t, value) && |count| == |value|
  {
    match t
    case Leaf => map[]
    case Node(l, h, r) => (Stored(l, value, count) + Stored(r, value, count))[value[h] := count[h]]
  }

  /** Every node's value is stored, with that node's count. */
  lemma {:induction false} StoredHas(t: Tree, value: seq<int>, count: seq<int>)
    requires Bst(t, value) && |count| == |value|
    ensures forall x :: x in Handles(t) ==> 0 <= x < |value| && value[x] in Stored(t, value, count)
    ensures forall x :: x in Handles(t) ==> Stored(t, value, count)[value[x]] == count[x]
  {
    BstHandles(t, value);
    match t
    case Leaf =>
    case Node(l, h, r) =>
      StoredHas(l, value, count);
      StoredHas(r, value, count);
      StoredFrom(r, value, count);
      var m := Stored(t, value, count);
      forall x | x in Handles(l) ensures value[x] in m && m[value[x]] == count[x] {
        assert value[x] != value[h];
        assert value[x] !in Stored(r, value, count) by {
          forall w | w in Stored(r, value, count) ensures value[h] < w {
            var y :| y in Handles(r) && value[y] == w;
          }
        }
      }
  }

  /** Every stored value belongs to some node. */
  lemma {:induction false} StoredFrom(t: Tree, value: seq<int>, count: seq<int>)
    requires Bst(t, value) && |count| == |value|
    ensures forall w :: w in Stored(t, value, count) ==> exists x :: x in Handles(t) && value[x] == w
  {
    match t
    case Leaf =>
    case Node(l, h, r) =>
      StoredFrom(l, value, count);
      StoredFrom(r, value, count);
      forall w | w in Stored(t, value, count) ensures exists x :: x in Handles(t) && value[x] == w {
        if w != value[h] && w in Stored(l, value, count) {
          var x :| x in Handles(l) && value[x] == w;
          assert x in Handles(t);
        } else if w != value[h] {
          assert w in Stored(r, value, count);
          var x :| x in Handles(r) && value[x] == w;
          assert x in Handles(t);
        } else {
          assert h in Handles(t);
        }
      }
  }

  /** The values stored are exactly the keys of the tree. */
  lemma StoredKeys(t: Tree, value: seq<int>, count: seq<int>)
    requires Bst(t, value) && |count| == |value|
    ensures forall w :: w in Stored(t, value, count) <==> w in Keys(t, value)
  {
    StoredHas(t, value, count);
    StoredFrom(t, value, count);
    forall w | w in Keys(t, value) ensures w in Stored(t, value, count) {
      var x :| x in Handles(t) && 0 <= x < |value| && value[x] == w;
    }
    forall w | w in Stored(t, value, count) ensures w in Keys(t, value) {
      var x :| x in Handles(t) && value[x] == w;
    }
  }

  /** The stored values depend only on which nodes the tree holds, not on its shape. */
  lemma StoredHandles(t: Tree, t': Tree, value: seq<int>, count: seq<int>)
    requires Bst(t, value) && Bst(t', value) && |count| == |value|
    requires Handles(t) == Handles(t')
    ensures Stored(t, value, count) == Stored(t', value, count)
  {
    StoredHas(t, value, count);
    StoredFrom(t, value, count);
    StoredHas(t', value, count);
    StoredFrom(t', value, count);
    var m, m' := Stored(t, value, count), Stored(t', value, count);
    forall w | w in m ensures w in m' && m'[w] == m[w] {
      var x :| x in Handles(t) && value[x] == w;
    }
    forall w | w in m' ensures w in m {
      var x :| x in Handles(t') && value[x] == w;
    }
  }

  /** Planting the first node in an empty map. */
  lemma PlantWellformed(value: seq<int>, count: seq<int>, bf: seq<int>, k: Links, v: int)
    requires Wellformed(Leaf, value, count, bf, k, Null)
    ensures var n := |value|;
      && Wellformed(Node(Leaf, n, Leaf), value + [v], count + [0], bf + [0],
                    Links(k.left + [Null], k.right + [Null], k.parent + [Null]), n)
      && Stored(Leaf, value, count) == map[]
      && Stored(Node(Leaf, n, Leaf), value + [v], count + [0]) == map[v := 0]
  {
    var n := |value|;
    assert Stored(Leaf, value + [v], count + [0]) == map[];
  }

  /** Hanging a new leaf where the descent for a missing value ends. */
  lemma GrowWellformed(t: Tree, value: seq<int>, count: seq<int>, bf: seq<int>, k: Links, root: int,
                       v: int, q: int, onLeft: bool)
    requires Wellformed(t, value, count, bf, k, root) && t.Node?
    requires Locate(t, v, value) == Vacant(q, onLeft)
    ensures k.Has(q) && q != Sentinel
    ensures var n := |value|;
      && Wellformed(Grow(t, v, n, value), value + [v], count + [0], bf + [0], Attach(k, q, onLeft, n), root)
      && Handles(Grow(t, v, n, value)) == Handles(t) + {n}
      && forall x :: x in Handles(t) ==> 0 <= x < |value| && value[x] != v
  {
    var n := |value|;
    var g := Grow(t, v, n, value);
    GrowShape(t, value, v);
    LocateFound(t, v, value);
    LinkedHas(t, Null, k);
    GrowLinked(t, Null, k, v, n, value);
    var k' := Attach(k, q, onLeft, n);
    assert q != Sentinel && n != Sentinel;
    assert |k'.left| == |k'.right| == |k'.parent| == n + 1;
    assert k'.parent[Sentinel] == Null && k'.left[Sentinel] == Null && k'.right[Sentinel] == Null;
    assert (value + [v])[Sentinel] == 0 && (count + [0])[Sentinel] == -1;
    assert Wellformed(g, value + [v], count + [0], bf + [0], k', root);
  }

  /** The shape and order facts about the grown tree. */
  lemma GrowShape(t: Tree, value: seq<int>, v: int)
    requires Distinct(t) && Bst(t, value) && Fits(t, |value|) && Sentinel !in Handles(t)
    requires t.Node? && Locate(t, v, value).Vacant?
    ensures var g := Grow(t, v, |value|, value);
      && Distinct(g) && Bst(g, value + [v]) && Fits(g, |value| + 1)
      && Handles(g) == Handles(t) + {|value|} && Root(g) == Root(t) && Sentinel !in Handles(g)
    ensures forall x :: x in Handles(t) ==> 0 <= x < |value| && value[x] != v
  {
    var n := |value|;
    var g := Grow(t, v, n, value);
    BstHandles(t, value);
    LocateFound(t, v, value);
    GrowHandles(t, v, n, value);
    GrowOrdered(t, v, n, value);
    assert Fits(g, n + 1) by {
      FitsHandles(t, n);
      FitsHandles(g, n + 1);
    }
    forall x | x in Handles(t) ensures 0 <= x < |value| && value[x] != v {
      assert value[x] in Keys(t, value);
    }
  }

  /** The value-to-count map after storing one more `v`: a new value starts with no extra copies. */
  function Inserted(m: map<int, int>, v: int): map<int, int>
  {
    m[v := if v in m then m[v] + 1 else 0]
  }

  /** A map that agrees with `m` off `v` and maps `v` to `c` is `m[v := c]`. */
  lemma MapUpdated(m: map<int, int>, m': map<int, int>, v: int, c: int)
    requires forall w :: w in m && w != v ==> w in m' && m'[w] == m[w]
    requires v in m' && m'[v] == c
    requires forall w :: w in m' ==> w == v || w in m
    ensures m' == m[v := c]
  {
    assert forall w :: w in m' <==> w in m[v := c];
    assert forall w :: w in m' ==> m'[w] == m[v := c][w];
  }

  /** A new slot holding a missing value adds that value with no extra copies. */
  lemma GrowStored(t: Tree, g: Tree, value: seq<int>, count: seq<int>, v: int)
    requires Bst(t, value) && Bst(g, value + [v]) && |count| == |value|
    requires Handles(g) == Handles(t) + {|value|}
    requires forall x :: x in Handles(t) ==> 0 <= x < |value| && value[x] != v
    ensures v !in Stored(t, value, count)
    ensures Stored(g, value + [v], count + [0]) == Stored(t, value, count)[v := 0]
  {
    GrowKeeps(t, g, value, count, v);
    GrowAdds(t, g, value, count, v);
    MapUpdated(Stored(t, value, count), Stored(g, value + [v], count + [0]), v, 0);
  }

  lemma GrowKeeps(t: Tree, g: Tree, value: seq<int>, count: seq<int>, v: int)
    requires Bst(t, value) && Bst(g, value + [v]) && |count| == |value|
    requires Handles(g) == Handles(t) + {|value|}
    requires forall x :: x in Handles(t) ==> 0 <= x < |value| && value[x] != v
    ensures forall w :: w in Stored(t, value, count) ==>
      w != v && w in Stored(g, value + [v], count + [0]) && Stored(g, value + [v], count + [0])[w] == Stored(t, value, count)[w]
  {
    var vs, cs := value + [v], count + [0];
    assert forall x :: 0 <= x < |value| ==> vs[x] == value[x] && cs[x] == count[x];
    StoredHas(t, value, count);
    StoredFrom(t, value, count);
    StoredHas(g, vs, cs);
    forall w | w in Stored(t, value, count) ensures w != v && w in Stored(g, vs, cs) && Stored(g, vs, cs)[w] == Stored(t, value, count)[w] {
      var x :| x in Handles(t) && value[x] == w;
      assert x in Handles(g);
    }
  }

  lemma GrowAdds(t: Tree, g: Tree, value: seq<int>, count: seq<int>, v: int)
    requires Bst(t, value) && Bst(g, value + [v]) && |count| == |value|
    requires Handles(g) == Handles(t) + {|value|}
    ensures v in Stored(g, value + [v], count + [0]) && Stored(g, value + [v], count + [0])[v] == 0
    ensures forall w :: w in Stored(g, value + [v], count + [0]) ==> w == v || w in Stored(t, value, count)
  {
    var vs, cs := value + [v], count + [0];
    var n := |value|;
    assert forall x :: 0 <= x < n ==> vs[x] == value[x];
    assert vs[n] == v && cs[n] == 0 && n in Handles(g);
    StoredHas(t, value, count);
    StoredHas(g, vs, cs);
    StoredFrom(g, vs, cs);
    forall w | w in Stored(g, vs, cs) ensures w == v || w in Stored(t, value, count) {
      var x :| x in Handles(g) && vs[x] == w;
      if x != n {
        assert x in Handles(t);
      }
    }
  }

  /** One more copy of the value `v` stored at `h`. */
  lemma BumpStored(t: Tree, value: seq<int>, count: seq<int>, v: int, h: int)
    requires Bst(t, value) && |count| == |value| && h in Handles(t) && 0 <= h < |value| && value[h] == v
    ensures v in Stored(t, value, count)
    ensures Stored(t, value, count[h := count[h] + 1]) == Stored(t, value, count)[v := Stored(t, value, count)[v] + 1]
  {
    var c := count[h := count[h] + 1];
    StoredHas(t, value, count);
    StoredHas(t, value, c);
    BumpKeeps(t, value, count, v, h);
    MapUpdated(Stored(t, value, count), Stored(t, value, c), v, count[h] + 1);
  }

  lemma BumpKeeps(t: Tree, value: seq<int>, count: seq<int>, v: int, h: int)
    requires Bst(t, value) && |count| == |value| && h in Handles(t) && 0 <= h < |value| && value[h] == v
    ensures forall w :: w in Stored(t, value, count) && w != v ==>
      w in Stored(t, value, count[h := count[h] + 1]) && Stored(t, value, count[h := count[h] + 1])[w] == Stored(t, value, count)[w]
    ensures forall w :: w in Stored(t, value, count[h := count[h] + 1]) ==> w == v || w in Stored(t, value, count)
  {
    var c := count[h := count[h] + 1];
    StoredHas(t, value, count);
    StoredFrom(t, value, count);
    StoredHas(t, value, c);
    StoredFrom(t, value, c);
    var m, m' := Stored(t, value, count), Stored(t, value, c);
    forall w | w in m && w != v ensures w in m' && m'[w] == m[w] {
      var x :| x in Handles(t) && value[x] == w;
    }
    forall w | w in m' ensures w in m {
      var x :| x in Handles(t) && value[x] == w;
    }
  }

  // ---------------------------------------------------------------------
  // Removal

  /** Dropping one node from the tree drops its value, with its count, from the contents. */
  lemma StoredRemove(t: Tree, t': Tree, value: seq<int>, count: seq<int>, x: int)
    requires Bst(t, value) && Bst(t', value) && |count| == |value|
    requires x in Handles(t) && Handles(t') == Handles(t) - {x}
    ensures 0 <= x < |value| && Stored(t', value, count) == Stored(t, value, count) - {value[x]}
  {
    assert 0 <= x < |value| by {
      BstHandles(t, value);
    }
    StoredKept(t, t', value, count, x);
    StoredOnly(t, t', value, count, x);
    MapWithout(Stored(t, value, count), Stored(t', value, count), value[x]);
  }

  /** A map that agrees with `m` everywhere except that it lacks `k` is `m` without `k`. */
  lemma MapWithout(m: map<int, int>, m': map<int, int>, k: int)
    requires forall w :: w in m && w != k ==> w in m' && m'[w] == m[w]
    requires forall w :: w in m' ==> w in m && w != k
    ensures m' == m - {k}
  {
    var d := m - {k};
    forall w ensures w in m' <==> w in d {
      assert w in d <==> w in m && w != k;
    }
    assert m'.Keys == d.Keys;
    assert forall w :: w in m' ==> m'[w] == d[w];
  }

  /** Every other stored value survives the removal of node `x`, with its count. */
  lemma StoredKept(t: Tree, t': Tree, value: seq<int>, count: seq<int>, x: int)
    requires Bst(t, value) && Bst(t', value) && |count| == |value|
    requires x in Handles(t) && Handles(t') == Handles(t) - {x} && 0 <= x < |value|
    ensures forall w :: w in Stored(t, value, count) && w != value[x] ==>
      w in Stored(t', value, count) && Stored(t', value, count)[w] == Stored(t, value, count)[w]
  {
    StoredHas(t, value, count);
    StoredHas(t', value, count);
    StoredFrom(t, value, count);
    var m, m' := Stored(t, value, count), Stored(t', value, count);
    forall w | w in m && w != value[x] ensures w in m' && m'[w] == m[w] {
      var y :| y in Handles(t) && value[y] == w;
      assert y in Handles(t');
    }
  }

  /** Nothing but the values of the remaining nodes is stored after the removal of node `x`. */
  lemma StoredOnly(t: Tree, t': Tree, value: seq<int>, count: seq<int>, x: int)
    requires Bst(t, value) && Bst(t', value) && |count| == |value|
    requires x in Handles(t) && Handles(t') == Handles(t) - {x} && 0 <= x < |value|
    ensures forall w :: w in Stored(t', value, count) ==> w in Stored(t, value, count) && w != value[x]
  {
    StoredHas(t, value, count);
    StoredFrom(t', value, count);
    BstInjective(t, value);
    forall w | w in Stored(t', value, count) ensures w in Stored(t, value, count) && w != value[x] {
      var y :| y in Handles(t') && value[y] == w;
    }
  }

  /**
   * Splicing out a removable node, once the links realise the new shape,
   * leaves a well-formed map without that node's value and its in-order
   * sequence without that node.
   */
  lemma RemoveWellformed(t: Tree, value: seq<int>, count: seq<int>, bf: seq<int>, k0: Links, k1: Links, root: int, x: int)
    requires Wellformed(t, value, count, bf, k0, root) && Removable(t, x)
    requires Linked(ReplaceAt(t, x, Spliced(Sub(t, x))), Null, k1)
    requires |k1.left| == |k0.left| && |k1.right| == |k0.right| && |k1.parent| == |k0.parent|
    requires SameAt(k0, k1, Sentinel)
    ensures Wellformed(ReplaceAt(t, x, Spliced(Sub(t, x))), value, count, bf, k1, root)
    ensures InOrder(ReplaceAt(t, x, Spliced(Sub(t, x)))) == Without(InOrder(t), x)
    ensures 0 <= x < |value|
    ensures Stored(ReplaceAt(t, x, Spliced(Sub(t, x))), value, count) == Stored(t, value, count) - {value[x]}
  {
    var s := Sub(t, x);
    var t' := ReplaceAt(t, x, Spliced(s));
    DeleteShape(t, x);
    BstSub(t, value, x);
    BstSpliced(s, value);
    SplicedShape(s);
    BstReplace(t, value, x, Spliced(s));
    FitsHandles(t, |value|);
    FitsHandles(t', |value|);
    StoredRemove(t, t', value, count, x);
  }

  /**
   * The links around a removable node `x` with a right subtree whose
   * leftmost node is `m`: who holds which slot before the splice.
   */
  lemma SpliceFacts(t: Tree, k0: Links, x: int, m: int)
    requires Distinct(t) && Linked(t, Null, k0) && Sentinel !in Handles(t) && Removable(t, x)
    requires Sub(t, x).right.Node? && m == Min(Sub(t, x).right)
    ensures k0.Has(x) && k0.Has(k0.parent[x]) && k0.parent[x] in Handles(t)
    ensures k0.left[x] == Null && k0.right[x] == Sub(t, x).right.h && k0.Has(k0.right[x])
    ensures m in Handles(Sub(t, x)) && m != x && k0.Has(m) && k0.left[m] == Null
    ensures k0.parent[m] == x <==> Sub(t, x).right.left.Leaf?
    ensures k0.parent[m] != x ==> k0.Has(k0.parent[m]) && k0.right[m] == Null
    ensures k0.parent[m] != x ==> k0.parent[m] in Handles(Sub(t, x)) && m != k0.right[x]
    ensures k0.right[x] in Handles(Sub(t, x))
    ensures k0.parent[x] !in Handles(Sub(t, x)) && Sentinel !in Handles(Sub(t, x))
    ensures k0.parent[x] != Sentinel
  {
    var s := Sub(t, x);
    var rt := s.right;
    ParentLemma(t, Null, k0, x);
    AdoptLinked(t, k0, x, Leaf, k0);
    SubLinked(t, Null, k0, x);
    assert Linked(rt, x, k0);
    LinkedHas(rt, x, k0);
    MinSub(rt);
    SubSub(t, x, m);
    ChildLinks(s, k0.parent[x], k0, m);
    if rt.left.Node? {
      assert m in Handles(rt.left) && m != rt.h;
      ParentLemma(rt, x, k0, m);
      ChildLinks(rt, x, k0, m);
    }
  }

  // ---------------------------------------------------------------------
  // Iterator steps

  /**
   * Where `++` leads from `c`: the in-order successor, and the sentinel
   * after the last node and on the sentinel itself.
   */
  ghost function Forward(t: Tree, c: int): int
  {
    if c in Handles(t) && Succ(t, c) != Null then Succ(t, c) else Sentinel
  }

  /**
   * Where `--` leads from `c` for an iterator whose lower bound is `b`: it
   * stays on `b` when `b` has no left subtree, and otherwise moves to the
   * in-order predecessor, or to the sentinel before the first node.
   */
  ghost function Backward(t: Tree, c: int, b: int): int
  {
    if c == b && (c !in Handles(t) || Sub(t, c).left.Leaf?) then c
    else if c in Handles(t) && Pred(t, c) != Null then Pred(t, c)
    else Sentinel
  }

  /** `++` walks the in-order sequence and leaves the last node for the sentinel. */
  lemma ForwardInOrder(t: Tree, i: int)
    requires Distinct(t) && Sentinel !in Handles(t) && 0 <= i < |InOrder(t)|
    ensures Forward(t, InOrder(t)[i]) == if i + 1 < |InOrder(t)| then InOrder(t)[i + 1] else Sentinel
  {
    HandlesInOrder(t);
    SuccInOrder(t, i);
    NullAbsent(t);
    if i + 1 < |InOrder(t)| {
      assert InOrder(t)[i + 1] in Handles(t);
    }
  }

  /** Where `n` applications of `++` lead from `c`. */
  ghost function Walk(t: Tree, c: int, n: nat): int
  {
    if n == 0 then c else Forward(t, Walk(t, c, n - 1))
  }

  /** `i` steps of `++` from the first node reach the i-th node in order. */
  lemma {:induction false} WalkInOrder(t: Tree, i: nat)
    requires Distinct(t) && t.Node? && Sentinel !in Handles(t) && i <= |InOrder(t)|
    ensures Walk(t, Min(t), i) == if i < |InOrder(t)| then InOrder(t)[i] else Sentinel
  {
    if i > 0 {
      WalkInOrder(t, i - 1);
      ForwardInOrder(t, i - 1);
    }
  }

  /**
   * Starting from `begin()` of a non-empty map, `++` applied once per node
   * reaches an iterator equal to `end()`, and no fewer steps do.
   */
  lemma WalkToEnd(t: Tree)
    requires Distinct(t) && t.Node? && Sentinel !in Handles(t)
    ensures forall i :: 0 <= i <= |InOrder(t)| ==>
      (Same(Iterator(Min(t), Sentinel, Walk(t, Min(t), i)), End()) <==> i == |InOrder(t)|)
  {
    HandlesInOrder(t);
    forall i | 0 <= i <= |InOrder(t)|
      ensures Same(Iterator(Min(t), Sentinel, Walk(t, Min(t), i)), End()) <==> i == |InOrder(t)|
    {
      WalkInOrder(t, i);
      if i < |InOrder(t)| {
        assert InOrder(t)[i] in Handles(t);
      }
    }
  }

  /**
   * With the leftmost node as its lower bound, `--` walks the in-order
   * sequence backwards and stays on the first node.
   */
  lemma BackwardInOrder(t: Tree, i: int)
    requires Distinct(t) && t.Node? && Sentinel !in Handles(t) && 0 <= i < |InOrder(t)|
    ensures Backward(t, InOrder(t)[i], Min(t)) == if i > 0 then InOrder(t)[i - 1] else Min(t)
  {
    HandlesInOrder(t);
    PredInOrder(t, i);
    NullAbsent(t);
    var c := InOrder(t)[i];
    if i > 0 {
      assert InOrder(t)[i - 1] in Handles(t);
      if c == Min(t) {
        assert InOrder(t)[0] == c;
        DistinctInOrder(t);
      }
    } else {
      MinSub(t);
    }
  }

  /** `--` undoes `++` on every node but the last, when the lower bound is the leftmost node. */
  lemma BackwardForward(t: Tree, c: int)
    requires Distinct(t) && t.Node? && Sentinel !in Handles(t) && c in Handles(t) && c != Max(t)
    ensures Backward(t, Forward(t, c), Min(t)) == c
  {
    HandlesInOrder(t);
    var i := IndexOf(InOrder(t), c);
    ForwardInOrder(t, i);
    if i + 1 == |InOrder(t)| {
      DistinctInOrder(t);
    }
    BackwardInOrder(t, i + 1);
  }

  /** `++` undoes `--` on every node but the first. */
  lemma ForwardBackward(t: Tree, c: int)
    requires Distinct(t) && t.Node? && Sentinel !in Handles(t) && c in Handles(t) && c != Min(t)
    ensures Forward(t, Backward(t, c, Min(t))) == c
  {
    HandlesInOrder(t);
    var i := IndexOf(InOrder(t), c);
    BackwardInOrder(t, i);
    if i == 0 {
      DistinctInOrder(t);
    }
    ForwardInOrder(t, i - 1);
  }

  class Map {
    var value: seq<int>
    var count: seq<int>
    var bf: seq<int>
    var parent: seq<int>
    var left: seq<int>
    var right: seq<int>
    var root: int
    ghost var shape: Tree

    /** The three pointer fields of every slot. */
    ghost function Wiring(): Links
      reads this
    {
      Links(left, right, parent)
    }

    ghost predicate Valid()
      reads this
    {
      Wellformed(shape, value, count, bf, Wiring(), root)
    }

    lemma InArena()
      requires Valid()
      ensures Fits(shape, |bf|)
      ensures forall x :: x in Handles(shape) ==> Sentinel < x < |value|
    {
      BstHandles(shape, value);
      FitsHandles(shape, |bf|);
    }

    /** Each stored value with the number of extra copies inserted after the first. */
    ghost function Contents(): map<int, int>
      reads this
      requires Valid()
    {
      Stored(shape, value, count)
    }

    constructor ()
      ensures Valid() && shape == Leaf && root == Null
      ensures Contents() == map[]
      ensures value == [0] && count == [-1] && bf == [0]
      ensures parent == [Null] && left == [Null] && right == [Null]
    {
      value, count, bf := [0], [-1], [0];
      parent, left, right := [Null], [Null], [Null];
      root := Null;
      shape := Leaf;
    }

    /**
     * Recomputes the balance factor of every node below `node` and returns
     * `depth` plus the height of that subtree.
     */
    method CountBalanceFactor(node: int, depth: int, ghost t: Tree, ghost above: int) returns (d: int)
      requires t.Node? && t.h == node && Linked(t, above, Wiring()) && Fits(t, |bf|)
      modifies this`bf
      ensures bf == Factors(t, old(bf))
      ensures d == depth + Height(t)
      decreases t
    {
      var dep := depth + 1;
      var ldepth, rdepth := dep, dep;
      if right[node] == Null && left[node] == Null {
        bf := bf[node := 0];
        return dep;
      }
      if left[node] != Null {
        ldepth := CountBalanceFactor(left[node], dep, t.left, node);
      }
      if right[node] != Null {
        rdepth := CountBalanceFactor(right[node], dep, t.right, node);
      }
      bf := bf[node := rdepth - ldepth];
      d := if ldepth >= rdepth then ldepth else rdepth;
    }

    /** The first node whose factor is 2 or more in magnitude, right subtrees first. */
    function SearchUnbalanced(node: int, ghost t: Tree, ghost above: int): (u: int)
      reads this
      requires Root(t) == node && Linked(t, above, Wiring()) && Fits(t, |bf|)
      ensures u == Unbalanced(t, bf)
      decreases t
    {
      if node == Null then Null
      else if bf[node] >= 2 || bf[node] <= -2 then node
      else if SearchUnbalanced(right[node], t.right, node) == Null then SearchUnbalanced(left[node], t.left, node)
      else SearchUnbalanced(right[node], t.right, node)
    }

    /** Promotes the left child of `p`; a promoted node without a parent becomes the root. */
    method RotateRight(p: int, ghost t: Tree, ghost above: int) returns (q: int)
      requires Distinct(t) && t.Node? && t.h == p && t.left.Node? && Linked(t, above, Wiring())
      modifies this`parent, this`left, this`right, this`root
      ensures q == Root(RotR(t))
      ensures Linked(RotR(t), above, Wiring())
      ensures |left| == old(|left|) && |right| == old(|right|) && |parent| == old(|parent|)
      ensures forall x :: old(Wiring()).Has(x) && x !in Handles(t) ==> SameAt(old(Wiring()), Wiring(), x)
      ensures root == if above == Null then q else old(root)
    {
      ghost var k0 := Wiring();
      RotRLinked(t, above, k0);
      RotRFrame(t, above, k0);
      q := left[p];
      parent := parent[q := parent[p]];
      if parent[q] == Null {
        root := q;
      }
      if right[q] != Null {
        parent := parent[right[q] := p];
      }
      parent := parent[p := q];
      left := left[p := right[q]];
      right := right[q := p];
      assert Wiring() == RotRLinks(k0, p);
    }

    /** Promotes the right child of `q`; a promoted node without a parent becomes the root. */
    method RotateLeft(q: int, ghost t: Tree, ghost above: int) returns (p: int)
      requires Distinct(t) && t.Node? && t.h == q && t.right.Node? && Linked(t, above, Wiring())
      modifies this`parent, this`left, this`right, this`root
      ensures p == Root(RotL(t))
      ensures Linked(RotL(t), above, Wiring())
      ensures |left| == old(|left|) && |right| == old(|right|) && |parent| == old(|parent|)
      ensures forall x :: old(Wiring()).Has(x) && x !in Handles(t) ==> SameAt(old(Wiring()), Wiring(), x)
      ensures root == if above == Null then p else old(root)
    {
      ghost var k0 := Wiring();
      RotLLinked(t, above, k0);
      RotLFrame(t, above, k0);
      p := right[q];
      parent := parent[p := parent[q]];
      if parent[p] == Null {
        root := p;
      }
      if left[p] != Null {
        parent := parent[left[p] := q];
      }
      parent := parent[q := p];
      right := right[q := left[p]];
      left := left[p := q];
      assert Wiring() == RotLLinks(k0, q);
    }

    /**
     * The first half of a double rotation at a right-heavy node `u`: its
     * right child is rotated right and `u` takes the promoted node as its
     * right child.
     */
    method TurnRightChild(u: int, ghost s: Tree, ghost above: int)
      requires Distinct(s) && s.Node? && s.h == u && Linked(s, above, Wiring())
      requires s.right.Node? && s.right.left.Node?
      modifies this`parent, this`left, this`right, this`root
      ensures Linked(Node(s.left, u, RotR(s.right)), above, Wiring())
      ensures |left| == old(|left|) && |right| == old(|right|) && |parent| == old(|parent|)
      ensures forall x :: old(Wiring()).Has(x) && x !in Handles(s) ==> SameAt(old(Wiring()), Wiring(), x)
      ensures root == old(root)
    {
      ghost var k0 := Wiring();
      RotShape(s, above, k0);
      var rr := RotateRight(right[u], s.right, u);
      ghost var k1 := Wiring();
      right := right[u := rr];
      ghost var m := RotR(s.right);
      ghost var k2 := Wiring();
      LinkedFrame(m, u, k1, k2) by {
        forall x | x in Handles(m) ensures SameAt(k1, k2, x) {
          assert x != u;
        }
      }
      RelinkRight(s.left, u, s.right, m, above, k0, k2) by {
        forall x | x in Handles(s.left) ensures SameAt(k0, k2, x) {
          assert x != u && x !in Handles(s.right) && SameAt(k0, k1, x);
        }
      }
    }

    /**
     * The first half of a double rotation at a left-heavy node `u`: its left
     * child is rotated left and `u` takes the promoted node as its left child.
     */
    method TurnLeftChild(u: int, ghost s: Tree, ghost above: int)
      requires Distinct(s) && s.Node? && s.h == u && Linked(s, above, Wiring())
      requires s.left.Node? && s.left.right.Node?
      modifies this`parent, this`left, this`right, this`root
      ensures Linked(Node(RotL(s.left), u, s.right), above, Wiring())
      ensures |left| == old(|left|) && |right| == old(|right|) && |parent| == old(|parent|)
      ensures forall x :: old(Wiring()).Has(x) && x !in Handles(s) ==> SameAt(old(Wiring()), Wiring(), x)
      ensures root == old(root)
    {
      ghost var k0 := Wiring();
      RotShape(s, above, k0);
      var ll := RotateLeft(left[u], s.left, u);
      ghost var k1 := Wiring();
      left := left[u := ll];
      ghost var m := RotL(s.left);
      ghost var k2 := Wiring();
      LinkedFrame(m, u, k1, k2) by {
        forall x | x in Handles(m) ensures SameAt(k1, k2, x) {
          assert x != u;
        }
      }
      RelinkLeft(s.left, u, s.right, m, above, k0, k2) by {
        forall x | x in Handles(s.right) ensures SameAt(k0, k2, x) {
          assert x != u && x !in Handles(s.left) && SameAt(k0, k1, x);
        }
      }
    }

    /**
     * The rotations of the rebalancing pass at a right-heavy node `u`: a
     * right rotation of its left-heavy right child first, then a left
     * rotation at `u`. Returns the node now on top.
     */
    method FixRightHeavy(u: int, ghost s: Tree, ghost above: int) returns (top: int)
      requires Distinct(s) && s.Node? && s.h == u && Linked(s, above, Wiring()) && Fits(s, |bf|)
      requires bf[u] >= 2 && s.right.Node? && 0 <= s.right.h < |bf| && (bf[s.right.h] < 0 ==> s.right.left.Node?)
      modifies this`parent, this`left, this`right, this`root
      ensures top == Root(Fix(s, bf))
      ensures Linked(Fix(s, bf), above, Wiring())
      ensures |left| == old(|left|) && |right| == old(|right|) && |parent| == old(|parent|)
      ensures forall x :: old(Wiring()).Has(x) && x !in Handles(s) ==> SameAt(old(Wiring()), Wiring(), x)
      ensures root == if above == Null then top else old(root)
    {
      ghost var k0 := Wiring();
      RotShape(s, above, k0);
      ghost var m := s.right;
      if bf[right[u]] < 0 {
        TurnRightChild(u, s, above);
        m := RotR(s.right);
      }
      ghost var k3 := Wiring();
      top := RotateLeft(u, Node(s.left, u, m), above);
      forall x | k0.Has(x) && x !in Handles(s) ensures SameAt(k0, Wiring(), x) {
        assert SameAt(k0, k3, x);
      }
    }

    /**
     * The mirror image at a left-heavy node `u`: a left rotation of its
     * right-heavy left child first, then a right rotation at `u`.
     */
    method FixLeftHeavy(u: int, ghost s: Tree, ghost above: int) returns (top: int)
      requires Distinct(s) && s.Node? && s.h == u && Linked(s, above, Wiring()) && Fits(s, |bf|)
      requires bf[u] <= -2 && s.left.Node? && 0 <= s.left.h < |bf| && (bf[s.left.h] > 0 ==> s.left.right.Node?)
      modifies this`parent, this`left, this`right, this`root
      ensures top == Root(Fix(s, bf))
      ensures Linked(Fix(s, bf), above, Wiring())
      ensures |left| == old(|left|) && |right| == old(|right|) && |parent| == old(|parent|)
      ensures forall x :: old(Wiring()).Has(x) && x !in Handles(s) ==> SameAt(old(Wiring()), Wiring(), x)
      ensures root == if above == Null then top else old(root)
    {
      ghost var k0 := Wiring();
      RotShape(s, above, k0);
      ghost var m := s.left;
      if bf[left[u]] > 0 {
        TurnLeftChild(u, s, above);
        m := RotL(s.left);
      }
      ghost var k3 := Wiring();
      top := RotateRight(u, Node(m, u, s.right), above);
      forall x | k0.Has(x) && x !in Handles(s) ensures SameAt(k0, Wiring(), x) {
        assert SameAt(k0, k3, x);
      }
    }

    /** The single or double rotation at the unbalanced node `u`, by the sign of its factor. */
    method Rotate(u: int, ghost s: Tree, ghost above: int) returns (top: int)
      requires Distinct(s) && s.Node? && s.h == u && Linked(s, above, Wiring()) && Fits(s, |bf|)
      requires bf[u] >= 2 || bf[u] <= -2
      requires bf[u] >= 2 ==> s.right.Node? && 0 <= s.right.h < |bf| && (bf[s.right.h] < 0 ==> s.right.left.Node?)
      requires bf[u] <= -2 ==> s.left.Node? && 0 <= s.left.h < |bf| && (bf[s.left.h] > 0 ==> s.left.right.Node?)
      modifies this`parent, this`left, this`right, this`root
      ensures top == Root(Fix(s, bf))
      ensures Linked(Fix(s, bf), above, Wiring())
      ensures |left| == old(|left|) && |right| == old(|right|) && |parent| == old(|parent|)
      ensures forall x :: old(Wiring()).Has(x) && x !in Handles(s) ==> SameAt(old(Wiring()), Wiring(), x)
      ensures root == if above == Null then top else old(root)
    {
      if bf[u] >= 2 {
        top := FixRightHeavy(u, s, above);
      } else {
        top := FixLeftHeavy(u, s, above);
      }
    }

    /** The parent `q` of `u` takes `n` into the child slot that held `u`. */
    method Adopt(q: int, u: int, n: int)
      requires Wiring().Has(q)
      modifies this`left, this`right
      ensures Wiring() == AdoptLinks(old(Wiring()), q, u, n)
    {
      if left[q] == u {
        left := left[q := n];
      } else {
        right := right[q := n];
      }
    }

    /**
     * Rotates at the unbalanced node `u` and lets its parent, if any, adopt
     * the node now on top in the slot `u` held.
     */
    method Repair(u: int, ghost t: Tree)
      requires Distinct(t) && Linked(t, Null, Wiring()) && root == Root(t) && u in Handles(t)
      requires Fits(t, |bf|) && Fits(Sub(t, u), |bf|)
      requires 0 <= u < |bf| && (bf[u] >= 2 || bf[u] <= -2)
      requires var s := Sub(t, u);
        && (bf[u] >= 2 ==> s.right.Node? && 0 <= s.right.h < |bf| && (bf[s.right.h] < 0 ==> s.right.left.Node?))
        && (bf[u] <= -2 ==> s.left.Node? && 0 <= s.left.h < |bf| && (bf[s.left.h] > 0 ==> s.left.right.Node?))
      modifies this`parent, this`left, this`right, this`root
      ensures Linked(ReplaceAt(t, u, Fix(Sub(t, u), bf)), Null, Wiring())
      ensures root == Root(ReplaceAt(t, u, Fix(Sub(t, u), bf)))
      ensures |left| == old(|left|) && |right| == old(|right|) && |parent| == old(|parent|)
      ensures forall x :: old(Wiring()).Has(x) && x !in Handles(t) ==> SameAt(old(Wiring()), Wiring(), x)
    {
      ghost var s := Sub(t, u);
      ghost var k0 := Wiring();
      SubLinked(t, Null, k0, u);
      LinkedHas(t, Null, k0);
      var unbalancedParent := parent[u];
      var tmp := Rotate(u, s, unbalancedParent);
      ghost var f := Fix(s, bf);
      ghost var k1 := Wiring();
      if unbalancedParent != Null {
        assert u != t.h && root == t.h;
        AdoptLinked(t, k0, u, f, k1);
        Adopt(unbalancedParent, u, tmp);
        assert Linked(ReplaceAt(t, u, f), Null, Wiring());
        forall x | k0.Has(x) && x !in Handles(t) ensures SameAt(k0, Wiring(), x) {
          assert x !in Handles(s) && x != unbalancedParent;
        }
        assert Root(ReplaceAt(t, u, f)) == t.h;
      } else {
        assert u == t.h by {
          if u != t.h {
            ParentLemma(t, Null, k0, u);
          }
        }
        assert s == t && ReplaceAt(t, u, f) == f;
        assert Linked(f, Null, Wiring()) && root == tmp == Root(f);
      }
    }

    /**
     * Repairs the node `u` the search reported, given factors freshly
     * computed from `b0`, and records the new shape.
     */
    method Restructure(u: int, ghost b0: seq<int>)
      requires Valid() && |b0| == |bf| && bf == Factors(shape, b0)
      requires u != Null && u == Unbalanced(shape, bf)
      modifies this`parent, this`left, this`right, this`root, this`shape
      ensures Valid()
      ensures shape == Rebalanced(old(shape), bf)
      ensures InOrder(shape) == old(InOrder(shape)) && Handles(shape) == old(Handles(shape))
      ensures value == old(value) && count == old(count) && bf == old(bf)
      ensures Contents() == old(Contents())
    {
      ghost var t := shape;
      ghost var k0 := Wiring();
      ghost var vals := value;
      ghost var s := Sub(t, u);
      assert Fits(t, |bf|) && Distinct(t) && Bst(t, vals) && Sentinel !in Handles(t) && k0.Has(Sentinel);
      Repairable(t, b0, bf, u, s);
      Repair(u, t);
      ghost var nt := ReplaceAt(t, u, Fix(s, bf));
      shape := nt;
      assert SameAt(k0, Wiring(), Sentinel);
      assert nt == Rebalanced(t, bf);
      RebalancedPreserves(t, bf, vals);
      assert Valid();
      assert Contents() == old(Contents()) by {
        StoredHandles(nt, t, vals, count);
      }
    }

    /**
     * One rebalancing pass: recompute every factor, find the first node
     * whose factor is 2 or more in magnitude (right subtrees first) and
     * repair it.
     */
    method Balance()
      requires Valid() && root != Null
      modifies this`bf, this`parent, this`left, this`right, this`root, this`shape
      ensures Valid()
      ensures bf == Factors(old(shape), old(bf))
      ensures shape == Rebalanced(old(shape), bf)
      ensures InOrder(shape) == old(InOrder(shape)) && Handles(shape) == old(Handles(shape))
      ensures value == old(value) && count == old(count)
      ensures Contents() == old(Contents())
    {
      ghost var b0 := bf;
      InArena();
      var _ := CountBalanceFactor(root, 0, shape, Null);
      var unbalanced := SearchUnbalanced(root, shape, Null);
      if unbalanced != Null {
        Restructure(unbalanced, b0);
      }
    }

    /**
     * Adds a node holding `v` (no extra copies, balanced, parent `q`) in the
     * next free slot and hangs it below `q` on the side the descent chose.
     */
    method AddLeaf(v: int, q: int, onLeft: bool)
      requires Valid() && shape.Node? && Locate(shape, v, value) == Vacant(q, onLeft)
      modifies this
      ensures Valid()
      ensures shape == Grow(old(shape), v, old(|value|), old(value))
      ensures v !in old(Contents()) && Contents() == Inserted(old(Contents()), v)
      ensures Handles(shape) == old(Handles(shape)) + {old(|value|)}
      ensures value == old(value) + [v] && count == old(count) + [0] && bf == old(bf) + [0]
    {
      ghost var t, k0, vals, cnts, bfs := shape, Wiring(), value, count, bf;
      ghost var g := Grow(t, v, |value|, vals);
      GrowWellformed(t, vals, cnts, bfs, k0, root, v, q, onLeft);
      var n := NewNode(v, q);
      shape := g;
      if onLeft {
        left := left[q := n];
      } else {
        right := right[q := n];
      }
      assert Wiring() == Attach(k0, q, onLeft, n);
      assert value == vals + [v] && count == cnts + [0] && bf == bfs + [0];
      assert Valid();
      assert v !in old(Contents()) && Contents() == Inserted(old(Contents()), v) by {
        GrowStored(t, g, vals, cnts, v);
      }
    }

    /**
     * A new node record in the next free slot: value `v`, no extra copies,
     * factor 0, parent `p` and no children.
     */
    method NewNode(v: int, p: int) returns (n: int)
      modifies this`value, this`count, this`bf, this`parent, this`left, this`right
      ensures n == old(|value|)
      ensures value == old(value) + [v] && count == old(count) + [0] && bf == old(bf) + [0]
      ensures parent == old(parent) + [p] && left == old(left) + [Null] && right == old(right) + [Null]
    {
      n := |value|;
      value, count, bf := value + [v], count + [0], bf + [0];
      parent, left, right := parent + [p], left + [Null], right + [Null];
    }

    /** Makes a node holding `v` (no extra copies, balanced) the root of an empty map. */
    method Plant(v: int)
      requires Valid() && root == Null
      modifies this
      ensures Valid() && root != Null
      ensures old(Contents()) == map[] && Contents() == Inserted(old(Contents()), v)
      ensures old(Handles(shape)) == {} && Handles(shape) == {old(|value|)}
      ensures shape == Node(Leaf, old(|value|), Leaf) && bf == old(bf) + [0]
      ensures value == old(value) + [v] && count == old(count) + [0]
    {
      ghost var vals, cnts := value, count;
      PlantWellformed(value, count, bf, Wiring(), v);
      var n := NewNode(v, Null);
      root := n;
      shape := Node(Leaf, n, Leaf);
      assert value == vals + [v] && count == cnts + [0];
      assert Valid();
    }

    /** Records one more copy of `v`, the value held by node `h`. */
    method AddCopy(h: int, v: int)
      requires Valid() && h in Handles(shape) && value[h] == v
      modifies this`count
      ensures Valid()
      ensures count == old(count)[h := old(count)[h] + 1]
      ensures forall x :: 0 <= x < |count| ==>
        count[x] == old(count)[x] + if x in Handles(shape) && value[x] == v then 1 else 0
      ensures v in old(Contents()) && Contents() == Inserted(old(Contents()), v)
    {
      InArena();
      BstInjective(shape, value);
      ghost var cnts := count;
      count := count[h := count[h] + 1];
      assert count == cnts[h := cnts[h] + 1];
      assert Valid();
      assert v in old(Contents()) && Contents() == Inserted(old(Contents()), v) by {
        BumpStored(shape, value, cnts, v, h);
      }
    }

    /**
     * The descent of Insert from the root: left while the node's value
     * compares greater than `v`, right while it compares smaller, stopping
     * at the node holding `v` or at the node whose missing child is where
     * `v` belongs.
     */
    method Descend(v: int) returns (tmp: int, found: bool, onLeft: bool)
      requires Valid() && root != Null
      ensures found ==> Locate(shape, v, value) == Found(tmp)
      ensures !found ==> Locate(shape, v, value) == Vacant(tmp, onLeft)
    {
      tmp := root;
      ghost var sub := shape;
      ghost var above := Null;
      found, onLeft := false, false;
      while true
        invariant sub.Node? && sub.h == tmp && Handles(sub) <= Handles(shape)
        invariant Linked(sub, above, Wiring()) && Bst(sub, value)
        invariant Locate(shape, v, value) == Locate(sub, v, value)
        decreases sub
      {
        var result := Compare(value[tmp], v);
        if result > 0 {
          if left[tmp] == Null {
            onLeft := true;
            break;
          }
          above, tmp, sub := tmp, left[tmp], sub.left;
        } else if result < 0 {
          if right[tmp] == Null {
            break;
          }
          above, tmp, sub := tmp, right[tmp], sub.right;
        } else {
          found := true;
          break;
        }
      }
    }

    /**
     * Stores `v`: a first copy becomes a new node (the first node of an
     * empty map is the root and no rebalancing follows); a repeated value
     * only raises its node's counter. A non-empty map is then rebalanced.
     */
    method Insert(v: int)
      requires Valid()
      modifies this
      ensures Valid()
      ensures Contents() == Inserted(old(Contents()), v)
      ensures v !in old(Contents()) ==> Handles(shape) == old(Handles(shape)) + {old(|value|)}
      ensures v !in old(Contents()) ==> value == old(value) + [v] && count == old(count) + [0]
      ensures v in old(Contents()) ==> Handles(shape) == old(Handles(shape)) && value == old(value)
      ensures v in old(Contents()) ==> |count| == old(|count|) && forall x :: 0 <= x < |count| ==>
        count[x] == old(count)[x] + if x in old(Handles(shape)) && value[x] == v then 1 else 0
      ensures old(root) == Null ==> shape == Node(Leaf, old(|value|), Leaf) && bf == old(bf) + [0]
      ensures old(root) != Null && v !in old(Contents()) ==>
        var g := Grow(old(shape), v, old(|value|), old(value));
        && |bf| == old(|bf|) + 1 && Fits(g, |bf|)
        && bf == Factors(g, old(bf) + [0]) && shape == Rebalanced(g, bf)
      ensures old(root) != Null && v in old(Contents()) ==>
        bf == Factors(old(shape), old(bf)) && shape == Rebalanced(old(shape), bf)
    {
      ghost var c0 := Contents();
      if root == Null {
        Plant(v);
        return;
      }
      var tmp, found, onLeft := Descend(v);
      if found {
        AddCopy(tmp, v);
      } else {
        AddLeaf(v, tmp, onLeft);
      }
      ghost var c1 := Contents();
      Balance();
      assert Contents() == c1;
    }
  
    // -------------------------------------------------------------------
    // Iterator stepping

    /**
     * `Get`, `*` and `->`: the value of the node an iterator is on; on a
     * node of the tree that is a stored value, with that node's count.
     */
    function Get(it: Iterator): (v: int)
      reads this
      requires Valid() && (it.current == Sentinel || it.current in Handles(shape))
      ensures it.current in Handles(shape) ==> v in Contents() && Contents()[v] == count[it.current]
      ensures it.current == Sentinel ==> v == 0
    {
      StoredHas(shape, value, count);
      value[it.current]
    }

    /**
     * `++`: into the right subtree and down to its leftmost node; without a
     * right subtree, up while the parent holds a smaller value, onto the
     * sentinel when the climb reaches the root. Does nothing on the sentinel.
     * A root without a right subtree has no parent to read, so it is excluded.
     */
    method Next(it: Iterator) returns (r: Iterator)
      requires Valid() && it.end == Sentinel
      requires it.current == Sentinel || it.current in Handles(shape)
      requires it.current != Sentinel && right[it.current] == Null ==> parent[it.current] != Null
      ensures r.begin == it.begin && r.end == it.end
      ensures r.current == Forward(shape, it.current)
    {
      InArena();
      ghost var t, k := shape, Wiring();
      var cur := it.current;
      if cur != Sentinel {
        ChildLinks(t, Null, k, cur);
      }
      if right[cur] != Null {
        ghost var x := cur;
        cur := right[cur];
        while left[cur] != Null
          invariant cur in Handles(t) && Min(Sub(t, cur)) == Min(Sub(t, x).right)
          decreases Sub(t, cur)
        {
          ChildLinks(t, Null, k, cur);
          cur := left[cur];
        }
        ChildLinks(t, Null, k, cur);
        SuccViaRight(t, x);
      } else if cur != it.end {
        ghost var x := cur;
        MaxSub(Sub(t, x));
        ParentNull(t, k, x);
        ClimbStep(t, k, value, cur, x);
        var tmp := value[cur];
        while Compare(value[parent[cur]], tmp) < 0
          invariant cur in Handles(t) && cur != t.h && parent[cur] in Handles(t)
          invariant x in Handles(Sub(t, cur)) && Max(Sub(t, cur)) == x
          decreases Depth(t, cur)
        {
          ClimbStep(t, k, value, cur, x);
          cur := parent[cur];
          ParentNull(t, k, cur);
          if parent[cur] == Null {
            SuccOfMax(t);
            return it.(current := it.end);
          }
          ClimbStep(t, k, value, cur, x);
        }
        ClimbStep(t, k, value, cur, x);
        SuccViaLeftChild(t, parent[cur]);
        cur := parent[cur];
      }
      return it.(current := cur);
    }

    /**
     * `++` with a guard for the one node the code cannot step from: a node
     * without a right subtree and without a parent is the root and the last
     * node, and moves onto the sentinel, as a climb that reaches the root
     * does. Everywhere else it is `++`.
     */
    method Advance(it: Iterator) returns (r: Iterator)
      requires Valid() && it.end == Sentinel
      requires it.current == Sentinel || it.current in Handles(shape)
      ensures r.begin == it.begin && r.end == it.end
      ensures r.current == Forward(shape, it.current)
    {
      if it.current != Sentinel {
        ghost var t, k := shape, Wiring();
        ChildLinks(t, Null, k, it.current);
        ParentNull(t, k, it.current);
        if right[it.current] == Null && parent[it.current] == Null {
          assert t.right.Leaf? by {
            NullAbsent(t);
          }
          SuccOfMax(t);
          return it.(current := it.end);
        }
      }
      r := Next(it);
    }

    /**
     * The code's `++` reads a parent that is missing exactly on the last
     * node in order when that node is the root, that is, when the root has
     * no right subtree.
     */
    lemma StepUndefined(i: int)
      requires Valid() && 0 <= i < |InOrder(shape)|
      ensures 0 <= root < |right| && 0 <= InOrder(shape)[i] < |right| && InOrder(shape)[i] < |parent|
      ensures right[InOrder(shape)[i]] == Null && parent[InOrder(shape)[i]] == Null
        <==> i + 1 == |InOrder(shape)| && right[root] == Null
    {
      ghost var t, k := shape, Wiring();
      var c := InOrder(t)[i];
      HandlesInOrder(t);
      NullAbsent(t);
      DistinctInOrder(t);
      ChildLinks(t, Null, k, c);
      ChildLinks(t, Null, k, t.h);
      ParentNull(t, k, c);
      assert Sub(t, t.h) == t;
      assert t.right.Leaf? <==> Max(t) == t.h by {
        if t.right.Node? {
          assert Max(t) == Max(t.right) && Max(t.right) in Handles(t.right);
        }
      }
      if right[c] == Null && parent[c] == Null {
        assert c == t.h && InOrder(t)[|InOrder(t)| - 1] == c;
      }
    }

    /**
     * A map whose root has no right subtree: `++` from the first node
     * reaches the root after one step fewer than there are nodes, and the
     * root has no parent for the next step to read.
     */
    lemma WalkStuck()
      requires Valid() && root != Null && 0 <= root < |right| && right[root] == Null
      ensures 0 < |InOrder(shape)| && Walk(shape, Min(shape), |InOrder(shape)| - 1) == root
      ensures parent[root] == Null
    {
      ghost var t, k := shape, Wiring();
      ChildLinks(t, Null, k, t.h);
      NullAbsent(t);
      WalkInOrder(t, |InOrder(t)| - 1);
    }

    /**
     * `--`: the mirror image of `++`, into the left subtree and down to its
     * rightmost node, or up while the parent holds a larger value. Does
     * nothing on the lower bound when it has no left subtree. A node without
     * a left subtree and without a parent (the sentinel, or the root) that is
     * not the lower bound has no parent to read, so it is excluded.
     */
    method Prev(it: Iterator) returns (r: Iterator)
      requires Valid() && it.end == Sentinel
      requires it.current == Sentinel || it.current in Handles(shape)
      requires left[it.current] == Null && it.current != it.begin ==> parent[it.current] != Null
      ensures r.begin == it.begin && r.end == it.end
      ensures r.current == Backward(shape, it.current, it.begin)
    {
      InArena();
      ghost var t, k := shape, Wiring();
      var cur := it.current;
      if cur != Sentinel {
        ChildLinks(t, Null, k, cur);
      }
      if left[cur] != Null {
        ghost var x := cur;
        cur := left[cur];
        while right[cur] != Null
          invariant cur in Handles(t) && Max(Sub(t, cur)) == Max(Sub(t, x).left)
          decreases Sub(t, cur)
        {
          ChildLinks(t, Null, k, cur);
          cur := right[cur];
        }
        ChildLinks(t, Null, k, cur);
        PredViaLeft(t, x);
      } else if cur != it.begin {
        ghost var x := cur;
        MinSub(Sub(t, x));
        ParentNull(t, k, x);
        ClimbStep(t, k, value, cur, x);
        var tmp := value[cur];
        while Compare(value[parent[cur]], tmp) > 0
          invariant cur in Handles(t) && cur != t.h && parent[cur] in Handles(t)
          invariant x in Handles(Sub(t, cur)) && Min(Sub(t, cur)) == x
          decreases Depth(t, cur)
        {
          ClimbStep(t, k, value, cur, x);
          cur := parent[cur];
          ParentNull(t, k, cur);
          if parent[cur] == Null {
            PredOfMin(t);
            return it.(current := it.end);
          }
          ClimbStep(t, k, value, cur, x);
        }
        ClimbStep(t, k, value, cur, x);
        PredViaRightChild(t, parent[cur]);
        cur := parent[cur];
      }
      return it.(current := cur);
    }

    // -------------------------------------------------------------------
    // Lookup

    /**
     * On an iterator whose lower bound is the leftmost node, as `begin()`
     * and `Search` hand out, the code's `--` reads a parent that is missing
     * exactly on the sentinel, that is, after `++` has moved onto it.
     */
    lemma StepBackUndefined(c: int)
      requires Valid() && root != Null && (c == Sentinel || c in Handles(shape))
      ensures 0 <= c < |left| && c < |parent|
      ensures left[c] == Null && c != Min(shape) && parent[c] == Null <==> c == Sentinel
    {
      InArena();
      ghost var t, k := shape, Wiring();
      if c != Sentinel {
        ChildLinks(t, Null, k, c);
        ParentNull(t, k, c);
        NullAbsent(t);
        assert Sub(t, t.h) == t;
      }
    }

    /** The leftmost node, reached by following left links from the root. */
    method Leftmost() returns (lowest: int)
      requires Valid() && root != Null
      ensures lowest in Handles(shape) && lowest == Min(shape)
      ensures lowest == InOrder(shape)[0]
    {
      ghost var t, k := shape, Wiring();
      lowest := root;
      while left[lowest] != Null
        invariant lowest in Handles(t) && Min(Sub(t, lowest)) == Min(t)
        decreases Sub(t, lowest)
      {
        ChildLinks(t, Null, k, lowest);
        lowest := left[lowest];
      }
      ChildLinks(t, Null, k, lowest);
    }

    /**
     * `begin()`: an iterator on the smallest value, with that node as its
     * lower bound. An empty map yields an iterator on no node at all, which
     * is not the past-the-end iterator.
     */
    method Begin() returns (it: Iterator)
      requires Valid()
      ensures root == Null ==> it == Iterator(Null, Sentinel, Null) && !Same(it, End())
      ensures root != Null ==> it.end == Sentinel && it.begin == it.current == Min(shape)
      ensures root != Null ==> it.current == InOrder(shape)[0] && value[it.current] in Contents()
      ensures root != Null ==> Contents()[value[it.current]] == count[it.current]
    {
      if root == Null {
        return Iterator(Null, Sentinel, Null);
      }
      var lowest := Leftmost();
      StoredHas(shape, value, count);
      return Iterator(lowest, Sentinel, lowest);
    }

    /**
     * Finds the node holding `v` by descending from the root of a non-empty
     * map; a missing child on the way gives the past-the-end iterator. A hit
     * gives an iterator on that node whose lower bound is the smallest node.
     */
    method Search(v: int) returns (it: Iterator)
      requires Valid() && root != Null
      ensures it.end == Sentinel
      ensures Same(it, End()) <==> v !in Contents()
      ensures v !in Contents() ==> it == End()
      ensures v in Contents() ==> it.current in Handles(shape) && value[it.current] == v
      ensures v in Contents() ==> Contents()[v] == count[it.current] && it.begin == Min(shape)
    {
      ghost var t := shape;
      var iter := root;
      ghost var sub := t;
      ghost var above := Null;
      LocateFound(t, v, value);
      StoredKeys(t, value, count);
      StoredHas(t, value, count);
      InArena();
      while value[iter] != v
        invariant sub.Node? && sub.h == iter && Handles(sub) <= Handles(t)
        invariant Linked(sub, above, Wiring()) && Bst(sub, value)
        invariant Locate(t, v, value) == Locate(sub, v, value)
        decreases sub
      {
        var result := Compare(value[iter], v);
        if result > 0 {
          if left[iter] == Null {
            return End();
          }
          above, iter, sub := iter, left[iter], sub.left;
        } else if result < 0 {
          if right[iter] == Null {
            return End();
          }
          above, iter, sub := iter, right[iter], sub.right;
        } else {
          assert false;
        }
      }
      var lowest := Leftmost();
      return Iterator(lowest, Sentinel, iter);
    }

    // -------------------------------------------------------------------
    // Removal

    /**
     * The values whose removal the code carries out soundly: stored in a
     * node that is not the root, has no left subtree and, when its in-order
     * successor lies below its right child, has a successor without a
     * right subtree.
     */
    ghost predicate Deletable(v: int)
      reads this
      requires Valid()
    {
      Locate(shape, v, value).Found? && Removable(shape, Locate(shape, v, value).at)
    }

    /** A leaf goes: its parent's slot that held it becomes empty. */
    method Unlink(x: int)
      requires Valid() && Removable(shape, x) && Sub(shape, x).right.Leaf?
      modifies this`left, this`right
      ensures Linked(ReplaceAt(shape, x, Spliced(Sub(shape, x))), Null, Wiring())
      ensures |left| == old(|left|) && |right| == old(|right|)
      ensures SameAt(old(Wiring()), Wiring(), Sentinel)
    {
      ghost var t, k0 := shape, Wiring();
      AdoptLinked(t, k0, x, Leaf, k0);
      assert Spliced(Sub(t, x)) == Leaf;
      Adopt(parent[x], x, Null);
    }

    /**
     * A node `x` with only a right subtree goes: its in-order successor
     * `replace` takes its place in its parent's slot. The right child, when
     * it is the successor, keeps its own right subtree; a deeper successor
     * leaves its parent's left slot and takes over both sides of `x`.
     */
    method Promote(x: int, replace: int)
      requires Valid() && Removable(shape, x) && Sub(shape, x).right.Node?
      requires replace == Min(Sub(shape, x).right)
      modifies this`left, this`right, this`parent
      ensures Linked(ReplaceAt(shape, x, Spliced(Sub(shape, x))), Null, Wiring())
      ensures |left| == old(|left|) && |right| == old(|right|) && |parent| == old(|parent|)
      ensures SameAt(old(Wiring()), Wiring(), Sentinel)
    {
      ghost var k0 := Wiring();
      SpliceFacts(shape, k0, x, replace);
      Adopt(parent[x], x, replace);
      if parent[replace] == x {
        Inherit(x, replace, shape, k0);
        return;
      }
      Transplant(x, replace, shape, k0);
    }

    /** The right child `replace` of `x` inherits its left side and its parent. */
    method Inherit(x: int, replace: int, ghost t: Tree, ghost k0: Links)
      requires Distinct(t) && Linked(t, Null, k0) && Sentinel !in Handles(t) && Removable(t, x)
      requires Sub(t, x).right.Node? && replace == Min(Sub(t, x).right)
      requires k0.Has(x) && k0.Has(k0.parent[x]) && k0.Has(replace)
      requires Wiring() == AdoptLinks(k0, k0.parent[x], x, replace)
      requires k0.parent[replace] == x
      modifies this`left, this`parent
      ensures Linked(ReplaceAt(t, x, Spliced(Sub(t, x))), Null, Wiring())
      ensures |left| == old(|left|) && |right| == old(|right|) && |parent| == old(|parent|)
      ensures SameAt(k0, Wiring(), Sentinel)
    {
      SpliceFacts(t, k0, x, replace);
      ghost var q := k0.parent[x];
      ghost var r := Sub(t, x).right.h;
      ghost var a := Wiring();
      left := left[replace := left[x]];
      parent := parent[replace := parent[x]];
      assert Wiring() == Links(a.left[replace := a.left[x]], a.right, a.parent[replace := a.parent[x]]);
      InheritLinks(k0, q, x, replace);
      ghost var k1 := Links(k0.left[r := k0.left[x]], k0.right, k0.parent[r := q]);
      PromoteLinked(t, k0, x, r, k1);
    }

    /**
     * The deeper successor `replace` leaves its parent's left slot to its
     * empty right side and takes over the parent and both sides of `x`.
     */
    method Transplant(x: int, replace: int, ghost t: Tree, ghost k0: Links)
      requires Distinct(t) && Linked(t, Null, k0) && Sentinel !in Handles(t) && Removable(t, x)
      requires Sub(t, x).right.Node? && replace == Min(Sub(t, x).right)
      requires k0.Has(x) && k0.Has(k0.parent[x]) && k0.Has(replace)
      requires Wiring() == AdoptLinks(k0, k0.parent[x], x, replace)
      requires k0.parent[replace] != x
      modifies this`left, this`right, this`parent
      ensures Linked(ReplaceAt(t, x, Spliced(Sub(t, x))), Null, Wiring())
      ensures |left| == old(|left|) && |right| == old(|right|) && |parent| == old(|parent|)
      ensures SameAt(k0, Wiring(), Sentinel)
    {
      SpliceFacts(t, k0, x, replace);
      ghost var q := k0.parent[x];
      ghost var r := Sub(t, x).right.h;
      ghost var p := parent[replace];
      ghost var a := Wiring();
      assert k0.Has(r) && k0.Has(p) && a.right[x] == r;
      left := left[parent[replace] := right[replace]];
      parent := parent[replace := parent[x]];
      left := left[replace := left[x]];
      right := right[replace := right[x]];
      parent := parent[right[replace] := replace];
      assert Wiring() == Links(a.left[p := a.right[replace]][replace := a.left[x]], a.right[replace := a.right[x]],
        a.parent[replace := a.parent[x]][a.right[x] := replace]);
      TransplantLinked(t, k0, x, replace, p, r, Wiring());
    }

    /**
     * Removes the node holding `v`, with all its copies, and rebalances.
     * The in-order sequence loses exactly that node.
     */
    method Delete(v: int)
      requires Valid() && Deletable(v)
      modifies this`bf, this`parent, this`left, this`right, this`root, this`shape
      ensures Valid()
      ensures Contents() == old(Contents()) - {v}
      ensures InOrder(shape) == Without(old(InOrder(shape)), old(Locate(shape, v, value).at))
      ensures value == old(value) && count == old(count)
      ensures var x := old(Locate(shape, v, value).at);
        var s := ReplaceAt(old(shape), x, Spliced(Sub(old(shape), x)));
        && |bf| == old(|bf|) && Fits(s, |bf|)
        && bf == Factors(s, old(bf)) && shape == Rebalanced(s, bf)
    {
      assert v in Contents() by {
        LocateFound(shape, v, value);
        StoredKeys(shape, value, count);
      }
      var deleteValue := Search(v);
      assert deleteValue.current == Locate(shape, v, value).at by {
        BstInjective(shape, value);
      }
      Detach(deleteValue);
      Balance();
    }

    /**
     * Takes the node an iterator is on out of the tree: a leaf leaves an
     * empty slot, a node with only a right subtree gives its place to its
     * in-order successor, which the iterator's `++` finds.
     */
    method Detach(it: Iterator)
      requires Valid() && it.end == Sentinel && Removable(shape, it.current)
      modifies this`parent, this`left, this`right, this`shape
      ensures Valid() && root == old(root) && root != Null
      ensures shape == ReplaceAt(old(shape), it.current, Spliced(Sub(old(shape), it.current)))
      ensures InOrder(shape) == Without(old(InOrder(shape)), it.current)
      ensures value == old(value) && count == old(count) && bf == old(bf)
      ensures 0 <= it.current < |value| && Contents() == old(Contents()) - {value[it.current]}
    {
      ghost var t, k0 := shape, Wiring();
      var tmp := it.current;
      ChildLinks(t, Null, k0, tmp);
      if left[tmp] == Null && right[tmp] == Null {
        Unlink(tmp);
      } else if left[tmp] == Null {
        var successor := Next(it);
        SuccViaRight(t, tmp);
        NullAbsent(t);
        Promote(tmp, successor.current);
      } else {
        assert false;
      }
      shape := ReplaceAt(t, tmp, Spliced(Sub(t, tmp)));
      RemoveWellformed(t, value, count, bf, k0, Wiring(), root, tmp);
    }
}
}
