/**
 * How the node arena of a map realises a tree shape: the child and parent
 * links of every node record, and the search-tree order of the values.
 */
module Arena {
  import opened Trees

  /** The default three-way comparator of the map: `a - b`, on unbounded integers. */
  function Compare(a: int, b: int): (c: int)
    ensures c > 0 <==> a > b
    ensures c < 0 <==> a < b
  {
    a - b
  }

  /** The link fields of the node records, indexed by handle. */
  datatype Links = Links(left: seq<int>, right: seq<int>, parent: seq<int>)
  {
    predicate Has(x: int)
    {
      0 <= x < |left| && 0 <= x < |right| && 0 <= x < |parent|
    }
  }

  /**
   * `t` hangs below `p`: each node's child slots hold the roots of its
   * subtrees and its parent slot holds the node whose child it is.
   */
  ghost predicate Linked(t: Tree, p: int, k: Links)
  {
    match t
    case Leaf => true
    case Node(l, h, r) =>
      && k.Has(h)
      && k.parent[h] == p && k.left[h] == Root(l) && k.right[h] == Root(r)
      && Linked(l, h, k) && Linked(r, h, k)
  }

  /** Node `x` has the same links in `k` and `k'`. */
  ghost predicate SameAt(k: Links, k': Links, x: int)
  {
    && k.Has(x) && k'.Has(x)
    && k'.left[x] == k.left[x] && k'.right[x] == k.right[x] && k'.parent[x] == k.parent[x]
  }

  /** Search-tree order: left subtrees hold smaller values, right subtrees larger ones. */
  ghost predicate Bst(t: Tree, value: seq<int>)
  {
    match t
    case Leaf => true
    case Node(l, h, r) =>
      && 0 <= h < |value|
      && Bst(l, value) && Bst(r, value)
      && (forall y :: y in Handles(l) ==> 0 <= y < |value| && value[y] < value[h])
      && (forall y :: y in Handles(r) ==> 0 <= y < |value| && value[h] < value[y])
  }

  /** The values stored in the nodes of `t`. */
  ghost function Keys(t: Tree, value: seq<int>): set<int>
  {
    set x | x in Handles(t) && 0 <= x < |value| :: value[x]
  }

  /** Where the comparator-guided descent for `v` ends. */
  datatype Spot = Found(at: int) | Vacant(under: int, onLeft: bool)

  /** The descent of Insert: left while the node compares greater, right while smaller. */
  function Locate(t: Tree, v: int, value: seq<int>): (s: Spot)
    requires Bst(t, value)
    ensures t.Node? && s.Found? ==> s.at in Handles(t) && 0 <= s.at < |value| && value[s.at] == v
    ensures t.Node? && s.Vacant? ==> s.under in Handles(t)
  {
    match t
    case Leaf => Vacant(Null, true)
    case Node(l, h, r) =>
      if Compare(value[h], v) > 0 then (if l.Leaf? then Vacant(h, true) else Locate(l, v, value))
      else if Compare(value[h], v) < 0 then (if r.Leaf? then Vacant(h, false) else Locate(r, v, value))
      else Found(h)
  }

  /** `t` with a new leaf `n` attached where the descent for `v` ends. */
  function Grow(t: Tree, v: int, n: int, value: seq<int>): Tree
    requires Bst(t, value)
  {
    match t
    case Leaf => Node(Leaf, n, Leaf)
    case Node(l, h, r) =>
      if Compare(value[h], v) > 0 then Node(Grow(l, v, n, value), h, r)
      else if Compare(value[h], v) < 0 then Node(l, h, Grow(r, v, n, value))
      else t
  }

  /** The links after attaching leaf `n` (the next free slot) below `q`. */
  function Attach(k: Links, q: int, onLeft: bool, n: int): Links
    requires k.Has(q)
  {
    var left := k.left + [Null];
    var right := k.right + [Null];
    Links(if onLeft then left[q := n] else left,
          if onLeft then right else right[q := n],
          k.parent + [q])
  }

  // ---------------------------------------------------------------------
  // Links

  lemma {:induction false} LinkedHas(t: Tree, p: int, k: Links)
    requires Linked(t, p, k)
    ensures forall x :: x in Handles(t) ==> k.Has(x)
  {
    match t
    case Leaf =>
    case Node(l, h, r) =>
      LinkedHas(l, h, k);
      LinkedHas(r, h, k);
  }

  /** Links depend only on the records of the tree's own nodes. */
  lemma {:induction false} LinkedFrame(t: Tree, p: int, k: Links, k': Links)
    requires Linked(t, p, k)
    requires forall x :: x in Handles(t) ==> SameAt(k, k', x)
    ensures Linked(t, p, k')
  {
    match t
    case Leaf =>
    case Node(l, h, r) =>
      assert h in Handles(t) && SameAt(k, k', h);
      LinkedFrame(l, h, k, k');
      LinkedFrame(r, h, k, k');
  }

  /** Re-pointing the parent slot of a subtree's root hangs it below the new parent. */
  lemma {:induction false} LinkedRehang(t: Tree, p: int, q: int, k: Links, k': Links)
    requires Distinct(t) && t.Node? && Linked(t, p, k)
    requires k'.left == k.left && k'.right == k.right && k'.parent == k.parent[t.h := q]
    ensures Linked(t, q, k')
  {
    LinkedHas(t, p, k);
    LinkedFrame(t.left, t.h, k, k');
    LinkedFrame(t.right, t.h, k, k');
  }

  /** Every subtree hangs below the node its root's parent slot names. */
  lemma {:induction false} SubLinked(t: Tree, p: int, k: Links, x: int)
    requires Linked(t, p, k) && x in Handles(t)
    ensures k.Has(x) && Linked(Sub(t, x), k.parent[x], k)
  {
    match t
    case Node(l, h, r) =>
      if h != x {
        if x in Handles(l) { SubLinked(l, h, k, x); } else { SubLinked(r, h, k, x); }
      }
  }

  /**
   * The parent slot of a non-root node names a node of the tree that holds
   * it as a child, one level closer to the root.
   */
  lemma {:induction false} ParentLemma(t: Tree, p: int, k: Links, x: int)
    requires Distinct(t) && Linked(t, p, k) && x in Handles(t) && x != t.h
    ensures k.Has(x)
    ensures var q := k.parent[x];
      && q in Handles(t)
      && (Sub(t, q).left == Sub(t, x) || Sub(t, q).right == Sub(t, x))
      && Depth(t, q) < Depth(t, x)
  {
    LinkedHas(t, p, k);
    match t
    case Node(l, h, r) =>
      if x in Handles(l) {
        if x != l.h {
          ParentLemma(l, h, k, x);
        }
      } else {
        if x != r.h {
          ParentLemma(r, h, k, x);
        }
      }
  }

  /**
   * Replacing the subtree at `x` (not the root) by `s`: when `s` hangs below
   * the old parent of `x`, that parent's slot now holds `s`, and all other
   * nodes outside the old subtree kept their links, the result is linked.
   */
  lemma {:induction false} ReplaceLinked(t: Tree, p: int, k: Links, x: int, s: Tree, k': Links)
    requires Distinct(t) && Linked(t, p, k) && x in Handles(t) && x != t.h
    requires k.Has(x) && k.Has(k.parent[x]) && k'.Has(k.parent[x])
    requires Linked(s, k.parent[x], k')
    requires var q := k.parent[x];
      && k'.parent[q] == k.parent[q]
      && k'.left[q] == (if k.left[q] == x then Root(s) else k.left[q])
      && k'.right[q] == (if k.left[q] == x then k.right[q] else Root(s))
    requires forall y :: y in Handles(t) - Handles(Sub(t, x)) - {k.parent[x]} ==> SameAt(k, k', y)
    ensures Linked(ReplaceAt(t, x, s), p, k')
  {
    ParentLemma(t, p, k, x);
    var q := k.parent[x];
    match t
    case Node(l, h, r) =>
      if x in Handles(l) {
        if x == l.h {
          assert q == h && k.left[h] == x;
          LinkedFrame(r, h, k, k');
        } else {
          assert Sub(t, x) == Sub(l, x) && h !in Handles(Sub(t, x)) && l.h !in Handles(Sub(l, x));
          assert h in Handles(t) && q != h && SameAt(k, k', h);
          ReplaceLinked(l, h, k, x, s, k');
          LinkedFrame(r, h, k, k');
        }
      } else {
        if x == r.h {
          assert q == h && k.right[h] == x && k.left[h] != x;
          LinkedFrame(l, h, k, k');
        } else {
          assert Sub(t, x) == Sub(r, x) && h !in Handles(Sub(t, x)) && r.h !in Handles(Sub(r, x));
          assert h in Handles(t) && q != h && SameAt(k, k', h);
          ReplaceLinked(r, h, k, x, s, k');
          LinkedFrame(l, h, k, k');
        }
      }
  }

  /** Attaching a leaf below `q` leaves every other node's links as they were. */
  lemma AttachFrame(k: Links, q: int, onLeft: bool, n: int)
    requires k.Has(q) && n == |k.left| == |k.right| == |k.parent|
    ensures forall y :: k.Has(y) && y != q ==> SameAt(k, Attach(k, q, onLeft, n), y)
  {
  }

  /** Attaching the new leaf where the descent ends keeps the tree linked. */
  lemma {:induction false} GrowLinked(t: Tree, p: int, k: Links, v: int, n: int, value: seq<int>)
    requires Distinct(t) && t.Node? && Linked(t, p, k) && Bst(t, value)
    requires n == |k.left| == |k.right| == |k.parent|
    requires Locate(t, v, value).Vacant?
    ensures var s := Locate(t, v, value);
      k.Has(s.under) && Linked(Grow(t, v, n, value), p, Attach(k, s.under, s.onLeft, n))
    decreases t, 1
  {
    if Compare(value[t.h], v) > 0 {
      GrowLinkedLeft(t, p, k, v, n, value);
    } else {
      GrowLinkedRight(t, p, k, v, n, value);
    }
  }

  lemma {:induction false} GrowLinkedLeft(t: Tree, p: int, k: Links, v: int, n: int, value: seq<int>)
    requires Distinct(t) && t.Node? && Linked(t, p, k) && Bst(t, value)
    requires n == |k.left| == |k.right| == |k.parent|
    requires Locate(t, v, value).Vacant? && Compare(value[t.h], v) > 0
    ensures var s := Locate(t, v, value);
      k.Has(s.under) && Linked(Grow(t, v, n, value), p, Attach(k, s.under, s.onLeft, n))
    decreases t, 0
  {
    LinkedHas(t, p, k);
    var s := Locate(t, v, value);
    var k' := Attach(k, s.under, s.onLeft, n);
    var l, h, r := t.left, t.h, t.right;
    var g := Grow(l, v, n, value);
    if l.Node? {
      GrowLinked(l, h, k, v, n, value);
      assert s.under in Handles(l) && s.under != h;
    } else {
      assert Linked(g, h, k');
    }
    AttachFrame(k, s.under, s.onLeft, n);
    assert s.under !in Handles(r);
    LinkedFrame(r, h, k, k');
    assert Linked(Node(g, h, r), p, k');
  }

  lemma {:induction false} GrowLinkedRight(t: Tree, p: int, k: Links, v: int, n: int, value: seq<int>)
    requires Distinct(t) && t.Node? && Linked(t, p, k) && Bst(t, value)
    requires n == |k.left| == |k.right| == |k.parent|
    requires Locate(t, v, value).Vacant? && Compare(value[t.h], v) <= 0
    ensures var s := Locate(t, v, value);
      k.Has(s.under) && Linked(Grow(t, v, n, value), p, Attach(k, s.under, s.onLeft, n))
    decreases t, 0
  {
    LinkedHas(t, p, k);
    var s := Locate(t, v, value);
    var k' := Attach(k, s.under, s.onLeft, n);
    var l, h, r := t.left, t.h, t.right;
    var g := Grow(r, v, n, value);
    if r.Node? {
      GrowLinked(r, h, k, v, n, value);
      assert s.under in Handles(r) && s.under != h;
    } else {
      assert Linked(g, h, k');
    }
    AttachFrame(k, s.under, s.onLeft, n);
    assert s.under !in Handles(l);
    LinkedFrame(l, h, k, k');
    assert Linked(Node(l, h, g), p, k');
  }

  // ---------------------------------------------------------------------
  // Order

  /** The order depends only on the values of the tree's own nodes. */
  lemma {:induction false} BstFrame(t: Tree, value: seq<int>, value': seq<int>)
    requires Bst(t, value)
    requires forall x :: x in Handles(t) ==> 0 <= x < |value| && x < |value'| && value'[x] == value[x]
    ensures Bst(t, value')
  {
    match t
    case Leaf =>
    case Node(l, h, r) =>
      BstFrame(l, value, value');
      BstFrame(r, value, value');
  }

  lemma {:induction false} BstHandles(t: Tree, value: seq<int>)
    requires Bst(t, value)
    ensures forall x :: x in Handles(t) ==> 0 <= x < |value|
  {
    match t
    case Leaf =>
    case Node(l, h, r) =>
  }

  lemma {:induction false} BstSub(t: Tree, value: seq<int>, x: int)
    requires Bst(t, value) && x in Handles(t)
    ensures Bst(Sub(t, x), value)
  {
    match t
    case Node(l, h, r) =>
      if h != x {
        if x in Handles(l) { BstSub(l, value, x); } else { BstSub(r, value, x); }
      }
  }

  /** No two nodes of a search tree hold the same value. */
  lemma {:induction false} BstInjective(t: Tree, value: seq<int>)
    requires Bst(t, value)
    ensures forall x, y :: x in Handles(t) && y in Handles(t) && x != y ==>
      0 <= x < |value| && 0 <= y < |value| && value[x] != value[y]
  {
    match t
    case Leaf =>
    case Node(l, h, r) =>
      BstInjective(l, value);
      BstInjective(r, value);
  }

  /** Replacing a subtree by an ordered one over some of its own nodes keeps the order. */
  lemma {:induction false} BstReplace(t: Tree, value: seq<int>, x: int, s: Tree)
    requires Distinct(t) && Bst(t, value) && Bst(s, value) && x in Handles(t)
    requires Handles(s) <= Handles(Sub(t, x))
    ensures Bst(ReplaceAt(t, x, s), value)
  {
    match t
    case Node(l, h, r) =>
      if h != x {
        if x in Handles(l) {
          BstReplace(l, value, x, s);
          ReplaceHandles(l, x, s);
        } else {
          BstReplace(r, value, x, s);
          ReplaceHandles(r, x, s);
        }
      }
  }

  lemma BstRotL(t: Tree, value: seq<int>)
    requires Bst(t, value)
    ensures Bst(RotL(t), value)
  {
    match t
    case Node(a, q, Node(b, p, c)) =>
      assert Bst(Node(b, p, c), value);
    case _ =>
  }

  lemma BstRotR(t: Tree, value: seq<int>)
    requires Bst(t, value)
    ensures Bst(RotR(t), value)
  {
    match t
    case Node(Node(a, q, b), p, c) =>
      assert Bst(Node(a, q, b), value);
    case _ =>
  }

  /** The values at the handles of `s` strictly increase. */
  ghost predicate Increasing(s: seq<int>, value: seq<int>)
  {
    forall i, j :: 0 <= i < j < |s| ==> 0 <= s[i] < |value| && 0 <= s[j] < |value| && value[s[i]] < value[s[j]]
  }

  lemma IncreasingConcat(a: seq<int>, h: int, b: seq<int>, value: seq<int>)
    requires Increasing(a, value) && Increasing(b, value) && 0 <= h < |value|
    requires forall x :: x in a ==> 0 <= x < |value| && value[x] < value[h]
    requires forall x :: x in b ==> 0 <= x < |value| && value[h] < value[x]
    ensures Increasing(a + [h] + b, value)
  {
    var s := a + [h] + b;
    forall i, j | 0 <= i < j < |s|
      ensures 0 <= s[i] < |value| && 0 <= s[j] < |value| && value[s[i]] < value[s[j]]
    {
      if j < |a| {
        assert s[i] == a[i] && s[j] == a[j];
      } else if i > |a| {
        assert s[i] == b[i - |a| - 1] && s[j] == b[j - |a| - 1];
      } else {
        assert i < |a| ==> s[i] == a[i] && a[i] in a;
        assert j > |a| ==> s[j] == b[j - |a| - 1] && b[j - |a| - 1] in b;
      }
    }
  }

  /** In-order iteration of a search tree yields strictly increasing values. */
  lemma {:induction false} BstSorted(t: Tree, value: seq<int>)
    requires Bst(t, value)
    ensures Increasing(InOrder(t), value)
  {
    match t
    case Leaf =>
    case Node(l, h, r) =>
      BstSorted(l, value);
      BstSorted(r, value);
      HandlesInOrder(l);
      HandlesInOrder(r);
      IncreasingConcat(InOrder(l), h, InOrder(r), value);
  }

  /** The descent finds a node exactly when the value is stored in the tree. */
  lemma {:induction false} LocateFound(t: Tree, v: int, value: seq<int>)
    requires Bst(t, value)
    ensures Locate(t, v, value).Found? <==> v in Keys(t, value)
  {
    match t
    case Leaf =>
    case Node(l, h, r) =>
      LocateFound(l, v, value);
      LocateFound(r, v, value);
      BstHandles(t, value);
      if Compare(value[h], v) > 0 {
        assert v !in Keys(r, value) && v != value[h];
        assert Keys(t, value) == Keys(l, value) + {value[h]} + Keys(r, value);
      } else if Compare(value[h], v) < 0 {
        assert v !in Keys(l, value) && v != value[h];
        assert Keys(t, value) == Keys(l, value) + {value[h]} + Keys(r, value);
      } else {
        assert value[h] in Keys(t, value);
      }
  }

  /** Growing the tree adds exactly the new handle at the bottom. */
  lemma {:induction false} GrowHandles(t: Tree, v: int, n: int, value: seq<int>)
    requires Distinct(t) && Bst(t, value) && Locate(t, v, value).Vacant?
    requires n == |value|
    ensures Handles(Grow(t, v, n, value)) == Handles(t) + {n}
    ensures Distinct(Grow(t, v, n, value))
    ensures Root(Grow(t, v, n, value)) == if t.Leaf? then n else t.h
  {
    BstHandles(t, value);
    match t
    case Leaf =>
    case Node(l, h, r) =>
      if Compare(value[h], v) > 0 {
        GrowHandles(l, v, n, value);
      } else {
        GrowHandles(r, v, n, value);
      }
  }

  /** Growing the tree keeps the search-tree order, the new value included. */
  lemma {:induction false} GrowOrdered(t: Tree, v: int, n: int, value: seq<int>)
    requires Distinct(t) && Bst(t, value) && Locate(t, v, value).Vacant?
    requires n == |value|
    ensures Bst(Grow(t, v, n, value), value + [v])
  {
    var vs := value + [v];
    assert forall y :: 0 <= y < n ==> vs[y] == value[y];
    assert vs[n] == v;
    BstHandles(t, value);
    match t
    case Leaf =>
    case Node(l, h, r) =>
      if Compare(value[h], v) > 0 {
        var g := Grow(l, v, n, value);
        GrowHandles(l, v, n, value);
        GrowOrdered(l, v, n, value);
        BstFrame(r, value, vs);
        forall y | y in Handles(g) ensures 0 <= y < |vs| && vs[y] < vs[h] {
          if y != n {
            assert y in Handles(l);
          }
        }
        assert Bst(Node(g, h, r), vs);
      } else {
        var g := Grow(r, v, n, value);
        GrowHandles(r, v, n, value);
        GrowOrdered(r, v, n, value);
        BstFrame(l, value, vs);
        forall y | y in Handles(g) ensures 0 <= y < |vs| && vs[h] < vs[y] {
          if y != n {
            assert y in Handles(r);
          }
        }
        assert Bst(Node(l, h, g), vs);
      }
  }

  /** The leftmost node of a search tree holds its least value. */
  lemma {:induction false} MinLeast(t: Tree, value: seq<int>)
    requires Bst(t, value) && t.Node?
    ensures forall y :: y in Handles(t) && y != Min(t) ==>
      0 <= Min(t) < |value| && 0 <= y < |value| && value[Min(t)] < value[y]
  {
    match t
    case Node(l, h, r) =>
      if l.Node? {
        MinLeast(l, value);
      }
  }

  // ---------------------------------------------------------------------
  // Rotations on the links

  /** The links after promoting the left child `q` of `p`. */
  function RotRLinks(k: Links, p: int): Links
    requires k.Has(p) && k.Has(k.left[p])
    requires k.right[k.left[p]] != Null ==> k.Has(k.right[k.left[p]])
  {
    var q := k.left[p];
    var b := k.right[q];
    var parent1 := k.parent[q := k.parent[p]];
    var parent2 := if b != Null then parent1[b := p] else parent1;
    Links(k.left[p := b], k.right[q := p], parent2[p := q])
  }

  /** The links after promoting the right child `p` of `q`. */
  function RotLLinks(k: Links, q: int): Links
    requires k.Has(q) && k.Has(k.right[q])
    requires k.left[k.right[q]] != Null ==> k.Has(k.left[k.right[q]])
  {
    var p := k.right[q];
    var b := k.left[p];
    var parent1 := k.parent[p := k.parent[q]];
    var parent2 := if b != Null then parent1[b := q] else parent1;
    Links(k.left[p := q], k.right[q := b], parent2[q := p])
  }

  /** The facts about a subtree `Node(Node(a, q, b), p, c)` that both rotations use. */
  lemma RotShape(t: Tree, above: int, k: Links)
    requires Distinct(t) && t.Node? && Linked(t, above, k)
    ensures forall x :: x in Handles(t) ==> k.Has(x)
    ensures Handles(t) == Handles(t.left) + {t.h} + Handles(t.right)
    ensures t.h !in Handles(t.left) && t.h !in Handles(t.right) && Handles(t.left) !! Handles(t.right)
    ensures Distinct(t.left) && Distinct(t.right)
    ensures Linked(t.left, t.h, k) && Linked(t.right, t.h, k)
    ensures k.parent[t.h] == above && k.left[t.h] == Root(t.left) && k.right[t.h] == Root(t.right)
    ensures t.left.Node? ==> t.left.h in Handles(t.left)
    ensures t.right.Node? ==> t.right.h in Handles(t.right)
  {
    LinkedHas(t, above, k);
  }

  /** A right rotation changes the links of no node outside the rotated subtree. */
  lemma RotRFrame(t: Tree, above: int, k: Links)
    requires Distinct(t) && t.Node? && t.left.Node? && Linked(t, above, k)
    ensures k.Has(t.h) && k.Has(k.left[t.h])
    ensures k.right[k.left[t.h]] != Null ==> k.Has(k.right[k.left[t.h]])
    ensures forall x :: k.Has(x) && x !in Handles(t) ==> SameAt(k, RotRLinks(k, t.h), x)
  {
    RotShape(t, above, k);
    RotShape(t.left, t.h, k);
    var a, q, b, p, c := t.left.left, t.left.h, t.left.right, t.h, t.right;
    var k' := RotRLinks(k, p);
    forall x | k.Has(x) && x !in Handles(t)
      ensures SameAt(k, k', x)
    {
      assert x != p && x != q && (b.Node? ==> x != b.h);
    }
  }

  /** After a right rotation the demoted node `p` is linked below the promoted one. */
  lemma RotRLower(t: Tree, above: int, k: Links)
    requires Distinct(t) && t.Node? && t.left.Node? && Linked(t, above, k)
    ensures k.Has(t.h) && k.Has(k.left[t.h])
    ensures k.right[k.left[t.h]] != Null ==> k.Has(k.right[k.left[t.h]])
    ensures Linked(Node(t.left.right, t.h, t.right), t.left.h, RotRLinks(k, t.h))
  {
    RotShape(t, above, k);
    RotShape(t.left, t.h, k);
    var a, q, b, p, c := t.left.left, t.left.h, t.left.right, t.h, t.right;
    var k' := RotRLinks(k, p);
    assert k'.Has(p) && k'.parent[p] == q && k'.left[p] == Root(b) && k'.right[p] == Root(c);
    LinkedFrame(c, p, k, k') by {
      forall x | x in Handles(c) ensures SameAt(k, k', x) {
        assert x != p && x != q && (b.Node? ==> x != b.h);
      }
    }
    if b.Node? {
      var k1 := Links(k.left, k.right, k.parent[b.h := p]);
      LinkedRehang(b, q, p, k, k1);
      LinkedFrame(b, p, k1, k') by {
        forall x | x in Handles(b) ensures SameAt(k1, k', x) {
          assert x != p && x != q;
        }
      }
    }
  }

  /** The links after a right rotation realise the rotated subtree. */
  lemma RotRLinked(t: Tree, above: int, k: Links)
    requires Distinct(t) && t.Node? && t.left.Node? && Linked(t, above, k)
    ensures k.Has(t.h) && k.Has(k.left[t.h])
    ensures k.right[k.left[t.h]] != Null ==> k.Has(k.right[k.left[t.h]])
    ensures Linked(RotR(t), above, RotRLinks(k, t.h))
  {
    RotShape(t, above, k);
    RotShape(t.left, t.h, k);
    var a, q, b, p, c := t.left.left, t.left.h, t.left.right, t.h, t.right;
    var k' := RotRLinks(k, p);
    assert RotR(t) == Node(a, q, Node(b, p, c));
    assert k'.Has(q) && k'.parent[q] == above && k'.left[q] == Root(a) && k'.right[q] == p;
    LinkedFrame(a, q, k, k') by {
      forall x | x in Handles(a) ensures SameAt(k, k', x) {
        assert x != p && x != q && (b.Node? ==> x != b.h);
      }
    }
    RotRLower(t, above, k);
  }

  /** A left rotation changes the links of no node outside the rotated subtree. */
  lemma RotLFrame(t: Tree, above: int, k: Links)
    requires Distinct(t) && t.Node? && t.right.Node? && Linked(t, above, k)
    ensures k.Has(t.h) && k.Has(k.right[t.h])
    ensures k.left[k.right[t.h]] != Null ==> k.Has(k.left[k.right[t.h]])
    ensures forall x :: k.Has(x) && x !in Handles(t) ==> SameAt(k, RotLLinks(k, t.h), x)
  {
    RotShape(t, above, k);
    RotShape(t.right, t.h, k);
    var a, q, b, p, c := t.left, t.h, t.right.left, t.right.h, t.right.right;
    var k' := RotLLinks(k, q);
    forall x | k.Has(x) && x !in Handles(t)
      ensures SameAt(k, k', x)
    {
      assert x != p && x != q && (b.Node? ==> x != b.h);
    }
  }

  /** After a left rotation the demoted node `q` is linked below the promoted one. */
  lemma RotLLower(t: Tree, above: int, k: Links)
    requires Distinct(t) && t.Node? && t.right.Node? && Linked(t, above, k)
    ensures k.Has(t.h) && k.Has(k.right[t.h])
    ensures k.left[k.right[t.h]] != Null ==> k.Has(k.left[k.right[t.h]])
    ensures Linked(Node(t.left, t.h, t.right.left), t.right.h, RotLLinks(k, t.h))
  {
    RotShape(t, above, k);
    RotShape(t.right, t.h, k);
    var a, q, b, p, c := t.left, t.h, t.right.left, t.right.h, t.right.right;
    var k' := RotLLinks(k, q);
    assert k'.Has(q) && k'.parent[q] == p && k'.left[q] == Root(a) && k'.right[q] == Root(b);
    LinkedFrame(a, q, k, k') by {
      forall x | x in Handles(a) ensures SameAt(k, k', x) {
        assert x != p && x != q && (b.Node? ==> x != b.h);
      }
    }
    if b.Node? {
      var k1 := Links(k.left, k.right, k.parent[b.h := q]);
      LinkedRehang(b, p, q, k, k1);
      LinkedFrame(b, q, k1, k') by {
        forall x | x in Handles(b) ensures SameAt(k1, k', x) {
          assert x != p && x != q;
        }
      }
    }
  }

  /** The links after a left rotation realise the rotated subtree. */
  lemma RotLLinked(t: Tree, above: int, k: Links)
    requires Distinct(t) && t.Node? && t.right.Node? && Linked(t, above, k)
    ensures k.Has(t.h) && k.Has(k.right[t.h])
    ensures k.left[k.right[t.h]] != Null ==> k.Has(k.left[k.right[t.h]])
    ensures Linked(RotL(t), above, RotLLinks(k, t.h))
  {
    RotShape(t, above, k);
    RotShape(t.right, t.h, k);
    var a, q, b, p, c := t.left, t.h, t.right.left, t.right.h, t.right.right;
    var k' := RotLLinks(k, q);
    assert RotL(t) == Node(Node(a, q, b), p, c);
    assert k'.Has(p) && k'.parent[p] == above && k'.left[p] == q && k'.right[p] == Root(c);
    LinkedFrame(c, p, k, k') by {
      forall x | x in Handles(c) ensures SameAt(k, k', x) {
        assert x != p && x != q && (b.Node? ==> x != b.h);
      }
    }
    RotLLower(t, above, k);
  }



  /** Swapping the right subtree of a node for one with the same handles, linked below it. */
  lemma RelinkRight(l: Tree, u: int, r: Tree, r': Tree, above: int, k: Links, k': Links)
    requires Distinct(Node(l, u, r)) && Linked(Node(l, u, r), above, k)
    requires Linked(r', u, k') && Handles(r') == Handles(r)
    requires k'.Has(u) && k'.parent[u] == above && k'.left[u] == k.left[u] && k'.right[u] == Root(r')
    requires forall x :: x in Handles(l) ==> SameAt(k, k', x)
    ensures Linked(Node(l, u, r'), above, k')
  {
    LinkedFrame(l, u, k, k');
  }

  /** Swapping the left subtree of a node for one with the same handles, linked below it. */
  lemma RelinkLeft(l: Tree, u: int, r: Tree, l': Tree, above: int, k: Links, k': Links)
    requires Distinct(Node(l, u, r)) && Linked(Node(l, u, r), above, k)
    requires Linked(l', u, k') && Handles(l') == Handles(l)
    requires k'.Has(u) && k'.parent[u] == above && k'.right[u] == k.right[u] && k'.left[u] == Root(l')
    requires forall x :: x in Handles(r) ==> SameAt(k, k', x)
    ensures Linked(Node(l', u, r), above, k')
  {
    LinkedFrame(r, u, k, k');
  }

  /** The links after node `q` takes `n` into the child slot that held `u`. */
  function AdoptLinks(k: Links, q: int, u: int, n: int): Links
    requires k.Has(q)
  {
    if k.left[q] == u then Links(k.left[q := n], k.right, k.parent)
    else Links(k.left, k.right[q := n], k.parent)
  }

  /**
   * After the subtree at `u` (not the root) was rebuilt as `f` below the old
   * parent `q` of `u`, with nothing outside that subtree touched, `q` adopts
   * the new top and the whole tree is linked again.
   */
  lemma AdoptLinked(t: Tree, k0: Links, u: int, f: Tree, k1: Links)
    requires Distinct(t) && Linked(t, Null, k0) && u in Handles(t) && u != t.h
    requires k0.Has(u) && Linked(f, k0.parent[u], k1) && Handles(f) <= Handles(Sub(t, u))
    requires forall y :: k0.Has(y) && y !in Handles(Sub(t, u)) ==> SameAt(k0, k1, y)
    ensures k0.Has(k0.parent[u]) && k1.Has(k0.parent[u]) && k0.parent[u] !in Handles(Sub(t, u))
    ensures k0.parent[u] in Handles(t)
    ensures Linked(ReplaceAt(t, u, f), Null, AdoptLinks(k1, k0.parent[u], u, Root(f)))
    ensures forall y :: k0.Has(y) && y !in Handles(Sub(t, u)) && y != k0.parent[u] ==>
      SameAt(k0, AdoptLinks(k1, k0.parent[u], u, Root(f)), y)
  {
    ParentLemma(t, Null, k0, u);
    LinkedHas(t, Null, k0);
    var q := k0.parent[u];
    assert q !in Handles(Sub(t, u)) by {
      assert Distinct(Sub(t, q));
    }
    var k2 := AdoptLinks(k1, q, u, Root(f));
    LinkedFrame(f, q, k1, k2) by {
      forall x | x in Handles(f) ensures SameAt(k1, k2, x) {
        assert x != q;
        LinkedHas(f, q, k1);
      }
    }
    forall y | y in Handles(t) - Handles(Sub(t, u)) - {q} ensures SameAt(k0, k2, y) {
      assert SameAt(k0, k1, y);
    }
    ReplaceLinked(t, Null, k0, u, f, k2);
  }

  // ---------------------------------------------------------------------
  // Walking the links

  /** The child slots of a node name the roots of its subtrees. */
  lemma ChildLinks(t: Tree, p: int, k: Links, x: int)
    requires Distinct(t) && Linked(t, p, k) && x in Handles(t)
    ensures k.Has(x)
    ensures k.left[x] == Root(Sub(t, x).left) && k.right[x] == Root(Sub(t, x).right)
    ensures Sub(t, x).left.Node? ==> k.left[x] in Handles(t) && Sub(t, k.left[x]) == Sub(t, x).left
    ensures Sub(t, x).right.Node? ==> k.right[x] in Handles(t) && Sub(t, k.right[x]) == Sub(t, x).right
  {
    SubLinked(t, p, k, x);
    SubChildren(t, x);
  }

  /**
   * One step up from `cur` towards the root, seen from a node `x` below
   * `cur`: the parent holds a different value, and it holds `cur` as its
   * right child exactly when its value is smaller than that of `x`.
   */
  lemma ClimbStep(t: Tree, k: Links, value: seq<int>, cur: int, x: int)
    requires Distinct(t) && Linked(t, Null, k) && Bst(t, value)
    requires cur in Handles(t) && cur != t.h && x in Handles(Sub(t, cur))
    ensures k.Has(cur)
    ensures var p := k.parent[cur];
      && p in Handles(t) && Depth(t, p) < Depth(t, cur)
      && 0 <= p < |value| && 0 <= x < |value| && value[p] != value[x]
      && (value[p] < value[x] ==> Sub(t, p).right == Sub(t, cur))
      && (value[p] > value[x] ==> Sub(t, p).left == Sub(t, cur))
  {
    ParentLemma(t, Null, k, cur);
    var p := k.parent[cur];
    var s := Sub(t, p);
    BstSub(t, value, p);
    BstHandles(t, value);
    assert x in Handles(s.left) || x in Handles(s.right);
  }

  /** Only the root of a linked tree has a null parent slot. */
  lemma ParentNull(t: Tree, k: Links, x: int)
    requires Distinct(t) && Linked(t, Null, k) && x in Handles(t)
    ensures k.Has(x) && (k.parent[x] == Null <==> x == t.h)
  {
    LinkedHas(t, Null, k);
    NullAbsent(t);
    if x != t.h {
      ParentLemma(t, Null, k, x);
    }
  }

  // ---------------------------------------------------------------------
  // Removing a node

  /** The subtree that replaces a removed node is still in search-tree order. */
  lemma BstSpliced(s: Tree, value: seq<int>)
    requires Distinct(s) && Bst(s, value) && s.Node? && s.left.Leaf?
    ensures Bst(Spliced(s), value)
  {
    var r := s.right;
    if r.Node? && r.left.Node? {
      var m := Min(r);
      BstReplace(r, value, m, Leaf);
      ReplaceHandles(r, m, Leaf);
      MinLeast(r, value);
      BstHandles(r, value);
      assert m in Handles(Sub(r, m));
    }
  }

  /**
   * The right child `r` of `x`, without a left subtree of its own, takes
   * the place of `x`: it inherits the empty left side of `x` and the parent
   * of `x`, which adopts it.
   */
  lemma PromoteLinked(t: Tree, k0: Links, x: int, r: int, k1: Links)
    requires Distinct(t) && Linked(t, Null, k0) && Removable(t, x)
    requires Sub(t, x).right.Node? && Sub(t, x).right.left.Leaf? && r == Sub(t, x).right.h
    requires k0.Has(x) && k0.Has(r)
    requires k1 == Links(k0.left[r := k0.left[x]], k0.right, k0.parent[r := k0.parent[x]])
    ensures k0.Has(k0.parent[x]) && k1.Has(k0.parent[x])
    ensures Linked(ReplaceAt(t, x, Spliced(Sub(t, x))), Null, AdoptLinks(k1, k0.parent[x], x, r))
    ensures forall y :: k0.Has(y) && y !in Handles(Sub(t, x)) && y != k0.parent[x] ==>
      SameAt(k0, AdoptLinks(k1, k0.parent[x], x, r), y)
  {
    var s := Sub(t, x);
    var rt := s.right;
    SubLinked(t, Null, k0, x);
    assert Linked(rt, x, k0);
    assert k0.left[r] == Null == k0.left[x];
    assert k1.left == k0.left;
    LinkedRehang(rt, x, k0.parent[x], k0, k1);
    assert Spliced(s) == rt;
    forall y | k0.Has(y) && y !in Handles(s) ensures SameAt(k0, k1, y) {
      assert y != r;
    }
    AdoptLinked(t, k0, x, rt, k1);
  }

  /**
   * The leftmost node `m` of the right subtree of `x`, below the right
   * child `r` and without a right subtree of its own, leaves its parent `p`
   * and takes the place of `x`, carrying the rest of that right subtree.
   */
  lemma SuccessorLinked(t: Tree, k0: Links, x: int, m: int, p: int, r: int, k1: Links)
    requires Distinct(t) && Linked(t, Null, k0) && Removable(t, x)
    requires Sub(t, x).right.Node? && Sub(t, x).right.left.Node?
    requires r == Sub(t, x).right.h && m == Min(Sub(t, x).right)
    requires k0.Has(m) && k0.Has(x) && k0.Has(r) && p == k0.parent[m] && k0.Has(p)
    requires k1 == Links(k0.left[p := Null][m := Null], k0.right[m := r], k0.parent[m := k0.parent[x]][r := m])
    ensures k0.Has(k0.parent[x]) && k1.Has(k0.parent[x])
    ensures Linked(ReplaceAt(t, x, Spliced(Sub(t, x))), Null, AdoptLinks(k1, k0.parent[x], x, m))
    ensures forall y :: k0.Has(y) && y !in Handles(Sub(t, x)) && y != k0.parent[x] ==>
      SameAt(k0, AdoptLinks(k1, k0.parent[x], x, m), y)
  {
    var s := Sub(t, x);
    var rt := s.right;
    SubLinked(t, Null, k0, x);
    assert Linked(rt, x, k0);
    SuccessorSubLinked(rt, k0, x, m, p, k0.parent[x], k1);
    var f := Node(Leaf, m, ReplaceAt(rt, m, Leaf));
    assert Spliced(s) == f;
    assert Handles(f) <= Handles(s) by {
      ReplaceHandles(rt, m, Leaf);
    }
    forall y | k0.Has(y) && y !in Handles(s) ensures SameAt(k0, k1, y) {
      assert y != m && y != p && y != r by {
        ParentLemma(rt, x, k0, m);
      }
    }
    AdoptLinked(t, k0, x, f, k1);
  }

  /** The lifted leftmost node hangs below `q`, with the rest of the subtree to its right. */
  lemma SuccessorSubLinked(rt: Tree, k0: Links, x: int, m: int, p: int, q: int, k1: Links)
    requires Distinct(rt) && Linked(rt, x, k0) && rt.Node? && rt.left.Node? && m == Min(rt)
    requires Sub(rt, m).right.Leaf?
    requires k0.Has(m) && k0.Has(rt.h) && p == k0.parent[m] && k0.Has(p)
    requires k1 == Links(k0.left[p := Null][m := Null], k0.right[m := rt.h], k0.parent[m := q][rt.h := m])
    ensures Linked(Node(Leaf, m, ReplaceAt(rt, m, Leaf)), q, k1)
  {
    var r := rt.h;
    var r' := ReplaceAt(rt, m, Leaf);
    assert m in Handles(rt.left) && m != r;
    assert r'.Node? && r'.h == r;
    var kA := Links(k0.left[p := Null], k0.right, k0.parent);
    CutMinLinked(rt, k0, x, m, p);
    ReplaceDistinct(rt, m, Leaf);
    var kB := Links(kA.left, kA.right, kA.parent[r := m]);
    LinkedRehang(r', x, m, kA, kB);
    ReplaceHandles(rt, m, Leaf);
    assert m !in Handles(r') by {
      assert m in Handles(Sub(rt, m));
    }
    assert k1 == Links(kB.left[m := Null], kB.right[m := r], kB.parent[m := q]);
    LinkedHas(r', m, kB);
    forall y | y in Handles(r') ensures SameAt(kB, k1, y) {
      assert y != m;
    }
    LinkedFrame(r', m, kB, k1);
  }

  /** The leftmost node leaves its parent's left slot empty; the rest of the subtree stays linked. */
  lemma CutMinLinked(rt: Tree, k0: Links, x: int, m: int, p: int)
    requires Distinct(rt) && Linked(rt, x, k0) && rt.Node? && rt.left.Node? && m == Min(rt)
    requires Sub(rt, m).right.Leaf?
    requires k0.Has(m) && p == k0.parent[m] && k0.Has(p)
    ensures Linked(ReplaceAt(rt, m, Leaf), x, Links(k0.left[p := Null], k0.right, k0.parent))
  {
    assert m in Handles(rt.left) && m != rt.h;
    ParentLemma(rt, x, k0, m);
    assert Sub(rt, p).left == Sub(rt, m) by {
      if Sub(rt, p).right.Node? {
        MinNotRightChild(rt, p);
      }
    }
    ChildLinks(rt, x, k0, p);
    MinSub(rt);
    var kA := Links(k0.left[p := Null], k0.right, k0.parent);
    LinkedHas(rt, x, k0);
    ReplaceLinked(rt, x, k0, m, Leaf, kA);
  }

  /**
   * Writing the fields of the promoted right child after its new parent
   * adopted it gives the same links as adopting it last.
   */
  lemma InheritLinks(k0: Links, q: int, x: int, m: int)
    requires k0.Has(q) && k0.Has(x) && k0.Has(m) && q != x && q != m
    ensures var a := AdoptLinks(k0, q, x, m);
      Links(a.left[m := a.left[x]], a.right, a.parent[m := a.parent[x]])
        == AdoptLinks(Links(k0.left[m := k0.left[x]], k0.right, k0.parent[m := k0.parent[x]]), q, x, m)
  {
  }

  /**
   * Writing the fields of the transplanted successor `m`, of its old parent
   * `p` and of the right child `r` after the parent `q` of `x` adopted `m`
   * gives the same links as adopting it last.
   */
  lemma TransplantLinks(k0: Links, q: int, x: int, m: int, p: int, r: int)
    requires k0.Has(q) && k0.Has(x) && k0.Has(m) && k0.Has(p) && k0.Has(r)
    requires q != x && q != m && q != p && q != r && p != x && m != x
    requires k0.right[x] == r && k0.left[x] == Null && k0.right[m] == Null
    ensures var a := AdoptLinks(k0, q, x, m);
      Links(a.left[p := a.right[m]][m := a.left[x]], a.right[m := a.right[x]], a.parent[m := a.parent[x]][a.right[x] := m])
        == AdoptLinks(Links(k0.left[p := Null][m := Null], k0.right[m := r], k0.parent[m := k0.parent[x]][r := m]), q, x, m)
  {
  }

  /**
   * The links the transplant leaves behind, written in the order of the
   * code (the parent `q` of `x` adopts `m` first), realise the spliced tree.
   */
  lemma TransplantLinked(t: Tree, k0: Links, x: int, m: int, p: int, r: int, k: Links)
    requires Distinct(t) && Linked(t, Null, k0) && Removable(t, x)
    requires Sub(t, x).right.Node? && Sub(t, x).right.left.Node?
    requires r == Sub(t, x).right.h && m == Min(Sub(t, x).right)
    requires k0.Has(m) && k0.Has(x) && k0.Has(r) && p == k0.parent[m] && k0.Has(p) && k0.Has(k0.parent[x])
    requires var q := k0.parent[x]; q != x && q != m && q != p && q != r && p != x && m != x
    requires k0.right[x] == r && k0.left[x] == Null && k0.right[m] == Null
    requires var a := AdoptLinks(k0, k0.parent[x], x, m);
      k == Links(a.left[p := a.right[m]][m := a.left[x]], a.right[m := a.right[x]], a.parent[m := a.parent[x]][a.right[x] := m])
    ensures Linked(ReplaceAt(t, x, Spliced(Sub(t, x))), Null, k)
    ensures forall y :: k0.Has(y) && y !in Handles(Sub(t, x)) && y != k0.parent[x] ==> SameAt(k0, k, y)
  {
    var q := k0.parent[x];
    TransplantLinks(k0, q, x, m, p, r);
    var k1 := Links(k0.left[p := Null][m := Null], k0.right[m := r], k0.parent[m := q][r := m]);
    SuccessorLinked(t, k0, x, m, p, r, k1);
  }
}
