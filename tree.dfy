/**
 * The shape of the map's binary tree, abstracted from its node links.
 *
 * Every node is named by its handle, the index of its record in the node
 * arena of a map (see map.dfy); `Null` stands for a missing child or parent.
 * Everything in this module is about shapes only: which handle sits where,
 * the in-order sequence of handles, in-order neighbours and the rotations.
 */
module Trees {

  /** The null link. */
  const Null: int := -1

  datatype Tree = Leaf | Node(left: Tree, h: int, right: Tree)

  /** The handle a child slot holds for this subtree. */
  function Root(t: Tree): int
  {
    if t.Leaf? then Null else t.h
  }

  function Handles(t: Tree): set<int>
  {
    match t
    case Leaf => {}
    case Node(l, h, r) => Handles(l) + {h} + Handles(r)
  }

  /** Handles are arena indices (never null) and no node occurs twice. */
  predicate Distinct(t: Tree)
  {
    match t
    case Leaf => true
    case Node(l, h, r) =>
      && 0 <= h
      && Distinct(l) && Distinct(r)
      && h !in Handles(l) && h !in Handles(r)
      && Handles(l) !! Handles(r)
  }

  /** Every handle of `t` indexes an arena of `n` slots. */
  ghost predicate Fits(t: Tree, n: int)
  {
    match t
    case Leaf => true
    case Node(l, h, r) => 0 <= h < n && Fits(l, n) && Fits(r, n)
  }

  lemma {:induction false} FitsSub(t: Tree, x: int, n: int)
    requires Fits(t, n)
    ensures Fits(Sub(t, x), n)
  {
    match t
    case Leaf =>
    case Node(l, h, r) =>
      if x != h {
        FitsSub(l, x, n);
        FitsSub(r, x, n);
      }
  }

  lemma {:induction false} FitsHandles(t: Tree, n: int)
    ensures Fits(t, n) ==> forall x :: x in Handles(t) ==> 0 <= x < n
    ensures (forall x :: x in Handles(t) ==> 0 <= x < n) ==> Fits(t, n)
  {
    match t
    case Leaf =>
    case Node(l, h, r) =>
      FitsHandles(l, n);
      FitsHandles(r, n);
      if Fits(t, n) {
        assert forall x :: x in Handles(l) ==> 0 <= x < n;
        assert forall x :: x in Handles(r) ==> 0 <= x < n;
      } else if !(0 <= h < n) {
        assert h in Handles(t);
      } else if !Fits(l, n) {
        var x :| x in Handles(l) && !(0 <= x < n);
        assert x in Handles(t);
      } else {
        var x :| x in Handles(r) && !(0 <= x < n);
        assert x in Handles(t);
      }
  }

  /** The order in which a bidirectional iterator visits the nodes. */
  function InOrder(t: Tree): seq<int>
  {
    match t
    case Leaf => []
    case Node(l, h, r) => InOrder(l) + [h] + InOrder(r)
  }

  /** Height with missing subtrees counting 0 and a leaf node counting 1. */
  function Height(t: Tree): nat
  {
    match t
    case Leaf => 0
    case Node(l, _, r) => 1 + if Height(l) >= Height(r) then Height(l) else Height(r)
  }

  /** The subtree whose root is `x`, or `Leaf` when `x` is not in `t`. */
  function Sub(t: Tree, x: int): (s: Tree)
    ensures x in Handles(t) ==> s.Node? && s.h == x && Handles(s) <= Handles(t)
    ensures x !in Handles(t) ==> s == Leaf
    ensures Distinct(t) ==> Distinct(s)
  {
    match t
    case Leaf => Leaf
    case Node(l, h, r) =>
      if h == x then t
      else if x in Handles(l) then Sub(l, x)
      else if x in Handles(r) then Sub(r, x)
      else Leaf
  }

  /** `t` with the subtree rooted at `x` replaced by `s`. */
  function ReplaceAt(t: Tree, x: int, s: Tree): Tree
  {
    match t
    case Leaf => Leaf
    case Node(l, h, r) =>
      if h == x then s
      else if x in Handles(l) then Node(ReplaceAt(l, x, s), h, r)
      else if x in Handles(r) then Node(l, h, ReplaceAt(r, x, s))
      else t
  }

  /** Number of parent links from `x` up to the root of `t`. */
  function Depth(t: Tree, x: int): nat
  {
    match t
    case Leaf => 0
    case Node(l, h, r) =>
      if h == x then 0
      else if x in Handles(l) then 1 + Depth(l, x)
      else if x in Handles(r) then 1 + Depth(r, x)
      else 0
  }

  /** The leftmost node: the first one in order. */
  function Min(t: Tree): (m: int)
    requires t.Node?
    ensures m in Handles(t)
    ensures |InOrder(t)| > 0 && InOrder(t)[0] == m
  {
    if t.left.Leaf? then t.h else Min(t.left)
  }

  /** The rightmost node: the last one in order. */
  function Max(t: Tree): (m: int)
    requires t.Node?
    ensures m in Handles(t)
    ensures |InOrder(t)| > 0 && InOrder(t)[|InOrder(t)| - 1] == m
  {
    if t.right.Leaf? then t.h else Max(t.right)
  }

  /** The in-order successor of `x`, or `Null` when `x` is the last node. */
  function Succ(t: Tree, x: int): int
  {
    match t
    case Leaf => Null
    case Node(l, h, r) =>
      if x in Handles(l) then (var s := Succ(l, x); if s == Null then h else s)
      else if x == h then (if r.Leaf? then Null else Min(r))
      else Succ(r, x)
  }

  /** The in-order predecessor of `x`, or `Null` when `x` is the first node. */
  function Pred(t: Tree, x: int): int
  {
    match t
    case Leaf => Null
    case Node(l, h, r) =>
      if x in Handles(r) then (var s := Pred(r, x); if s == Null then h else s)
      else if x == h then (if l.Leaf? then Null else Max(l))
      else Pred(l, x)
  }

  /** Left rotation about the root: its right child is promoted. */
  function RotL(t: Tree): (u: Tree)
    ensures InOrder(u) == InOrder(t) && Handles(u) == Handles(t)
    ensures Distinct(t) ==> Distinct(u)
  {
    match t
    case Node(a, q, Node(b, p, c)) =>
      assert InOrder(t) == InOrder(a) + [q] + (InOrder(b) + [p] + InOrder(c));
      assert Handles(t) == Handles(a) + {q} + (Handles(b) + {p} + Handles(c));
      assert Distinct(t) ==> Distinct(Node(b, p, c)) && Distinct(b) && 0 <= q;
      Node(Node(a, q, b), p, c)
    case _ => t
  }

  /** Right rotation about the root: its left child is promoted. */
  function RotR(t: Tree): (u: Tree)
    ensures InOrder(u) == InOrder(t) && Handles(u) == Handles(t)
    ensures Distinct(t) ==> Distinct(u)
  {
    match t
    case Node(Node(a, q, b), p, c) =>
      assert InOrder(t) == (InOrder(a) + [q] + InOrder(b)) + [p] + InOrder(c);
      assert Handles(t) == (Handles(a) + {q} + Handles(b)) + {p} + Handles(c);
      assert Distinct(t) ==> Distinct(Node(a, q, b)) && Distinct(b) && 0 <= p;
      Node(a, q, Node(b, p, c))
    case _ => t
  }

  /** `s` with every occurrence of `x` removed. */
  function Without(s: seq<int>, x: int): seq<int>
  {
    if s == [] then []
    else if s[0] == x then Without(s[1..], x)
    else [s[0]] + Without(s[1..], x)
  }

  // ---------------------------------------------------------------------
  // Handles, in-order sequence and subtrees

  lemma {:induction false} HandlesInOrder(t: Tree)
    ensures forall x :: x in Handles(t) <==> x in InOrder(t)
  {
    match t
    case Leaf =>
    case Node(l, h, r) =>
      HandlesInOrder(l);
      HandlesInOrder(r);
  }

  /** No handle occurs twice in the in-order sequence of a tree of distinct nodes. */
  lemma {:induction false} DistinctInOrder(t: Tree)
    requires Distinct(t)
    ensures forall i, j :: 0 <= i < j < |InOrder(t)| ==> InOrder(t)[i] != InOrder(t)[j]
  {
    match t
    case Leaf =>
    case Node(l, h, r) =>
      DistinctInOrder(l);
      DistinctInOrder(r);
      HandlesInOrder(l);
      HandlesInOrder(r);
      var il, ir, s := InOrder(l), InOrder(r), InOrder(t);
      assert s == il + [h] + ir;
      forall i, j | 0 <= i < j < |s| ensures s[i] != s[j] {
        var n := |il|;
        if j < n {
          assert s[i] == il[i] && s[j] == il[j];
        } else if i > n {
          assert s[i] == ir[i - n - 1] && s[j] == ir[j - n - 1];
        } else if i == n {
          assert s[j] == ir[j - n - 1] && ir[j - n - 1] in Handles(r);
        } else if j == n {
          assert s[i] == il[i] && il[i] in Handles(l);
        } else {
          assert s[i] == il[i] && il[i] in Handles(l);
          assert s[j] == ir[j - n - 1] && ir[j - n - 1] in Handles(r);
        }
      }
  }

  /** The position of `x` in `s`. */
  function IndexOf(s: seq<int>, x: int): (i: int)
    requires x in s
    ensures 0 <= i < |s| && s[i] == x
  {
    if s[0] == x then 0 else 1 + IndexOf(s[1..], x)
  }

  /** The leftmost node has no left subtree. */
  lemma {:induction false} MinSub(t: Tree)
    requires Distinct(t) && t.Node?
    ensures Sub(t, Min(t)).Node? && Sub(t, Min(t)).left.Leaf?
  {
    match t
    case Node(l, h, r) =>
      if l.Node? {
        MinSub(l);
        assert Sub(t, Min(t)) == Sub(l, Min(l));
      }
  }

  /** The rightmost node has no right subtree. */
  lemma {:induction false} MaxSub(t: Tree)
    requires Distinct(t) && t.Node?
    ensures Sub(t, Max(t)).Node? && Sub(t, Max(t)).right.Leaf?
  {
    match t
    case Node(l, h, r) =>
      if r.Node? {
        MaxSub(r);
        assert Sub(t, Max(t)) == Sub(r, Max(r));
      }
  }

  lemma {:induction false} NullAbsent(t: Tree)
    requires Distinct(t)
    ensures Null !in Handles(t)
  {
    match t
    case Leaf =>
    case Node(l, h, r) =>
      NullAbsent(l);
      NullAbsent(r);
  }

  /** A subtree of a subtree is a subtree of the whole. */
  lemma {:induction false} SubSub(t: Tree, x: int, y: int)
    requires Distinct(t) && x in Handles(t) && y in Handles(Sub(t, x))
    ensures Sub(t, y) == Sub(Sub(t, x), y)
  {
    match t
    case Node(l, h, r) =>
      if h != x {
        if x in Handles(l) {
          SubSub(l, x, y);
        } else {
          SubSub(r, x, y);
        }
      }
  }

  /** The children of the subtree at `x` are the subtrees at their own roots. */
  lemma SubChildren(t: Tree, x: int)
    requires Distinct(t) && x in Handles(t)
    ensures Sub(t, x).left.Node? ==> Sub(t, Sub(t, x).left.h) == Sub(t, x).left
    ensures Sub(t, x).right.Node? ==> Sub(t, Sub(t, x).right.h) == Sub(t, x).right
  {
    var s := Sub(t, x);
    if s.left.Node? {
      assert Sub(s, s.left.h) == s.left;
      SubSub(t, x, s.left.h);
    }
    if s.right.Node? {
      assert Sub(s, s.right.h) == s.right;
      SubSub(t, x, s.right.h);
    }
  }

  lemma {:induction false} ReplaceHandles(t: Tree, x: int, s: Tree)
    requires Distinct(t) && x in Handles(t)
    ensures Handles(ReplaceAt(t, x, s)) == (Handles(t) - Handles(Sub(t, x))) + Handles(s)
  {
    match t
    case Node(l, h, r) =>
      if h != x {
        if x in Handles(l) {
          ReplaceHandles(l, x, s);
        } else {
          ReplaceHandles(r, x, s);
        }
      }
  }

  /** Replacing a subtree by one built from some of its own nodes keeps handles distinct. */
  lemma {:induction false} ReplaceDistinct(t: Tree, x: int, s: Tree)
    requires Distinct(t) && Distinct(s) && x in Handles(t)
    requires Handles(s) <= Handles(Sub(t, x))
    ensures Distinct(ReplaceAt(t, x, s))
  {
    match t
    case Node(l, h, r) =>
      if h != x {
        if x in Handles(l) {
          ReplaceDistinct(l, x, s);
          ReplaceHandles(l, x, s);
        } else {
          ReplaceDistinct(r, x, s);
          ReplaceHandles(r, x, s);
        }
      }
  }

  /** Replacing a subtree by one with the same in-order sequence keeps the whole sequence. */
  lemma {:induction false} ReplaceInOrder(t: Tree, x: int, s: Tree)
    requires Distinct(t) && x in Handles(t)
    requires InOrder(s) == InOrder(Sub(t, x))
    ensures InOrder(ReplaceAt(t, x, s)) == InOrder(t)
  {
    match t
    case Node(l, h, r) =>
      if h != x {
        if x in Handles(l) { ReplaceInOrder(l, x, s); } else { ReplaceInOrder(r, x, s); }
      }
  }

  lemma {:induction false} WithoutConcat(a: seq<int>, b: seq<int>, y: int)
    ensures Without(a + b, y) == Without(a, y) + Without(b, y)
  {
    if a != [] {
      assert (a + b)[1..] == a[1..] + b;
      WithoutConcat(a[1..], b, y);
    } else {
      assert a + b == b;
    }
  }

  lemma {:induction false} WithoutAbsent(a: seq<int>, y: int)
    requires y !in a
    ensures Without(a, y) == a
  {
    if a != [] {
      WithoutAbsent(a[1..], y);
    }
  }

  /**
   * Replacing a subtree by one whose in-order sequence is the old one minus
   * `y` removes exactly `y` from the whole in-order sequence.
   */
  lemma {:induction false} ReplaceWithout(t: Tree, x: int, s: Tree, y: int)
    requires Distinct(t) && x in Handles(t) && y in Handles(Sub(t, x))
    requires InOrder(s) == Without(InOrder(Sub(t, x)), y)
    ensures InOrder(ReplaceAt(t, x, s)) == Without(InOrder(t), y)
  {
    match t
    case Node(l, h, r) =>
      if h == x {
      } else if x in Handles(l) {
        ReplaceWithout(l, x, s, y);
        HandlesInOrder(r);
        WithoutConcat(InOrder(l) + [h], InOrder(r), y);
        WithoutConcat(InOrder(l), [h], y);
        WithoutAbsent([h], y);
        WithoutAbsent(InOrder(r), y);
      } else {
        ReplaceWithout(r, x, s, y);
        HandlesInOrder(l);
        WithoutConcat(InOrder(l) + [h], InOrder(r), y);
        WithoutConcat(InOrder(l), [h], y);
        WithoutAbsent([h], y);
        WithoutAbsent(InOrder(l), y);
      }
  }

  /** Cutting out the leftmost node, when it is a leaf, leaves the rest of the in-order sequence. */
  lemma {:induction false} CutMinInOrder(t: Tree)
    requires Distinct(t) && t.Node? && Sub(t, Min(t)).right.Leaf?
    ensures [Min(t)] + InOrder(ReplaceAt(t, Min(t), Leaf)) == InOrder(t)
  {
    match t
    case Node(l, h, r) =>
      if l.Node? {
        assert Min(t) == Min(l) && Min(l) in Handles(l);
        assert Sub(t, Min(t)) == Sub(l, Min(l));
        CutMinInOrder(l);
      }
  }

  /** The leftmost node never sits in a right child slot. */
  lemma {:induction false} MinNotRightChild(t: Tree, p: int)
    requires Distinct(t) && t.Node? && p in Handles(t) && Sub(t, p).right.Node?
    ensures Sub(t, p).right.h != Min(t)
  {
    match t
    case Node(l, h, r) =>
      if p == h {
      } else if p in Handles(l) {
        if l.Node? { MinNotRightChild(l, p); }
      } else {
      }
  }

  // ---------------------------------------------------------------------
  // In-order neighbours

  /** `Succ` is the next handle of the in-order sequence. */
  lemma {:induction false} SuccInOrder(t: Tree, i: int)
    requires Distinct(t) && 0 <= i < |InOrder(t)|
    ensures Succ(t, InOrder(t)[i]) == if i + 1 < |InOrder(t)| then InOrder(t)[i + 1] else Null
  {
    match t
    case Node(l, h, r) =>
      var il, ir := InOrder(l), InOrder(r);
      assert InOrder(t) == il + [h] + ir;
      HandlesInOrder(l);
      HandlesInOrder(r);
      NullAbsent(l);
      if i < |il| {
        SuccInOrder(l, i);
        if i + 1 < |il| {
          assert il[i + 1] in Handles(l);
        }
      } else if i > |il| {
        var j := i - |il| - 1;
        assert InOrder(t)[i] == ir[j];
        SuccInOrder(r, j);
      }
  }

  /** `Pred` is the previous handle of the in-order sequence. */
  lemma {:induction false} PredInOrder(t: Tree, i: int)
    requires Distinct(t) && 0 <= i < |InOrder(t)|
    ensures Pred(t, InOrder(t)[i]) == if i > 0 then InOrder(t)[i - 1] else Null
  {
    match t
    case Node(l, h, r) =>
      var il, ir := InOrder(l), InOrder(r);
      assert InOrder(t) == il + [h] + ir;
      HandlesInOrder(l);
      HandlesInOrder(r);
      NullAbsent(r);
      if i > |il| {
        var j := i - |il| - 1;
        assert InOrder(t)[i] == ir[j];
        PredInOrder(r, j);
        if j > 0 {
          assert ir[j - 1] in Handles(r);
        }
      } else if i < |il| {
        PredInOrder(l, i);
      }
  }

  /** A node with a right subtree is followed by that subtree's leftmost node. */
  lemma {:induction false} SuccViaRight(t: Tree, x: int)
    requires Distinct(t) && x in Handles(t) && Sub(t, x).right.Node?
    ensures Succ(t, x) == Min(Sub(t, x).right)
  {
    match t
    case Node(l, h, r) =>
      if x in Handles(l) {
        NullAbsent(l);
        SuccViaRight(l, x);
      } else if x != h {
        SuccViaRight(r, x);
      }
  }

  /** A node with a left subtree is preceded by that subtree's rightmost node. */
  lemma {:induction false} PredViaLeft(t: Tree, x: int)
    requires Distinct(t) && x in Handles(t) && Sub(t, x).left.Node?
    ensures Pred(t, x) == Max(Sub(t, x).left)
  {
    match t
    case Node(l, h, r) =>
      if x in Handles(r) {
        NullAbsent(r);
        PredViaLeft(r, x);
      } else if x != h {
        PredViaLeft(l, x);
      }
  }

  lemma {:induction false} SuccOfMax(t: Tree)
    requires Distinct(t) && t.Node?
    ensures Succ(t, Max(t)) == Null
  {
    match t
    case Node(l, h, r) =>
      if r.Node? { SuccOfMax(r); }
  }

  lemma {:induction false} PredOfMin(t: Tree)
    requires Distinct(t) && t.Node?
    ensures Pred(t, Min(t)) == Null
  {
    match t
    case Node(l, h, r) =>
      if l.Node? { PredOfMin(l); }
  }

  /** The rightmost node of a left subtree is followed by that subtree's parent. */
  lemma {:induction false} SuccViaLeftChild(t: Tree, p: int)
    requires Distinct(t) && p in Handles(t) && Sub(t, p).left.Node?
    ensures Succ(t, Max(Sub(t, p).left)) == p
  {
    match t
    case Node(l, h, r) =>
      var x := Max(Sub(t, p).left);
      if p == h {
        SuccOfMax(l);
      } else if p in Handles(l) {
        SuccViaLeftChild(l, p);
      } else {
        SuccViaLeftChild(r, p);
      }
  }

  /** The leftmost node of a right subtree is preceded by that subtree's parent. */
  lemma {:induction false} PredViaRightChild(t: Tree, p: int)
    requires Distinct(t) && p in Handles(t) && Sub(t, p).right.Node?
    ensures Pred(t, Min(Sub(t, p).right)) == p
  {
    match t
    case Node(l, h, r) =>
      var x := Min(Sub(t, p).right);
      if p == h {
        PredOfMin(r);
      } else if p in Handles(r) {
        PredViaRightChild(r, p);
      } else {
        PredViaRightChild(l, p);
      }
  }

  // ---------------------------------------------------------------------
  // Removing a node

  /**
   * The nodes whose removal keeps the tree intact: not the root, without a
   * left subtree, and, when the in-order successor lies below the right
   * child, a successor without a right subtree of its own.
   */
  ghost predicate Removable(t: Tree, x: int)
  {
    && x in Handles(t) && x != t.h && Sub(t, x).left.Leaf?
    && (Sub(t, x).right.Node? && Sub(t, x).right.left.Node? ==>
          Sub(Sub(t, x).right, Min(Sub(t, x).right)).right.Leaf?)
  }

  /**
   * What takes the place of the subtree `s` (without a left subtree) when
   * its top node goes: nothing when it is a leaf; its right child, which
   * inherits the empty left side, when that child has no left subtree;
   * otherwise the leftmost node of the right subtree, carrying the empty
   * left side and the rest of the right subtree.
   */
  function Spliced(s: Tree): Tree
    requires s.Node? && s.left.Leaf?
  {
    if s.right.Leaf? then Leaf
    else if s.right.left.Leaf? then Node(s.left, s.right.h, s.right.right)
    else Node(s.left, Min(s.right), ReplaceAt(s.right, Min(s.right), Leaf))
  }

  /** Splicing drops exactly the top node, from the handles and from the in-order sequence. */
  lemma SplicedShape(s: Tree)
    requires Distinct(s) && s.Node? && s.left.Leaf?
    requires s.right.Node? && s.right.left.Node? ==> Sub(s.right, Min(s.right)).right.Leaf?
    ensures Distinct(Spliced(s))
    ensures Handles(Spliced(s)) == Handles(s) - {s.h}
    ensures InOrder(Spliced(s)) == Without(InOrder(s), s.h)
  {
    var r := s.right;
    assert InOrder(s) == [s.h] + InOrder(r);
    WithoutHead(s.h, r);
    if r.Leaf? {
      assert Spliced(s) == Leaf;
    } else if r.left.Leaf? {
      assert Spliced(s) == r;
    } else {
      SplicedSuccessor(r);
    }
  }

  /** Dropping the first entry `h` of a sequence in which it occurs once. */
  lemma WithoutHead(h: int, r: Tree)
    requires h !in Handles(r)
    ensures Without([h] + InOrder(r), h) == InOrder(r)
  {
    HandlesInOrder(r);
    WithoutAbsent(InOrder(r), h);
    assert ([h] + InOrder(r))[1..] == InOrder(r);
  }

  /** The leftmost node, lifted above the rest of its tree, keeps handles and order. */
  lemma SplicedSuccessor(r: Tree)
    requires Distinct(r) && r.Node? && Sub(r, Min(r)).right.Leaf?
    ensures var m := Min(r);
      && Distinct(Node(Leaf, m, ReplaceAt(r, m, Leaf)))
      && Handles(Node(Leaf, m, ReplaceAt(r, m, Leaf))) == Handles(r)
      && InOrder(Node(Leaf, m, ReplaceAt(r, m, Leaf))) == InOrder(r)
  {
    var m := Min(r);
    MinSub(r);
    CutMinInOrder(r);
    ReplaceHandles(r, m, Leaf);
    ReplaceDistinct(r, m, Leaf);
    assert Handles(Sub(r, m)) == {m};
  }

  /**
   * Removing a removable node keeps the root and the other nodes, and the
   * in-order sequence loses just that node.
   */
  lemma DeleteShape(t: Tree, x: int)
    requires Distinct(t) && Removable(t, x)
    ensures var t' := ReplaceAt(t, x, Spliced(Sub(t, x)));
      && Distinct(t') && t'.Node? && t'.h == t.h
      && Handles(t') == Handles(t) - {x}
      && InOrder(t') == Without(InOrder(t), x)
  {
    var s := Sub(t, x);
    SplicedShape(s);
    ReplaceHandles(t, x, Spliced(s));
    ReplaceDistinct(t, x, Spliced(s));
    ReplaceWithout(t, x, Spliced(s), x);
    assert ReplaceAt(t, x, Spliced(s)).h == t.h;
  }
}
