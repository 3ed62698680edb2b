/**
 * The rebalancing pass of the map as functions of the tree shape: the
 * recomputed balance factors, the search for an unbalanced node (right
 * subtree before left), the single or double rotation applied to it, and
 * the resulting shape. At most one node is repaired per pass.
 */
module Rebalancing {
  import opened Trees
  import opened Arena

  /** Height of the right subtree minus height of the left subtree. */
  function BalanceOf(t: Tree): int
  {
    if t.Leaf? then 0 else Height(t.right) - Height(t.left)
  }

  /**
   * The balance-factor slots after the recomputation pass over `t`, which
   * visits the left subtree, then the right subtree, then the node itself.
   */
  function Factors(t: Tree, bf: seq<int>): (b: seq<int>)
    requires Fits(t, |bf|)
    ensures |b| == |bf|
  {
    match t
    case Leaf => bf
    case Node(l, h, r) =>
      var b := Factors(r, Factors(l, bf));
      b[h := Height(r) - Height(l)]
  }

  /** The first node with |balance factor| >= 2, searching the right subtree before the left. */
  function Unbalanced(t: Tree, bf: seq<int>): int
    requires Fits(t, |bf|)
  {
    match t
    case Leaf => Null
    case Node(l, h, r) =>
      if bf[h] >= 2 || bf[h] <= -2 then h
      else if Unbalanced(r, bf) == Null then Unbalanced(l, bf)
      else Unbalanced(r, bf)
  }

  /**
   * The repair of an unbalanced subtree: a right-heavy node rotates left,
   * after a right rotation of its right child when that child is left-heavy;
   * a left-heavy node is the mirror image.
   */
  function Fix(s: Tree, bf: seq<int>): (u: Tree)
    requires Fits(s, |bf|)
    ensures InOrder(u) == InOrder(s) && Handles(u) == Handles(s)
    ensures Distinct(s) ==> Distinct(u)
  {
    match s
    case Leaf => s
    case Node(l, x, r) =>
      assert Fits(l, |bf|) && Fits(r, |bf|);
      if bf[x] >= 2 && r.Node? then
        RotL(Node(l, x, if bf[r.h] < 0 then RotR(r) else r))
      else if bf[x] <= -2 && l.Node? then
        RotR(Node(if bf[l.h] > 0 then RotL(l) else l, x, r))
      else s
  }

  /** The shape after one rebalancing pass, given the recomputed factors. */
  ghost function Rebalanced(t: Tree, bf: seq<int>): Tree
    requires Fits(t, |bf|)
  {
    var u := Unbalanced(t, bf);
    FitsSub(t, u, |bf|);
    if u == Null then t else ReplaceAt(t, u, Fix(Sub(t, u), bf))
  }

  /** After the pass every node's factor is its right-minus-left height difference. */
  lemma {:induction false} FactorsAt(t: Tree, bf: seq<int>)
    requires Distinct(t) && Fits(t, |bf|)
    ensures forall x :: 0 <= x < |bf| ==>
      Factors(t, bf)[x] == if x in Handles(t) then BalanceOf(Sub(t, x)) else bf[x]
  {
    match t
    case Leaf =>
    case Node(l, h, r) =>
      FactorsAt(l, bf);
      FactorsAt(r, Factors(l, bf));
  }

  /**
   * The search reports no node exactly when every factor is within -1..1;
   * otherwise it reports a node of the tree whose factor is at least 2 in
   * magnitude, and it prefers the right subtree over the left.
   */
  lemma {:induction false} UnbalancedSpec(t: Tree, bf: seq<int>)
    requires Distinct(t) && Fits(t, |bf|)
    ensures var u := Unbalanced(t, bf);
      && (u == Null <==> forall x :: x in Handles(t) ==> 0 <= x < |bf| && -2 < bf[x] < 2)
      && (u != Null ==> u in Handles(t) && 0 <= u < |bf| && (bf[u] >= 2 || bf[u] <= -2))
  {
    NullAbsent(t);
    FitsHandles(t, |bf|);
    match t
    case Leaf =>
    case Node(l, h, r) =>
      UnbalancedSpec(l, bf);
      UnbalancedSpec(r, bf);
  }

  lemma {:induction false} UnbalancedRightFirst(t: Tree, bf: seq<int>, y: int)
    requires Distinct(t) && Fits(t, |bf|) && t.Node?
    requires -2 < bf[t.h] < 2
    requires y in Handles(t.right) && 0 <= y < |bf| && (bf[y] >= 2 || bf[y] <= -2)
    ensures Unbalanced(t, bf) in Handles(t.right)
  {
    UnbalancedSpec(t.right, bf);
  }

  lemma FixOrdered(s: Tree, bf: seq<int>, value: seq<int>)
    requires Fits(s, |bf|) && Bst(s, value)
    ensures Bst(Fix(s, bf), value)
  {
    match s
    case Leaf =>
    case Node(l, x, r) =>
      if bf[x] >= 2 && r.Node? {
        BstRotR(r, value);
        var m := Node(l, x, if bf[r.h] < 0 then RotR(r) else r);
        assert Bst(m, value);
        BstRotL(m, value);
      } else if bf[x] <= -2 && l.Node? {
        BstRotL(l, value);
        var m := Node(if bf[l.h] > 0 then RotL(l) else l, x, r);
        assert Bst(m, value);
        BstRotR(m, value);
      }
  }

  /** A pass keeps the nodes, their in-order sequence and the search-tree order. */
  lemma RebalancedPreserves(t: Tree, bf: seq<int>, value: seq<int>)
    requires Distinct(t) && Fits(t, |bf|) && Bst(t, value)
    ensures InOrder(Rebalanced(t, bf)) == InOrder(t)
    ensures Handles(Rebalanced(t, bf)) == Handles(t)
    ensures Distinct(Rebalanced(t, bf))
    ensures Bst(Rebalanced(t, bf), value)
    ensures Fits(Rebalanced(t, bf), |bf|)
  {
    FitsHandles(t, |bf|);
    FitsHandles(Rebalanced(t, bf), |bf|);
    UnbalancedSpec(t, bf);
    var u := Unbalanced(t, bf);
    if u != Null {
      var s := Sub(t, u);
      FitsSub(t, u, |bf|);
      ReplaceInOrder(t, u, Fix(s, bf));
      ReplaceHandles(t, u, Fix(s, bf));
      ReplaceDistinct(t, u, Fix(s, bf));
      BstSub(t, value, u);
      FixOrdered(s, bf, value);
      BstReplace(t, value, u, Fix(s, bf));
    }
  }

  /** A tree with every factor within -1..1 is left as it is. */
  lemma RebalancedIdle(t: Tree, bf: seq<int>)
    requires Distinct(t) && Fits(t, |bf|)
    requires forall x :: x in Handles(t) ==> 0 <= x < |bf| && -2 < bf[x] < 2
    ensures Rebalanced(t, bf) == t
  {
    UnbalancedSpec(t, bf);
  }

  /**
   * The node the search reports after a recomputation has the children the
   * rotations dereference: a right-heavy node has a right child, and when
   * that child is left-heavy it has a left child of its own; mirrored for a
   * left-heavy node.
   */
  lemma Repairable(t: Tree, b0: seq<int>, bf: seq<int>, u: int, s: Tree)
    requires Distinct(t) && Fits(t, |b0|) && bf == Factors(t, b0)
    requires u == Unbalanced(t, bf) && u != Null && s == Sub(t, u)
    ensures u in Handles(t) && 0 <= u < |bf| && (bf[u] >= 2 || bf[u] <= -2)
    ensures Fits(s, |bf|)
    ensures bf[u] >= 2 ==>
      (s.right.Node? && 0 <= s.right.h < |bf| && (bf[s.right.h] < 0 ==> s.right.left.Node?))
    ensures bf[u] <= -2 ==>
      (s.left.Node? && 0 <= s.left.h < |bf| && (bf[s.left.h] > 0 ==> s.left.right.Node?))
  {
    UnbalancedSpec(t, bf);
    FitsSub(t, u, |bf|);
    FactorAt(t, b0, u);
    SubChildren(t, u);
    if s.right.Node? {
      FactorAt(t, b0, s.right.h);
    }
    if s.left.Node? {
      FactorAt(t, b0, s.left.h);
    }
    HeavyChildren(s, bf);
  }

  /**
   * With fresh factors at a node and its children, a right-heavy node has a
   * right child, and a left-heavy right child has a left child of its own;
   * mirrored for the left.
   */
  lemma HeavyChildren(s: Tree, bf: seq<int>)
    requires s.Node? && 0 <= s.h < |bf| && bf[s.h] == BalanceOf(s)
    requires s.right.Node? ==> 0 <= s.right.h < |bf| && bf[s.right.h] == BalanceOf(s.right)
    requires s.left.Node? ==> 0 <= s.left.h < |bf| && bf[s.left.h] == BalanceOf(s.left)
    ensures bf[s.h] >= 2 ==> s.right.Node? && (bf[s.right.h] < 0 ==> s.right.left.Node?)
    ensures bf[s.h] <= -2 ==> s.left.Node? && (bf[s.left.h] > 0 ==> s.left.right.Node?)
  {
  }

  /** One instance of the recomputed factors. */
  lemma FactorAt(t: Tree, b0: seq<int>, x: int)
    requires Distinct(t) && Fits(t, |b0|) && x in Handles(t)
    ensures 0 <= x < |b0| && Factors(t, b0)[x] == BalanceOf(Sub(t, x))
  {
    FactorsAt(t, b0);
    FitsHandles(t, |b0|);
  }
}
