/**
 The single rotations and the one rebalancing rule that insertion and deletion
 both apply on the way back up.
 */
module Rebalance {
  import opened StringOrder
  import opened AvlTree

  /** `rightRotate`: the left child `x` of `y` becomes the subtree root, `y` its
      right child, and `x`'s old right subtree moves under `y`. `y` sits lower
      afterwards, so its height is recomputed first. */
  function RightRotate(y: Tree): (x: Tree)
    requires y.Node? && y.left.Node?
    ensures x.Node? && x.right.Node?
    ensures InOrder(x) == InOrder(y)
    ensures Keys(x) == Keys(y) && ToMap(x) == ToMap(y)
    ensures HeightsOk(y.left.left) && HeightsOk(y.left.right) && HeightsOk(y.right) ==> HeightsOk(x)
  {
    var xn := y.left;
    var t2 := xn.right;
    var y' := UpdateHeight(y.(left := t2));
    var x := UpdateHeight(xn.(right := y'));
    RotationKeepsContents(Entry(xn.word, xn.meaning), Entry(y.word, y.meaning), xn.left, t2, y.right,
                          y'.height, x.height, xn.height, y.height);
    x
  }

  /** `leftRotate`: the mirror image of `RightRotate`. */
  function LeftRotate(x: Tree): (y: Tree)
    requires x.Node? && x.right.Node?
    ensures y.Node? && y.left.Node?
    ensures InOrder(y) == InOrder(x)
    ensures Keys(y) == Keys(x) && ToMap(y) == ToMap(x)
    ensures HeightsOk(x.left) && HeightsOk(x.right.left) && HeightsOk(x.right.right) ==> HeightsOk(y)
  {
    var yn := x.right;
    var t2 := yn.left;
    var x' := UpdateHeight(x.(right := t2));
    var y := UpdateHeight(yn.(left := x'));
    RotationKeepsContents(Entry(x.word, x.meaning), Entry(yn.word, yn.meaning), x.left, t2, yn.right,
                          yn.height, x.height, x'.height, y.height);
    y
  }

  /** A right rotation is undone by a left rotation when the heights were correct. */
  lemma RightThenLeftRotate(t: Tree)
    requires t.Node? && t.left.Node? && HeightsOk(t)
    ensures LeftRotate(RightRotate(t)) == t
  {
    var x := t.left;
    var y' := UpdateHeight(t.(left := x.right));
    var r := UpdateHeight(x.(right := y'));
    assert RightRotate(t) == r;
    assert UpdateHeight(r.(right := y'.left)) == x;
    assert UpdateHeight(y'.(left := x)) == t;
  }

  /** A left rotation is undone by a right rotation when the heights were correct. */
  lemma LeftThenRightRotate(t: Tree)
    requires t.Node? && t.right.Node? && HeightsOk(t)
    ensures RightRotate(LeftRotate(t)) == t
  {
    var y := t.right;
    var x' := UpdateHeight(t.(right := y.left));
    var r := UpdateHeight(y.(left := x'));
    assert LeftRotate(t) == r;
    assert UpdateHeight(r.(left := x'.right)) == y;
    assert UpdateHeight(x'.(right := y)) == t;
  }

  /** `balanceTree`: recompute the height; if the left side is two or more
      higher, rotate right (first rotating the left child left when that child
      leans right); symmetrically on the right side; otherwise leave the node. */
  function BalanceTree(t: Tree): (r: Tree)
    ensures r.Nil? <==> t.Nil?
    ensures InOrder(r) == InOrder(t)
    ensures Keys(r) == Keys(t) && ToMap(r) == ToMap(t)
  {
    if t.Nil? then Nil
    else
      var root := UpdateHeight(t);
      var bf := BalanceFactor(root);
      if bf > 1 then
        var l := root.left;
        var l' := if BalanceFactor(l) < 0 then LeftRotate(l) else l;
        RightRotate(root.(left := l'))
      else if bf < -1 then
        var r := root.right;
        var r' := if BalanceFactor(r) > 0 then RightRotate(r) else r;
        LeftRotate(root.(right := r'))
      else root
  }

  /** A single right rotation repairs a node whose left child is two higher than
      its right child and does not lean right (the left-left case, and after a
      deletion also the case of a perfectly balanced left child). */
  lemma {:induction false} LeftLeftCase(t: Tree)
    requires t.Node? && t.left.Node? && AvlShaped(t.left) && AvlShaped(t.right)
    requires Height(t.left) == Height(t.right) + 2 && BalanceFactor(t.left) >= 0
    ensures AvlShaped(RightRotate(t))
    ensures Height(t.left) <= Height(RightRotate(t)) <= Height(t.left) + 1
  {
    var x := t.left;
    var y' := UpdateHeight(t.(left := x.right));
    assert Balanced(y') && HeightsOk(y');
    var r := UpdateHeight(x.(right := y'));
    assert RightRotate(t) == r;
  }

  /** A left rotation of the left child followed by a right rotation repairs a
      node whose left child is two higher than its right child and leans right
      (the left-right case). */
  lemma {:induction false} LeftRightCase(t: Tree)
    requires t.Node? && t.left.Node? && AvlShaped(t.left) && AvlShaped(t.right)
    requires Height(t.left) == Height(t.right) + 2 && BalanceFactor(t.left) < 0
    ensures t.left.right.Node?
    ensures AvlShaped(RightRotate(t.(left := LeftRotate(t.left))))
    ensures Height(RightRotate(t.(left := LeftRotate(t.left)))) == Height(t.left)
  {
    var x := t.left;
    var z := x.right;
    assert Balanced(x.left) && AvlShaped(z);
    assert Balanced(z.left) && Balanced(z.right) && HeightsOk(z.left) && HeightsOk(z.right);
    var x' := UpdateHeight(x.(right := z.left));
    var l' := UpdateHeight(z.(left := x'));
    assert LeftRotate(x) == l';
    var y' := UpdateHeight(t.(left := z.right));
    var r := UpdateHeight(l'.(right := y'));
    assert RightRotate(t.(left := l')) == r;
    assert Balanced(x') && Balanced(y');
  }

  /** Mirror image of `LeftLeftCase`. */
  lemma {:induction false} RightRightCase(t: Tree)
    requires t.Node? && t.right.Node? && AvlShaped(t.left) && AvlShaped(t.right)
    requires Height(t.right) == Height(t.left) + 2 && BalanceFactor(t.right) <= 0
    ensures AvlShaped(LeftRotate(t))
    ensures Height(t.right) <= Height(LeftRotate(t)) <= Height(t.right) + 1
  {
    var y := t.right;
    var x' := UpdateHeight(t.(right := y.left));
    assert Balanced(x') && HeightsOk(x');
    var r := UpdateHeight(y.(left := x'));
    assert LeftRotate(t) == r;
  }

  /** Mirror image of `LeftRightCase`. */
  lemma {:induction false} RightLeftCase(t: Tree)
    requires t.Node? && t.right.Node? && AvlShaped(t.left) && AvlShaped(t.right)
    requires Height(t.right) == Height(t.left) + 2 && BalanceFactor(t.right) > 0
    ensures t.right.left.Node?
    ensures AvlShaped(LeftRotate(t.(right := RightRotate(t.right))))
    ensures Height(LeftRotate(t.(right := RightRotate(t.right)))) == Height(t.right)
  {
    var y := t.right;
    var z := y.left;
    assert Balanced(y.right) && AvlShaped(z);
    assert Balanced(z.left) && Balanced(z.right) && HeightsOk(z.left) && HeightsOk(z.right);
    var y' := UpdateHeight(y.(left := z.right));
    var r' := UpdateHeight(z.(right := y'));
    assert RightRotate(y) == r';
    var x' := UpdateHeight(t.(right := z.left));
    var r := UpdateHeight(r'.(left := x'));
    assert LeftRotate(t.(right := r')) == r;
    assert Balanced(x') && Balanced(y');
  }

  /** `balanceTree` applied to a node whose subtrees are AVL trees with correct
      heights differing by at most two returns an AVL tree with correct heights
      listing the same pairs in the same order; its height is the recomputed
      height of the node or one less, and a node that was already balanced only
      has its height recomputed. */
  lemma BalanceTreeRestoresAvl(t: Tree)
    requires t.Node? && AvlShaped(t.left) && AvlShaped(t.right)
    requires -2 <= Height(t.left) - Height(t.right) <= 2
    ensures AvlShaped(BalanceTree(t))
    ensures Max(Height(t.left), Height(t.right)) <= Height(BalanceTree(t)) <= 1 + Max(Height(t.left), Height(t.right))
    ensures -1 <= Height(t.left) - Height(t.right) <= 1 ==> BalanceTree(t) == UpdateHeight(t)
    ensures Ordered(t) ==> Ordered(BalanceTree(t))
  {
    SameInOrderSameContents(t, BalanceTree(t));
    var root := UpdateHeight(t);
    if Height(t.left) - Height(t.right) > 1 {
      if BalanceFactor(root.left) < 0 {
        LeftRightCase(root);
      } else {
        LeftLeftCase(root);
      }
    } else if Height(t.left) - Height(t.right) < -1 {
      if BalanceFactor(root.right) > 0 {
        RightLeftCase(root);
      } else {
        RightRightCase(root);
      }
    }
  }
}
