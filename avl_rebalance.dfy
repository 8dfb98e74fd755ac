/**
 * The rotation primitives and the four rebalancing procedures. Each returns
 * the (possibly new) root of the subtree it was given; the insertion-side
 * procedures also report whether the subtree ended up taller, the
 * deletion-side ones whether it ended up shorter.
 */
module AvlRebalance {
  import opened AvlNodes

  /** A rebalanced subtree after an insertion and whether it grew taller. */
  datatype Grown<V> = Grown(tree: Tree<V>, taller: bool)

  /** A rebalanced subtree after a deletion and whether it became shorter. */
  datatype Shrunk<V> = Shrunk(tree: Tree<V>, shorter: bool)

  /**
   * Left rotation: the right child becomes the root of the subtree, the old
   * root its left child, and the right child's former left subtree the old
   * root's right subtree. Balance factors are left as they were; the callers
   * set them.
   */
  function RotateLeft<V>(t: Tree<V>): (r: Tree<V>)
    requires t.Node? && t.right.Node?
    ensures r.Node? && r.left.Node?
    ensures r.data == t.right.data && r.left.data == t.data
    ensures InOrder(r) == InOrder(t)
  {
    var p := t.right;
    Node(p.data, Node(t.data, t.left, p.left, t.bal), p.right, p.bal)
  }

  /** Right rotation, the mirror image of RotateLeft. */
  function RotateRight<V>(t: Tree<V>): (r: Tree<V>)
    requires t.Node? && t.left.Node?
    ensures r.Node? && r.right.Node?
    ensures r.data == t.left.data && r.right.data == t.data
    ensures InOrder(r) == InOrder(t)
  {
    var p := t.left;
    Node(p.data, p.left, Node(t.data, p.right, t.right, t.bal), p.bal)
  }

  /** Each rotation undoes the other. */
  lemma RotationsAreInverse<V>(t: Tree<V>)
    ensures t.Node? && t.right.Node? ==> RotateRight(RotateLeft(t)) == t
    ensures t.Node? && t.left.Node? ==> RotateLeft(RotateRight(t)) == t
  {
  }

  /**
   * Single left rotation with the balance factors set first, as the callers
   * do: `inner` for the old root, which becomes the left child, and `outer`
   * for the old right child, which becomes the root.
   */
  function SingleRotateLeft<V>(t: Tree<V>, inner: Balance, outer: Balance): (r: Tree<V>)
    requires t.Node? && t.right.Node? && IsAvl(t.left) && IsAvl(t.right)
    requires Height(t.right.left) - Height(t.left) == BalanceValue(inner)
    requires Height(t.right.right) - (1 + Max(Height(t.left), Height(t.right.left))) == BalanceValue(outer)
    ensures IsAvl(r) && InOrder(r) == InOrder(t)
    ensures Height(r) == 1 + Max(1 + Max(Height(t.left), Height(t.right.left)), Height(t.right.right))
  {
    var p := t.right;
    AvlChildren(p);
    AvlNode(t.data, t.left, p.left, inner);
    AvlNode(p.data, Node(t.data, t.left, p.left, inner), p.right, outer);
    RotateLeft(Node(t.data, t.left, p.(bal := outer), inner))
  }

  /** Mirror of SingleRotateLeft. */
  function SingleRotateRight<V>(t: Tree<V>, inner: Balance, outer: Balance): (r: Tree<V>)
    requires t.Node? && t.left.Node? && IsAvl(t.left) && IsAvl(t.right)
    requires Height(t.right) - Height(t.left.right) == BalanceValue(inner)
    requires (1 + Max(Height(t.left.right), Height(t.right))) - Height(t.left.left) == BalanceValue(outer)
    ensures IsAvl(r) && InOrder(r) == InOrder(t)
    ensures Height(r) == 1 + Max(Height(t.left.left), 1 + Max(Height(t.left.right), Height(t.right)))
  {
    var p := t.left;
    AvlChildren(p);
    AvlNode(t.data, p.right, t.right, inner);
    AvlNode(p.data, p.left, Node(t.data, p.right, t.right, inner), outer);
    RotateRight(Node(t.data, p.(bal := outer), t.right, inner))
  }

  /**
   * Balance factors of the two nodes that end up as children after a double
   * rotation, chosen from the factor of the grandchild that becomes the new
   * root: the left one leans left by as much as the grandchild leaned right,
   * and the right one leans right by as much as the grandchild leaned left.
   */
  function DoubleRotationTags(grandchild: Balance): (tags: (Balance, Balance))
    ensures BalanceValue(tags.0) == -Max(0, BalanceValue(grandchild))
    ensures BalanceValue(tags.1) == Max(0, -BalanceValue(grandchild))
  {
    match grandchild
    case LH => (EH, RH)
    case EH => (EH, EH)
    case RH => (LH, EH)
  }

  /**
   * What the tags are for: when a balanced grandchild `g` becomes the root
   * and two subtrees `x` and `y` one level lower than `g` go to the outside,
   * the new left child (x, g.left) and right child (g.right, y) with these
   * tags are balanced, as high as `g`, and an even node over them is
   * balanced too.
   */
  lemma DoubleRotationChildren<V>(g: Tree<V>, x: Tree<V>, y: Tree<V>, dl: Entry<V>, dr: Entry<V>)
    requires g.Node? && IsAvl(g) && IsAvl(x) && IsAvl(y)
    requires Height(x) == Height(g) - 1 && Height(y) == Height(g) - 1
    ensures IsAvl(Node(dl, x, g.left, DoubleRotationTags(g.bal).0))
    ensures IsAvl(Node(dr, g.right, y, DoubleRotationTags(g.bal).1))
    ensures Height(Node(dl, x, g.left, DoubleRotationTags(g.bal).0)) == Height(g)
    ensures Height(Node(dr, g.right, y, DoubleRotationTags(g.bal).1)) == Height(g)
    ensures IsAvl(Node(g.data, Node(dl, x, g.left, DoubleRotationTags(g.bal).0), Node(dr, g.right, y, DoubleRotationTags(g.bal).1), EH))
  {
    var (lb, rb) := DoubleRotationTags(g.bal);
    AvlChildren(g);
    AvlNode(dl, x, g.left, lb);
    AvlNode(dr, g.right, y, rb);
    AvlNode(g.data, Node(dl, x, g.left, lb), Node(dr, g.right, y, rb), EH);
  }

  /**
   * Double rotation for a left subtree two levels too tall whose own right
   * subtree is the taller one: rotate left at the left child, then right at
   * the node. The grandchild becomes the even root of the subtree.
   */
  function RotateLeftRight<V>(t: Tree<V>): (r: Tree<V>)
    requires t.Node? && t.left.Node? && t.left.bal == RH
    requires IsAvl(t.left) && IsAvl(t.right)
    requires Height(t.left) == Height(t.right) + 2
    ensures IsAvl(r) && InOrder(r) == InOrder(t)
    ensures Height(r) == Height(t.right) + 2
  {
    var l := t.left;
    var lr := l.right;
    AvlChildren(l);
    HeightRange(t.right);
    HeightRange(lr);
    var (leftBal, rootBal) := DoubleRotationTags(lr.bal);
    var newLeft := RotateLeft(Node(l.data, l.left, lr.(bal := EH), leftBal));
    var r := RotateRight(Node(t.data, newLeft, t.right, rootBal));
    DoubleRotationChildren(lr, l.left, t.right, l.data, t.data);
    assert r == Node(lr.data, Node(l.data, l.left, lr.left, leftBal), Node(t.data, lr.right, t.right, rootBal), EH);
    assert InOrder(l) == InOrder(l.left) + [l.data] + InOrder(lr.left) + [lr.data] + InOrder(lr.right);
    r
  }

  /** Mirror of RotateLeftRight: rotate right at the right child, then left. */
  function RotateRightLeft<V>(t: Tree<V>): (r: Tree<V>)
    requires t.Node? && t.right.Node? && t.right.bal == LH
    requires IsAvl(t.left) && IsAvl(t.right)
    requires Height(t.right) == Height(t.left) + 2
    ensures IsAvl(r) && InOrder(r) == InOrder(t)
    ensures Height(r) == Height(t.left) + 2
  {
    var rt := t.right;
    var rl := rt.left;
    AvlChildren(rt);
    HeightRange(t.left);
    HeightRange(rl);
    var (rootBal, rightBal) := DoubleRotationTags(rl.bal);
    var newRight := RotateRight(Node(rt.data, rl.(bal := EH), rt.right, rightBal));
    var r := RotateLeft(Node(t.data, t.left, newRight, rootBal));
    DoubleRotationChildren(rl, t.left, rt.right, t.data, rt.data);
    assert r == Node(rl.data, Node(t.data, t.left, rl.left, rootBal), Node(rt.data, rl.right, rt.right, rightBal), EH);
    assert InOrder(rt) == InOrder(rl.left) + [rl.data] + InOrder(rl.right) + [rt.data] + InOrder(rt.right);
    r
  }

  /**
   * Called after an insertion made the left subtree of a left-high node two
   * levels taller than its right subtree. A single right rotation handles a
   * left-high left child; a left-right double rotation handles a right-high
   * one. An even left child cannot arise after an insertion. The subtree is
   * back at its height from before the insertion, so it is never taller.
   */
  function LeftBalance<V>(t: Tree<V>): (r: Grown<V>)
    requires t.Node? && t.left.Node? && t.left.bal != EH
    requires IsAvl(t.left) && IsAvl(t.right)
    requires Height(t.left) == Height(t.right) + 2
    ensures IsAvl(r.tree) && InOrder(r.tree) == InOrder(t)
    ensures Height(r.tree) == Height(t.right) + 2 && !r.taller
  {
    var l := t.left;
    if l.bal == LH then
      AvlChildren(l);
      Grown(SingleRotateRight(t, EH, EH), false)
    else
      Grown(RotateLeftRight(t), false)
  }

  /** Mirror of LeftBalance, after the right subtree grew two levels too tall. */
  function RightBalance<V>(t: Tree<V>): (r: Grown<V>)
    requires t.Node? && t.right.Node? && t.right.bal != EH
    requires IsAvl(t.left) && IsAvl(t.right)
    requires Height(t.right) == Height(t.left) + 2
    ensures IsAvl(r.tree) && InOrder(r.tree) == InOrder(t)
    ensures Height(r.tree) == Height(t.left) + 2 && !r.taller
  {
    var rt := t.right;
    if rt.bal == RH then
      AvlChildren(rt);
      Grown(SingleRotateLeft(t, EH, EH), false)
    else
      Grown(RotateRightLeft(t), false)
  }

  /**
   * Called after a deletion made the left subtree one level shorter; the
   * balance factor is still the one from before. A left-high node turns
   * even and the subtree is shorter; an even node turns right high and the
   * subtree keeps its height; a right-high node is rotated to the left (a
   * double rotation when its right child is left high), and the subtree is
   * shorter unless that right child was even.
   */
  function DeleteRightBalance<V>(t: Tree<V>): (r: Shrunk<V>)
    requires t.Node? && IsAvl(t.left) && IsAvl(t.right)
    requires Height(t.right) - (Height(t.left) + 1) == BalanceValue(t.bal)
    ensures IsAvl(r.tree) && InOrder(r.tree) == InOrder(t)
    ensures Height(r.tree) == Max(Height(t.left) + 1, Height(t.right)) + (if r.shorter then 0 else 1)
  {
    match t.bal
    case LH =>
      AvlNode(t.data, t.left, t.right, EH);
      Shrunk(t.(bal := EH), true)
    case EH =>
      AvlNode(t.data, t.left, t.right, RH);
      Shrunk(t.(bal := RH), false)
    case RH =>
      var rt := t.right;
      HeightRange(t.left);
      HeightRange(rt);
      AvlChildren(rt);
      if rt.bal == LH then
        Shrunk(RotateRightLeft(t), true)
      else if rt.bal == RH then
        Shrunk(SingleRotateLeft(t, EH, EH), true)
      else
        Shrunk(SingleRotateLeft(t, RH, LH), false)
  }

  /** Mirror of DeleteRightBalance, after the right subtree became shorter. */
  function DeleteLeftBalance<V>(t: Tree<V>): (r: Shrunk<V>)
    requires t.Node? && IsAvl(t.left) && IsAvl(t.right)
    requires (Height(t.right) + 1) - Height(t.left) == BalanceValue(t.bal)
    ensures IsAvl(r.tree) && InOrder(r.tree) == InOrder(t)
    ensures Height(r.tree) == Max(Height(t.left), Height(t.right) + 1) + (if r.shorter then 0 else 1)
  {
    match t.bal
    case RH =>
      AvlNode(t.data, t.left, t.right, EH);
      Shrunk(t.(bal := EH), true)
    case EH =>
      AvlNode(t.data, t.left, t.right, LH);
      Shrunk(t.(bal := LH), false)
    case LH =>
      var l := t.left;
      HeightRange(t.right);
      HeightRange(l);
      AvlChildren(l);
      if l.bal == RH then
        Shrunk(RotateLeftRight(t), true)
      else if l.bal == LH then
        Shrunk(SingleRotateRight(t, EH, EH), true)
      else
        Shrunk(SingleRotateRight(t, LH, RH), false)
  }
}
