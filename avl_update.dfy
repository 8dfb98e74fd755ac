/**
 * The recursive insertion and deletion engines. Each returns the new root
 * of the subtree it descended into together with the flags the callers use
 * to decide whether to rebalance: `taller` for insertion, `shorter` and
 * `success` for deletion.
 */
module AvlUpdate {
  import opened AvlNodes
  import opened AvlRebalance

  /** A subtree after a deletion, whether it became shorter, and whether a node was removed. */
  datatype Removal<V> = Removal(tree: Tree<V>, shorter: bool, success: bool)

  /**
   * What the insertion engine does at a node on the way back up, once its
   * left subtree has been replaced by one that is `taller` than before or
   * not; the balance factor of `t` is still the one from before. A
   * right-high node turns even and an even node left high; a left-high node
   * is handed to LeftBalance. The subtree is reported taller only when the
   * node was even.
   */
  function GrowLeft<V>(t: Tree<V>, taller: bool): (r: Grown<V>)
    requires t.Node? && IsAvl(t.left) && IsAvl(t.right)
    requires Height(t.right) - (Height(t.left) - (if taller then 1 else 0)) == BalanceValue(t.bal)
    requires taller && Height(t.left) > 0 ==> t.left.bal != EH
    ensures IsAvl(r.tree) && InOrder(r.tree) == InOrder(t)
    ensures Height(r.tree) == 1 + Max(Height(t.left) - (if taller then 1 else 0), Height(t.right)) + (if r.taller then 1 else 0)
    ensures r.taller ==> taller
    ensures r.taller && Height(r.tree) > 0 ==> r.tree.bal != EH
    ensures !taller ==> r == Grown(t, false)
  {
    HeightRange(t.left);
    HeightRange(t.right);
    if !taller then
      Grown(t, false)
    else
      match t.bal
      case LH => LeftBalance(t)
      case EH =>
        AvlNode(t.data, t.left, t.right, LH);
        Grown(t.(bal := LH), true)
      case RH =>
        AvlNode(t.data, t.left, t.right, EH);
        Grown(t.(bal := EH), false)
  }

  /** Mirror of GrowLeft, after the right subtree was replaced. */
  function GrowRight<V>(t: Tree<V>, taller: bool): (r: Grown<V>)
    requires t.Node? && IsAvl(t.left) && IsAvl(t.right)
    requires (Height(t.right) - (if taller then 1 else 0)) - Height(t.left) == BalanceValue(t.bal)
    requires taller && Height(t.right) > 0 ==> t.right.bal != EH
    ensures IsAvl(r.tree) && InOrder(r.tree) == InOrder(t)
    ensures Height(r.tree) == 1 + Max(Height(t.left), Height(t.right) - (if taller then 1 else 0)) + (if r.taller then 1 else 0)
    ensures r.taller ==> taller
    ensures r.taller && Height(r.tree) > 0 ==> r.tree.bal != EH
    ensures !taller ==> r == Grown(t, false)
  {
    HeightRange(t.left);
    HeightRange(t.right);
    if !taller then
      Grown(t, false)
    else
      match t.bal
      case RH => RightBalance(t)
      case EH =>
        AvlNode(t.data, t.left, t.right, RH);
        Grown(t.(bal := RH), true)
      case LH =>
        AvlNode(t.data, t.left, t.right, EH);
        Grown(t.(bal := EH), false)
  }

  /** Updating a key below a node that is absent from the right-hand part of the map. */
  lemma UpdateUnderLeft<V>(a: map<int, V>, c: map<int, V>, j: int, w: V, k: int, v: V)
    requires k !in c && k != j
    ensures a[k := v][j := w] + c == (a[j := w] + c)[k := v]
  {
  }

  /** Updating a key of the right-hand part of a map union. */
  lemma UpdateUnderRight<V>(a: map<int, V>, c: map<int, V>, k: int, v: V)
    ensures a + c[k := v] == (a + c)[k := v]
  {
  }

  /** The node with its left subtree replaced by one that received `x`. */
  lemma LeftInsertNode<V>(t: Tree<V>, sub: Tree<V>, x: Entry<V>)
    requires t.Node? && IsBst(t) && x.key < t.data.key
    requires IsBst(sub) && Keys(sub) == Keys(t.left) + {x.key}
    requires Elements(sub) == Elements(t.left)[x.key := x.value]
    ensures IsBst(Node(t.data, sub, t.right, t.bal))
    ensures Keys(Node(t.data, sub, t.right, t.bal)) == Keys(t) + {x.key}
    ensures Elements(Node(t.data, sub, t.right, t.bal)) == Elements(t)[x.key := x.value]
  {
    ElementsKeys(t.right);
    UpdateUnderLeft(Elements(t.left), Elements(t.right), t.data.key, t.data.value, x.key, x.value);
  }

  /** The node with its right subtree replaced by one that received `x`. */
  lemma RightInsertNode<V>(t: Tree<V>, sub: Tree<V>, x: Entry<V>)
    requires t.Node? && IsBst(t) && t.data.key < x.key
    requires IsBst(sub) && Keys(sub) == Keys(t.right) + {x.key}
    requires Elements(sub) == Elements(t.right)[x.key := x.value]
    ensures IsBst(Node(t.data, t.left, sub, t.bal))
    ensures Keys(Node(t.data, t.left, sub, t.bal)) == Keys(t) + {x.key}
    ensures Elements(Node(t.data, t.left, sub, t.bal)) == Elements(t)[x.key := x.value]
  {
    UpdateUnderRight(Elements(t.left)[t.data.key := t.data.value], Elements(t.right), x.key, x.value);
  }

  /** Contents after the entry at the root was replaced by one with the same key. */
  lemma ReplacedRootContents<V>(t: Tree<V>, x: Entry<V>)
    requires t.Node? && IsBst(t) && x.key == t.data.key
    ensures IsBst(t.(data := x)) && Keys(t.(data := x)) == Keys(t)
    ensures Elements(t.(data := x)) == Elements(t)[x.key := x.value]
  {
    ElementsKeys(t.right);
  }

  /**
   * Updating a key of the left subtree without changing that subtree's shape
   * leaves the shape of the whole subtree alone.
   */
  lemma ShapeKeptLeft<V>(t: Tree<V>, sub: Tree<V>, x: Entry<V>)
    requires t.Node? && IsBst(t) && x.key < t.data.key
    requires x.key in Keys(t.left) ==> SameShape(sub, t.left)
    ensures x.key in Keys(t) ==> SameShape(Node(t.data, sub, t.right, t.bal), t)
  {
    SameShapeReflexive(t.right);
    assert x.key !in Keys(t.right);
    assert x.key in Keys(t) ==> x.key in Keys(t.left);
  }

  /** Mirror of ShapeKeptLeft. */
  lemma ShapeKeptRight<V>(t: Tree<V>, sub: Tree<V>, x: Entry<V>)
    requires t.Node? && IsBst(t) && t.data.key < x.key
    requires x.key in Keys(t.right) ==> SameShape(sub, t.right)
    ensures x.key in Keys(t) ==> SameShape(Node(t.data, t.left, sub, t.bal), t)
  {
    SameShapeReflexive(t.left);
    assert x.key !in Keys(t.left);
    assert x.key in Keys(t) ==> x.key in Keys(t.right);
  }

  /**
   * The step of the insertion after the left subtree of `t` received `x`
   * (with result `sub`): GrowLeft applies, and its result has every property
   * Insert promises for `t`.
   */
  lemma InsertedLeft<V>(t: Tree<V>, x: Entry<V>, sub: Grown<V>)
    requires t.Node? && IsAvl(t) && IsBst(t) && x.key < t.data.key
    requires IsAvl(sub.tree) && IsBst(sub.tree)
    requires Keys(sub.tree) == Keys(t.left) + {x.key}
    requires Elements(sub.tree) == Elements(t.left)[x.key := x.value]
    requires Height(sub.tree) == Height(t.left) + (if sub.taller then 1 else 0)
    requires sub.taller && Height(sub.tree) > 0 ==> sub.tree.bal != EH
    requires x.key in Keys(t.left) ==> !sub.taller && SameShape(sub.tree, t.left)
    ensures IsAvl(t.right) && Height(t.right) - (Height(sub.tree) - (if sub.taller then 1 else 0)) == BalanceValue(t.bal)
    ensures IsAvl(GrowLeft(Node(t.data, sub.tree, t.right, t.bal), sub.taller).tree)
    ensures IsBst(GrowLeft(Node(t.data, sub.tree, t.right, t.bal), sub.taller).tree)
    ensures Keys(GrowLeft(Node(t.data, sub.tree, t.right, t.bal), sub.taller).tree) == Keys(t) + {x.key}
    ensures Elements(GrowLeft(Node(t.data, sub.tree, t.right, t.bal), sub.taller).tree) == Elements(t)[x.key := x.value]
    ensures x.key in Keys(t) ==> SameShape(GrowLeft(Node(t.data, sub.tree, t.right, t.bal), sub.taller).tree, t)
  {
    AvlChildren(t);
    var g := GrowLeft(Node(t.data, sub.tree, t.right, t.bal), sub.taller);
    LeftInsertNode(t, sub.tree, x);
    ShapeKeptLeft(t, sub.tree, x);
    SameInOrderSameContents(Node(t.data, sub.tree, t.right, t.bal), g.tree);
  }

  /** Mirror of InsertedLeft. */
  lemma InsertedRight<V>(t: Tree<V>, x: Entry<V>, sub: Grown<V>)
    requires t.Node? && IsAvl(t) && IsBst(t) && t.data.key < x.key
    requires IsAvl(sub.tree) && IsBst(sub.tree)
    requires Keys(sub.tree) == Keys(t.right) + {x.key}
    requires Elements(sub.tree) == Elements(t.right)[x.key := x.value]
    requires Height(sub.tree) == Height(t.right) + (if sub.taller then 1 else 0)
    requires sub.taller && Height(sub.tree) > 0 ==> sub.tree.bal != EH
    requires x.key in Keys(t.right) ==> !sub.taller && SameShape(sub.tree, t.right)
    ensures IsAvl(t.left) && (Height(sub.tree) - (if sub.taller then 1 else 0)) - Height(t.left) == BalanceValue(t.bal)
    ensures IsAvl(GrowRight(Node(t.data, t.left, sub.tree, t.bal), sub.taller).tree)
    ensures IsBst(GrowRight(Node(t.data, t.left, sub.tree, t.bal), sub.taller).tree)
    ensures Keys(GrowRight(Node(t.data, t.left, sub.tree, t.bal), sub.taller).tree) == Keys(t) + {x.key}
    ensures Elements(GrowRight(Node(t.data, t.left, sub.tree, t.bal), sub.taller).tree) == Elements(t)[x.key := x.value]
    ensures x.key in Keys(t) ==> SameShape(GrowRight(Node(t.data, t.left, sub.tree, t.bal), sub.taller).tree, t)
  {
    AvlChildren(t);
    var g := GrowRight(Node(t.data, t.left, sub.tree, t.bal), sub.taller);
    RightInsertNode(t, sub.tree, x);
    ShapeKeptRight(t, sub.tree, x);
    SameInOrderSameContents(Node(t.data, t.left, sub.tree, t.bal), g.tree);
  }

  /**
   * Inserts `x`, or replaces the element with the same key. The result is
   * again a balanced search tree holding exactly one more key (none if the
   * key was present), and `taller` says exactly whether its height grew;
   * it grew by at most one level. A subtree that grew and is not a single
   * leaf is never even, which is what LeftBalance and RightBalance rely on.
   */
  function Insert<V>(t: Tree<V>, x: Entry<V>): (r: Grown<V>)
    requires IsAvl(t) && IsBst(t)
    ensures IsAvl(r.tree) && IsBst(r.tree)
    ensures Keys(r.tree) == Keys(t) + {x.key}
    ensures Elements(r.tree) == Elements(t)[x.key := x.value]
    ensures Height(r.tree) == Height(t) + (if r.taller then 1 else 0)
    ensures r.taller && Height(r.tree) > 0 ==> r.tree.bal != EH
    ensures x.key in Keys(t) ==> !r.taller && SameShape(r.tree, t)
    decreases t
  {
    match t
    case Nil => Grown(Node(x, Nil, Nil, EH), true)
    case Node(d, l, rt, b) =>
      if x.key == d.key then
        ReplacedRootContents(t, x);
        SameShapeReflexive(t);
        Grown(t.(data := x), false)
      else if x.key < d.key then
        var sub := Insert(l, x);
        InsertedLeft(t, x, sub);
        GrowLeft(Node(d, sub.tree, rt, b), sub.taller)
      else
        var sub := Insert(rt, x);
        InsertedRight(t, x, sub);
        GrowRight(Node(d, l, sub.tree, b), sub.taller)
  }

  /**
   * The entry with the largest key, found by following right links from the
   * root: the in-order predecessor of a node is MaxEntry of its left subtree.
   */
  function MaxEntry<V>(t: Tree<V>): (m: Entry<V>)
    requires t.Node?
    ensures m.key in Keys(t) && m.key in Elements(t) && Elements(t)[m.key] == m.value
    ensures IsBst(t) ==> forall k :: k in Keys(t) ==> k <= m.key
    decreases t
  {
    ElementsKeys(t.left);
    ElementsKeys(t.right);
    if t.right.Nil? then t.data else MaxEntry(t.right)
  }

  /**
   * What the deletion engine does at a node on the way back up, once its left
   * subtree has been replaced by one that is `shorter` than before or not;
   * the balance factor is still the one from before. A shorter left subtree
   * is handed to DeleteRightBalance.
   */
  function ShrinkLeft<V>(t: Tree<V>, shorter: bool): (r: Shrunk<V>)
    requires t.Node? && IsAvl(t.left) && IsAvl(t.right)
    requires Height(t.right) - (Height(t.left) + (if shorter then 1 else 0)) == BalanceValue(t.bal)
    ensures IsAvl(r.tree) && InOrder(r.tree) == InOrder(t)
    ensures Height(r.tree) == 1 + Max(Height(t.left) + (if shorter then 1 else 0), Height(t.right)) - (if r.shorter then 1 else 0)
    ensures !shorter ==> r == Shrunk(t, false)
  {
    if shorter then DeleteRightBalance(t) else Shrunk(t, false)
  }

  /** Mirror of ShrinkLeft, after the right subtree was replaced. */
  function ShrinkRight<V>(t: Tree<V>, shorter: bool): (r: Shrunk<V>)
    requires t.Node? && IsAvl(t.left) && IsAvl(t.right)
    requires (Height(t.right) + (if shorter then 1 else 0)) - Height(t.left) == BalanceValue(t.bal)
    ensures IsAvl(r.tree) && InOrder(r.tree) == InOrder(t)
    ensures Height(r.tree) == 1 + Max(Height(t.left), Height(t.right) + (if shorter then 1 else 0)) - (if r.shorter then 1 else 0)
    ensures !shorter ==> r == Shrunk(t, false)
  {
    if shorter then DeleteLeftBalance(t) else Shrunk(t, false)
  }

  /** Removing a key below a node, when the right-hand part of the map does not hold it. */
  lemma RemoveUnderLeft<V>(a: map<int, V>, c: map<int, V>, j: int, w: V, k: int)
    requires k !in c && k != j
    ensures (a - {k})[j := w] + c == (a[j := w] + c) - {k}
  {
  }

  /** Removing a key of the right-hand part of a map union that the left part does not hold. */
  lemma RemoveUnderRight<V>(a: map<int, V>, c: map<int, V>, k: int)
    requires k !in a
    ensures a + (c - {k}) == (a + c) - {k}
  {
  }

  /** Moving the entry at key `m` of `a` up to replace the entry at key `j`. */
  lemma MoveUp<V>(a: map<int, V>, c: map<int, V>, m: int, j: int, w: V)
    requires m in a && j !in a && j !in c
    ensures (a - {m})[m := a[m]] + c == (a[j := w] + c) - {j}
  {
    assert (a - {m})[m := a[m]] == a;
  }

  /** The node with its left subtree replaced by one from which `k` was removed. */
  lemma LeftRemoveNode<V>(t: Tree<V>, sub: Tree<V>, k: int)
    requires t.Node? && IsBst(t) && k < t.data.key
    requires IsBst(sub) && Keys(sub) == Keys(t.left) - {k}
    requires Elements(sub) == Elements(t.left) - {k}
    ensures IsBst(Node(t.data, sub, t.right, t.bal))
    ensures Keys(Node(t.data, sub, t.right, t.bal)) == Keys(t) - {k}
    ensures Elements(Node(t.data, sub, t.right, t.bal)) == Elements(t) - {k}
  {
    ElementsKeys(t.right);
    RemoveUnderLeft(Elements(t.left), Elements(t.right), t.data.key, t.data.value, k);
  }

  /** The node with its right subtree replaced by one from which `k` was removed. */
  lemma RightRemoveNode<V>(t: Tree<V>, sub: Tree<V>, k: int)
    requires t.Node? && IsBst(t) && t.data.key < k
    requires IsBst(sub) && Keys(sub) == Keys(t.right) - {k}
    requires Elements(sub) == Elements(t.right) - {k}
    ensures IsBst(Node(t.data, t.left, sub, t.bal))
    ensures Keys(Node(t.data, t.left, sub, t.bal)) == Keys(t) - {k}
    ensures Elements(Node(t.data, t.left, sub, t.bal)) == Elements(t) - {k}
  {
    ElementsKeys(t.left);
    RemoveUnderRight(Elements(t.left)[t.data.key := t.data.value], Elements(t.right), k);
  }

  /** Removing a root that has at most one child leaves that child. */
  lemma OnlyChildContents<V>(t: Tree<V>)
    requires t.Node? && IsBst(t) && (t.left.Nil? || t.right.Nil?)
    ensures Keys(t) - {t.data.key} == Keys(if t.right.Nil? then t.left else t.right)
    ensures Elements(t) - {t.data.key} == Elements(if t.right.Nil? then t.left else t.right)
  {
    ElementsKeys(t.left);
    ElementsKeys(t.right);
  }

  /**
   * The root replaced by its in-order predecessor `m`, which was removed
   * from the left subtree: the contents are those of `t` without the old
   * root's key, and the order is kept.
   */
  lemma PredecessorNode<V>(t: Tree<V>, sub: Tree<V>, m: Entry<V>)
    requires t.Node? && IsBst(t) && t.left.Node? && m == MaxEntry(t.left)
    requires IsBst(sub) && Keys(sub) == Keys(t.left) - {m.key}
    requires Elements(sub) == Elements(t.left) - {m.key}
    ensures IsBst(Node(m, sub, t.right, t.bal))
    ensures Keys(Node(m, sub, t.right, t.bal)) == Keys(t) - {t.data.key}
    ensures Elements(Node(m, sub, t.right, t.bal)) == Elements(t) - {t.data.key}
  {
    PredecessorOrder(t, sub, m);
    PredecessorKeys(t, sub, m);
    PredecessorElements(t, sub, m);
  }

  lemma PredecessorOrder<V>(t: Tree<V>, sub: Tree<V>, m: Entry<V>)
    requires t.Node? && IsBst(t) && t.left.Node? && m == MaxEntry(t.left)
    requires IsBst(sub) && Keys(sub) == Keys(t.left) - {m.key}
    ensures IsBst(Node(m, sub, t.right, t.bal))
  {
    var l, r := t.left, t.right;
    assert m.key in Keys(l);
    assert forall k :: k in Keys(sub) ==> k < m.key;
    assert forall k :: k in Keys(r) ==> m.key < k;
  }

  lemma PredecessorKeys<V>(t: Tree<V>, sub: Tree<V>, m: Entry<V>)
    requires t.Node? && IsBst(t) && t.left.Node? && m == MaxEntry(t.left)
    requires Keys(sub) == Keys(t.left) - {m.key}
    ensures Keys(Node(m, sub, t.right, t.bal)) == Keys(t) - {t.data.key}
  {
    assert t.data.key !in Keys(t.left) && t.data.key !in Keys(t.right);
  }

  lemma PredecessorElements<V>(t: Tree<V>, sub: Tree<V>, m: Entry<V>)
    requires t.Node? && IsBst(t) && t.left.Node? && m == MaxEntry(t.left)
    requires Elements(sub) == Elements(t.left) - {m.key}
    ensures Elements(Node(m, sub, t.right, t.bal)) == Elements(t) - {t.data.key}
  {
    ElementsKeys(t.left);
    ElementsKeys(t.right);
    MoveUp(Elements(t.left), Elements(t.right), m.key, t.data.key, t.data.value);
  }

  /**
   * Removes the element with key `k`, if any. `success` says exactly whether
   * the key was present; the result is again a balanced search tree holding
   * every other key with its payload, and `shorter` says exactly whether its
   * height dropped (by one level). A node with two children takes over the
   * entry of its in-order predecessor, which is then removed from the left
   * subtree. When the key is absent the subtree comes back unchanged.
   */
  function Remove<V>(t: Tree<V>, k: int): (r: Removal<V>)
    requires IsAvl(t) && IsBst(t)
    ensures IsAvl(r.tree) && IsBst(r.tree)
    ensures r.success <==> k in Keys(t)
    ensures Keys(r.tree) == Keys(t) - {k}
    ensures Elements(r.tree) == Elements(t) - {k}
    ensures Height(r.tree) == Height(t) - (if r.shorter then 1 else 0)
    ensures !r.success ==> r.tree == t && !r.shorter
    decreases t
  {
    match t
    case Nil => Removal(Nil, false, false)
    case Node(d, l, rt, b) =>
      if k < d.key then
        var sub := Remove(l, k);
        var s := ShrinkLeft(Node(d, sub.tree, rt, b), sub.shorter);
        LeftRemoveNode(t, sub.tree, k);
        SameInOrderSameContents(Node(d, sub.tree, rt, b), s.tree);
        Removal(s.tree, s.shorter, sub.success)
      else if d.key < k then
        var sub := Remove(rt, k);
        var s := ShrinkRight(Node(d, l, sub.tree, b), sub.shorter);
        RightRemoveNode(t, sub.tree, k);
        SameInOrderSameContents(Node(d, l, sub.tree, b), s.tree);
        Removal(s.tree, s.shorter, sub.success)
      else if rt.Nil? then
        OnlyChildContents(t);
        HeightRange(l);
        Removal(l, true, true)
      else if l.Nil? then
        OnlyChildContents(t);
        HeightRange(rt);
        Removal(rt, true, true)
      else
        var m := MaxEntry(l);
        var sub := Remove(l, m.key);
        var s := ShrinkLeft(Node(m, sub.tree, rt, b), sub.shorter);
        PredecessorNode(t, sub.tree, m);
        SameInOrderSameContents(Node(m, sub.tree, rt, b), s.tree);
        Removal(s.tree, s.shorter, true)
  }
}
