/**
 * Node layout of the AVL tree and the invariants every subtree keeps:
 * search-tree order on keys, and balance factors that agree with heights.
 */
module AvlNodes {

  /** The balance factor of a node: left high (-1), even (0), right high (+1). */
  datatype Balance = LH | EH | RH

  function BalanceValue(b: Balance): int
  {
    match b
    case LH => -1
    case EH => 0
    case RH => 1
  }

  /**
   * A stored element. The element type's order compares keys only, so two
   * elements with the same key are "equal" for the tree even when their
   * payloads differ; inserting one replaces the other.
   */
  datatype Entry<V> = Entry(key: int, value: V)

  /** A subtree: the empty subtree (a null pointer) or a node. */
  datatype Tree<V> = Nil | Node(data: Entry<V>, left: Tree<V>, right: Tree<V>, bal: Balance)

  function Max(a: int, b: int): int
  {
    if a < b then b else a
  }

  /** Height of a subtree; the empty subtree has height -1, a leaf height 0. */
  function Height<V>(t: Tree<V>): int
  {
    match t
    case Nil => -1
    case Node(_, l, r, _) => 1 + Max(Height(l), Height(r))
  }

  /** Number of nodes of a subtree. */
  function Size<V>(t: Tree<V>): nat
  {
    match t
    case Nil => 0
    case Node(_, l, r, _) => Size(l) + 1 + Size(r)
  }

  /** The set of keys stored in a subtree. */
  ghost function Keys<V>(t: Tree<V>): set<int>
  {
    match t
    case Nil => {}
    case Node(d, l, r, _) => Keys(l) + {d.key} + Keys(r)
  }

  /**
   * What a subtree stores: each key mapped to the payload kept with it.
   * Later parts of the in-order walk take precedence, which only matters
   * for a subtree that is not a search tree.
   */
  ghost function Elements<V>(t: Tree<V>): map<int, V>
  {
    match t
    case Nil => map[]
    case Node(d, l, r, _) => Elements(l)[d.key := d.value] + Elements(r)
  }

  /** The elements of a subtree in in-order (left, node, right). */
  function InOrder<V>(t: Tree<V>): seq<Entry<V>>
  {
    match t
    case Nil => []
    case Node(d, l, r, _) => InOrder(l) + [d] + InOrder(r)
  }

  /** Search-tree order: every left key is smaller, every right key larger. */
  ghost predicate IsBst<V>(t: Tree<V>)
  {
    match t
    case Nil => true
    case Node(d, l, r, _) =>
      && IsBst(l) && IsBst(r)
      && (forall k :: k in Keys(l) ==> k < d.key)
      && (forall k :: k in Keys(r) ==> d.key < k)
  }

  /** Balance condition: each node's factor is height(right) - height(left). */
  ghost predicate IsAvl<V>(t: Tree<V>)
  {
    match t
    case Nil => true
    case Node(_, l, r, b) => IsAvl(l) && IsAvl(r) && Height(r) - Height(l) == BalanceValue(b)
  }

  /** Only the empty subtree has a negative height, and that height is -1. */
  lemma {:induction false} HeightRange<V>(t: Tree<V>)
    ensures Height(t) >= -1
    ensures Height(t) >= 0 <==> t.Node?
  {
    match t
    case Nil =>
    case Node(_, l, r, _) =>
      HeightRange(l);
  }

  /** Building a node from two balanced subtrees and the matching factor. */
  lemma AvlNode<V>(d: Entry<V>, l: Tree<V>, r: Tree<V>, b: Balance)
    requires IsAvl(l) && IsAvl(r) && Height(r) - Height(l) == BalanceValue(b)
    ensures IsAvl(Node(d, l, r, b))
    ensures Height(Node(d, l, r, b)) == 1 + Max(Height(l), Height(r))
  {
  }

  /** The facts a balanced node gives about its two subtrees. */
  lemma AvlChildren<V>(t: Tree<V>)
    requires IsAvl(t) && t.Node?
    ensures IsAvl(t.left) && IsAvl(t.right)
    ensures Height(t.right) - Height(t.left) == BalanceValue(t.bal)
    ensures Height(t) == 1 + Max(Height(t.left), Height(t.right))
  {
  }

  /**
   * Two subtrees with nodes at the same positions and the same balance
   * factor at each position; the entries stored may differ.
   */
  predicate SameShape<V>(a: Tree<V>, b: Tree<V>)
  {
    match a
    case Nil => b.Nil?
    case Node(_, al, ar, ab) => b.Node? && ab == b.bal && SameShape(al, b.left) && SameShape(ar, b.right)
  }

  lemma {:induction false} SameShapeReflexive<V>(t: Tree<V>)
    ensures SameShape(t, t)
  {
    match t
    case Nil =>
    case Node(_, l, r, _) =>
      SameShapeReflexive(l);
      SameShapeReflexive(r);
  }

  /** Keys of a sequence of entries in strictly ascending order. */
  ghost predicate Ascending<V>(s: seq<Entry<V>>)
  {
    forall i, j :: 0 <= i < j < |s| ==> s[i].key < s[j].key
  }

  /** The map a sequence of entries describes, later entries winning. */
  ghost function SeqElements<V>(s: seq<Entry<V>>): map<int, V>
  {
    if s == [] then map[] else SeqElements(s[..|s| - 1])[s[|s| - 1].key := s[|s| - 1].value]
  }

  lemma {:induction false} ElementsKeys<V>(t: Tree<V>)
    ensures Elements(t).Keys == Keys(t)
  {
    match t
    case Nil =>
    case Node(d, l, r, _) =>
      ElementsKeys(l);
      ElementsKeys(r);
  }

  lemma {:induction false} InOrderKeys<V>(t: Tree<V>)
    ensures |InOrder(t)| == Size(t)
    ensures forall i :: 0 <= i < |InOrder(t)| ==> InOrder(t)[i].key in Keys(t)
    ensures forall k :: k in Keys(t) ==> exists i :: 0 <= i < |InOrder(t)| && InOrder(t)[i].key == k
  {
    match t
    case Nil =>
    case Node(d, l, r, _) =>
      InOrderKeys(l);
      InOrderKeys(r);
      var s := InOrder(t);
      assert s == InOrder(l) + [d] + InOrder(r);
      forall k | k in Keys(t)
        ensures exists i :: 0 <= i < |s| && s[i].key == k
      {
        if k in Keys(l) {
          var i :| 0 <= i < |InOrder(l)| && InOrder(l)[i].key == k;
          assert s[i] == InOrder(l)[i];
        } else if k == d.key {
          assert s[|InOrder(l)|] == d;
        } else {
          var i :| 0 <= i < |InOrder(r)| && InOrder(r)[i].key == k;
          assert s[|InOrder(l)| + 1 + i] == InOrder(r)[i];
        }
      }
  }

  /** When a sequence of entries around a middle entry ascends. */
  lemma AscendingAround<V>(a: seq<Entry<V>>, d: Entry<V>, b: seq<Entry<V>>)
    ensures Ascending(a + [d] + b) <==>
      && Ascending(a) && Ascending(b)
      && (forall i :: 0 <= i < |a| ==> a[i].key < d.key)
      && (forall j :: 0 <= j < |b| ==> d.key < b[j].key)
  {
    var s := a + [d] + b;
    if Ascending(s) {
      forall i, j | 0 <= i < j < |a| ensures a[i].key < a[j].key {
        assert s[i] == a[i] && s[j] == a[j];
      }
      forall i, j | 0 <= i < j < |b| ensures b[i].key < b[j].key {
        assert s[|a| + 1 + i] == b[i] && s[|a| + 1 + j] == b[j];
      }
      forall i | 0 <= i < |a| ensures a[i].key < d.key {
        assert s[i] == a[i] && s[|a|] == d;
      }
      forall j | 0 <= j < |b| ensures d.key < b[j].key {
        assert s[|a| + 1 + j] == b[j] && s[|a|] == d;
      }
    }
    if && Ascending(a) && Ascending(b)
       && (forall i :: 0 <= i < |a| ==> a[i].key < d.key)
       && (forall j :: 0 <= j < |b| ==> d.key < b[j].key)
    {
      forall i, j | 0 <= i < j < |s| ensures s[i].key < s[j].key {
        if j < |a| {
          assert s[i] == a[i] && s[j] == a[j];
        } else if i > |a| {
          assert s[i] == b[i - |a| - 1] && s[j] == b[j - |a| - 1];
        } else if i == |a| {
          assert s[i] == d && s[j] == b[j - |a| - 1];
        } else if j == |a| {
          assert s[i] == a[i] && s[j] == d;
        } else {
          assert s[i] == a[i] && s[j] == b[j - |a| - 1];
          assert a[i].key < d.key < b[j - |a| - 1].key;
        }
      }
    }
  }

  /** A bound on all keys of a subtree is a bound on all keys of its in-order walk. */
  lemma BoundViaInOrder<V>(t: Tree<V>, x: int)
    ensures (forall k :: k in Keys(t) ==> k < x) <==> (forall i :: 0 <= i < |InOrder(t)| ==> InOrder(t)[i].key < x)
    ensures (forall k :: k in Keys(t) ==> x < k) <==> (forall i :: 0 <= i < |InOrder(t)| ==> x < InOrder(t)[i].key)
  {
    InOrderKeys(t);
  }

  /** A subtree is a search tree exactly when its in-order walk ascends strictly. */
  lemma {:induction false} BstIffAscending<V>(t: Tree<V>)
    ensures IsBst(t) <==> Ascending(InOrder(t))
  {
    match t
    case Nil =>
    case Node(d, l, r, _) =>
      BstIffAscending(l);
      BstIffAscending(r);
      BoundViaInOrder(l, d.key);
      BoundViaInOrder(r, d.key);
      AscendingAround(InOrder(l), d, InOrder(r));
  }

  lemma {:induction false} SeqElementsAppend<V>(a: seq<Entry<V>>, b: seq<Entry<V>>)
    ensures SeqElements(a + b) == SeqElements(a) + SeqElements(b)
    decreases |b|
  {
    if b == [] {
      assert a + b == a;
    } else {
      var n := |b| - 1;
      assert (a + b)[..|a + b| - 1] == a + b[..n];
      SeqElementsAppend(a, b[..n]);
    }
  }

  /** The stored map is the one the in-order walk describes. */
  lemma {:induction false} ElementsFromInOrder<V>(t: Tree<V>)
    ensures Elements(t) == SeqElements(InOrder(t))
  {
    match t
    case Nil =>
    case Node(d, l, r, _) =>
      ElementsFromInOrder(l);
      ElementsFromInOrder(r);
      SeqElementsAppend(InOrder(l) + [d], InOrder(r));
      SeqElementsAppend(InOrder(l), [d]);
      assert SeqElements([d]) == map[][d.key := d.value] by {
        assert [d][..0] == [];
      }
  }

  /**
   * Two subtrees with the same in-order walk store the same keys and
   * elements, and one is a search tree exactly when the other is. This is
   * what lets a rotation, which only rearranges nodes, keep the contents.
   */
  lemma SameInOrderSameContents<V>(a: Tree<V>, b: Tree<V>)
    requires InOrder(a) == InOrder(b)
    ensures Keys(a) == Keys(b)
    ensures Elements(a) == Elements(b)
    ensures IsBst(a) <==> IsBst(b)
  {
    ElementsFromInOrder(a);
    ElementsFromInOrder(b);
    ElementsKeys(a);
    ElementsKeys(b);
    BstIffAscending(a);
    BstIffAscending(b);
  }

  /** In a search tree the number of nodes is the number of distinct keys. */
  lemma {:induction false} SizeIsKeyCount<V>(t: Tree<V>)
    requires IsBst(t)
    ensures |Keys(t)| == Size(t)
  {
    match t
    case Nil =>
    case Node(d, l, r, _) =>
      SizeIsKeyCount(l);
      SizeIsKeyCount(r);
      var a := Keys(l) + {d.key};
      assert d.key !in Keys(l);
      assert |a| == |Keys(l)| + 1;
      assert a * Keys(r) == {} by {
        forall k | k in a ensures k !in Keys(r) {
          assert k <= d.key;
        }
      }
      assert |a + Keys(r)| == |a| + |Keys(r)|;
  }

  /** The stored map of a search tree has one entry per node. */
  lemma SizeIsElementCount<V>(t: Tree<V>)
    requires IsBst(t)
    ensures |Elements(t)| == Size(t)
  {
    SizeIsKeyCount(t);
    ElementsKeys(t);
    assert |Elements(t)| == |Elements(t).Keys|;
  }
}
