/**
 * The AVL tree object: the root of the node structure and the node count,
 * updated in place by `Insert` and `Remove`. The ghost field `Contents` is
 * the map from keys to payloads the tree stands for.
 */
module AvlTrees {
  import opened AvlNodes
  import AvlUpdate
  import opened AvlTraversal
  import AvlQueries
  import AvlBounds

  class AvlTree<V> {
    var root: Tree<V>
    var count: int
    ghost var Contents: map<int, V>

    /**
     * The object invariant: the nodes form a search tree whose balance
     * factors agree with the heights, `count` is the number of nodes, and
     * `Contents` is what the nodes store.
     */
    ghost predicate Valid()
      reads this
    {
      && IsBst(root) && IsAvl(root)
      && count == AvlNodes.Size(root)
      && Contents == Elements(root)
    }

    /** An empty tree. */
    constructor ()
      ensures Valid() && Contents == map[] && count == 0
    {
      root := Nil;
      count := 0;
      Contents := map[];
    }

    /** Whether the tree has no elements. */
    function IsEmpty(): (b: bool)
      reads this
      requires Valid()
      ensures b <==> Contents == map[]
    {
      AvlNodes.SizeIsElementCount(root);
      count == 0
    }

    /** Inserts `x`, or replaces the element with the same key. */
    method Insert(x: Entry<V>)
      requires Valid()
      modifies this
      ensures Valid()
      ensures root == AvlUpdate.Insert(old(root), x).tree
      ensures Contents == old(Contents)[x.key := x.value]
      ensures count == old(count) + (if x.key in old(Contents) then 0 else 1)
    {
      ElementsKeys(root);
      var present := AvlQueries.InTree(root, x.key);
      var g := AvlUpdate.Insert(root, x);
      SizeAfterInsert(root, g.tree, x.key);
      root := g.tree;
      if !present {
        count := count + 1;
      }
      Contents := Contents[x.key := x.value];
    }

    /** Removes the element with key `k`; nothing happens when there is none. */
    method Remove(k: int)
      requires Valid()
      modifies this
      ensures Valid()
      ensures root == AvlUpdate.Remove(old(root), k).tree
      ensures Contents == old(Contents) - {k}
      ensures count == old(count) - (if k in old(Contents) then 1 else 0)
    {
      ElementsKeys(root);
      var res := AvlUpdate.Remove(root, k);
      SizeAfterRemove(root, res.tree, k);
      root := res.tree;
      if res.success {
        count := count - 1;
      }
      Contents := Contents - {k};
    }

    /** Whether an element with key `k` is stored. */
    function InTree(k: int): (b: bool)
      reads this
      requires Valid()
      ensures b <==> k in Contents
    {
      ElementsKeys(root);
      AvlQueries.InTree(root, k)
    }

    /** The element with key `k`, or NotFound when there is none. */
    function Retrieve(k: int): (r: AvlQueries.Result<Entry<V>>)
      reads this
      requires Valid()
      ensures r.Success? <==> k in Contents
      ensures r.Success? ==> r.value == Entry(k, Contents[k])
    {
      ElementsKeys(root);
      AvlQueries.Retrieve(root, k)
    }

    /** The number of elements. */
    function Size(): (n: int)
      reads this
      requires Valid()
      ensures n == |Contents|
    {
      AvlNodes.SizeIsElementCount(root);
      count
    }

    /**
     * The depth of key `k`, or -1 - d when `k` is absent and would be
     * attached at depth d; non-negative exactly when `k` is stored.
     */
    function Depth(k: int): (d: int)
      reads this
      requires Valid()
      ensures d >= 0 <==> k in Contents
      ensures d <= Height() && -1 - d <= Height() + 1
    {
      ElementsKeys(root);
      AvlQueries.Depth(root, k)
    }

    /**
     * The height of the tree: -1 when it is empty, 0 for a single node. It
     * is logarithmic in the number of elements.
     */
    function Height(): (h: int)
      reads this
      requires Valid()
      ensures h >= -1 && (h == -1 <==> Contents == map[])
      ensures AvlBounds.HeightFits(h, |Contents|)
    {
      HeightOfContents(root);
      AvlNodes.Height(root)
    }

    /**
     * The elements in in-order: keys strictly ascending, one entry per
     * element, each with its payload.
     */
    function Traverse(): (s: seq<Entry<V>>)
      reads this
      requires Valid()
      ensures Ascending(s) && |s| == |Contents|
      ensures forall i :: 0 <= i < |s| ==> s[i].key in Contents && Contents[s[i].key] == s[i].value
      ensures forall k :: k in Contents ==> exists i :: 0 <= i < |s| && s[i].key == k
    {
      BstIffAscending(root);
      InOrderKeys(root);
      ElementsKeys(root);
      AvlNodes.SizeIsElementCount(root);
      InOrderPayloads(root);
      InOrder(root)
    }

    /**
     * Visits the nodes in level order with a FIFO queue of pending
     * subtrees: take the front one, visit it, queue its non-empty children.
     */
    method LevelTraverse() returns (visited: seq<Entry<V>>)
      requires Valid()
      ensures visited == LevelOrder(root)
      ensures multiset(visited) == multiset(InOrder(root)) && |visited| == count
    {
      var start: seq<Tree<V>> := if root.Node? then [root] else [];
      var queue := start;
      visited := [];
      while queue != []
        invariant forall i :: 0 <= i < |queue| ==> queue[i].Node?
        invariant visited + Bfs(queue) == Bfs(start)
        decreases ForestWeight(queue)
      {
        ghost var before, seen := queue, visited;
        var node := queue[0];
        queue := queue[1..];
        visited := visited + [node.data];
        if node.left.Node? {
          queue := queue + [node.left];
        }
        if node.right.Node? {
          queue := queue + [node.right];
        }
        assert queue == before[1..] + Kids(before[0]);
        QueueOfNodes(before, queue);
        StepWeight(before);
        WalkStep(before, seen, queue, visited, start);
      }
      assert Bfs(queue) == [];
      WalkFromRoot(root, visited);
    }
  }

  /**
   * The walk from a queue holding the root, if any, is level order, and it
   * visits every element once.
   */
  lemma WalkFromRoot<V>(t: Tree<V>, visited: seq<Entry<V>>)
    requires visited == Bfs(if t.Node? then [t] else [])
    ensures visited == LevelOrder(t)
    ensures multiset(visited) == multiset(InOrder(t)) && |visited| == AvlNodes.Size(t)
  {
    if t.Nil? {
      assert [t][1..] == [];
    }
    BfsIsLevelOrder(t);
    LevelOrderPermutesInOrder(t);
  }

  /** Only non-empty subtrees are ever queued. */
  lemma QueueOfNodes<V>(before: seq<Tree<V>>, queue: seq<Tree<V>>)
    requires before != [] && forall i :: 0 <= i < |before| ==> before[i].Node?
    requires queue == before[1..] + Kids(before[0])
    ensures forall i :: 0 <= i < |queue| ==> queue[i].Node?
  {
    forall i | 0 <= i < |queue| ensures queue[i].Node? {
      if i < |before| - 1 {
        assert queue[i] == before[i + 1];
      }
    }
  }

  /**
   * One round of the level-order loop keeps its invariant: the front node
   * was visited and its non-empty children, left before right, were queued.
   */
  lemma WalkStep<V>(before: seq<Tree<V>>, seen: seq<Entry<V>>, queue: seq<Tree<V>>, visited: seq<Entry<V>>, start: seq<Tree<V>>)
    requires before != [] && before[0].Node?
    requires seen + Bfs(before) == Bfs(start)
    requires visited == seen + [before[0].data]
    requires queue == before[1..] + Kids(before[0])
    ensures visited + Bfs(queue) == Bfs(start)
  {
    BfsFront(before, queue);
    Regroup(seen, before[0].data, Bfs(queue));
  }

  /**
   * Regrouping a concatenation; stated on its own because, inside WalkStep,
   * the sequence axioms about Bfs make the same step far more expensive.
   */
  lemma Regroup<T>(a: seq<T>, x: T, b: seq<T>)
    ensures (a + [x]) + b == a + ([x] + b)
  {
  }

  /** The node count after an insertion, from the keys before and after. */
  lemma SizeAfterInsert<V>(t: Tree<V>, r: Tree<V>, k: int)
    requires IsBst(t) && IsBst(r) && Keys(r) == Keys(t) + {k}
    ensures AvlNodes.Size(r) == AvlNodes.Size(t) + (if k in Keys(t) then 0 else 1)
  {
    SizeIsKeyCount(t);
    SizeIsKeyCount(r);
  }

  /** The node count after a removal, from the keys before and after. */
  lemma SizeAfterRemove<V>(t: Tree<V>, r: Tree<V>, k: int)
    requires IsBst(t) && IsBst(r) && Keys(r) == Keys(t) - {k}
    ensures AvlNodes.Size(r) == AvlNodes.Size(t) - (if k in Keys(t) then 1 else 0)
  {
    SizeIsKeyCount(t);
    SizeIsKeyCount(r);
  }

  /** The height of a balanced search tree in terms of what it stores. */
  lemma HeightOfContents<V>(t: Tree<V>)
    requires IsBst(t) && IsAvl(t)
    ensures AvlNodes.Height(t) >= -1 && (AvlNodes.Height(t) == -1 <==> Elements(t) == map[])
    ensures AvlBounds.HeightFits(AvlNodes.Height(t), |Elements(t)|)
  {
    HeightRange(t);
    AvlBounds.AvlHeightLogarithmic(t);
    AvlNodes.SizeIsElementCount(t);
    if t.Node? {
      ElementsKeys(t);
      assert t.data.key in Elements(t);
    }
  }

  /** Each entry of a search tree's in-order walk is what the tree stores under its key. */
  lemma {:induction false} InOrderPayloads<V>(t: Tree<V>)
    requires IsBst(t)
    ensures forall i :: 0 <= i < |InOrder(t)| ==> InOrder(t)[i].key in Elements(t) && Elements(t)[InOrder(t)[i].key] == InOrder(t)[i].value
  {
    match t
    case Nil =>
    case Node(d, l, r, _) =>
      InOrderPayloads(l);
      InOrderPayloads(r);
      InOrderKeys(l);
      InOrderKeys(r);
      ElementsKeys(l);
      ElementsKeys(r);
      var s := InOrder(t);
      forall i | 0 <= i < |s|
        ensures s[i].key in Elements(t) && Elements(t)[s[i].key] == s[i].value
      {
        var nl := |InOrder(l)|;
        if i < nl {
          assert s[i] == InOrder(l)[i];
          assert s[i].key < d.key;
        } else if i == nl {
          assert s[i] == d;
        } else {
          assert s[i] == InOrder(r)[i - nl - 1];
        }
      }
  }
}
