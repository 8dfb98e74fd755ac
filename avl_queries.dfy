/**
 * The read-only queries: membership, retrieval by key and the signed depth
 * of a key. None of them changes the tree.
 */
module AvlQueries {
  import opened AvlNodes
  import opened AvlTraversal

  datatype Option<T> = None | Some(value: T)

  /** The failure `retrieve` signals with an exception. */
  datatype AvlError = NotFound

  datatype Result<T> = Success(value: T) | Failure(error: AvlError)

  /**
   * Search by comparison from the root: stop at the node with key `k`, go
   * left for a smaller key and right for a larger one.
   */
  function Lookup<V>(t: Tree<V>, k: int): (r: Option<Entry<V>>)
    ensures r.Some? ==> r.value.key == k && k in Keys(t)
    ensures IsBst(t) ==> (r.Some? <==> k in Keys(t))
    ensures IsBst(t) && r.Some? ==> k in Elements(t) && Elements(t)[k] == r.value.value
  {
    match t
    case Nil => None
    case Node(d, l, rt, _) =>
      ElementsKeys(l);
      ElementsKeys(rt);
      if k == d.key then Some(d)
      else if k < d.key then Lookup(l, k)
      else Lookup(rt, k)
  }

  /** Whether some node holds key `k`. */
  function InTree<V>(t: Tree<V>, k: int): (b: bool)
    ensures IsBst(t) ==> (b <==> k in Keys(t))
  {
    Lookup(t, k).Some?
  }

  /** The stored element with key `k`, or NotFound when there is none. */
  function Retrieve<V>(t: Tree<V>, k: int): (r: Result<Entry<V>>)
    ensures IsBst(t) ==> (r.Success? <==> k in Keys(t))
    ensures IsBst(t) && r.Success? ==> k in Elements(t) && r.value == Entry(k, Elements(t)[k])
  {
    match Lookup(t, k)
    case Some(e) => Success(e)
    case None => Failure(NotFound)
  }

  /**
   * The number of edges from the root to the node with key `k`; when there
   * is no such node, -1 - d, where d is the depth at which the search fell
   * off the tree, which is where `k` would be attached.
   */
  function Depth<V>(t: Tree<V>, k: int): (d: int)
    ensures d >= 0 ==> k in Keys(t) && d <= Height(t)
    ensures d < 0 ==> -1 - d <= Height(t) + 1
    ensures IsBst(t) ==> (d >= 0 <==> k in Keys(t))
  {
    match t
    case Nil => -1
    case Node(e, l, rt, _) =>
      HeightRange(l);
      if k == e.key then 0
      else
        var sub := Depth(if k < e.key then l else rt, k);
        if sub >= 0 then sub + 1 else sub - 1
  }

  /**
   * Search-tree insertion without rebalancing: the entry becomes a new leaf
   * where the search for its key falls off the tree (or replaces the entry
   * with the same key). This is the "would be inserted" of the depth query.
   */
  function BstAttach<V>(t: Tree<V>, x: Entry<V>): (r: Tree<V>)
    ensures Keys(r) == Keys(t) + {x.key}
  {
    match t
    case Nil => Node(x, Nil, Nil, EH)
    case Node(d, l, rt, b) =>
      if x.key == d.key then Node(x, l, rt, b)
      else if x.key < d.key then Node(d, BstAttach(l, x), rt, b)
      else Node(d, l, BstAttach(rt, x), b)
  }

  /**
   * For an absent key the negative depth encodes the depth the key gets
   * once it is attached where the search ended.
   */
  lemma {:induction false} DepthOfAbsentKey<V>(t: Tree<V>, x: Entry<V>)
    requires x.key !in Keys(t)
    ensures Depth(t, x.key) < 0
    ensures Depth(BstAttach(t, x), x.key) == -1 - Depth(t, x.key)
  {
    match t
    case Nil =>
    case Node(d, l, rt, b) =>
      if x.key < d.key {
        DepthOfAbsentKey(l, x);
      } else {
        DepthOfAbsentKey(rt, x);
      }
  }

  /** A found entry sits on the level given by its depth. */
  lemma {:induction false} FoundAtItsDepth<V>(t: Tree<V>, k: int)
    requires Lookup(t, k).Some?
    ensures Depth(t, k) >= 0
    ensures Lookup(t, k).value in Level(t, Depth(t, k))
  {
    match t
    case Nil =>
    case Node(d, l, rt, b) =>
      if k < d.key {
        FoundAtItsDepth(l, k);
      } else if d.key < k {
        FoundAtItsDepth(rt, k);
      }
  }
}
