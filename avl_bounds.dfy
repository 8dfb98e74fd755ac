/**
 * Why the balance condition matters: a balanced tree of height h has at
 * least 2^((h + 2) / 2) - 1 nodes, so its height is logarithmic in its size
 * and every root-to-leaf search is short.
 */
module AvlBounds {
  import opened AvlNodes

  /** The fewest nodes a balanced tree of height `h` can have. */
  function MinNodes(h: int): nat
    decreases h
  {
    if h < 0 then 0 else if h == 0 then 1 else 1 + MinNodes(h - 1) + MinNodes(h - 2)
  }

  function Pow2(n: nat): nat
  {
    if n == 0 then 1 else 2 * Pow2(n - 1)
  }

  lemma {:induction false} MinNodesMonotone(a: int, b: int)
    requires a <= b
    ensures MinNodes(a) <= MinNodes(b)
    decreases b - a
  {
    if a < b {
      MinNodesMonotone(a, b - 1);
    }
  }

  /** Every balanced tree has at least MinNodes(height) nodes. */
  lemma {:induction false} AvlMinSize<V>(t: Tree<V>)
    requires IsAvl(t)
    ensures MinNodes(Height(t)) <= Size(t)
  {
    match t
    case Nil =>
    case Node(_, l, r, _) =>
      AvlMinSize(l);
      AvlMinSize(r);
      HeightRange(l);
      HeightRange(r);
      var h := Height(t);
      if Height(l) < Height(r) {
        MinNodesMonotone(h - 2, Height(l));
      } else {
        MinNodesMonotone(h - 2, Height(r));
      }
  }

  lemma {:induction false} MinNodesExponential(h: int)
    requires h >= -1
    ensures Pow2((h + 2) / 2) <= MinNodes(h) + 1
    decreases h
  {
    if h >= 1 {
      MinNodesExponential(h - 2);
      MinNodesMonotone(h - 2, h - 1);
      assert (h + 2) / 2 == h / 2 + 1;
    }
  }

  /** Height `h` is possible for `n` nodes: 2^((h + 2) / 2) <= n + 1, so h < 2 log2(n + 1) + 1. */
  predicate HeightFits(h: int, n: int)
  {
    h >= -1 && Pow2((h + 2) / 2) <= n + 1
  }

  /** A balanced tree of height h holds at least 2^((h + 2) / 2) - 1 nodes. */
  lemma AvlHeightLogarithmic<V>(t: Tree<V>)
    requires IsAvl(t)
    ensures HeightFits(Height(t), Size(t))
  {
    HeightRange(t);
    AvlMinSize(t);
    MinNodesExponential(Height(t));
  }
}
