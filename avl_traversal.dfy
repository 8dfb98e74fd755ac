/**
 * The two visiting orders of the tree. The in-order walk is InOrder from
 * AvlNodes. Level order is specified level by level (`Level`, `LevelOrder`)
 * and, separately, by what the queue-driven walk emits step by step (`Bfs`);
 * the two are proved equal, and level order is proved to be a permutation
 * of the in-order walk.
 */
module AvlTraversal {
  import opened AvlNodes

  /** The entries at depth `k` of a subtree, from left to right. */
  function Level<V>(t: Tree<V>, k: nat): seq<Entry<V>>
  {
    match t
    case Nil => []
    case Node(d, l, r, _) => if k == 0 then [d] else Level(l, k - 1) + Level(r, k - 1)
  }

  /** Levels `k`, `k + 1`, ... of a subtree up to its height, one after the other. */
  function Levels<V>(t: Tree<V>, k: nat): seq<Entry<V>>
    decreases Height(t) + 1 - k
  {
    if k > Height(t) then [] else Level(t, k) + Levels(t, k + 1)
  }

  /** Level order: the root, then depth 1 from left to right, then depth 2, and so on. */
  function LevelOrder<V>(t: Tree<V>): seq<Entry<V>>
  {
    Levels(t, 0)
  }

  /** A subtree has no entries below its height. */
  lemma {:induction false} LevelBeyondHeight<V>(t: Tree<V>, k: nat)
    requires k > Height(t)
    ensures Level(t, k) == []
  {
    match t
    case Nil =>
    case Node(d, l, r, _) =>
      HeightRange(t);
      LevelBeyondHeight(l, k - 1);
      LevelBeyondHeight(r, k - 1);
  }

  // ---------------------------------------------------------------------
  // Forests: the contents of the pending queue.

  /** The non-empty children of a subtree, left before right. */
  function Kids<V>(t: Tree<V>): seq<Tree<V>>
  {
    match t
    case Nil => []
    case Node(_, l, r, _) => (if l.Node? then [l] else []) + (if r.Node? then [r] else [])
  }

  /** The non-empty children of every tree of a forest, in order. */
  function Children<V>(f: seq<Tree<V>>): seq<Tree<V>>
  {
    if f == [] then [] else Kids(f[0]) + Children(f[1..])
  }

  /** The root entries of the non-empty trees of a forest, in order. */
  function Roots<V>(f: seq<Tree<V>>): seq<Entry<V>>
  {
    if f == [] then [] else (if f[0].Node? then [f[0].data] else []) + Roots(f[1..])
  }

  /** Level `k` of every tree of a forest, one after the other. */
  function ForestLevel<V>(f: seq<Tree<V>>, k: nat): seq<Entry<V>>
  {
    if f == [] then [] else Level(f[0], k) + ForestLevel(f[1..], k)
  }

  /** Levels `k` to `h` of a forest, level by level. */
  function ForestLevels<V>(f: seq<Tree<V>>, k: nat, h: int): seq<Entry<V>>
    decreases h + 1 - k
  {
    if k > h then [] else ForestLevel(f, k) + ForestLevels(f, k + 1, h)
  }

  /** A measure that drops each time the walk takes a tree off the queue. */
  function Weight<V>(t: Tree<V>): nat
  {
    if t.Nil? then 1 else Size(t)
  }

  function ForestWeight<V>(f: seq<Tree<V>>): nat
  {
    if f == [] then 0 else Weight(f[0]) + ForestWeight(f[1..])
  }

  /** The multiset of entries stored in a forest. */
  ghost function ForestBag<V>(f: seq<Tree<V>>): multiset<Entry<V>>
  {
    if f == [] then multiset{} else multiset(InOrder(f[0])) + ForestBag(f[1..])
  }

  lemma {:induction false} ForestWeightAppend<V>(a: seq<Tree<V>>, b: seq<Tree<V>>)
    ensures ForestWeight(a + b) == ForestWeight(a) + ForestWeight(b)
    decreases |a|
  {
    if a == [] {
      assert a + b == b;
    } else {
      assert (a + b)[1..] == a[1..] + b;
      ForestWeightAppend(a[1..], b);
    }
  }

  /** Taking a tree off the queue and putting its children on it lowers the weight. */
  lemma StepWeight<V>(f: seq<Tree<V>>)
    requires f != []
    ensures ForestWeight(f[1..] + Kids(f[0])) < ForestWeight(f)
  {
    ForestWeightAppend(f[1..], Kids(f[0]));
    var t := f[0];
    if t.Node? {
      var l, r := t.left, t.right;
      var kl: seq<Tree<V>> := if l.Node? then [l] else [];
      var kr: seq<Tree<V>> := if r.Node? then [r] else [];
      ForestWeightAppend(kl, kr);
      assert ForestWeight(kl) <= Size(l);
      assert ForestWeight(kr) <= Size(r);
    }
  }

  /**
   * What the queue-driven walk emits from a queue `f`: it takes the front
   * tree off the queue, visits its root and puts its non-empty children at
   * the back, until the queue is empty. Empty trees are skipped.
   */
  function Bfs<V>(f: seq<Tree<V>>): seq<Entry<V>>
    decreases ForestWeight(f)
  {
    if f == [] then []
    else
      StepWeight(f);
      match f[0]
      case Nil => Bfs(f[1..])
      case Node(d, _, _, _) => [d] + Bfs(f[1..] + Kids(f[0]))
  }

  /** One step of the walk. */
  lemma BfsStep<V>(f: seq<Tree<V>>)
    requires f != []
    ensures Bfs(f) == if f[0].Nil? then Bfs(f[1..]) else [f[0].data] + Bfs(f[1..] + Kids(f[0]))
  {
  }

  /** Visiting the front node and queueing its children. */
  lemma BfsFront<V>(f: seq<Tree<V>>, next: seq<Tree<V>>)
    requires f != [] && f[0].Node? && next == f[1..] + Kids(f[0])
    ensures Bfs(f) == [f[0].data] + Bfs(next)
  {
    BfsStep(f);
  }

  // ---------------------------------------------------------------------
  // Bfs takes the forest apart level by level.

  /** Walking a queue `f + g`: first the roots of `f`, then `g` followed by the children of `f`. */
  lemma {:induction false} BfsSplit<V>(f: seq<Tree<V>>, g: seq<Tree<V>>)
    ensures Bfs(f + g) == Roots(f) + Bfs(g + Children(f))
    decreases |f|
  {
    if f == [] {
      assert f + g == g && g + Children(f) == g;
    } else {
      var t, rest := f[0], f[1..];
      assert (f + g)[0] == t && (f + g)[1..] == rest + g;
      assert Children(f) == Kids(t) + Children(rest);
      BfsStep(f + g);
      if t.Nil? {
        BfsSplit(rest, g);
        assert Roots(f) == Roots(rest) && Children(f) == Children(rest);
      } else {
        var g' := g + Kids(t);
        assert Roots(f) == [t.data] + Roots(rest);
        BfsSplit(rest, g');
        assert rest + g + Kids(t) == rest + g';
        assert g' + Children(rest) == g + Children(f);
      }
    }
  }

  lemma {:induction false} ForestLevelAppend<V>(a: seq<Tree<V>>, b: seq<Tree<V>>, k: nat)
    ensures ForestLevel(a + b, k) == ForestLevel(a, k) + ForestLevel(b, k)
    decreases |a|
  {
    if a == [] {
      assert a + b == b;
    } else {
      assert (a + b)[1..] == a[1..] + b;
      ForestLevelAppend(a[1..], b, k);
    }
  }

  /** Level 0 of a forest is its list of roots. */
  lemma {:induction false} ForestLevelZero<V>(f: seq<Tree<V>>)
    ensures ForestLevel(f, 0) == Roots(f)
    decreases |f|
  {
    if f != [] {
      ForestLevelZero(f[1..]);
    }
  }

  /** Level `k + 1` of a forest is level `k` of its children. */
  lemma {:induction false} ForestLevelNext<V>(f: seq<Tree<V>>, k: nat)
    ensures ForestLevel(f, k + 1) == ForestLevel(Children(f), k)
    decreases |f|
  {
    if f != [] {
      ForestLevelNext(f[1..], k);
      ForestLevelAppend(Kids(f[0]), Children(f[1..]), k);
      match f[0]
      case Nil =>
      case Node(_, l, r, _) =>
        var kl: seq<Tree<V>> := if l.Node? then [l] else [];
        var kr: seq<Tree<V>> := if r.Node? then [r] else [];
        ForestLevelAppend(kl, kr, k);
        assert ForestLevel(kl, k) == Level(l, k);
        assert ForestLevel(kr, k) == Level(r, k);
    }
  }

  lemma {:induction false} ForestLevelsNext<V>(f: seq<Tree<V>>, k: nat, h: int)
    ensures ForestLevels(f, k + 1, h + 1) == ForestLevels(Children(f), k, h)
    decreases h + 1 - k
  {
    if k <= h {
      ForestLevelNext(f, k);
      ForestLevelsNext(f, k + 1, h);
    }
  }

  /** Every tree of the forest is at most `h` high. */
  ghost predicate Bounded<V>(f: seq<Tree<V>>, h: int)
  {
    forall i :: 0 <= i < |f| ==> Height(f[i]) <= h
  }

  lemma {:induction false} ChildrenBounded<V>(f: seq<Tree<V>>, h: int)
    requires Bounded(f, h)
    ensures Bounded(Children(f), h - 1)
    decreases |f|
  {
    if f != [] {
      assert Bounded(f[1..], h) by {
        forall i | 0 <= i < |f[1..]| ensures Height(f[1..][i]) <= h {
          assert f[1..][i] == f[i + 1];
        }
      }
      ChildrenBounded(f[1..], h);
      var a, b := Kids(f[0]), Children(f[1..]);
      assert Bounded(a, h - 1);
      forall i | 0 <= i < |a + b| ensures Height((a + b)[i]) <= h - 1 {
        if i < |a| {
          assert (a + b)[i] == a[i];
        } else {
          assert (a + b)[i] == b[i - |a|];
        }
      }
    }
  }

  lemma {:induction false} ForestLevelBeyond<V>(f: seq<Tree<V>>, k: nat, h: int)
    requires Bounded(f, h) && k > h
    ensures ForestLevel(f, k) == []
    decreases |f|
  {
    if f != [] {
      LevelBeyondHeight(f[0], k);
      assert Bounded(f[1..], h) by {
        forall i | 0 <= i < |f[1..]| ensures Height(f[1..][i]) <= h {
          assert f[1..][i] == f[i + 1];
        }
      }
      ForestLevelBeyond(f[1..], k, h);
    }
  }

  /** No tree is lower than -1, so a forest bounded by -2 is empty. */
  lemma EmptyBelowMinusOne<V>(f: seq<Tree<V>>, h: int)
    ensures Bounded(f, h) && h < -1 ==> f == []
  {
    if f != [] {
      HeightRange(f[0]);
    }
  }

  /** The queue-driven walk emits the forest level by level. */
  lemma {:induction false} BfsIsForestLevels<V>(f: seq<Tree<V>>, h: int)
    requires Bounded(f, h) && h >= -1
    ensures Bfs(f) == ForestLevels(f, 0, h)
    decreases h + 1
  {
    BfsSplit(f, []);
    assert f + [] == f && [] + Children(f) == Children(f);
    ForestLevelZero(f);
    ChildrenBounded(f, h);
    if h == -1 {
      EmptyBelowMinusOne(Children(f), h - 1);
      ForestLevelBeyond(f, 0, h);
    } else {
      BfsIsForestLevels(Children(f), h - 1);
      ForestLevelsNext(f, 0, h - 1);
    }
  }

  lemma {:induction false} SingletonLevels<V>(t: Tree<V>, k: nat, h: int)
    requires Height(t) <= h
    ensures ForestLevels([t], k, h) == Levels(t, k)
    decreases h + 1 - k
  {
    if k <= h {
      SingletonLevels(t, k + 1, h);
      assert ForestLevel([t], k) == Level(t, k) by {
        assert [t][1..] == [];
      }
      if k > Height(t) {
        LevelBeyondHeight(t, k);
      }
    }
  }

  /** Walking the queue that starts with the root alone gives level order. */
  lemma BfsIsLevelOrder<V>(t: Tree<V>)
    ensures Bfs([t]) == LevelOrder(t)
  {
    HeightRange(t);
    BfsIsForestLevels([t], Height(t));
    SingletonLevels(t, 0, Height(t));
  }

  // ---------------------------------------------------------------------
  // Level order visits every entry exactly once.

  lemma {:induction false} ForestBagAppend<V>(a: seq<Tree<V>>, b: seq<Tree<V>>)
    ensures ForestBag(a + b) == ForestBag(a) + ForestBag(b)
    decreases |a|
  {
    if a == [] {
      assert a + b == b;
    } else {
      assert (a + b)[1..] == a[1..] + b;
      ForestBagAppend(a[1..], b);
    }
  }

  /** A node's entry together with those of its non-empty children make up the node's entries. */
  lemma KidsBag<V>(t: Tree<V>)
    requires t.Node?
    ensures multiset{t.data} + ForestBag(Kids(t)) == multiset(InOrder(t))
  {
    var l, r := t.left, t.right;
    var kl: seq<Tree<V>> := if l.Node? then [l] else [];
    var kr: seq<Tree<V>> := if r.Node? then [r] else [];
    assert Kids(t) == kl + kr;
    ForestBagAppend(kl, kr);
    OneTreeBag(l);
    OneTreeBag(r);
    assert InOrder(t) == InOrder(l) + [t.data] + InOrder(r);
  }

  lemma OneTreeBag<V>(t: Tree<V>)
    ensures ForestBag(if t.Node? then [t] else []) == multiset(InOrder(t))
  {
    if t.Node? {
      assert [t][1..] == [];
    }
  }

  lemma {:induction false} BfsBag<V>(f: seq<Tree<V>>)
    ensures multiset(Bfs(f)) == ForestBag(f)
    decreases ForestWeight(f)
  {
    if f != [] {
      StepWeight(f);
      BfsStep(f);
      if f[0].Nil? {
        BfsBag(f[1..]);
      } else {
        BfsBag(f[1..] + Kids(f[0]));
        ForestBagAppend(f[1..], Kids(f[0]));
        KidsBag(f[0]);
      }
    }
  }

  /**
   * Level order is a rearrangement of the in-order walk: every entry is
   * visited once, so a tree of `Size(t)` nodes yields `Size(t)` visits.
   */
  lemma LevelOrderPermutesInOrder<V>(t: Tree<V>)
    ensures multiset(LevelOrder(t)) == multiset(InOrder(t))
    ensures |LevelOrder(t)| == Size(t)
  {
    BfsIsLevelOrder(t);
    BfsBag([t]);
    assert ForestBag([t]) == multiset(InOrder(t)) by {
      assert [t][1..] == [];
    }
    InOrderKeys(t);
    assert |multiset(LevelOrder(t))| == |multiset(InOrder(t))|;
  }
}
