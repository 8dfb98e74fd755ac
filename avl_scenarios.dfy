/**
 * Small worked examples, with integer keys that double as payloads. Each
 * states the exact tree an insertion or removal produces, which pins down
 * the rotations and balance factors chosen along the way.
 */
module AvlScenarios {
  import opened AvlNodes
  import opened AvlUpdate
  import opened AvlQueries

  function Leaf(k: int): Tree<int>
  {
    Node(Entry(k, k), Nil, Nil, EH)
  }

  /** Inserts key `k` with payload `k`. */
  function Add(t: Tree<int>, k: int): Tree<int>
    requires IsAvl(t) && IsBst(t)
  {
    Insert(t, Entry(k, k)).tree
  }

  /** The trees after inserting 1, 1..2, ..., 1..7 in ascending order. */
  function AscendingTree(n: nat): Tree<int>
  {
    match n
    case 1 => Leaf(1)
    case 2 => Node(Entry(1, 1), Nil, Leaf(2), RH)
    case 3 => Node(Entry(2, 2), Leaf(1), Leaf(3), EH)
    case 4 => Node(Entry(2, 2), Leaf(1), Node(Entry(3, 3), Nil, Leaf(4), RH), RH)
    case 5 => Node(Entry(2, 2), Leaf(1), Node(Entry(4, 4), Leaf(3), Leaf(5), EH), RH)
    case 6 => Node(Entry(4, 4), Node(Entry(2, 2), Leaf(1), Leaf(3), EH), Node(Entry(5, 5), Nil, Leaf(6), RH), EH)
    case 7 => Node(Entry(4, 4), Node(Entry(2, 2), Leaf(1), Leaf(3), EH), Node(Entry(6, 6), Leaf(5), Leaf(7), EH), EH)
    case _ => Nil
  }

  /*
   * Each step below states that the previous tree is a balanced search tree
   * (so that the insertion applies) and what inserting the next key gives.
   */

  lemma AscendingStep1()
    ensures Add(Nil, 1) == AscendingTree(1)
  {
  }

  lemma AscendingStep2()
    ensures IsAvl(AscendingTree(1)) && IsBst(AscendingTree(1)) && Add(AscendingTree(1), 2) == AscendingTree(2)
  {
    AscendingStep1();
  }

  /** Inserting 3 rotates left at the root. */
  lemma AscendingStep3()
    ensures IsAvl(AscendingTree(2)) && IsBst(AscendingTree(2)) && Add(AscendingTree(2), 3) == AscendingTree(3)
  {
    AscendingStep2();
  }

  /**
   * The depth reported for an absent key is where its search falls off the
   * tree, before rebalancing: 3 would be attached at depth 2 below 1 and 2,
   * but the rotation the insertion triggers lifts it to depth 1.
   */
  lemma DepthBeforeRebalancing()
    ensures Depth(AscendingTree(2), 3) == -3
    ensures Add(AscendingTree(2), 3) == AscendingTree(3) && Depth(AscendingTree(3), 3) == 1
  {
    AscendingStep3();
  }

  lemma AscendingStep4()
    ensures IsAvl(AscendingTree(3)) && IsBst(AscendingTree(3)) && Add(AscendingTree(3), 4) == AscendingTree(4)
  {
    AscendingStep3();
  }

  /** Inserting 5 rotates left at node 3. */
  lemma AscendingStep5()
    ensures IsAvl(AscendingTree(4)) && IsBst(AscendingTree(4)) && Add(AscendingTree(4), 5) == AscendingTree(5)
  {
    AscendingStep4();
  }

  /** Inserting 6 rotates left at the root. */
  lemma AscendingStep6()
    ensures IsAvl(AscendingTree(5)) && IsBst(AscendingTree(5)) && Add(AscendingTree(5), 6) == AscendingTree(6)
  {
    AscendingStep5();
  }

  /** The tree after 1..6 is a balanced search tree, since the sixth insertion produced it. */
  lemma AscendingSixValid()
    ensures IsAvl(AscendingTree(6)) && IsBst(AscendingTree(6))
  {
    AscendingStep6();
  }

  /** The part of the seventh insertion below the root: 7 goes under 5 and 6, which rotate left. */
  lemma RotationUnderFive()
    ensures var n5 := Node(Entry(5, 5), Nil, Leaf(6), RH);
      IsAvl(n5) && IsBst(n5) && Insert(n5, Entry(7, 7)).tree == Node(Entry(6, 6), Leaf(5), Leaf(7), EH) && !Insert(n5, Entry(7, 7)).taller
  {
    AscendingSixValid();
    assert AscendingTree(6).right == Node(Entry(5, 5), Nil, Leaf(6), RH);
  }

  /** Inserting 7 rotates left at node 5. */
  lemma AscendingStep7()
    ensures IsAvl(AscendingTree(6)) && IsBst(AscendingTree(6)) && Add(AscendingTree(6), 7) == AscendingTree(7)
  {
    AscendingSixValid();
    RotationUnderFive();
  }

  /** After 1..7 in ascending order: root 4, height 2, key 4 at depth 0, key 1 at depth 2. */
  lemma AscendingResult()
    ensures AscendingTree(7).data.key == 4 && Height(AscendingTree(7)) == 2
    ensures Depth(AscendingTree(7), 4) == 0 && Depth(AscendingTree(7), 1) == 2
  {
  }

  /** Key 8 is absent from the tree holding 1..7; it would be attached at depth 3. */
  lemma AscendingAbsentKey()
    ensures Depth(AscendingTree(7), 8) == -4
  {
  }

  /**
   * The trees after inserting 10, 20, 5, 4, 15 one after the other. No step
   * rotates: each only updates balance factors. The in-order walk of the
   * last tree is 4, 5, 10, 15, 20 and its height is 2.
   */
  function MixedTree(n: nat): Tree<int>
  {
    match n
    case 1 => Leaf(10)
    case 2 => Node(Entry(10, 10), Nil, Leaf(20), RH)
    case 3 => Node(Entry(10, 10), Leaf(5), Leaf(20), EH)
    case 4 => Node(Entry(10, 10), Node(Entry(5, 5), Leaf(4), Nil, LH), Leaf(20), LH)
    case 5 => Node(Entry(10, 10), Node(Entry(5, 5), Leaf(4), Nil, LH), Node(Entry(20, 20), Leaf(15), Nil, LH), EH)
    case _ => Nil
  }

  lemma MixedStep1()
    ensures Add(Nil, 10) == MixedTree(1)
  {
  }

  lemma MixedStep2()
    ensures IsAvl(MixedTree(1)) && IsBst(MixedTree(1)) && Add(MixedTree(1), 20) == MixedTree(2)
  {
    MixedStep1();
  }

  lemma MixedStep3()
    ensures IsAvl(MixedTree(2)) && IsBst(MixedTree(2)) && Add(MixedTree(2), 5) == MixedTree(3)
  {
    MixedStep2();
  }

  lemma MixedStep4()
    ensures IsAvl(MixedTree(3)) && IsBst(MixedTree(3)) && Add(MixedTree(3), 4) == MixedTree(4)
  {
    MixedStep3();
  }

  lemma MixedStep5()
    ensures IsAvl(MixedTree(4)) && IsBst(MixedTree(4)) && Add(MixedTree(4), 15) == MixedTree(5)
  {
    MixedStep4();
  }

  lemma MixedResult()
    ensures InOrder(MixedTree(5)) == [Entry(4, 4), Entry(5, 5), Entry(10, 10), Entry(15, 15), Entry(20, 20)]
    ensures Height(MixedTree(5)) == 2
  {
  }

  /**
   * Removing the root of the tree holding 5, 3 and 8 moves its in-order
   * predecessor 3 up; 3 and 8 remain, the tree turns right high and is not
   * shorter.
   */
  lemma RemoveRootOfThree()
    ensures Remove(Node(Entry(5, 5), Leaf(3), Leaf(8), EH), 5) == Removal(Node(Entry(3, 3), Nil, Leaf(8), RH), false, true)
  {
  }
}
