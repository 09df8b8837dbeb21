/** The order in which ABTreeIterator and successor visit the nodes: on a
    tree whose parent links are consistent, both step from each node to the
    next one of the in-order sequence. */
module Iteration {
  import opened Trees
  import opened Arena
  import opened Removal

  /** A node's two child links never name the same node of a tree without
      repeated identities. */
  lemma {:induction false} ChildrenDiffer(ns: seq<NodeRec>, j: int)
    requires Wf(ns) && 0 <= j < |ns| && Distinct(Sub(ns, j)) && ns[j].left != -1
    ensures ns[j].left != ns[j].right
  {
    assert ns[j].left in Ids(Sub(ns, ns[j].left));
  }

  /** Walking the subtree of `j` (whose top hangs below `q`): the walk
      starts at the leftmost node, each node's successor is the next node
      in order, and the last node's successor is where the climb from `j`
      ends. */
  lemma {:induction false} SuccessorWalk(ns: seq<NodeRec>, j: int, q: int)
    requires Wf(ns) && 0 <= j < |ns| && ParentsOk(ns, Sub(ns, j), q) && Distinct(Sub(ns, j))
    ensures var L := Inorder(Sub(ns, j));
      && |L| > 0 && L[0] == LeftMost(ns, j)
      && (forall i :: 0 <= i < |L| ==> 0 <= L[i] < |ns|)
      && IterSuccessor(ns, L[|L| - 1]) == IterClimb(ns, j)
      && (forall i :: 0 <= i < |L| - 1 ==> IterSuccessor(ns, L[i]) == L[i + 1])
    decreases |ns| - j
  {
    var l, r := ns[j].left, ns[j].right;
    var Ll, Lr := Inorder(Sub(ns, l)), Inorder(Sub(ns, r));
    var L := Inorder(Sub(ns, j));
    assert L == Ll + [j] + Lr;
    if l != -1 {
      SuccessorWalk(ns, l, j);
      ChildrenDiffer(ns, j);
    }
    if r != -1 {
      SuccessorWalk(ns, r, j);
      if l != -1 {
        ChildrenDiffer(ns, j);
      }
      assert IterClimb(ns, r) == IterClimb(ns, j);
    }
    forall i | 0 <= i < |L| - 1
      ensures IterSuccessor(ns, L[i]) == L[i + 1]
    {
      if i < |Ll| - 1 {
        assert L[i] == Ll[i] && L[i + 1] == Ll[i + 1];
      } else if i == |Ll| - 1 {
        assert L[i] == Ll[|Ll| - 1] && L[i + 1] == j;
      } else if i == |Ll| {
        assert L[i] == j && L[i + 1] == Lr[0];
      } else {
        assert L[i] == Lr[i - |Ll| - 1] && L[i + 1] == Lr[i - |Ll|];
      }
    }
  }

  /** The whole tree: the iterator starts at the leftmost node, visits the
      in-order sequence one node per step, and ends (null) after the
      last. */
  lemma {:induction false} IterationOrder(ns: seq<NodeRec>, root: int)
    requires Wf(ns) && 0 <= root < |ns| && ParentsOk(ns, Sub(ns, root), -1) && Distinct(Sub(ns, root))
    ensures var L := Inorder(Sub(ns, root));
      && |L| > 0 && L[0] == LeftMost(ns, root)
      && (forall i :: 0 <= i < |L| ==> 0 <= L[i] < |ns|)
      && IterSuccessor(ns, L[|L| - 1]) == -1
      && (forall i :: 0 <= i < |L| - 1 ==> IterSuccessor(ns, L[i]) == L[i + 1])
  {
    SuccessorWalk(ns, root, -1);
  }

  /** successor's climb (while coming from a right child) and the
      iterator's (until coming from a left child) stop at the same node when
      every node hangs on exactly one side of its parent. */
  lemma {:induction false} ClimbsAgree(ns: seq<NodeRec>, root: int, x: int)
    requires Wf(ns) && 0 <= root < |ns| && ParentsOk(ns, Sub(ns, root), -1) && Distinct(Sub(ns, root))
    requires 0 <= x < |ns| && x in Ids(Sub(ns, root))
    ensures Climb(ns, x) == IterClimb(ns, x)
    decreases x
  {
    ParentHolds(ns, root, -1, x);
    if x != root {
      var p := ns[x].parent;
      SubtreeAtArena(ns, root, p);
      SubtreeAtIn(Sub(ns, root), p);
      if ns[p].left != -1 {
        ChildrenDiffer(ns, p);
      }
      if ns[p].left != x {
        ClimbsAgree(ns, root, p);
      }
    }
  }

  /** successor(n) is the node after n in order, and null for the last
      node, exactly as the iterator steps. */
  lemma {:induction false} SuccessorIsNext(ns: seq<NodeRec>, root: int, i: int)
    requires Wf(ns) && 0 <= root < |ns| && ParentsOk(ns, Sub(ns, root), -1) && Distinct(Sub(ns, root))
    requires 0 <= i < |Inorder(Sub(ns, root))|
    ensures var L := Inorder(Sub(ns, root));
      && 0 <= L[i] < |ns|
      && Successor(ns, L[i]) == IterSuccessor(ns, L[i])
      && Successor(ns, L[i]) == if i + 1 < |L| then L[i + 1] else -1
  {
    var L := Inorder(Sub(ns, root));
    IterationOrder(ns, root);
    InorderShape(Sub(ns, root));
    assert L[i] in L;
    ClimbsAgree(ns, root, L[i]);
  }
}
