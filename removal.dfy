/** What unlinkNode does to the node store, case by case, exactly as written:
    a leaf is cut from its parent, a node with one child is bypassed (with
    the faults of the one-child branches reproduced), and a node with two
    children takes its successor's element before the successor is unlinked.
    Every branch ends with updateCount on the parent walk. */
module Removal {
  import opened Trees
  import opened Arena
  import opened Insertion

  /** unlinkNode's test for "n is its parent's left child": the parent has a
      left child whose element equals n's. */
  predicate LeftChild(ns: seq<NodeRec>, n: int)
    requires Wf(ns) && 0 <= n < |ns|
  {
    var p := ns[n].parent;
    p != -1 && ns[p].left != -1 && ns[ns[p].left].data == ns[n].data
  }

  /** The store unlinkNode leaves, and whether it stopped with a
      NullPointerException (the store is then the one at the throw). */
  datatype Unlinked = Unlinked(ns: seq<NodeRec>, npe: bool)

  /** A leaf: the parent's slot is cleared (the right one unless the leaf is
      taken for the left child), so a parentless leaf dereferences null. */
  function UnlinkLeaf(ns: seq<NodeRec>, n: int): (u: Unlinked)
    requires Wf(ns) && 0 <= n < |ns| && ns[n].left == -1 && ns[n].right == -1
    ensures |u.ns| == |ns| && Wf(u.ns)
  {
    var p := ns[n].parent;
    if p == -1 then Unlinked(ns, true)
    else
      var ns1 := if LeftChild(ns, n) then SetLeft(ns, p, -1) else SetRight(ns, p, -1);
      var ns2 := RecountWalk(ns1, p);
      Unlinked(SetParent(ns2, n, -1), false)
  }

  /** Only a left child: a left child is replaced by it, but a right child
      is replaced by n's right link, which is null; the left child then takes
      n's parent. A parentless node dereferences null. */
  function UnlinkLeftOnly(ns: seq<NodeRec>, n: int): (u: Unlinked)
    requires Wf(ns) && 0 <= n < |ns| && ns[n].left != -1 && ns[n].right == -1
    ensures |u.ns| == |ns| && Wf(u.ns)
  {
    var p, l := ns[n].parent, ns[n].left;
    if !LeftChild(ns, n) && p == -1 then Unlinked(ns, true)
    else
      var ns1 := if LeftChild(ns, n) then SetLeft(ns, p, l) else SetRight(ns, p, ns[n].right);
      var ns2 := SetParent(ns1, l, p);
      var ns3 := RecountWalk(ns2, p);
      Unlinked(SetLeft(SetParent(ns3, n, -1), n, -1), false)
  }

  /** Only a right child: a left child is replaced by it without its parent
      link being fixed; for a right child (or the root) only the child's
      parent link moves and the parent keeps pointing at n. */
  function UnlinkRightOnly(ns: seq<NodeRec>, n: int): (u: Unlinked)
    requires Wf(ns) && 0 <= n < |ns| && ns[n].left == -1 && ns[n].right != -1
    ensures |u.ns| == |ns| && Wf(u.ns)
  {
    var p, r := ns[n].parent, ns[n].right;
    var ns1 := if LeftChild(ns, n) then SetLeft(ns, p, r) else SetParent(ns, r, p);
    var ns2 := RecountWalk(ns1, p);
    Unlinked(SetParent(SetRight(ns2, n, -1), n, -1), false)
  }

  /** unlinkNode(n). With two children, n takes the element of its
      successor, the leftmost node of its right subtree, which has no left
      child and is unlinked in turn. */
  function Unlink(ns: seq<NodeRec>, n: int): (u: Unlinked)
    requires Wf(ns) && 0 <= n < |ns|
    ensures |u.ns| == |ns| && Wf(u.ns)
    decreases if ns[n].left != -1 && ns[n].right != -1 then 1 else 0
  {
    var l, r := ns[n].left, ns[n].right;
    if l == -1 && r == -1 then UnlinkLeaf(ns, n)
    else if r == -1 then UnlinkLeftOnly(ns, n)
    else if l == -1 then UnlinkRightOnly(ns, n)
    else
      var s := Successor(ns, n);
      Unlink(SetData(ns, n, ns[s].data), s)
  }

  // ---------------------------------------------------------------------
  // Where a node hangs in an exact tree

  /** The pure subtree at a stored node is the stored subtree from it. */
  lemma {:induction false} SubtreeAtArena(ns: seq<NodeRec>, j: int, m: int)
    requires Wf(ns) && Ref(ns, j) && 0 <= m < |ns| && m in Ids(Sub(ns, j))
    ensures SubtreeAt(Sub(ns, j), m) == Sub(ns, m)
    decreases |ns| - j
  {
    if j != m {
      if m in Ids(Sub(ns, ns[j].left)) {
        SubtreeAtArena(ns, ns[j].left, m);
      } else {
        SubtreeAtArena(ns, ns[j].right, m);
      }
    }
  }

  /** With consistent parent links, a node other than the top one hangs
      below its `parent`, on one of the parent's sides. */
  lemma {:induction false} ParentHolds(ns: seq<NodeRec>, j: int, q: int, n: int)
    requires Wf(ns) && Ref(ns, j) && ParentsOk(ns, Sub(ns, j), q)
    requires 0 <= n < |ns| && n in Ids(Sub(ns, j))
    ensures n == j ==> ns[n].parent == q
    ensures n != j ==>
      var p := ns[n].parent;
      0 <= p < |ns| && p in Ids(Sub(ns, j)) && (ns[p].left == n || ns[p].right == n)
    decreases |ns| - j
  {
    var l, r := ns[j].left, ns[j].right;
    if n != j {
      if n in Ids(Sub(ns, l)) {
        ParentHolds(ns, l, j, n);
      } else {
        ParentHolds(ns, r, j, n);
      }
    }
  }

  /** In an exact tree unlinkNode's left-child test is right: a node other
      than the root is its parent's left child exactly when the test says so,
      and the subtree on that side of the parent is the node's own. */
  lemma {:induction false} SideOf(ns: seq<NodeRec>, root: int, n: int)
    requires Wf(ns) && 0 <= root < |ns| && Exact(ns, root, -1)
    requires 0 <= n < |ns| && n in Ids(Sub(ns, root)) && n != root
    ensures var p := ns[n].parent;
      && 0 <= p < n && p in Ids(Sub(ns, root))
      && (ns[p].left == n || ns[p].right == n)
      && (LeftChild(ns, n) <==> ns[p].left == n)
      && ChildOf(Sub(ns, root), p, ns[p].left == n) == Sub(ns, n)
  {
    var t := Sub(ns, root);
    ParentHolds(ns, root, -1, n);
    var p := ns[n].parent;
    SubtreeAtArena(ns, root, p);
    SubtreeAtIn(t, p);
    var l := ns[p].left;
    if ns[p].left != n && l != -1 {
      assert ns[l].data in Keys(Sub(ns, l));
      assert ns[n].data in Keys(Sub(ns, n));
      BSTSplit(Sub(ns, p));
    }
  }

  /** Replacing a child by a subtree whose top names the same parent keeps
      the parent links consistent, when the links outside the replaced child
      are as they were. */
  lemma {:induction false} ParentsSetChild(ns: seq<NodeRec>, ns2: seq<NodeRec>, t: Tree, q: int, p: int, isLeft: bool, u: Tree)
    requires ParentsOk(ns, t, q) && Distinct(t) && p in Ids(t) && ParentsOk(ns2, u, p) && |ns| <= |ns2|
    requires forall m :: m in Ids(t) - Ids(ChildOf(t, p, isLeft)) && 0 <= m < |ns| ==> ns2[m].parent == ns[m].parent
    ensures ParentsOk(ns2, SetChild(t, p, isLeft, u), q)
  {
    var Node(l, i, k, r) := t;
    ChildOfIn(t, p, isLeft);
    if i == p {
      if isLeft {
        ParentsFrame(ns, ns2, r, i);
      } else {
        ParentsFrame(ns, ns2, l, i);
      }
    } else {
      ChildOfStep(t, p, isLeft);
      if p in Ids(l) {
        ChildOfIn(l, p, isLeft);
        ParentsSetChild(ns, ns2, l, i, p, isLeft, u);
        SetChildAbsent(r, p, isLeft, u);
        ParentsFrame(ns, ns2, r, i);
      } else {
        ChildOfIn(r, p, isLeft);
        ParentsSetChild(ns, ns2, r, i, p, isLeft, u);
        SetChildAbsent(l, p, isLeft, u);
        ParentsFrame(ns, ns2, l, i);
      }
    }
  }

  /** The subtree below a node of a consistent tree is consistent, with
      that node as the parent of its top. */
  lemma {:induction false} ParentsOfChild(ns: seq<NodeRec>, t: Tree, q: int, x: int, isLeft: bool)
    requires ParentsOk(ns, t, q) && x in Ids(t)
    ensures ParentsOk(ns, ChildOf(t, x, isLeft), x)
  {
    var Node(l, i, k, r) := t;
    if i != x {
      ChildOfStep(t, x, isLeft);
      if x in Ids(l) {
        ParentsOfChild(ns, l, i, x, isLeft);
      } else {
        ParentsOfChild(ns, r, i, x, isLeft);
      }
    }
  }

  /** Re-pointing the parent link of a subtree's top keeps the subtree
      consistent below the new parent. */
  lemma {:induction false} ParentsReroot(ns: seq<NodeRec>, ns2: seq<NodeRec>, t: Tree, q: int, q2: int)
    requires ParentsOk(ns, t, q) && t != Empty && Distinct(t) && |ns| <= |ns2|
    requires ns2[t.id].parent == q2
    requires forall m :: m in Ids(t) && m != t.id && 0 <= m < |ns| ==> ns2[m].parent == ns[m].parent
    ensures ParentsOk(ns2, t, q2)
  {
    ParentsFrame(ns, ns2, t.left, t.id);
    ParentsFrame(ns, ns2, t.right, t.id);
  }

  /** Set algebra: taking a node and its one subtree out and putting the
      subtree back takes out the node alone. */
  lemma {:induction false} RemoveTop(A: set<int>, L: set<int>, x: int)
    requires L <= A && x !in L
    ensures (A - (L + {x})) + L == A - {x}
    ensures (A - ({} + {x} + L)) + L == A - {x}
  {
  }

  /** A node of the tree whose parent link names a node outside it breaks
      link consistency. */
  lemma {:induction false} DanglingParent(ns: seq<NodeRec>, root: int, m: int, x: int)
    requires Wf(ns) && 0 <= root < |ns| && 0 <= m < |ns| && m != root
    requires m in Ids(Sub(ns, root)) && ns[m].parent == x && x !in Ids(Sub(ns, root))
    ensures !ParentsOk(ns, Sub(ns, root), -1)
  {
    if ParentsOk(ns, Sub(ns, root), -1) {
      ParentHolds(ns, root, -1, m);
    }
  }

  // ---------------------------------------------------------------------
  // unlinkNode on an exact tree, case by case

  /** Replacing the child `c` of `p` in an exact tree by a search tree `u`
      built from some of `c`'s nodes: the keys and identities of `c` leave,
      those of `u` arrive, and order and distinct identities survive. */
  lemma {:induction false} ReplaceFacts(t: Tree, p: int, isLeft: bool, u: Tree)
    requires BST(t) && Distinct(t) && p in Ids(t)
    requires BST(u) && Distinct(u)
    requires Keys(u) <= Keys(ChildOf(t, p, isLeft)) && Ids(u) <= Ids(ChildOf(t, p, isLeft))
    ensures var t2 := SetChild(t, p, isLeft, u);
      && Keys(t2) == (Keys(t) - Keys(ChildOf(t, p, isLeft))) + Keys(u)
      && Ids(t2) == (Ids(t) - Ids(ChildOf(t, p, isLeft))) + Ids(u)
      && BST(t2) && Distinct(t2)
  {
    SetChildKeys(t, p, isLeft, u);
    SetChildIds(t, p, isLeft, u);
    SetChildBST(t, p, isLeft, u);
    SetChildDistinct(t, p, isLeft, u);
  }

  /** The leaf case on the store: the slot is cleared, and only the leaf's
      own parent link changes. */
  lemma {:induction false} UnlinkLeafStore(ns: seq<NodeRec>, root: int, n: int)
    requires Wf(ns) && 0 <= root < |ns| && Exact(ns, root, -1)
    requires 0 <= n < |ns| && n in Ids(Sub(ns, root)) && n != root
    requires ns[n].left == -1 && ns[n].right == -1
    ensures var u := Unlink(ns, n);
      var p := ns[n].parent;
      && 0 <= p < |ns| && !u.npe
      && Sub(u.ns, root) == SetChild(Sub(ns, root), p, ns[p].left == n, Empty)
      && (forall m :: 0 <= m < |ns| && m != n ==> u.ns[m].parent == ns[m].parent)
  {
    SideOf(ns, root, n);
    var p := ns[n].parent;
    var isLeft := ns[p].left == n;
    var ns1 := if isLeft then SetLeft(ns, p, -1) else SetRight(ns, p, -1);
    var w := RecountWalk(ns1, p);
    var fin := SetParent(w, n, -1);
    assert Unlink(ns, n) == Unlinked(fin, false);
    assert Sub(ns1, -1) == Empty;
    SetChildArena(ns, ns1, root, p, isLeft, -1);
    RecountWalkFacts(ns1, p);
    SubFrame(ns1, fin, root);
  }

  /** Replacement seen from the parent links: when only the replaced
      child's nodes may have new parents, and `u` hangs below `p`, the
      whole tree's links stay consistent. */
  lemma {:induction false} ReplaceLinked(ns: seq<NodeRec>, fin: seq<NodeRec>, t: Tree, p: int, isLeft: bool, u: Tree)
    requires BST(t) && Distinct(t) && ParentsOk(ns, t, -1) && p in Ids(t)
    requires BST(u) && Distinct(u) && ParentsOk(fin, u, p) && |ns| <= |fin|
    requires Keys(u) <= Keys(ChildOf(t, p, isLeft)) && Ids(u) <= Ids(ChildOf(t, p, isLeft))
    requires forall m :: m in Ids(t) - Ids(ChildOf(t, p, isLeft)) && 0 <= m < |ns| ==> fin[m].parent == ns[m].parent
    ensures var t2 := SetChild(t, p, isLeft, u);
      && Keys(t2) == (Keys(t) - Keys(ChildOf(t, p, isLeft))) + Keys(u)
      && Ids(t2) == (Ids(t) - Ids(ChildOf(t, p, isLeft))) + Ids(u)
      && BST(t2) && Distinct(t2) && ParentsOk(fin, t2, -1)
  {
    ReplaceFacts(t, p, isLeft, u);
    ParentsSetChild(ns, fin, t, -1, p, isLeft, u);
  }

  /** A leaf below a parent: its slot in the parent is cleared. Its element
      leaves the tree, which keeps search order, distinct identities and
      consistent parent links. */
  lemma {:induction false} UnlinkLeafTree(ns: seq<NodeRec>, root: int, n: int)
    requires Wf(ns) && 0 <= root < |ns| && Exact(ns, root, -1)
    requires 0 <= n < |ns| && n in Ids(Sub(ns, root)) && n != root
    requires ns[n].left == -1 && ns[n].right == -1
    ensures var u := Unlink(ns, n);
      var t := Sub(ns, root);
      var p := ns[n].parent;
      && 0 <= p < |ns| && !u.npe
      && Sub(u.ns, root) == SetChild(t, p, ns[p].left == n, Empty)
      && Keys(Sub(u.ns, root)) == Keys(t) - {ns[n].data}
      && Ids(Sub(u.ns, root)) == Ids(t) - {n}
      && BST(Sub(u.ns, root)) && Distinct(Sub(u.ns, root))
      && ParentsOk(u.ns, Sub(u.ns, root), -1)
  {
    var t := Sub(ns, root);
    UnlinkLeafStore(ns, root, n);
    SideOf(ns, root, n);
    var p := ns[n].parent;
    var fin := Unlink(ns, n).ns;
    assert ChildOf(t, p, ns[p].left == n) == Node(Empty, n, ns[n].data, Empty);
    ReplaceLinked(ns, fin, t, p, ns[p].left == n, Empty);
  }

  /** Hanging one of a left child's own subtrees in its place leaves the
      node itself out of the tree. */
  lemma {:induction false} SpliceDropsNode(ns: seq<NodeRec>, root: int, n: int, c: int)
    requires Wf(ns) && 0 <= root < |ns| && Exact(ns, root, -1)
    requires 0 <= n < |ns| && n in Ids(Sub(ns, root)) && n != root
    requires c != -1 && (c == ns[n].left || c == ns[n].right) && LeftChild(ns, n)
    ensures n !in Ids(SetChild(Sub(ns, root), ns[n].parent, true, Sub(ns, c)))
    ensures Ids(SetChild(Sub(ns, root), ns[n].parent, true, Sub(ns, c)))
      == (Ids(Sub(ns, root)) - Ids(Sub(ns, n))) + Ids(Sub(ns, c))
  {
    SideOf(ns, root, n);
    SubIds(ns, c);
    SetChildIds(Sub(ns, root), ns[n].parent, true, Sub(ns, c));
  }

  /** Only a left child, n being its parent's left child: on the store, the
      parent's left slot takes n's child, whose parent link moves up to n's
      parent; apart from n and that child no parent link changes. */
  lemma {:induction false} UnlinkLeftOnlyStore(ns: seq<NodeRec>, root: int, n: int)
    requires Wf(ns) && 0 <= root < |ns| && Exact(ns, root, -1)
    requires 0 <= n < |ns| && n in Ids(Sub(ns, root)) && n != root
    requires ns[n].left != -1 && ns[n].right == -1 && LeftChild(ns, n)
    ensures var u := Unlink(ns, n);
      var p, l := ns[n].parent, ns[n].left;
      && !u.npe && n < l < |ns|
      && Sub(u.ns, root) == SetChild(Sub(ns, root), p, true, Sub(ns, l))
      && u.ns[l].parent == p
      && (forall m :: 0 <= m < |ns| && m != n && m != l ==> u.ns[m].parent == ns[m].parent)
  {
    SideOf(ns, root, n);
    var p, l := ns[n].parent, ns[n].left;
    var ns1 := SetLeft(ns, p, l);
    var ns2 := SetParent(ns1, l, p);
    var ns3 := RecountWalk(ns2, p);
    var fin := SetLeft(SetParent(ns3, n, -1), n, -1);
    assert Unlink(ns, n) == Unlinked(fin, false);
    SubIds(ns, l);
    SubFrame(ns, ns2, l);
    SetChildArena(ns, ns2, root, p, true, l);
    SpliceDropsNode(ns, root, n, l);
    RecountWalkFacts(ns2, p);
    SubFrame(ns2, fin, root);
  }

  /** Only a left child, n being its parent's left child: n's element
      leaves the tree, which keeps search order, distinct identities and
      consistent parent links. */
  lemma {:induction false} UnlinkLeftOnlyTree(ns: seq<NodeRec>, root: int, n: int)
    requires Wf(ns) && 0 <= root < |ns| && Exact(ns, root, -1)
    requires 0 <= n < |ns| && n in Ids(Sub(ns, root)) && n != root
    requires ns[n].left != -1 && ns[n].right == -1 && LeftChild(ns, n)
    ensures var u := Unlink(ns, n);
      var t := Sub(ns, root);
      && !u.npe
      && Keys(Sub(u.ns, root)) == Keys(t) - {ns[n].data}
      && Ids(Sub(u.ns, root)) == Ids(t) - {n}
      && BST(Sub(u.ns, root)) && Distinct(Sub(u.ns, root))
      && ParentsOk(u.ns, Sub(u.ns, root), -1)
  {
    var t := Sub(ns, root);
    UnlinkLeftOnlyStore(ns, root, n);
    SideOf(ns, root, n);
    var p, l, k := ns[n].parent, ns[n].left, ns[n].data;
    var fin := Unlink(ns, n).ns;
    var c, sl := Sub(ns, n), Sub(ns, l);
    assert c == Node(sl, n, k, Empty);
    ChildOfIn(t, p, true);
    ParentsOfChild(ns, t, -1, p, true);
    SubIds(ns, l);
    ParentsReroot(ns, fin, sl, n, p);
    ReplaceLinked(ns, fin, t, p, true, sl);
    assert Keys(c) == Keys(sl) + {k};
    assert Ids(c) == Ids(sl) + {n};
    RemoveTop(Keys(t), Keys(sl), k);
    RemoveTop(Ids(t), Ids(sl), n);
  }

  /** Only a left child, n being its parent's right child: the parent's
      right slot takes n's right link, which is null, so n's whole subtree
      leaves the tree, including its left child's elements, whose top still
      names n's parent. */
  lemma {:induction false} UnlinkLeftOnlyAsRight(ns: seq<NodeRec>, root: int, n: int)
    requires Wf(ns) && 0 <= root < |ns| && Exact(ns, root, -1)
    requires 0 <= n < |ns| && n in Ids(Sub(ns, root)) && n != root
    requires ns[n].left != -1 && ns[n].right == -1 && !LeftChild(ns, n)
    ensures var u := Unlink(ns, n);
      var t, p, l := Sub(ns, root), ns[n].parent, ns[n].left;
      && !u.npe && 0 <= p < |ns| && n < l < |ns|
      && Sub(u.ns, root) == SetChild(t, p, false, Empty)
      && Keys(Sub(u.ns, root)) == Keys(t) - Keys(Sub(ns, n))
      && ns[l].data !in Keys(Sub(u.ns, root))
      && u.ns[l].parent == p
  {
    var t := Sub(ns, root);
    SideOf(ns, root, n);
    var p, l := ns[n].parent, ns[n].left;
    var ns1 := SetRight(ns, p, -1);
    var ns2 := SetParent(ns1, l, p);
    var ns3 := RecountWalk(ns2, p);
    var fin := SetLeft(SetParent(ns3, n, -1), n, -1);
    assert Unlink(ns, n) == Unlinked(fin, false);
    assert Sub(ns2, -1) == Empty;
    SetChildArena(ns, ns2, root, p, false, -1);
    SetChildIds(t, p, false, Empty);
    assert n in Ids(Sub(ns, n));
    RecountWalkFacts(ns2, p);
    SubFrame(ns2, fin, root);
    SetChildKeys(t, p, false, Empty);
    assert ns[l].data in Keys(Sub(ns, l));
  }

  /** Only a right child, n being its parent's left child: on the store,
      the parent's left slot takes n's child, but that child's parent link
      still names n; apart from n no parent link changes. */
  lemma {:induction false} UnlinkRightOnlyStore(ns: seq<NodeRec>, root: int, n: int)
    requires Wf(ns) && 0 <= root < |ns| && Exact(ns, root, -1)
    requires 0 <= n < |ns| && n in Ids(Sub(ns, root)) && n != root
    requires ns[n].left == -1 && ns[n].right != -1 && LeftChild(ns, n)
    ensures var u := Unlink(ns, n);
      var p, r := ns[n].parent, ns[n].right;
      && !u.npe && n < r < |ns|
      && Sub(u.ns, root) == SetChild(Sub(ns, root), p, true, Sub(ns, r))
      && (forall m :: 0 <= m < |ns| && m != n ==> u.ns[m].parent == ns[m].parent)
  {
    SideOf(ns, root, n);
    var p, r := ns[n].parent, ns[n].right;
    var ns1 := SetLeft(ns, p, r);
    var ns2 := RecountWalk(ns1, p);
    var fin := SetParent(SetRight(ns2, n, -1), n, -1);
    assert Unlink(ns, n) == Unlinked(fin, false);
    SubIds(ns, r);
    SubFrame(ns, ns1, r);
    SetChildArena(ns, ns1, root, p, true, r);
    SpliceDropsNode(ns, root, n, r);
    RecountWalkFacts(ns1, p);
    SubFrame(ns1, fin, root);
  }

  /** Only a right child, n being its parent's left child: the elements are
      right (n's alone leaves, order and identities survive) but the child
      brought up still names n as its parent, so the links are no longer
      consistent. */
  lemma {:induction false} UnlinkRightOnlyAsLeft(ns: seq<NodeRec>, root: int, n: int)
    requires Wf(ns) && 0 <= root < |ns| && Exact(ns, root, -1)
    requires 0 <= n < |ns| && n in Ids(Sub(ns, root)) && n != root
    requires ns[n].left == -1 && ns[n].right != -1 && LeftChild(ns, n)
    ensures var u := Unlink(ns, n);
      var t, r := Sub(ns, root), ns[n].right;
      && !u.npe && 0 <= r < |ns|
      && Keys(Sub(u.ns, root)) == Keys(t) - {ns[n].data}
      && Ids(Sub(u.ns, root)) == Ids(t) - {n}
      && BST(Sub(u.ns, root)) && Distinct(Sub(u.ns, root))
      && u.ns[r].parent == n
      && !ParentsOk(u.ns, Sub(u.ns, root), -1)
  {
    var t := Sub(ns, root);
    UnlinkRightOnlyStore(ns, root, n);
    SideOf(ns, root, n);
    SpliceDropsNode(ns, root, n, ns[n].right);
    var p, r, k := ns[n].parent, ns[n].right, ns[n].data;
    var fin := Unlink(ns, n).ns;
    var c, sr := Sub(ns, n), Sub(ns, r);
    assert c == Node(Empty, n, k, sr);
    ChildOfIn(t, p, true);
    ReplaceFacts(t, p, true, sr);
    RemoveTop(Keys(t), Keys(sr), k);
    RemoveTop(Ids(t), Ids(sr), n);
    assert r in Ids(sr);
    ParentsOfChild(ns, t, -1, p, true);
    assert ns[r].parent == n;
    SubIds(ns, root);
    DanglingParent(fin, root, r, n);
  }

  /** Cutting off the right subtree of node `x`: exactly that subtree's
      keys leave, and `x`'s own key stays. */
  lemma {:induction false} CutRight(t: Tree, x: int)
    requires BST(t) && Distinct(t) && x in Ids(t)
    ensures Keys(SetChild(t, x, false, Empty)) == Keys(t) - Keys(ChildOf(t, x, false))
    ensures SubtreeAt(t, x) != Empty && SubtreeAt(t, x).key in Keys(SetChild(t, x, false, Empty))
  {
    SubtreeAtIn(t, x);
    SetChildKeys(t, x, false, Empty);
    var s := SubtreeAt(t, x);
    assert s.key in Keys(s);
  }

  /** Only a right child, n not taken for its parent's left child (a right
      child, or the top node): only the child's parent link moves, and the
      parent keeps pointing at n, whose right link is then cleared. So n
      stays in the tree with its element, and its right subtree's elements
      leave it instead. */
  lemma {:induction false} UnlinkRightOnlyAsRight(ns: seq<NodeRec>, root: int, n: int)
    requires Wf(ns) && 0 <= root < |ns| && Exact(ns, root, -1)
    requires 0 <= n < |ns| && n in Ids(Sub(ns, root))
    requires ns[n].left == -1 && ns[n].right != -1 && !LeftChild(ns, n)
    ensures var u := Unlink(ns, n);
      var t, r := Sub(ns, root), ns[n].right;
      && !u.npe && 0 <= r < |ns|
      && Sub(u.ns, root) == SetChild(t, n, false, Empty)
      && Keys(Sub(u.ns, root)) == Keys(t) - Keys(Sub(ns, r))
      && ns[n].data in Keys(Sub(u.ns, root))
      && (n == root ==> Sub(u.ns, root) == Node(Empty, root, ns[root].data, Empty))
  {
    var t := Sub(ns, root);
    UnlinkRightOnlyAsRightStore(ns, root, n);
    SubtreeAtArena(ns, root, n);
    assert ChildOf(t, n, false) == Sub(ns, ns[n].right);
    CutRight(t, n);
  }

  /** The store side of the case above. */
  lemma {:induction false} UnlinkRightOnlyAsRightStore(ns: seq<NodeRec>, root: int, n: int)
    requires Wf(ns) && 0 <= root < |ns| && 0 <= n < |ns|
    requires ns[n].left == -1 && ns[n].right != -1 && !LeftChild(ns, n)
    ensures !Unlink(ns, n).npe
    ensures Sub(Unlink(ns, n).ns, root) == SetChild(Sub(ns, root), n, false, Empty)
  {
    var p, r := ns[n].parent, ns[n].right;
    var ns1 := SetParent(ns, r, p);
    var ns2 := RecountWalk(ns1, p);
    var fin := SetParent(SetRight(ns2, n, -1), n, -1);
    assert Unlink(ns, n) == Unlinked(fin, false);
    RecountWalkFacts(ns1, p);
    assert Sub(fin, -1) == Empty;
    SetChildArena(ns, fin, root, n, false, -1);
  }

  /** unlinkNode on a parentless node without a right child dereferences
      the missing parent, before changing anything. */
  lemma {:induction false} UnlinkTopThrows(ns: seq<NodeRec>, n: int)
    requires Wf(ns) && 0 <= n < |ns| && ns[n].parent == -1 && ns[n].right == -1
    ensures Unlink(ns, n) == Unlinked(ns, true)
  {
    assert !LeftChild(ns, n);
  }

  /** The leftmost node below `i` is in its subtree and holds its least
      key. */
  lemma {:induction false} LeftMostLeast(ns: seq<NodeRec>, i: int)
    requires Wf(ns) && 0 <= i < |ns| && BST(Sub(ns, i))
    ensures LeftMost(ns, i) in Ids(Sub(ns, i))
    ensures ns[LeftMost(ns, i)].data in Keys(Sub(ns, i))
    ensures forall x :: x in Keys(Sub(ns, i)) ==> ns[LeftMost(ns, i)].data <= x
    decreases |ns| - i
  {
    if ns[i].left != -1 {
      LeftMostLeast(ns, ns[i].left);
    }
  }

  /** With two children, n takes the element of the leftmost node of its
      right subtree, the least element above n's own, and that node, which
      has no left child and hangs below n, is unlinked instead. */
  lemma {:induction false} UnlinkTwoChildren(ns: seq<NodeRec>, root: int, n: int)
    requires Wf(ns) && 0 <= root < |ns| && Exact(ns, root, -1)
    requires 0 <= n < |ns| && n in Ids(Sub(ns, root))
    requires ns[n].left != -1 && ns[n].right != -1
    ensures var s := Successor(ns, n);
      && s == LeftMost(ns, ns[n].right) && n < s < |ns| && ns[s].left == -1
      && s in Ids(Sub(ns, ns[n].right)) && ns[s].parent != -1
      && ns[n].data < ns[s].data
      && (forall x :: x in Keys(Sub(ns, ns[n].right)) ==> ns[s].data <= x)
      && Unlink(ns, n) == Unlink(SetData(ns, n, ns[s].data), s)
  {
    var t, r := Sub(ns, root), ns[n].right;
    SubtreeAtArena(ns, root, n);
    SubtreeAtIn(t, n);
    LeftMostLeast(ns, r);
    SubIds(ns, r);
    ParentsOfChild(ns, t, -1, n, false);
    assert ChildOf(t, n, false) == Sub(ns, r);
    ParentHolds(ns, r, n, LeftMost(ns, r));
  }

  /** The store of the exact tree 2(0(-, 1), 3), nodes in preorder. */
  predicate IsSample(ns: seq<NodeRec>)
  {
    |ns| == 4 && ns[0] == NodeRec(2, 1, 3, -1, 4) && ns[1] == NodeRec(0, -1, 2, 0, 2)
    && ns[2] == NodeRec(1, -1, -1, 1, 1) && ns[3] == NodeRec(3, -1, -1, 0, 1)
  }

  /** The sample store once the leaf 3 is unlinked. */
  predicate IsSampleAfter(ns: seq<NodeRec>)
  {
    |ns| == 4 && ns[0] == NodeRec(2, 1, -1, -1, 2) && ns[1] == NodeRec(0, -1, 2, 0, 2)
    && ns[2] == NodeRec(1, -1, -1, 1, 1) && ns[3] == NodeRec(3, -1, -1, -1, 1)
  }

  /** Counts that match subtree sizes node by node make CountsOk. */
  lemma {:induction false} CountsFromNodes(ns: seq<NodeRec>, i: int)
    requires Wf(ns) && Ref(ns, i)
    requires forall j :: 0 <= j < |ns| ==> ns[j].count == Size(Sub(ns, j))
    ensures CountsOk(ns, Sub(ns, i))
    decreases if i < 0 then 0 else |ns| - i
  {
    if i != -1 {
      CountsFromNodes(ns, ns[i].left);
      CountsFromNodes(ns, ns[i].right);
    }
  }

  lemma SampleShape(ns: seq<NodeRec>)
    requires IsSample(ns)
    ensures Wf(ns) && Sub(ns, 0) == Node(Node(Empty, 1, 0, Node(Empty, 2, 1, Empty)), 0, 2, Node(Empty, 3, 3, Empty))
  {
    assert Wf(ns);
    assert Sub(ns, 2) == Node(Empty, 2, 1, Empty) && Sub(ns, 3) == Node(Empty, 3, 3, Empty);
    assert Sub(ns, 1) == Node(Empty, 1, 0, Node(Empty, 2, 1, Empty));
  }

  lemma SampleCounts(ns: seq<NodeRec>)
    requires IsSample(ns)
    ensures Wf(ns) && forall j :: 0 <= j < |ns| ==> ns[j].count == Size(Sub(ns, j))
  {
    SampleShape(ns);
    assert Sub(ns, 2) == Node(Empty, 2, 1, Empty) && Sub(ns, 3) == Node(Empty, 3, 3, Empty);
    assert Sub(ns, 1) == Node(Empty, 1, 0, Node(Empty, 2, 1, Empty));
    forall j | 0 <= j < |ns| ensures ns[j].count == Size(Sub(ns, j)) {
      if j == 0 {
        assert Size(Sub(ns, 0)) == 4;
      } else if j == 1 {
        assert Size(Sub(ns, 1)) == 2;
      } else if j == 2 {
        assert Size(Sub(ns, 2)) == 1;
      } else {
        assert Size(Sub(ns, 3)) == 1;
      }
    }
  }

  lemma SampleLinks(ns: seq<NodeRec>)
    requires IsSample(ns)
    ensures Wf(ns) && ParentsOk(ns, Sub(ns, 0), -1)
  {
    SampleShape(ns);
    assert Sub(ns, 2) == Node(Empty, 2, 1, Empty) && Sub(ns, 3) == Node(Empty, 3, 3, Empty);
    assert Sub(ns, 1) == Node(Empty, 1, 0, Node(Empty, 2, 1, Empty));
    assert ParentsOk(ns, Sub(ns, 2), 1) && ParentsOk(ns, Sub(ns, 3), 0);
    assert ParentsOk(ns, Sub(ns, 1), 0);
  }

  lemma SampleOrder(ns: seq<NodeRec>)
    requires IsSample(ns)
    ensures Wf(ns) && BST(Sub(ns, 0)) && Distinct(Sub(ns, 0))
  {
    SampleShape(ns);
    var l := Node(Empty, 1, 0, Node(Empty, 2, 1, Empty));
    assert Keys(l) == {0, 1} && Ids(l) == {1, 2};
  }

  lemma SampleExact(ns: seq<NodeRec>)
    requires IsSample(ns)
    ensures Wf(ns) && Exact(ns, 0, -1)
  {
    SampleCounts(ns);
    CountsFromNodes(ns, 0);
    SampleLinks(ns);
    SampleOrder(ns);
  }

  lemma SampleUnlink(ns: seq<NodeRec>)
    requires IsSample(ns)
    ensures Wf(ns) && !Unlink(ns, 3).npe && IsSampleAfter(Unlink(ns, 3).ns)
  {
    SampleShape(ns);
    var ns1 := SetRight(ns, 0, -1);
    assert Unlink(ns, 3) == Unlinked(SetParent(RecountWalk(ns1, 0), 3, -1), false);
    assert LeftSpine(ns1, 0) == 1;
  }

  lemma SampleAfter(ns: seq<NodeRec>)
    requires IsSampleAfter(ns)
    ensures Wf(ns) && Sub(ns, 0) == Node(Node(Empty, 1, 0, Node(Empty, 2, 1, Empty)), 0, 2, Empty)
    ensures Keys(Sub(ns, 0)) == {0, 1, 2} && Size(Sub(ns, 0)) == 3 && !CountsOk(ns, Sub(ns, 0))
  {
    assert Wf(ns);
    assert Sub(ns, 2) == Node(Empty, 2, 1, Empty);
    assert Sub(ns, 1) == Node(Empty, 1, 0, Node(Empty, 2, 1, Empty));
    assert Size(Sub(ns, 1)) == 2;
  }

  /** The walk of updateCount after an unlink can leave a wrong count: in
      the exact sample tree, unlinking the leaf 3 recounts the top as 2
      (itself and its one-node left spine) while three nodes remain. */
  lemma UnlinkMiscounts(ns: seq<NodeRec>)
    requires IsSample(ns)
    ensures Wf(ns) && Exact(ns, 0, -1)
    ensures var u := Unlink(ns, 3);
      && !u.npe && Keys(Sub(u.ns, 0)) == {0, 1, 2}
      && u.ns[0].count == 2 && Size(Sub(u.ns, 0)) == 3
      && !CountsOk(u.ns, Sub(u.ns, 0))
  {
    SampleExact(ns);
    SampleUnlink(ns);
    SampleAfter(Unlink(ns, 3).ns);
  }

  /** Apart from the copy of the successor's element, unlinkNode moves no
      element: a node with at most one child is unlinked by link and count
      edits alone. */
  lemma {:induction false} UnlinkOneData(ns: seq<NodeRec>, n: int)
    requires Wf(ns) && 0 <= n < |ns| && (ns[n].left == -1 || ns[n].right == -1)
    ensures forall i :: 0 <= i < |ns| ==> Unlink(ns, n).ns[i].data == ns[i].data
  {
    var p, l, r := ns[n].parent, ns[n].left, ns[n].right;
    if l == -1 && r == -1 {
      LeafData(ns, n);
    } else if r == -1 {
      LeftOnlyData(ns, n);
    } else {
      RightOnlyData(ns, n);
    }
  }

  lemma {:induction false} LeafData(ns: seq<NodeRec>, n: int)
    requires Wf(ns) && 0 <= n < |ns| && ns[n].left == -1 && ns[n].right == -1
    ensures forall i :: 0 <= i < |ns| ==> UnlinkLeaf(ns, n).ns[i].data == ns[i].data
  {
    var p := ns[n].parent;
    if p != -1 {
      var ns1 := if LeftChild(ns, n) then SetLeft(ns, p, -1) else SetRight(ns, p, -1);
      RecountWalkFacts(ns1, p);
    }
  }

  lemma {:induction false} LeftOnlyData(ns: seq<NodeRec>, n: int)
    requires Wf(ns) && 0 <= n < |ns| && ns[n].left != -1 && ns[n].right == -1
    ensures forall i :: 0 <= i < |ns| ==> UnlinkLeftOnly(ns, n).ns[i].data == ns[i].data
  {
    var p, l := ns[n].parent, ns[n].left;
    if LeftChild(ns, n) || p != -1 {
      var ns1 := if LeftChild(ns, n) then SetLeft(ns, p, l) else SetRight(ns, p, ns[n].right);
      RecountWalkFacts(SetParent(ns1, l, p), p);
    }
  }

  lemma {:induction false} RightOnlyData(ns: seq<NodeRec>, n: int)
    requires Wf(ns) && 0 <= n < |ns| && ns[n].left == -1 && ns[n].right != -1
    ensures forall i :: 0 <= i < |ns| ==> UnlinkRightOnly(ns, n).ns[i].data == ns[i].data
  {
    var p, r := ns[n].parent, ns[n].right;
    var ns1 := if LeftChild(ns, n) then SetLeft(ns, p, r) else SetParent(ns, r, p);
    RecountWalkFacts(ns1, p);
  }

  /** unlinkNode changes the element of one node at most: with two
      children, n takes its successor's. */
  lemma {:induction false} UnlinkData(ns: seq<NodeRec>, n: int)
    requires Wf(ns) && 0 <= n < |ns|
    ensures forall i :: 0 <= i < |ns| ==>
      Unlink(ns, n).ns[i].data == (if ns[n].left != -1 && ns[n].right != -1 && i == n then ns[Successor(ns, n)].data else ns[i].data)
  {
    if ns[n].left == -1 || ns[n].right == -1 {
      UnlinkOneData(ns, n);
    } else {
      var s := Successor(ns, n);
      var ns1 := SetData(ns, n, ns[s].data);
      UnlinkOneData(ns1, s);
    }
  }
}
