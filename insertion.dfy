/** What `add` does to the node store, stated against the pure tree: hanging
    a leaf in the empty slot at the end of the search path and raising the
    count of every node on the parent walk is ordinary BST insertion, and it
    keeps order, identities, parent links and counts exact. */
module Insertion {
  import opened Trees
  import opened Arena

  /** The tree the store holds from `i` down: order, distinct identities,
      consistent parent links (with `p` above) and exact counts. */
  predicate Exact(ns: seq<NodeRec>, i: int, p: int)
    requires Wf(ns) && Ref(ns, i)
  {
    var t := Sub(ns, i);
    BST(t) && Distinct(t) && ParentsOk(ns, t, p) && CountsOk(ns, t)
  }

  /** The node where the descent of `add` stops is itself a subtree of the
      store. */
  lemma {:induction false} EndNodeArena(ns: seq<NodeRec>, j: int, e: int)
    requires Wf(ns) && 0 <= j < |ns|
    ensures var c := EndNode(Sub(ns, j), e);
      0 <= c.id < |ns| && c == Sub(ns, c.id)
    decreases |ns| - j
  {
    var l, r := ns[j].left, ns[j].right;
    if ns[j].data > e && l != -1 {
      EndNodeArena(ns, l, e);
    } else if ns[j].data < e && r != -1 {
      EndNodeArena(ns, r, e);
    }
  }

  lemma {:induction false} ParentsInsert(ns: seq<NodeRec>, ns2: seq<NodeRec>, t: Tree, p: int, n: int, e: int, q: int)
    requires ParentsOk(ns, t, p) && |ns| <= |ns2|
    requires forall m :: m in Ids(t) && 0 <= m < |ns| ==> ns2[m].parent == ns[m].parent
    requires 0 <= n < |ns2| && ns2[n].parent == q
    requires q == if t == Empty then p else EndNode(t, e).id
    ensures ParentsOk(ns2, Insert(t, n, e), p)
  {
    match t
    case Empty =>
    case Node(l, i, k, r) =>
      if k == e {
        ParentsFrame(ns, ns2, t, p);
      } else if k > e {
        ParentsInsert(ns, ns2, l, i, n, e, q);
        ParentsFrame(ns, ns2, r, i);
      } else {
        ParentsInsert(ns, ns2, r, i, n, e, q);
        ParentsFrame(ns, ns2, l, i);
      }
  }

  lemma {:induction false} CountsInsert(ns: seq<NodeRec>, ns2: seq<NodeRec>, t: Tree, n: int, e: int)
    requires CountsOk(ns, t) && Distinct(t) && |ns| <= |ns2|
    requires -1 !in Ids(t) && n !in Ids(t) && Find(t, e) == -1
    requires 0 <= n < |ns2| && ns2[n].count == 1
    requires forall m :: m in Ids(t) && 0 <= m < |ns| ==>
      ns2[m].count == ns[m].count + (if m in PathTo(Insert(t, n, e), n) then 1 else 0)
    ensures CountsOk(ns2, Insert(t, n, e))
  {
    match t
    case Empty =>
    case Node(l, i, k, r) =>
      var t2 := Insert(t, n, e);
      InsertFacts(t, n, e);
      if k > e {
        var l2 := Insert(l, n, e);
        InsertFacts(l, n, e);
        PathToIn(l2, n);
        assert PathTo(t2, n) == {i} + PathTo(l2, n);
        CountsInsert(ns, ns2, l, n, e);
        CountsFrame(ns, ns2, r);
      } else {
        var r2 := Insert(r, n, e);
        InsertFacts(r, n, e);
        PathToIn(r2, n);
        assert PathTo(t2, n) == {i} + PathTo(r2, n);
        CountsInsert(ns, ns2, r, n, e);
        CountsFrame(ns, ns2, l);
      }
  }

  /** The slot `add` fills: the last node on the search path, whose empty
      side faces `e`. */
  lemma {:induction false} AttachPoint(ns: seq<NodeRec>, root: int, e: int)
    requires Wf(ns) && 0 <= root < |ns|
    ensures var c := EndNode(Sub(ns, root), e);
      && 0 <= c.id < |ns| && c.id in Ids(Sub(ns, root)) && c == Sub(ns, c.id)
      && (Find(Sub(ns, root), e) == -1 ==> (c.key > e ==> ns[c.id].left == -1) && (c.key < e ==> ns[c.id].right == -1) && c.key != e)
  {
    SubIds(ns, root);
    EndNodeIn(Sub(ns, root), e);
    EndNodeArena(ns, root, e);
    EndNodeShape(Sub(ns, root), e);
  }

  /** Hanging the leaf is ordinary BST insertion on the stored tree. */
  lemma {:induction false} AttachShape(ns: seq<NodeRec>, root: int, e: int)
    requires Wf(ns) && 0 <= root < |ns|
    requires Distinct(Sub(ns, root))
    requires Find(Sub(ns, root), e) == -1
    ensures var c := EndNode(Sub(ns, root), e).id;
      0 <= c < |ns| &&
      Sub(AddLeaf(ns, c, ns[c].data > e, e), root) == Insert(Sub(ns, root), |ns|, e)
  {
    var t := Sub(ns, root);
    var n := |ns|;
    AttachPoint(ns, root, e);
    SubIds(ns, root);
    var c := EndNode(t, e).id;
    var isLeft := ns[c].data > e;
    var ns2 := AddLeaf(ns, c, isLeft, e);
    assert Sub(ns2, -1) == Empty;
    assert Sub(ns2, n) == Node(Empty, n, e, Empty);
    SetChildArena(ns, ns2, root, c, isLeft, n);
    InsertIsSetChild(t, n, e);
  }

  /** Parent links after `add`: the leaf points at the slot's owner, every
      other node keeps its parent. */
  lemma {:induction false} AttachParents(ns: seq<NodeRec>, ns3: seq<NodeRec>, root: int, e: int)
    requires Wf(ns) && 0 <= root < |ns| && ParentsOk(ns, Sub(ns, root), -1)
    requires Find(Sub(ns, root), e) == -1
    requires |ns3| == |ns| + 1 && ns3[|ns|].parent == EndNode(Sub(ns, root), e).id
    requires forall m :: 0 <= m < |ns| ==> ns3[m].parent == ns[m].parent
    ensures ParentsOk(ns3, Insert(Sub(ns, root), |ns|, e), -1)
  {
    ParentsInsert(ns, ns3, Sub(ns, root), -1, |ns|, e, EndNode(Sub(ns, root), e).id);
  }

  /** The parent walk that `add` bumps is the set of proper ancestors of the
      new leaf. */
  lemma {:induction false} AttachChain(ns: seq<NodeRec>, root: int, e: int)
    requires Wf(ns) && 0 <= root < |ns|
    requires Exact(ns, root, -1)
    requires Find(Sub(ns, root), e) == -1
    ensures var t := Sub(ns, root);
      var c := EndNode(t, e).id;
      0 <= c < |ns| &&
      var ns2 := AddLeaf(ns, c, ns[c].data > e, e);
      && Chain(ns2, c) == PathTo(Insert(t, |ns|, e), |ns|) - {|ns|}
      && ParentsOk(ns2, Insert(t, |ns|, e), -1)
  {
    var t := Sub(ns, root);
    var n := |ns|;
    AttachPoint(ns, root, e);
    AttachShape(ns, root, e);
    SubIds(ns, root);
    var c := EndNode(t, e).id;
    var ns2 := AddLeaf(ns, c, ns[c].data > e, e);
    var t2 := Insert(t, n, e);
    InsertFacts(t, n, e);
    AttachParents(ns, ns2, root, e);
    ChainIsPath(ns2, t2, -1, n);
    assert Chain(ns2, n) == {n} + Chain(ns2, c);
  }

  /** Raising counts leaves the shape hanging below `root` alone. */
  lemma {:induction false} BumpShape(ns2: seq<NodeRec>, S: set<int>, root: int)
    requires Wf(ns2) && 0 <= root < |ns2|
    ensures Sub(Bump(ns2, S), root) == Sub(ns2, root)
  {
    SubIds(ns2, root);
    BumpWf(ns2, S);
    BumpFacts(ns2, S);
    SubFrame(ns2, Bump(ns2, S), root);
  }

  /** Insertion of a fresh identity keeps order and distinct identities. */
  lemma {:induction false} InsertOrder(ns: seq<NodeRec>, root: int, e: int)
    requires Wf(ns) && 0 <= root < |ns| && Exact(ns, root, -1)
    ensures BST(Insert(Sub(ns, root), |ns|, e)) && Distinct(Insert(Sub(ns, root), |ns|, e))
  {
    var t := Sub(ns, root);
    SubIds(ns, root);
    InsertBST(t, |ns|, e);
    InsertDistinct(t, |ns|, e);
  }

  /** With exact links and counts, raising the counts along the parent walk
      keeps the tree exact. */
  lemma {:induction false} AttachExact(ns: seq<NodeRec>, root: int, e: int, c: int, ns2: seq<NodeRec>, ns3: seq<NodeRec>)
    requires Wf(ns) && 0 <= root < |ns|
    requires Exact(ns, root, -1)
    requires Find(Sub(ns, root), e) == -1
    requires c == EndNode(Sub(ns, root), e).id && 0 <= c < |ns|
    requires ns2 == AddLeaf(ns, c, ns[c].data > e, e)
    requires ns3 == Bump(ns2, Chain(ns2, c))
    ensures Chain(ns2, c) == PathTo(Insert(Sub(ns, root), |ns|, e), |ns|) - {|ns|}
    ensures Sub(ns3, root) == Insert(Sub(ns, root), |ns|, e)
    ensures Exact(ns3, root, -1)
  {
    AttachShape(ns, root, e);
    AttachChain(ns, root, e);
    BumpShape(ns2, Chain(ns2, c), root);
    BumpWf(ns2, Chain(ns2, c));
    BumpFacts(ns2, Chain(ns2, c));
    InsertOrder(ns, root, e);
    ParentsFrame(ns2, ns3, Insert(Sub(ns, root), |ns|, e), -1);
    AttachCounts(ns, ns3, root, e, Chain(ns2, c));
  }

  lemma {:induction false} AttachCounts(ns: seq<NodeRec>, ns3: seq<NodeRec>, root: int, e: int, S: set<int>)
    requires Wf(ns) && 0 <= root < |ns| && Exact(ns, root, -1)
    requires Find(Sub(ns, root), e) == -1 && |ns3| == |ns| + 1
    requires ns3[|ns|].count == 1 && S == PathTo(Insert(Sub(ns, root), |ns|, e), |ns|) - {|ns|}
    requires forall m :: 0 <= m < |ns| ==> ns3[m].count == ns[m].count + (if m in S then 1 else 0)
    ensures CountsOk(ns3, Insert(Sub(ns, root), |ns|, e))
  {
    SubIds(ns, root);
    InsertFacts(Sub(ns, root), |ns|, e);
    CountsInsert(ns, ns3, Sub(ns, root), |ns|, e);
  }

  /** A lone node with no links and count one is an exact tree. */
  lemma {:induction false} SingleExact(ns: seq<NodeRec>, n: int, e: int)
    requires Wf(ns) && 0 <= n < |ns| && ns[n] == NodeRec(e, -1, -1, -1, 1)
    ensures Sub(ns, n) == Insert(Empty, n, e) && Exact(ns, n, -1)
  {
    assert Sub(ns, -1) == Empty;
    var t := Sub(ns, n);
    assert t == Node(Empty, n, e, Empty);
    assert ParentsOk(ns, t, -1);
    assert CountsOk(ns, t);
  }

  /** The first `add` into an empty tree appends a well-formed free node. */
  lemma {:induction false} AppendRootWf(ns: seq<NodeRec>, e: int)
    requires Wf(ns)
    ensures Wf(ns + [NodeRec(e, -1, -1, -1, 1)])
  {
    var ns2 := ns + [NodeRec(e, -1, -1, -1, 1)];
    assert forall i :: 0 <= i < |ns| ==> ns2[i] == ns[i];
  }
}
