/** The node store of ABTreeSet. A Java `Node` object is an index into a
    sequence of records; -1 plays the part of `null`. */
module Arena {
  import opened Trees

  /** One Java `Node`: element, the three links and the cached `count`. */
  datatype NodeRec = NodeRec(data: int, left: int, right: int, parent: int, count: int)

  /** `i` is null or names a node of the store. */
  predicate Ref(ns: seq<NodeRec>, i: int)
  {
    i == -1 || 0 <= i < |ns|
  }

  /** The structural invariant every operation keeps, including the faulty
      paths of unlinkNode: a child was created after its owner and an owner
      before the nodes that point to it as their parent, so children have
      larger and parents smaller indices. Counts are never below one. */
  predicate Wf(ns: seq<NodeRec>)
  {
    forall i :: 0 <= i < |ns| ==>
      (ns[i].left == -1 || i < ns[i].left < |ns|)
      && (ns[i].right == -1 || i < ns[i].right < |ns|)
      && (ns[i].parent == -1 || 0 <= ns[i].parent < i)
      && ns[i].count >= 1
  }

  /** The tree reachable from `i` through `left`/`right` links. */
  function Sub(ns: seq<NodeRec>, i: int): Tree
    requires Wf(ns) && Ref(ns, i)
    decreases if i < 0 then 0 else |ns| - i
  {
    if i == -1 then Empty
    else Node(Sub(ns, ns[i].left), i, ns[i].data, Sub(ns, ns[i].right))
  }

  /** The search on the stored tree lands on a stored node holding the key;
      under search-tree order it misses exactly the absent keys. */
  lemma {:induction false} FindArena(ns: seq<NodeRec>, i: int, e: int)
    requires Wf(ns) && Ref(ns, i)
    ensures var r := Find(Sub(ns, i), e);
      Ref(ns, r) && (r != -1 ==> ns[r].data == e && r in Ids(Sub(ns, i)))
      && (BST(Sub(ns, i)) ==> (r == -1 <==> e !in Keys(Sub(ns, i))))
    decreases if i < 0 then 0 else |ns| - i
  {
    SubIds(ns, i);
    FindInTree(Sub(ns, i), e);
    if BST(Sub(ns, i)) { FindExact(Sub(ns, i), e); }
    if i != -1 && ns[i].data != e {
      FindArena(ns, if ns[i].data > e then ns[i].left else ns[i].right, e);
    }
  }

  /** The in-order list of a stored subtree names stored nodes whose data
      are the subtree's keys in the same order. */
  lemma {:induction false} InorderData(ns: seq<NodeRec>, i: int)
    requires Wf(ns) && Ref(ns, i)
    ensures |Inorder(Sub(ns, i))| == |InorderKeys(Sub(ns, i))|
    ensures forall j :: 0 <= j < |Inorder(Sub(ns, i))| ==>
      0 <= Inorder(Sub(ns, i))[j] < |ns| && ns[Inorder(Sub(ns, i))[j]].data == InorderKeys(Sub(ns, i))[j]
    decreases if i < 0 then 0 else |ns| - i
  {
    InorderShape(Sub(ns, i));
    if i != -1 {
      var l, r := ns[i].left, ns[i].right;
      InorderData(ns, l);
      InorderData(ns, r);
      InorderShape(Sub(ns, l));
      var a, b := Inorder(Sub(ns, l)), Inorder(Sub(ns, r));
      var ka, kb := InorderKeys(Sub(ns, l)), InorderKeys(Sub(ns, r));
      assert Inorder(Sub(ns, i)) == a + [i] + b;
      assert InorderKeys(Sub(ns, i)) == ka + [ns[i].data] + kb;
      forall j | 0 <= j < |Inorder(Sub(ns, i))|
        ensures 0 <= Inorder(Sub(ns, i))[j] < |ns| && ns[Inorder(Sub(ns, i))[j]].data == InorderKeys(Sub(ns, i))[j]
      {
        if j < |a| {
        } else if j == |a| {
        } else {
          assert Inorder(Sub(ns, i))[j] == b[j - |a| - 1];
          assert InorderKeys(Sub(ns, i))[j] == kb[j - |a| - 1];
        }
      }
    }
  }

  /** The three writes `add` makes to hang a new leaf below `c`: create the
      node, set its parent, link it from `c`. */
  lemma {:induction false} AttachSteps(ns: seq<NodeRec>, c: int, isLeft: bool, e: int)
    requires 0 <= c < |ns|
    ensures var n := |ns|;
      var ns1 := ns + [NodeRec(e, -1, -1, -1, 1)];
      var ns2 := ns1[n := ns1[n].(parent := c)];
      ns2[c := if isLeft then ns2[c].(left := n) else ns2[c].(right := n)] == AddLeaf(ns, c, isLeft, e)
  {
    var n := |ns|;
    var ns1 := ns + [NodeRec(e, -1, -1, -1, 1)];
    var ns2 := ns1[n := ns1[n].(parent := c)];
    var ns3 := ns2[c := if isLeft then ns2[c].(left := n) else ns2[c].(right := n)];
    var r := AddLeaf(ns, c, isLeft, e);
    forall i | 0 <= i < |ns3| ensures ns3[i] == r[i] {
      if i == n {
      } else if i == c {
      } else {
        assert ns3[i] == ns[i];
      }
    }
    SameSeq(ns3, r);
  }

  /** Node `x` made the `isLeft` child of `p`, with `p` as its parent. */
  function Hang(ns: seq<NodeRec>, p: int, x: int, isLeft: bool): (r: seq<NodeRec>)
    requires 0 <= p < x < |ns|
    ensures |r| == |ns|
    ensures Wf(ns) ==> Wf(r)
  {
    var ns1 := ns[x := ns[x].(parent := p)];
    ns1[p := if isLeft then ns1[p].(left := x) else ns1[p].(right := x)]
  }

  /** Two records agree on everything `Sub` looks at. */
  predicate SameShape(a: NodeRec, b: NodeRec)
  {
    a.data == b.data && a.left == b.left && a.right == b.right
  }

  lemma {:induction false} SubIds(ns: seq<NodeRec>, i: int)
    requires Wf(ns) && Ref(ns, i)
    ensures forall m :: m in Ids(Sub(ns, i)) ==> 0 <= i <= m < |ns|
    decreases if i < 0 then 0 else |ns| - i
  {
    if i != -1 {
      SubIds(ns, ns[i].left);
      SubIds(ns, ns[i].right);
    }
  }

  /** Changing records outside a subtree, or appending records, leaves the
      subtree as it was. */
  lemma {:induction false} SubFrame(ns: seq<NodeRec>, ns2: seq<NodeRec>, i: int)
    requires Wf(ns) && Wf(ns2) && Ref(ns, i) && |ns| <= |ns2|
    requires forall m :: 0 <= m < |ns| && m in Ids(Sub(ns, i)) ==> SameShape(ns[m], ns2[m])
    ensures Sub(ns2, i) == Sub(ns, i)
    decreases if i < 0 then 0 else |ns| - i
  {
    if i != -1 {
      assert i in Ids(Sub(ns, i));
      SubFrame(ns, ns2, ns[i].left);
      SubFrame(ns, ns2, ns[i].right);
    }
  }

  /** Redirecting one child link of node `p` to `c` replaces that child in
      every tree through which `p` is reachable. */
  lemma {:induction false} SetChildArena(ns: seq<NodeRec>, ns2: seq<NodeRec>, j: int, p: int, isLeft: bool, c: int)
    requires Wf(ns) && Wf(ns2) && |ns| <= |ns2| && Ref(ns, j)
    requires 0 <= p < |ns| && Ref(ns2, c)
    requires forall m :: 0 <= m < |ns| && m != p ==> SameShape(ns[m], ns2[m])
    requires ns2[p].data == ns[p].data
    requires isLeft ==> ns2[p].left == c && ns2[p].right == ns[p].right
    requires !isLeft ==> ns2[p].right == c && ns2[p].left == ns[p].left
    ensures Sub(ns2, j) == SetChild(Sub(ns, j), p, isLeft, Sub(ns2, c))
    decreases if j < 0 then 0 else |ns| - j
  {
    if j == p {
      var other := if isLeft then ns[p].right else ns[p].left;
      SubIds(ns, other);
      SubFrame(ns, ns2, other);
    } else if j != -1 {
      SetChildArena(ns, ns2, ns[j].left, p, isLeft, c);
      SetChildArena(ns, ns2, ns[j].right, p, isLeft, c);
    }
  }

  // ---------------------------------------------------------------------
  // Parent walks and counts

  /** The nodes visited by following `parent` links from `m` until null. */
  function Chain(ns: seq<NodeRec>, m: int): (r: set<int>)
    requires Wf(ns) && Ref(ns, m)
    ensures forall y :: y in r ==> 0 <= y <= m
    decreases m + 1
  {
    if m == -1 then {} else {m} + Chain(ns, ns[m].parent)
  }

  /** Parent walks read only `parent` links. */
  lemma {:induction false} ChainFrame(ns: seq<NodeRec>, ns2: seq<NodeRec>, m: int)
    requires Wf(ns) && Wf(ns2) && Ref(ns, m) && |ns| <= |ns2|
    requires forall y :: 0 <= y <= m && y < |ns| ==> ns2[y].parent == ns[y].parent
    ensures Chain(ns2, m) == Chain(ns, m)
    decreases m + 1
  {
    if m != -1 { ChainFrame(ns, ns2, ns[m].parent); }
  }

  /** Every node of `S` has its count raised by one. */
  function Bump(ns: seq<NodeRec>, S: set<int>): (r: seq<NodeRec>)
    ensures |r| == |ns|
  {
    seq(|ns|, i requires 0 <= i < |ns| =>
      if i in S then ns[i].(count := ns[i].count + 1) else ns[i])
  }

  /** A new leaf holding `e`, attached below `c` in the slot `isLeft` names. */
  function AddLeaf(ns: seq<NodeRec>, c: int, isLeft: bool, e: int): (r: seq<NodeRec>)
    requires 0 <= c < |ns|
    ensures |r| == |ns| + 1
    ensures r[|ns|] == NodeRec(e, -1, -1, c, 1)
    ensures forall m :: 0 <= m < |ns| && m != c ==> r[m] == ns[m]
    ensures r[c] == if isLeft then ns[c].(left := |ns|) else ns[c].(right := |ns|)
    ensures Wf(ns) ==> Wf(r)
  {
    var ns1 := ns + [NodeRec(e, -1, -1, c, 1)];
    ns1[c := if isLeft then ns1[c].(left := |ns|) else ns1[c].(right := |ns|)]
  }

  /** Every node of `t` has its tree parent in its `parent` link; `p` is the
      expected parent of the root of `t`. */
  predicate ParentsOk(ns: seq<NodeRec>, t: Tree, p: int)
  {
    match t
    case Empty => true
    case Node(l, i, _, r) =>
      0 <= i < |ns| && ns[i].parent == p && ParentsOk(ns, l, i) && ParentsOk(ns, r, i)
  }

  /** Every node of `t` caches the true size of its subtree. */
  predicate CountsOk(ns: seq<NodeRec>, t: Tree)
  {
    match t
    case Empty => true
    case Node(l, i, _, r) =>
      0 <= i < |ns| && ns[i].count == Size(t) && CountsOk(ns, l) && CountsOk(ns, r)
  }

  lemma {:induction false} ParentsFrame(ns: seq<NodeRec>, ns2: seq<NodeRec>, t: Tree, p: int)
    requires ParentsOk(ns, t, p) && |ns| <= |ns2|
    requires forall m :: m in Ids(t) && 0 <= m < |ns| ==> ns2[m].parent == ns[m].parent
    ensures ParentsOk(ns2, t, p)
  {
    match t
    case Empty =>
    case Node(l, i, _, r) =>
      ParentsFrame(ns, ns2, l, i);
      ParentsFrame(ns, ns2, r, i);
  }

  lemma {:induction false} CountsFrame(ns: seq<NodeRec>, ns2: seq<NodeRec>, t: Tree)
    requires CountsOk(ns, t) && |ns| <= |ns2|
    requires forall m :: m in Ids(t) && 0 <= m < |ns| ==> ns2[m].count == ns[m].count
    ensures CountsOk(ns2, t)
  {
    match t
    case Empty =>
    case Node(l, i, _, r) =>
      CountsFrame(ns, ns2, l);
      CountsFrame(ns, ns2, r);
  }

  /** With consistent parent links the parent walk from a node is exactly
      its root path. */
  lemma {:induction false} ChainIsPath(ns: seq<NodeRec>, t: Tree, p: int, x: int)
    requires Wf(ns) && Ref(ns, p) && ParentsOk(ns, t, p)
    requires x in Ids(t)
    ensures Ref(ns, x)
    ensures Chain(ns, x) == PathTo(t, x) + Chain(ns, p)
  {
    var Node(l, i, _, r) := t;
    if i == x {
    } else if x in Ids(l) {
      ChainIsPath(ns, l, i, x);
    } else {
      ChainIsPath(ns, r, i, x);
    }
  }

  // ---------------------------------------------------------------------
  // The balance predicate

  /** The test `add` and `remove` apply to an ancestor: some present child's
      cached count, scaled by `bottom`, reaches the whole tree's `size` scaled
      by `top`. */
  predicate Heavy(ns: seq<NodeRec>, m: int, size: int, top: int, bottom: int)
    requires Wf(ns) && 0 <= m < |ns|
  {
    var l, r := ns[m].left, ns[m].right;
    (l != -1 && ns[l].count * bottom >= size * top)
    || (r != -1 && ns[r].count * bottom >= size * top)
  }

  /** The walk towards the root that remembers the last heavy node seen. */
  function Highest(ns: seq<NodeRec>, m: int, size: int, top: int, bottom: int, acc: int): int
    requires Wf(ns) && Ref(ns, m)
    decreases m + 1
  {
    if m == -1 then acc
    else Highest(ns, ns[m].parent, size, top, bottom,
                 if Heavy(ns, m, size, top, bottom) then m else acc)
  }

  /** The walk picks the heavy node nearest the root, and keeps `acc` only
      when no node on the walk is heavy. */
  lemma {:induction false} HighestIsTopmostHeavy(ns: seq<NodeRec>, m: int, size: int, top: int, bottom: int, acc: int)
    requires Wf(ns) && Ref(ns, m)
    requires acc == -1 || acc > m
    ensures var h := Highest(ns, m, size, top, bottom, acc);
      (h == acc ==> forall y :: y in Chain(ns, m) ==> !Heavy(ns, y, size, top, bottom))
      && (h != acc ==>
            && h in Chain(ns, m)
            && Heavy(ns, h, size, top, bottom)
            && (forall y :: y in Chain(ns, m) && y < h ==> !Heavy(ns, y, size, top, bottom)))
    decreases m + 1
  {
    if m != -1 {
      var p := ns[m].parent;
      var acc2 := if Heavy(ns, m, size, top, bottom) then m else acc;
      HighestIsTopmostHeavy(ns, p, size, top, bottom, acc2);
    }
  }

  /** The walk of `add` in progress: before the first step nothing is
      raised; each step raises the next node of the walk. */
  lemma {:induction false} BumpNone(ns: seq<NodeRec>)
    ensures Bump(ns, {}) == ns
  {
    BumpFacts(ns, {});
    SameSeq(Bump(ns, {}), ns);
  }

  lemma {:induction false} BumpStep(ns: seq<NodeRec>, B: set<int>, B2: set<int>, p: int)
    requires 0 <= p < |ns| && p !in B && B2 == B + {p}
    ensures Bump(ns, B)[p := Bump(ns, B)[p].(count := Bump(ns, B)[p].count + 1)] == Bump(ns, B2)
  {
    var a := Bump(ns, B);
    var b := a[p := a[p].(count := a[p].count + 1)];
    var c := Bump(ns, B2);
    forall i | 0 <= i < |ns| ensures b[i] == c[i] {
      BumpAt(ns, B, i);
      BumpAt(ns, B2, i);
    }
    SameSeq(b, c);
  }

  lemma {:induction false} BumpAt(ns: seq<NodeRec>, S: set<int>, i: int)
    requires 0 <= i < |ns|
    ensures Bump(ns, S)[i] == if i in S then ns[i].(count := ns[i].count + 1) else ns[i]
  {
  }

  /** Raising counts changes no link and leaves every count at least one. */
  lemma {:induction false} BumpFacts(ns: seq<NodeRec>, S: set<int>)
    ensures forall i :: 0 <= i < |ns| ==>
      Bump(ns, S)[i] == if i in S then ns[i].(count := ns[i].count + 1) else ns[i]
  {
    forall i | 0 <= i < |ns|
      ensures Bump(ns, S)[i] == if i in S then ns[i].(count := ns[i].count + 1) else ns[i]
    {
      BumpAt(ns, S, i);
    }
  }

  lemma {:induction false} BumpWf(ns: seq<NodeRec>, S: set<int>)
    requires Wf(ns)
    ensures Wf(Bump(ns, S))
  {
    BumpFacts(ns, S);
  }

  lemma {:induction false} SameSeq(a: seq<NodeRec>, b: seq<NodeRec>)
    requires |a| == |b| && forall i :: 0 <= i < |a| ==> a[i] == b[i]
    ensures a == b
  {
  }

  /** While the walk of `add` is at `p`, only nodes at or below `p` are
      raised, so the counts of `p`'s children already have their final
      value: the test sees what it would see after the walk. */
  lemma {:induction false} HeavyOnWalk(ns: seq<NodeRec>, c: int, p: int, size: int, top: int, bottom: int)
    requires Wf(ns) && Ref(ns, c) && 0 <= p < |ns|
    ensures Wf(Bump(ns, Chain(ns, c) - Chain(ns, ns[p].parent))) && Wf(Bump(ns, Chain(ns, c)))
    ensures Heavy(Bump(ns, Chain(ns, c) - Chain(ns, ns[p].parent)), p, size, top, bottom)
        == Heavy(Bump(ns, Chain(ns, c)), p, size, top, bottom)
  {
    var l, r := ns[p].left, ns[p].right;
    var S := Chain(ns, c) - Chain(ns, ns[p].parent);
    BumpWf(ns, S);
    BumpWf(ns, Chain(ns, c));
    assert l != -1 ==> l !in Chain(ns, ns[p].parent);
    assert r != -1 ==> r !in Chain(ns, ns[p].parent);
    if l != -1 {
      BumpAt(ns, S, l);
      BumpAt(ns, Chain(ns, c), l);
    }
    if r != -1 {
      BumpAt(ns, S, r);
      BumpAt(ns, Chain(ns, c), r);
    }
    BumpAt(ns, S, p);
    BumpAt(ns, Chain(ns, c), p);
  }

  /** Every step of the walk stays inside the walk from the start. */
  lemma {:induction false} ChainTail(ns: seq<NodeRec>, m: int)
    requires Wf(ns) && 0 <= m < |ns|
    ensures Chain(ns, m) == {m} + Chain(ns, ns[m].parent)
    ensures m !in Chain(ns, ns[m].parent)
  {
  }

  // ---------------------------------------------------------------------
  // updateCount

  function LeftSpine(ns: seq<NodeRec>, i: int): nat
    requires Wf(ns) && 0 <= i < |ns|
    decreases |ns| - i
  {
    if ns[i].left == -1 then 0 else 1 + LeftSpine(ns, ns[i].left)
  }

  function RightSpine(ns: seq<NodeRec>, i: int): nat
    requires Wf(ns) && 0 <= i < |ns|
    decreases |ns| - i
  {
    if ns[i].right == -1 then 0 else 1 + RightSpine(ns, ns[i].right)
  }

  /** The value updateCount stores: one plus the lengths of the leftmost and
      the rightmost spine below the node. */
  function SpineCount(ns: seq<NodeRec>, i: int): int
    requires Wf(ns) && 0 <= i < |ns|
  {
    1 + LeftSpine(ns, i) + RightSpine(ns, i)
  }

  /** A count change leaves both spines alone: they follow only links. */
  lemma {:induction false} SpineFrame(ns: seq<NodeRec>, ns2: seq<NodeRec>, i: int)
    requires Wf(ns) && Wf(ns2) && |ns| == |ns2| && 0 <= i < |ns|
    requires forall m :: 0 <= m < |ns| ==> SameShape(ns[m], ns2[m])
    ensures SpineCount(ns2, i) == SpineCount(ns, i)
  {
    LeftSpineFrame(ns, ns2, i);
    RightSpineFrame(ns, ns2, i);
  }

  lemma {:induction false} LeftSpineFrame(ns: seq<NodeRec>, ns2: seq<NodeRec>, i: int)
    requires Wf(ns) && Wf(ns2) && |ns| == |ns2| && 0 <= i < |ns|
    requires forall m :: 0 <= m < |ns| ==> SameShape(ns[m], ns2[m])
    ensures LeftSpine(ns2, i) == LeftSpine(ns, i)
    decreases |ns| - i
  {
    assert SameShape(ns[i], ns2[i]);
    if ns[i].left != -1 {
      LeftSpineFrame(ns, ns2, ns[i].left);
    }
  }

  lemma {:induction false} RightSpineFrame(ns: seq<NodeRec>, ns2: seq<NodeRec>, i: int)
    requires Wf(ns) && Wf(ns2) && |ns| == |ns2| && 0 <= i < |ns|
    requires forall m :: 0 <= m < |ns| ==> SameShape(ns[m], ns2[m])
    ensures RightSpine(ns2, i) == RightSpine(ns, i)
    decreases |ns| - i
  {
    assert SameShape(ns[i], ns2[i]);
    if ns[i].right != -1 {
      RightSpineFrame(ns, ns2, ns[i].right);
    }
  }

  /** The spines are paths in the subtree, so updateCount never counts
      more nodes than the subtree holds. */
  lemma {:induction false} SpineCountAtMostSize(ns: seq<NodeRec>, i: int)
    requires Wf(ns) && 0 <= i < |ns|
    ensures 1 <= SpineCount(ns, i) <= Size(Sub(ns, i))
  {
    if ns[i].left != -1 {
      LeftSpineAtMostSize(ns, ns[i].left);
    }
    if ns[i].right != -1 {
      RightSpineAtMostSize(ns, ns[i].right);
    }
  }

  lemma {:induction false} LeftSpineAtMostSize(ns: seq<NodeRec>, i: int)
    requires Wf(ns) && 0 <= i < |ns|
    ensures 1 + LeftSpine(ns, i) <= Size(Sub(ns, i))
    decreases |ns| - i
  {
    if ns[i].left != -1 {
      LeftSpineAtMostSize(ns, ns[i].left);
    }
  }

  lemma {:induction false} RightSpineAtMostSize(ns: seq<NodeRec>, i: int)
    requires Wf(ns) && 0 <= i < |ns|
    ensures 1 + RightSpine(ns, i) <= Size(Sub(ns, i))
    decreases |ns| - i
  {
    if ns[i].right != -1 {
      RightSpineAtMostSize(ns, ns[i].right);
    }
  }

  /** The loop unlinkNode runs after relinking: updateCount on `p`, then on
      its parent, and so on until the root has been recounted. */
  function RecountWalk(ns: seq<NodeRec>, p: int): (r: seq<NodeRec>)
    requires Wf(ns) && Ref(ns, p)
    ensures |r| == |ns| && Wf(r)
    decreases p + 1
  {
    if p == -1 then ns
    else RecountWalk(SetCount(ns, p, SpineCount(ns, p)), ns[p].parent)
  }

  /** The walk changes no link; every node met on the parent walk from `p`
      gets updateCount's value, computed on the links as they are, and every
      other count stays. */
  lemma {:induction false} RecountWalkFacts(ns: seq<NodeRec>, p: int)
    requires Wf(ns) && Ref(ns, p)
    ensures Wf(RecountWalk(ns, p))
    ensures forall m :: 0 <= m < |ns| ==>
      && SameShape(RecountWalk(ns, p)[m], ns[m])
      && RecountWalk(ns, p)[m].parent == ns[m].parent
      && RecountWalk(ns, p)[m].count == if m in Chain(ns, p) then SpineCount(ns, m) else ns[m].count
    decreases p + 1
  {
    if p != -1 {
      var q := ns[p].parent;
      var ns1 := SetCount(ns, p, SpineCount(ns, p));
      RecountWalkFacts(ns1, q);
      ChainFrame(ns, ns1, q);
      ChainTail(ns, p);
      forall m | 0 <= m < |ns| ensures SpineCount(ns1, m) == SpineCount(ns, m) {
        SpineFrame(ns, ns1, m);
      }
    }
  }

  // ---------------------------------------------------------------------
  // Single-field edits of one record

  function SetLeft(ns: seq<NodeRec>, p: int, c: int): (r: seq<NodeRec>)
    requires 0 <= p < |ns| && (c == -1 || p < c < |ns|)
    ensures |r| == |ns| && (Wf(ns) ==> Wf(r))
  {
    ns[p := ns[p].(left := c)]
  }

  function SetRight(ns: seq<NodeRec>, p: int, c: int): (r: seq<NodeRec>)
    requires 0 <= p < |ns| && (c == -1 || p < c < |ns|)
    ensures |r| == |ns| && (Wf(ns) ==> Wf(r))
  {
    ns[p := ns[p].(right := c)]
  }

  function SetParent(ns: seq<NodeRec>, x: int, q: int): (r: seq<NodeRec>)
    requires 0 <= x < |ns| && (q == -1 || 0 <= q < x)
    ensures |r| == |ns| && (Wf(ns) ==> Wf(r))
  {
    ns[x := ns[x].(parent := q)]
  }

  function SetData(ns: seq<NodeRec>, x: int, d: int): (r: seq<NodeRec>)
    requires 0 <= x < |ns|
    ensures |r| == |ns| && (Wf(ns) ==> Wf(r))
  {
    ns[x := ns[x].(data := d)]
  }

  function SetCount(ns: seq<NodeRec>, x: int, c: int): (r: seq<NodeRec>)
    requires 0 <= x < |ns| && c >= 1
    ensures |r| == |ns| && (Wf(ns) ==> Wf(r))
  {
    ns[x := ns[x].(count := c)]
  }

  // ---------------------------------------------------------------------
  // Successor walks

  function LeftMost(ns: seq<NodeRec>, i: int): (r: int)
    requires Wf(ns) && 0 <= i < |ns|
    ensures i <= r < |ns| && ns[r].left == -1
    decreases |ns| - i
  {
    if ns[i].left == -1 then i else LeftMost(ns, ns[i].left)
  }

  /** The upward part of `successor`: climb while coming from a right child. */
  function Climb(ns: seq<NodeRec>, x: int): (r: int)
    requires Wf(ns) && 0 <= x < |ns|
    ensures Ref(ns, r)
    decreases x
  {
    var p := ns[x].parent;
    if p == -1 then -1 else if ns[p].right == x then Climb(ns, p) else p
  }

  /** The upward part of the iterator's `next`: climb until arriving from a
      left child. */
  function IterClimb(ns: seq<NodeRec>, x: int): (r: int)
    requires Wf(ns) && 0 <= x < |ns|
    ensures Ref(ns, r)
    decreases x
  {
    var p := ns[x].parent;
    if p == -1 then -1 else if ns[p].left == x then p else IterClimb(ns, p)
  }

  function Successor(ns: seq<NodeRec>, x: int): (r: int)
    requires Wf(ns) && 0 <= x < |ns|
    ensures Ref(ns, r)
  {
    if ns[x].right != -1 then LeftMost(ns, ns[x].right) else Climb(ns, x)
  }

  function IterSuccessor(ns: seq<NodeRec>, x: int): (r: int)
    requires Wf(ns) && 0 <= x < |ns|
    ensures Ref(ns, r)
  {
    if ns[x].right != -1 then LeftMost(ns, ns[x].right) else IterClimb(ns, x)
  }
}
