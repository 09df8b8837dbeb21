/** The set engine of ABTreeSet: a binary search tree of mutable nodes with
    `left`, `right` and `parent` links and a cached `count`, an optional alpha
    weight-balance check on `add` and `remove`, and a median-first rebuild.

    The Java Node objects are the records of the arena `nodes`; a reference
    to a node is its index and `null` is -1. Nodes are never freed, so the
    arena only grows and every reference stays valid. */
module SetEngine {
  import opened Trees
  import opened Arena
  import opened Insertion
  import opened Rebuild
  import opened Removal
  import opened Rendering

  /** The Java exceptions the engine can raise. `StackOverflow` stands for
      the JVM running out of stack in the recursion add -> rebalance ->
      rebalanceHelper -> add. */
  datatype Exc = NullPointer | IndexOutOfBounds | StackOverflow | NoSuchElement | IllegalState

  datatype Outcome<T> = Ok(value: T) | Throw(exc: Exc)

  /** A Java reference argument that may be null. */
  datatype Option<T> = None | Some(value: T)

  /** The store after a successful `add` of `e` below `c`, before any
      rebalance: the new leaf hangs in `c`'s slot facing `e`, and every node
      on the parent walk from `c` has its count raised by one. */
  function Attached(ns: seq<NodeRec>, c: int, e: int): (r: seq<NodeRec>)
    requires Wf(ns) && 0 <= c < |ns|
    ensures Wf(r) && |r| == |ns| + 1
  {
    var ns2 := AddLeaf(ns, c, ns[c].data > e, e);
    BumpWf(ns2, Chain(ns2, c));
    Bump(ns2, Chain(ns2, c))
  }

  /** Attaching moves no element: the old nodes keep theirs and the new
      leaf holds `e`. */
  lemma {:induction false} AttachedData(ns: seq<NodeRec>, c: int, e: int)
    requires Wf(ns) && 0 <= c < |ns|
    ensures forall i :: 0 <= i < |ns| ==> Attached(ns, c, e)[i].data == ns[i].data
    ensures Attached(ns, c, e)[|ns|].data == e
  {
    var ns2 := AddLeaf(ns, c, ns[c].data > e, e);
    BumpFacts(ns2, Chain(ns2, c));
  }

  /** The node `add` hands to `rebalance` (-1 for none): with self-balancing
      on, the last heavy node met on the walk from `c` to the root. */
  function Trigger(ns: seq<NodeRec>, c: int, size: int, selfbalance: bool, top: int, bottom: int): int
    requires Wf(ns) && Ref(ns, c)
  {
    if selfbalance then Highest(ns, c, size, top, bottom, -1) else -1
  }

  /** A clean `add` of an absent element is BST insertion: it keeps the tree
      exact and adds the element to its keys. */
  lemma {:induction false} AddExact(ns: seq<NodeRec>, root: int, e: int)
    requires Wf(ns) && 0 <= root < |ns| && Find(Sub(ns, root), e) == -1
    ensures var c := EndNode(Sub(ns, root), e).id;
      0 <= c < |ns| &&
      (Exact(ns, root, -1) ==>
        && Exact(Attached(ns, c, e), root, -1)
        && Keys(Sub(Attached(ns, c, e), root)) == Keys(Sub(ns, root)) + {e})
  {
    AttachPoint(ns, root, e);
    var c := EndNode(Sub(ns, root), e).id;
    if Exact(ns, root, -1) {
      var ns2 := AddLeaf(ns, c, ns[c].data > e, e);
      AttachExact(ns, root, e, c, ns2, Attached(ns, c, e));
      InsertKeys(Sub(ns, root), |ns|, e);
    }
  }

  /** Recounting a fresh leaf changes nothing: its spines are empty. */
  lemma {:induction false} LeafRecount(ns: seq<NodeRec>, n: int)
    requires Wf(ns) && 0 <= n < |ns|
    requires ns[n].left == -1 && ns[n].right == -1 && ns[n].count == 1
    ensures ns[n := ns[n].(count := SpineCount(ns, n))] == ns
  {
    assert ns[n].(count := SpineCount(ns, n)) == ns[n];
  }

  /** One step of the walk of `add`: the parent `p` of `t` gets its count
      raised, after which the raised nodes are the walk up to `p`. */
  lemma {:induction false} WalkStep(ns2: seq<NodeRec>, c: int, t: int, nodes: seq<NodeRec>)
    requires Wf(ns2) && 0 <= c < |ns2| && 0 <= t < |ns2| && ns2[t].parent != -1
    requires Chain(ns2, ns2[t].parent) <= Chain(ns2, c)
    requires nodes == Bump(ns2, Chain(ns2, c) - Chain(ns2, ns2[t].parent))
    ensures var p := ns2[t].parent;
      var nodes2 := nodes[p := nodes[p].(count := nodes[p].count + 1)];
      && Ref(ns2, ns2[p].parent)
      && Chain(ns2, ns2[p].parent) <= Chain(ns2, c)
      && nodes2 == Bump(ns2, Chain(ns2, c) - Chain(ns2, ns2[p].parent))
      && Wf(nodes2) && |nodes2| == |ns2| && nodes2[p].parent == ns2[p].parent
  {
    var p := ns2[t].parent;
    var B := Chain(ns2, c) - Chain(ns2, p);
    var B2 := Chain(ns2, c) - Chain(ns2, ns2[p].parent);
    ChainTail(ns2, p);
    SetStep(Chain(ns2, c), Chain(ns2, p), Chain(ns2, ns2[p].parent), p);
    BumpStep(ns2, B, B2, p);
    BumpAt(ns2, B2, p);
    BumpWf(ns2, B2);
  }

  /** The set algebra of one walk step: removing a shorter tail of the walk
      leaves one more node. */
  lemma {:induction false} SetStep(C: set<int>, P: set<int>, PP: set<int>, p: int)
    requires P == {p} + PP && p !in PP && P <= C
    ensures PP <= C && p !in C - P && (C - P) + {p} == C - PP
  {
  }

  /** The test of the walk at `p` sees the counts the finished walk leaves,
      so the last heavy node the walk remembers is the one `Highest` finds
      on the final store. */
  lemma {:induction false} WalkTest(ns2: seq<NodeRec>, c: int, p: int, size: int, top: int, bottom: int, acc: int)
    requires Wf(ns2) && 0 <= c < |ns2| && 0 <= p < |ns2|
    ensures var ns3 := Bump(ns2, Chain(ns2, c));
      var nodes2 := Bump(ns2, Chain(ns2, c) - Chain(ns2, ns2[p].parent));
      && Wf(nodes2) && Wf(ns3)
      && Highest(ns3, p, size, top, bottom, acc)
         == Highest(ns3, ns2[p].parent, size, top, bottom,
                    if Heavy(nodes2, p, size, top, bottom) then p else acc)
  {
    BumpAt(ns2, Chain(ns2, c), p);
    HeavyOnWalk(ns2, c, p, size, top, bottom);
  }

  /** The walk of `add` from `t` to the root as Java's loop performs it:
      each parent gets its count raised and, with self-balancing on, is
      remembered when the balance test then finds it heavy. The result is
      the final store and the last heavy node remembered (`acc` if none). */
  function AddWalk(ns: seq<NodeRec>, t: int, sb: bool, size: int, top: int, bottom: int, acc: int): (seq<NodeRec>, int)
    requires Wf(ns) && 0 <= t < |ns|
    decreases t
  {
    var p := ns[t].parent;
    if p == -1 then (ns, acc)
    else
      var ns2 := ns[p := ns[p].(count := ns[p].count + 1)];
      assert Wf(ns2) by {
        assert forall i :: 0 <= i < |ns| ==>
          ns2[i].left == ns[i].left && ns2[i].right == ns[i].right
          && ns2[i].parent == ns[i].parent && ns2[i].count >= ns[i].count;
      }
      AddWalk(ns2, p, sb, size, top, bottom, if sb && Heavy(ns2, p, size, top, bottom) then p else acc)
  }

  /** Java's walk from the new leaf raises exactly the ancestors of the
      leaf's parent `c` and reports the node `Trigger` names. */
  lemma {:induction false} AddWalkSpec(ns2: seq<NodeRec>, c: int, t: int, nodes: seq<NodeRec>,
                                        sb: bool, size: int, top: int, bottom: int, acc: int)
    requires Wf(ns2) && 0 <= c < |ns2| && 0 <= t < |ns2|
    requires Chain(ns2, ns2[t].parent) <= Chain(ns2, c)
    requires nodes == Bump(ns2, Chain(ns2, c) - Chain(ns2, ns2[t].parent))
    ensures Wf(nodes)
    ensures var ns3 := Bump(ns2, Chain(ns2, c));
      AddWalk(nodes, t, sb, size, top, bottom, acc)
        == (ns3, if sb then Highest(ns3, ns2[t].parent, size, top, bottom, acc) else acc)
    decreases t
  {
    var p := ns2[t].parent;
    var ns3 := Bump(ns2, Chain(ns2, c));
    BumpWf(ns2, Chain(ns2, c) - Chain(ns2, p));
    BumpWf(ns2, Chain(ns2, c));
    assert nodes[t].parent == p by {
      BumpAt(ns2, Chain(ns2, c) - Chain(ns2, p), t);
    }
    if p == -1 {
      assert Chain(ns2, c) - Chain(ns2, p) == Chain(ns2, c);
      assert AddWalk(nodes, t, sb, size, top, bottom, acc) == (nodes, acc);
    } else {
      WalkStep(ns2, c, t, nodes);
      var nodes2 := nodes[p := nodes[p].(count := nodes[p].count + 1)];
      var acc2 := if sb && Heavy(nodes2, p, size, top, bottom) then p else acc;
      assert AddWalk(nodes, t, sb, size, top, bottom, acc) == AddWalk(nodes2, p, sb, size, top, bottom, acc2);
      AddWalkSpec(ns2, c, p, nodes2, sb, size, top, bottom, acc2);
      if sb {
        WalkTest(ns2, c, p, size, top, bottom, acc);
      }
    }
  }

  /** The store `ns2` extends `ns` and every old node keeps its element and
      its parent link: what a clean `add` leaves of the nodes it found. */
  predicate Kept(ns: seq<NodeRec>, ns2: seq<NodeRec>)
  {
    |ns| <= |ns2| && forall i :: 0 <= i < |ns| ==> ns2[i].data == ns[i].data && ns2[i].parent == ns[i].parent
  }

  lemma {:induction false} KeptTrans(a: seq<NodeRec>, b: seq<NodeRec>, c: seq<NodeRec>)
    requires Kept(a, b) && Kept(b, c)
    ensures Kept(a, c)
  {
  }

  lemma {:induction false} AttachedKept(ns: seq<NodeRec>, c: int, e: int)
    requires Wf(ns) && 0 <= c < |ns|
    ensures Kept(ns, Attached(ns, c, e))
  {
    var ns2 := AddLeaf(ns, c, ns[c].data > e, e);
    BumpFacts(ns2, Chain(ns2, c));
  }

  /** The elements of the nodes the list `l` names at positions `start` to
      `end`: what the rebuild of that range adds. */
  function Listed(ns: seq<NodeRec>, l: seq<int>, start: int, end: int): set<int>
  {
    set i | start <= i <= end && 0 <= i < |l| && 0 <= l[i] < |ns| :: ns[l[i]].data
  }

  /** Kept nodes list the same elements. */
  lemma {:induction false} ListedKept(ns: seq<NodeRec>, ns2: seq<NodeRec>, l: seq<int>, start: int, end: int)
    requires Kept(ns, ns2) && forall i :: 0 <= i < |l| ==> 0 <= l[i] < |ns|
    ensures Listed(ns2, l, start, end) == Listed(ns, l, start, end)
  {
    forall x | x in Listed(ns2, l, start, end)
      ensures x in Listed(ns, l, start, end)
    {
      var i :| start <= i <= end && 0 <= i < |l| && 0 <= l[i] < |ns2| && ns2[l[i]].data == x;
      assert ns[l[i]].data == x;
    }
  }

  /** A range lists its midpoint's element and those of its two halves. */
  lemma {:induction false} ListedSplit(ns: seq<NodeRec>, l: seq<int>, start: int, middle: int, end: int)
    requires 0 <= start <= middle <= end < |l| && 0 <= l[middle] < |ns|
    ensures Listed(ns, l, start, end)
      == {ns[l[middle]].data}
         + (if middle != start then Listed(ns, l, start, middle - 1) else {})
         + (if middle != end then Listed(ns, l, middle + 1, end) else {})
  {
    var L := if middle != start then Listed(ns, l, start, middle - 1) else {};
    var R := if middle != end then Listed(ns, l, middle + 1, end) else {};
    forall x | x in Listed(ns, l, start, end)
      ensures x in {ns[l[middle]].data} + L + R
    {
      var i :| start <= i <= end && 0 <= i < |l| && 0 <= l[i] < |ns| && ns[l[i]].data == x;
      if i < middle {
        assert x in Listed(ns, l, start, middle - 1);
      } else if i > middle {
        assert x in Listed(ns, l, middle + 1, end);
      }
    }
  }

  /** The elements listed in the two halves around `middle`. */
  function ListedHalves(ns: seq<NodeRec>, l: seq<int>, start: int, middle: int, end: int): set<int>
  {
    (if middle != start then Listed(ns, l, start, middle - 1) else {})
    + (if middle != end then Listed(ns, l, middle + 1, end) else {})
  }

  /** The keys of one rebuilt range: the midpoint's `add` gains its
      element, the two halves then gain the elements they list, and together
      that is what the whole range lists. */
  lemma {:induction false} RangeKeys(ns0: seq<NodeRec>, ns1: seq<NodeRec>, l: seq<int>, start: int, middle: int, end: int,
                                     K0: set<int>, K1: set<int>, K2: set<int>)
    requires Kept(ns0, ns1) && 0 <= start <= middle <= end < |l|
    requires forall i :: 0 <= i < |l| ==> 0 <= l[i] < |ns0|
    requires K1 == K0 + {ns0[l[middle]].data}
    requires K2 == K1 + ListedHalves(ns1, l, start, middle, end)
    ensures K2 == K0 + Listed(ns0, l, start, end)
  {
    ListedSplit(ns0, l, start, middle, end);
    ListedKept(ns0, ns1, l, start, middle - 1);
    ListedKept(ns0, ns1, l, middle + 1, end);
  }

  /** The keys after both halves of a range are rebuilt: each half gains
      the elements it lists, and the right half lists the same elements at
      the time it runs. */
  lemma {:induction false} HalvesKeys(ns0: seq<NodeRec>, ns1: seq<NodeRec>, l: seq<int>, start: int, middle: int, end: int,
                                      K0: set<int>, K1: set<int>, K2: set<int>)
    requires Kept(ns0, ns1)
    requires forall i :: 0 <= i < |l| ==> 0 <= l[i] < |ns0|
    requires middle != start ==> K1 == K0 + Listed(ns0, l, start, middle - 1)
    requires middle == start ==> K1 == K0
    requires K2 == K1 + (if middle != end then Listed(ns1, l, middle + 1, end) else {})
    ensures K2 == K0 + ListedHalves(ns0, l, start, middle, end)
  {
    ListedKept(ns0, ns1, l, middle + 1, end);
  }

  /** The in-order list of a subtree lists exactly its keys. */
  lemma {:induction false} ListedAll(ns: seq<NodeRec>, b: int)
    requires Wf(ns) && 0 <= b < |ns|
    ensures Listed(ns, Inorder(Sub(ns, b)), 0, Size(Sub(ns, b)) - 1) == Keys(Sub(ns, b))
  {
    var t := Sub(ns, b);
    var l := Inorder(t);
    InorderData(ns, b);
    InorderShape(t);
    forall x
      ensures x in Listed(ns, l, 0, Size(t) - 1) <==> x in Keys(t)
    {
      if x in Keys(t) {
        assert x in InorderKeys(t);
        var i :| 0 <= i < |InorderKeys(t)| && InorderKeys(t)[i] == x;
        assert ns[l[i]].data == x;
      }
      if x in Listed(ns, l, 0, Size(t) - 1) {
        var i :| 0 <= i < |l| && 0 <= l[i] < |ns| && ns[l[i]].data == x;
        assert InorderKeys(t)[i] == x;
      }
    }
  }

  /** Hanging an exact root-level subtree below `p`, a node older than its
      root, leaves the subtree as it was and exact below its new parent. */
  lemma {:induction false} HangExact(ns: seq<NodeRec>, p: int, x: int, isLeft: bool)
    requires Wf(ns) && 0 <= p < x < |ns| && Exact(ns, x, -1)
    ensures Wf(Hang(ns, p, x, isLeft))
    ensures Sub(Hang(ns, p, x, isLeft), x) == Sub(ns, x)
    ensures Exact(Hang(ns, p, x, isLeft), x, p)
  {
    var h := Hang(ns, p, x, isLeft);
    SubIds(ns, x);
    SubFrame(ns, h, x);
    ParentsReroot(ns, h, Sub(ns, x), -1, p);
    CountsFrame(ns, h, Sub(ns, x));
  }

  class ABTreeSet {
    var nodes: seq<NodeRec>
    var root: int
    var size: int
    var selfbalance: bool
    var top: int
    var bottom: int
    /** The shared lists `inorderList` and `preorderList` rebuild: node
        references. */
    var inorder: seq<int>
    var preorder: seq<int>

    /** What every operation keeps, whatever the links look like: the arena
        order of `Wf`, a valid root reference, and valid references in the
        shared lists. */
    ghost predicate Valid()
      reads this
    {
      Wf(nodes) && Ref(nodes, root)
      && (forall i :: 0 <= i < |inorder| ==> 0 <= inorder[i] < |nodes|)
      && (forall i :: 0 <= i < |preorder| ==> Ref(nodes, preorder[i]))
    }

    /** The tree the `root` field holds. */
    ghost function Tree(): Tree
      reads this
      requires Valid()
    {
      Sub(nodes, root)
    }

    /** The default constructor: not self-balancing, `top` and `bottom` keep
        Java's default 0. */
    constructor ()
      ensures Valid() && nodes == [] && root == -1 && size == 0
      ensures !selfbalance && top == 0 && bottom == 0
      ensures inorder == [] && preorder == []
    {
      nodes, root, size := [], -1, 0;
      selfbalance, top, bottom := false, 0, 0;
      inorder, preorder := [], [];
    }

    /** Self-balancing with alpha = 2/3 when asked, else as the default. */
    constructor WithBalance(isSelfBalancing: bool)
      ensures Valid() && nodes == [] && root == -1 && size == 0
      ensures selfbalance == isSelfBalancing
      ensures top == (if isSelfBalancing then 2 else 0)
      ensures bottom == (if isSelfBalancing then 3 else 0)
      ensures inorder == [] && preorder == []
    {
      nodes, root, size := [], -1, 0;
      selfbalance := isSelfBalancing;
      top, bottom := 0, 0;
      if isSelfBalancing {
        top, bottom := 2, 3;
      }
      inorder, preorder := [], [];
    }

    /** alpha = top / bottom; the documented range check 1/2 < alpha < 1 is
        not performed, so any pair is kept. */
    constructor WithAlpha(isSelfBalancing: bool, t: int, b: int)
      ensures Valid() && nodes == [] && root == -1 && size == 0
      ensures selfbalance == isSelfBalancing
      ensures top == (if isSelfBalancing then t else 0)
      ensures bottom == (if isSelfBalancing then b else 0)
      ensures inorder == [] && preorder == []
    {
      nodes, root, size := [], -1, 0;
      selfbalance := isSelfBalancing;
      top, bottom := 0, 0;
      if isSelfBalancing {
        top, bottom := t, b;
      }
      inorder, preorder := [], [];
    }

    method SetSelfBalance(isSelfBalance: bool)
      modifies this
      ensures selfbalance == isSelfBalance
      ensures nodes == old(nodes) && root == old(root) && size == old(size)
      ensures top == old(top) && bottom == old(bottom)
      ensures inorder == old(inorder) && preorder == old(preorder)
    {
      selfbalance := isSelfBalance;
    }

    /** The descent of getBSTNode: the node on the search path whose key
        equals `e`, or -1. */
    method GetBSTNode(e: int) returns (r: int)
      requires Valid()
      ensures r == Find(Tree(), e)
      ensures Ref(nodes, r) && (r != -1 ==> nodes[r].data == e && r in Ids(Tree()))
      ensures BST(Tree()) ==> (r == -1 <==> e !in Keys(Tree()))
    {
      var current := root;
      while current != -1
        invariant Ref(nodes, current)
        invariant Find(Sub(nodes, current), e) == Find(Tree(), e)
        decreases if current < 0 then 0 else |nodes| - current
      {
        var comp := nodes[current].data;
        if comp == e {
          FindArena(nodes, root, e);
          return current;
        } else if comp > e {
          current := nodes[current].left;
        } else {
          current := nodes[current].right;
        }
      }
      r := -1;
      FindArena(nodes, root, e);
    }

    /** updateCount: the count becomes one plus the lengths of the leftmost
        and the rightmost spine below `n` (not the subtree size). */
    method UpdateCount(n: int)
      requires Wf(nodes) && 0 <= n < |nodes|
      modifies this`nodes
      ensures nodes == old(nodes)[n := old(nodes)[n].(count := SpineCount(old(nodes), n))]
    {
      ghost var ns0 := nodes;
      nodes := nodes[n := nodes[n].(count := 1)];
      var left, right := n, n;
      while nodes[left].left != -1
        invariant |nodes| == |ns0| && 0 <= left < |nodes|
        invariant nodes == ns0[n := ns0[n].(count := nodes[n].count)]
        invariant nodes[n].count == 1 + LeftSpine(ns0, n) - LeftSpine(ns0, left)
        decreases |nodes| - left
      {
        nodes := nodes[n := nodes[n].(count := nodes[n].count + 1)];
        left := nodes[left].left;
      }
      while nodes[right].right != -1
        invariant |nodes| == |ns0| && 0 <= right < |nodes|
        invariant nodes == ns0[n := ns0[n].(count := nodes[n].count)]
        invariant nodes[n].count == 1 + LeftSpine(ns0, n) + RightSpine(ns0, n) - RightSpine(ns0, right)
        decreases |nodes| - right
      {
        nodes := nodes[n := nodes[n].(count := nodes[n].count + 1)];
        right := nodes[right].right;
      }
    }

    /** remove: finds the node holding `e`, unlinks it and, with
        self-balancing on, tests every node on the walk from the removed
        node's former parent to the root, rebuilding the last heavy one met.
        `size` is never decremented. */
    method Remove(e: int, fuel: nat) returns (o: Outcome<bool>, ghost clean: bool)
      requires Valid()
      modifies this
      ensures Valid() && |nodes| >= old(|nodes|)
      ensures selfbalance == old(selfbalance) && top == old(top) && bottom == old(bottom)
      ensures size >= old(size)
      ensures !clean && o.Ok? ==> size > old(size)
      ensures Find(old(Tree()), e) == -1 ==> o == Ok(false) && clean && unchanged(this)
      ensures Find(old(Tree()), e) != -1 ==>
        var n := Find(old(Tree()), e);
        0 <= n < old(|nodes|) &&
        var u := Unlink(old(nodes), n);
        && (u.npe ==>
              o == Throw(NullPointer) && clean && nodes == u.ns && root == old(root) && size == old(size))
        && (!u.npe ==>
              && (clean <==> Trigger(u.ns, old(nodes)[n].parent, old(size), old(selfbalance), old(top), old(bottom)) == -1)
              && (clean ==>
                    o == Ok(true) && nodes == u.ns && root == old(root) && size == old(size)
                    && inorder == old(inorder) && preorder == old(preorder)))
    {
      var n := GetBSTNode(e);
      if n == -1 {
        return Ok(false), true;
      }
      var parent := nodes[n].parent;
      var u := UnlinkNode(n);
      if u.Throw? {
        return Throw(u.exc), true;
      }
      var unbalanced, highest := RemoveWalk(parent);
      clean := !unbalanced;
      o := Ok(true);
      if unbalanced {
        var r, _ := Rebalance(highest, fuel);
        if r.Throw? {
          o := Throw(r.exc);
        }
      }
    }

    /** The walk of `remove` from `p` to the root: with self-balancing on,
        the last heavy node met is reported; no count changes. */
    method RemoveWalk(p: int) returns (unbalanced: bool, highest: int)
      requires Wf(nodes) && Ref(nodes, p)
      ensures highest == Trigger(nodes, p, size, selfbalance, top, bottom)
      ensures unbalanced <==> highest != -1
      ensures -1 <= highest < |nodes|
    {
      var parent := p;
      unbalanced, highest := false, -1;
      while parent != -1
        invariant Ref(nodes, parent) && -1 <= highest < |nodes|
        invariant unbalanced <==> highest != -1
        invariant !selfbalance ==> highest == -1
        invariant selfbalance ==>
          Highest(nodes, parent, size, top, bottom, highest) == Highest(nodes, p, size, top, bottom, -1)
        decreases parent + 1
      {
        if selfbalance {
          var heavy := IsHeavy(parent);
          if heavy {
            unbalanced := true;
            highest := parent;
          }
        }
        parent := nodes[parent].parent;
      }
    }

    /** The loop closing every branch of unlinkNode: updateCount on `p` and
        on each node above it. */
    method RecountUp(p: int)
      requires Wf(nodes) && Ref(nodes, p)
      modifies this`nodes
      ensures nodes == RecountWalk(old(nodes), p)
    {
      var parent := p;
      while parent != -1
        invariant Wf(nodes) && Ref(nodes, parent)
        invariant RecountWalk(nodes, parent) == RecountWalk(old(nodes), p)
        decreases parent + 1
      {
        UpdateCount(parent);
        parent := nodes[parent].parent;
      }
    }

    /** unlinkNode, branch for branch: see `Removal.Unlink`. The only
        exception is the NullPointerException of a parentless node whose
        branch writes through its parent. */
    method UnlinkNode(n: int) returns (o: Outcome<()>)
      requires Wf(nodes) && 0 <= n < |nodes|
      modifies this`nodes
      ensures nodes == Unlink(old(nodes), n).ns
      ensures o.Throw? <==> Unlink(old(nodes), n).npe
      ensures o.Throw? ==> o.exc == NullPointer
      decreases if nodes[n].left != -1 && nodes[n].right != -1 then 1 else 0
    {
      var p := nodes[n].parent;
      var leftChild := false;
      if p != -1 {
        if nodes[p].left != -1 {
          leftChild := nodes[nodes[p].left].data == nodes[n].data;
        }
      }
      var l, r := nodes[n].left, nodes[n].right;
      if r == -1 && l == -1 {
        if leftChild {
          nodes := SetLeft(nodes, p, -1);
        } else if p == -1 {
          return Throw(NullPointer);
        } else {
          nodes := SetRight(nodes, p, -1);
        }
        RecountUp(p);
        nodes := SetParent(nodes, n, -1);
      } else if r == -1 && l != -1 {
        if leftChild {
          nodes := SetLeft(nodes, p, l);
        } else if p == -1 {
          return Throw(NullPointer);
        } else {
          nodes := SetRight(nodes, p, r);
        }
        nodes := SetParent(nodes, l, p);
        RecountUp(p);
        nodes := SetParent(nodes, n, -1);
        nodes := SetLeft(nodes, n, -1);
      } else if r != -1 && l == -1 {
        if leftChild {
          nodes := SetLeft(nodes, p, r);
        } else {
          nodes := SetParent(nodes, r, p);
        }
        RecountUp(p);
        nodes := SetRight(nodes, n, -1);
        nodes := SetParent(nodes, n, -1);
      } else {
        var s := Successor(n);
        nodes := SetData(nodes, n, nodes[s].data);
        o := UnlinkNode(s);
        return;
      }
      o := Ok(());
    }

    /** successor: the leftmost node of the right subtree when there is one,
        else the first ancestor reached from a left child, else -1. */
    method Successor(x: int) returns (r: int)
      requires Wf(nodes) && 0 <= x < |nodes|
      ensures r == Arena.Successor(nodes, x)
    {
      if nodes[x].right != -1 {
        var current := nodes[x].right;
        while nodes[current].left != -1
          invariant 0 <= current < |nodes|
          invariant LeftMost(nodes, current) == LeftMost(nodes, nodes[x].right)
          decreases |nodes| - current
        {
          current := nodes[current].left;
        }
        return current;
      }
      var node := x;
      var n := nodes[x].parent;
      while n != -1 && node == nodes[n].right
        invariant 0 <= node < |nodes| && n == nodes[node].parent
        invariant Climb(nodes, node) == Climb(nodes, x)
        decreases node
      {
        node := n;
        n := nodes[n].parent;
      }
      r := n;
    }

    /** inorderHelper: appends the subtree's nodes in left-node-right order
        to the shared list. */
    method InorderHelper(r: int)
      requires Valid() && Ref(nodes, r)
      modifies this`inorder
      ensures Valid()
      ensures inorder == old(inorder) + Inorder(Sub(nodes, r))
      decreases if r < 0 then 0 else |nodes| - r
    {
      if r == -1 {
        return;
      }
      ghost var s0 := inorder;
      ghost var L, R := Inorder(Sub(nodes, nodes[r].left)), Inorder(Sub(nodes, nodes[r].right));
      assert Inorder(Sub(nodes, r)) == L + [r] + R;
      if nodes[r].left != -1 {
        InorderHelper(nodes[r].left);
      } else {
        assert L == [];
      }
      assert inorder == s0 + L;
      inorder := inorder + [r];
      if nodes[r].right != -1 {
        InorderHelper(nodes[r].right);
      } else {
        assert R == [];
      }
      Regroup(s0, r, L, R);
    }

    /** inorderList: the subtree's nodes, each once, left-node-right; their
        keys ascend under search-tree order. */
    method InorderList(r: int) returns (l: seq<int>)
      requires Valid() && Ref(nodes, r)
      modifies this`inorder
      ensures Valid()
      ensures l == inorder == Inorder(Sub(nodes, r))
      ensures |l| == Size(Sub(nodes, r)) == |InorderKeys(Sub(nodes, r))|
      ensures forall i :: 0 <= i < |l| ==> 0 <= l[i] < |nodes| && nodes[l[i]].data == InorderKeys(Sub(nodes, r))[i]
      ensures BST(Sub(nodes, r)) ==> forall i, j :: 0 <= i < j < |l| ==> nodes[l[i]].data < nodes[l[j]].data
      ensures Distinct(Sub(nodes, r)) ==> forall i, j :: 0 <= i < j < |l| ==> l[i] != l[j]
    {
      inorder := [];
      InorderHelper(r);
      l := inorder;
      InorderShape(Sub(nodes, r));
      InorderData(nodes, r);
      if BST(Sub(nodes, r)) { InorderAscending(Sub(nodes, r)); }
      if Distinct(Sub(nodes, r)) { InorderNoDuplicates(Sub(nodes, r)); }
    }

    /** preorderHelp: appends the node, then its left and right subtrees.
        The node is appended before it is dereferenced, so a null start
        leaves `[null]` in the list and throws. */
    method PreorderHelp(r: int) returns (o: Outcome<()>)
      requires Valid() && Ref(nodes, r)
      modifies this`preorder
      ensures Valid()
      ensures r == -1 ==> o == Throw(NullPointer) && preorder == old(preorder) + [-1]
      ensures r != -1 ==> o == Ok(()) && preorder == old(preorder) + Preorder(Sub(nodes, r))
      decreases if r < 0 then 0 else |nodes| - r
    {
      preorder := preorder + [r];
      if r == -1 {
        return Throw(NullPointer);
      }
      ghost var s0 := preorder;
      ghost var L, R := Preorder(Sub(nodes, nodes[r].left)), Preorder(Sub(nodes, nodes[r].right));
      assert Preorder(Sub(nodes, r)) == [r] + L + R;
      if nodes[r].left != -1 {
        o := PreorderHelp(nodes[r].left);
      } else {
        assert L == [];
      }
      assert preorder == s0 + L;
      if nodes[r].right != -1 {
        o := PreorderHelp(nodes[r].right);
      } else {
        assert R == [];
      }
      Regroup(old(preorder), r, L, R);
      o := Ok(());
    }

    /** preorderList: the subtree's nodes, each once, node-left-right. */
    method PreorderList(r: int) returns (o: Outcome<seq<int>>)
      requires Valid() && Ref(nodes, r)
      modifies this`preorder
      ensures Valid()
      ensures r == -1 ==> o == Throw(NullPointer) && preorder == [-1]
      ensures r != -1 ==> o == Ok(preorder) && preorder == Preorder(Sub(nodes, r))
      ensures r != -1 ==> |preorder| == Size(Sub(nodes, r)) && (forall x :: x in preorder <==> x in Ids(Sub(nodes, r)))
    {
      preorder := [];
      var h := PreorderHelp(r);
      if h.Throw? {
        return Throw(h.exc);
      }
      PreorderShape(Sub(nodes, r));
      o := Ok(preorder);
    }

    /** add: a null element throws; into an empty tree the element becomes
        the root; a present element changes nothing and yields false; else a
        new leaf is hung at the end of the search path, the counts on the
        walk up are raised, and the heavy node nearest the root, if any, is
        rebuilt. */
    method Add(e: Option<int>, fuel: nat) returns (o: Outcome<bool>, ghost clean: bool)
      requires Valid()
      modifies this
      ensures Valid() && |nodes| >= old(|nodes|)
      ensures selfbalance == old(selfbalance) && top == old(top) && bottom == old(bottom)
      ensures root == old(root) || root == -1 || old(|nodes|) <= root
      ensures o.Ok? ==> root != -1
      ensures size >= old(size)
      ensures !clean && o.Ok? ==> size > old(size) + 1
      ensures e == None ==> o == Throw(NullPointer) && clean && unchanged(this)
      ensures e.Some? && old(root) == -1 ==>
        && o == Ok(true) && clean
        && nodes == old(nodes) + [NodeRec(e.value, -1, -1, -1, 1)]
        && root == old(|nodes|) && size == old(size) + 1
        && inorder == old(inorder) && preorder == old(preorder)
      ensures e.Some? && old(root) != -1 && Find(old(Tree()), e.value) != -1 ==>
        o == Ok(false) && clean && unchanged(this)
      ensures e.Some? && old(root) != -1 && Find(old(Tree()), e.value) == -1 ==>
        var c := EndNode(old(Tree()), e.value).id;
        0 <= c < old(|nodes|) &&
        var ns3 := Attached(old(nodes), c, e.value);
        && (clean <==> Trigger(ns3, c, old(size) + 1, old(selfbalance), old(top), old(bottom)) == -1)
        && (clean ==>
              o == Ok(true) && nodes == ns3 && root == old(root) && size == old(size) + 1 &&
              inorder == old(inorder) && preorder == old(preorder))
        && (!clean && fuel == 0 ==>
              o == Throw(StackOverflow) && nodes == ns3 && root == old(root) && size == old(size) + 1)
      ensures e.Some? && clean && old(Exact(nodes, root, -1)) ==>
        Exact(nodes, root, -1) && Keys(Tree()) == old(Keys(Tree())) + {e.value}
      decreases fuel, 1, 1
    {
      if e.None? {
        return Throw(NullPointer), true;
      }
      var k := e.value;
      if root == -1 {
        AppendRootWf(nodes, k);
        nodes := nodes + [NodeRec(k, -1, -1, -1, 1)];
        root := |nodes| - 1;
        nodes := nodes[root := nodes[root].(count := 1)];
        size := size + 1;
        assert nodes == old(nodes) + [NodeRec(k, -1, -1, -1, 1)];
        SingleExact(nodes, root, k);
        return Ok(true), true;
      }
      o, clean := AddBelow(k, fuel);
    }

    /** The descent loop of `add`: it follows the search path from the
        root and either meets the element or stops at the node whose empty
        side faces it, which is where `EndNode` ends. */
    method AddSlot(k: int) returns (current: int, found: bool)
      requires Valid() && root != -1
      ensures found <==> Find(Tree(), k) != -1
      ensures !found ==>
        && 0 <= current < |nodes| && current == EndNode(Tree(), k).id
        && nodes[current].data != k
        && (nodes[current].data > k ==> nodes[current].left == -1)
        && (nodes[current].data < k ==> nodes[current].right == -1)
    {
      current := root;
      found := false;
      while true
        invariant 0 <= current < |nodes|
        invariant Find(Sub(nodes, current), k) == Find(Tree(), k)
        invariant EndNode(Sub(nodes, current), k) == EndNode(Tree(), k)
        decreases |nodes| - current
      {
        var comp := nodes[current].data;
        if comp == k {
          return current, true;
        } else if comp > k {
          if nodes[current].left == -1 {
            assert Sub(nodes, nodes[current].left) == Empty;
            return current, false;
          }
          current := nodes[current].left;
        } else {
          if nodes[current].right == -1 {
            assert Sub(nodes, nodes[current].right) == Empty;
            return current, false;
          }
          current := nodes[current].right;
        }
      }
    }

    /** The descent of `add` below a non-empty root: a present element
        changes nothing, an absent one is attached at the end of its search
        path. */
    method AddBelow(k: int, fuel: nat) returns (o: Outcome<bool>, ghost clean: bool)
      requires Valid() && root != -1
      modifies this
      ensures Valid() && |nodes| >= old(|nodes|)
      ensures selfbalance == old(selfbalance) && top == old(top) && bottom == old(bottom)
      ensures root == old(root) || root == -1 || old(|nodes|) <= root
      ensures o.Ok? ==> root != -1
      ensures size >= old(size)
      ensures !clean && o.Ok? ==> size > old(size) + 1
      ensures Find(old(Tree()), k) != -1 ==> o == Ok(false) && clean && unchanged(this)
      ensures Find(old(Tree()), k) == -1 ==>
        var c := EndNode(old(Tree()), k).id;
        0 <= c < old(|nodes|) &&
        var ns3 := Attached(old(nodes), c, k);
        && (clean <==> Trigger(ns3, c, old(size) + 1, old(selfbalance), old(top), old(bottom)) == -1)
        && (clean ==>
              o == Ok(true) && nodes == ns3 && root == old(root) && size == old(size) + 1 &&
              inorder == old(inorder) && preorder == old(preorder))
        && (!clean && fuel == 0 ==>
              o == Throw(StackOverflow) && nodes == ns3 && root == old(root) && size == old(size) + 1)
      ensures clean && old(Exact(nodes, root, -1)) ==>
        Exact(nodes, root, -1) && Keys(Tree()) == old(Keys(Tree())) + {k}
      decreases fuel, 1, 0
    {
      var current, found := AddSlot(k);
      if found {
        FindInTree(Tree(), k);
        return Ok(false), true;
      }
      ghost var c := EndNode(Tree(), k).id;
      assert current == c;
      AddExact(nodes, root, k);
      o, clean := Attach(current, k, fuel);
    }

    /** The leaf `add` creates: a new node for `k` becomes the child of `c`
        on the side facing `k`, and `size` grows by one. */
    method HangLeaf(c: int, k: int) returns (n: int)
      requires Wf(nodes) && 0 <= c < |nodes|
      modifies this`nodes, this`size
      ensures n == old(|nodes|)
      ensures nodes == AddLeaf(old(nodes), c, old(nodes)[c].data > k, k)
      ensures size == old(size) + 1
    {
      var isLeft := nodes[c].data > k;
      n := |nodes|;
      AttachSteps(nodes, c, isLeft, k);
      nodes := nodes + [NodeRec(k, -1, -1, -1, 1)];
      nodes := nodes[n := nodes[n].(parent := c)];
      if isLeft {
        nodes := nodes[c := nodes[c].(left := n)];
      } else {
        nodes := nodes[c := nodes[c].(right := n)];
      }
      size := size + 1;
    }

    /** The growth step of `add`: the new leaf hangs below `c`, its count
        is set, and the walk up raises the counts of its ancestors and
        reports the heavy node nearest the root. */
    method Grow(c: int, k: int) returns (unbalanced: bool, highest: int)
      requires Valid() && 0 <= c < |nodes|
      modifies this`nodes, this`size
      ensures Valid() && |nodes| == old(|nodes|) + 1
      ensures nodes == Attached(old(nodes), c, k) && size == old(size) + 1
      ensures highest == Trigger(nodes, c, size, selfbalance, top, bottom)
      ensures unbalanced <==> highest != -1
      ensures -1 <= highest < |nodes|
    {
      ghost var ns0 := nodes;
      var n := HangLeaf(c, k);
      LeafRecount(nodes, n);
      UpdateCount(n);
      unbalanced, highest := WalkUp(n, c);
      assert nodes == Attached(ns0, c, k);
    }

    /** The tail of `add` once the slot is found: hang the leaf, fix its
        count, walk up raising counts, and rebuild the heavy node nearest
        the root if there is one. Without fuel left for that rebuild the
        call ends in a stack overflow. */
    method Attach(c: int, k: int, fuel: nat) returns (o: Outcome<bool>, ghost clean: bool)
      requires Valid() && root != -1 && 0 <= c < |nodes| && nodes[c].data != k
      requires nodes[c].data > k ==> nodes[c].left == -1
      requires nodes[c].data < k ==> nodes[c].right == -1
      modifies this
      ensures Valid() && |nodes| > old(|nodes|)
      ensures selfbalance == old(selfbalance) && top == old(top) && bottom == old(bottom)
      ensures root == old(root) || root == -1 || old(|nodes|) <= root
      ensures o.Ok? ==> o.value && root != -1
      ensures size >= old(size)
      ensures !clean && o.Ok? ==> size > old(size) + 1
      ensures var ns3 := Attached(old(nodes), c, k);
        && (clean <==> Trigger(ns3, c, old(size) + 1, old(selfbalance), old(top), old(bottom)) == -1)
        && (clean ==>
              o == Ok(true) && nodes == ns3 && root == old(root) && size == old(size) + 1 &&
              inorder == old(inorder) && preorder == old(preorder))
        && (!clean && fuel == 0 ==>
              o == Throw(StackOverflow) && nodes == ns3 && root == old(root) && size == old(size) + 1)
      decreases fuel, 0, 0
    {
      var unbalanced, highest := Grow(c, k);
      o, clean := Ok(true), true;
      if unbalanced {
        clean := false;
        if fuel == 0 {
          o := Throw(StackOverflow);
        } else {
          var r, _ := Rebalance(highest, fuel - 1);
          if r.Throw? {
            o := Throw(r.exc);
          }
        }
      }
    }

    /** The balance test `add` and `remove` apply to a node on their walk:
        a present child whose count, scaled by `bottom`, reaches `size`
        scaled by `top`. */
    method IsHeavy(t: int) returns (heavy: bool)
      requires Wf(nodes) && 0 <= t < |nodes|
      ensures heavy == Heavy(nodes, t, size, top, bottom)
    {
      heavy := false;
      var l, r := nodes[t].left, nodes[t].right;
      if l != -1 && r != -1 {
        if nodes[l].count * bottom >= size * top || nodes[r].count * bottom >= size * top {
          heavy := true;
        }
      } else if l != -1 && r == -1 {
        if nodes[l].count * bottom >= size * top {
          heavy := true;
        }
      } else if l == -1 && r != -1 {
        if nodes[r].count * bottom >= size * top {
          heavy := true;
        }
      }
    }

    /** The walk of `add` from the new leaf `n` to the root: every node on
        it has its count raised by one and, with self-balancing on, is
        tested against the whole tree's size; the last heavy node met is
        reported. */
    method WalkUp(n: int, ghost c: int) returns (unbalanced: bool, highest: int)
      requires Wf(nodes) && 0 <= n < |nodes| && 0 <= c < |nodes| && nodes[n].parent == c
      modifies this`nodes
      ensures Wf(nodes) && nodes == Bump(old(nodes), Chain(old(nodes), c))
      ensures highest == Trigger(nodes, c, size, selfbalance, top, bottom)
      ensures unbalanced <==> highest != -1
      ensures -1 <= highest < |nodes|
    {
      ghost var ns2 := nodes;
      var tester := n;
      unbalanced := false;
      highest := -1;
      while nodes[tester].parent != -1
        invariant Wf(nodes) && 0 <= tester < |nodes|
        invariant AddWalk(nodes, tester, selfbalance, size, top, bottom, highest)
               == AddWalk(ns2, n, selfbalance, size, top, bottom, -1)
        invariant unbalanced <==> highest != -1
        invariant -1 <= highest < |nodes|
        decreases tester
      {
        tester := nodes[tester].parent;
        nodes := nodes[tester := nodes[tester].(count := nodes[tester].count + 1)];
        if selfbalance {
          var heavy := IsHeavy(tester);
          if heavy {
            unbalanced := true;
            highest := tester;
          }
        }
      }
      BumpNone(ns2);
      AddWalkSpec(ns2, c, n, ns2, selfbalance, size, top, bottom, -1);
    }

    /** rebalance: lists the subtree of `b` in order, empties `root`,
        re-adds every listed element median-first, and hangs the rebuilt
        subtree where `b` hung. The `root` field is left at the rebuilt
        subtree, and every re-add counts in `size`. When no nested rebuild
        runs and the rebuild succeeds, the rebuilt subtree is exact below
        `b`'s old parent, fills the slot `b` held there, and holds exactly the
        elements of the first `count` listed nodes: the keys of `b`'s subtree
        when `b`'s count is accurate. */
    method Rebalance(b: int, fuel: nat) returns (o: Outcome<()>, ghost clean: bool)
      requires Valid() && 0 <= b < |nodes|
      modifies this
      ensures Valid() && |nodes| >= old(|nodes|)
      ensures selfbalance == old(selfbalance) && top == old(top) && bottom == old(bottom)
      ensures root == -1 || old(|nodes|) <= root
      ensures o.Ok? ==> root != -1
      ensures size >= old(size)
      ensures o.Ok? ==> size > old(size)
      ensures clean ==> size <= old(size) + old(nodes[b].count)
      ensures clean && o.Ok? ==>
        var p := old(nodes[b].parent);
        && old(nodes[b].count) <= old(Size(Sub(nodes, b)))
        && Exact(nodes, root, p)
        && Keys(Tree()) == old(Listed(nodes, Inorder(Sub(nodes, b)), 0, nodes[b].count - 1))
        && (p != -1 ==> if old(nodes[p].left) == b then nodes[p].left == root else nodes[p].right == root)
      ensures clean && o.Ok? && old(nodes[b].count == Size(Sub(nodes, b))) ==>
        Keys(Tree()) == old(Keys(Sub(nodes, b)))
      decreases fuel, 3, 1
    {
      var l := InorderList(b);
      var left := false;
      if nodes[b].parent != -1 {
        if nodes[nodes[b].parent].left == b {
          left := true;
        }
      }
      ghost var ns0 := nodes;
      o, clean := RebuildListed(b, left, fuel);
      if clean && o.Ok? && ns0[b].count == Size(Sub(ns0, b)) {
        ListedAll(ns0, b);
      }
    }

    /** The part of rebalance after the listing: empties `root`, rebuilds
        from the first `count` entries of `inorder`, and on success hangs the
        rebuilt subtree below `b`'s parent, on the side `left` names. */
    method RebuildListed(b: int, left: bool, fuel: nat) returns (o: Outcome<()>, ghost clean: bool)
      requires Valid() && 0 <= b < |nodes|
      modifies this
      ensures Valid() && |nodes| >= old(|nodes|)
      ensures selfbalance == old(selfbalance) && top == old(top) && bottom == old(bottom)
      ensures root == -1 || old(|nodes|) <= root
      ensures o.Ok? ==> root != -1
      ensures size >= old(size)
      ensures o.Ok? ==> size > old(size)
      ensures clean ==> size <= old(size) + old(nodes[b].count)
      ensures clean && o.Ok? ==>
        var p := old(nodes[b].parent);
        && old(nodes[b].count) <= old(|inorder|)
        && Exact(nodes, root, p)
        && Keys(Tree()) == old(Listed(nodes, inorder, 0, nodes[b].count - 1))
        && (p != -1 ==> if left then nodes[p].left == root else nodes[p].right == root)
      decreases fuel, 3, 0
    {
      root := -1;
      ghost var mark := |nodes|;
      ghost var calls;
      o, clean, calls := RebalanceHelper(0, nodes[b].count - 1, fuel, mark);
      if o.Ok? {
        var p := nodes[b].parent;
        if p != -1 {
          ghost var ns1 := nodes;
          Relink(p, left);
          if clean {
            HangExact(ns1, p, root, left);
          }
        }
      }
    }

    /** The end of rebalance: the rebuilt subtree's root takes `p` as its
        parent and becomes `p`'s left or right child, as `b` was. */
    method Relink(p: int, left: bool)
      requires Valid() && 0 <= p < root
      modifies this`nodes
      ensures nodes == Hang(old(nodes), p, root, left)
      ensures Valid()
    {
      ghost var ns := nodes;
      nodes := nodes[root := nodes[root].(parent := p)];
      if left {
        nodes := nodes[p := nodes[p].(left := root)];
      } else {
        nodes := nodes[p := nodes[p].(right := root)];
      }
      assert nodes == Hang(ns, p, root, left);
    }

    /** The `add` made by the rebuild of the element of the node listed at
        position `middle` of `inorder`. The store grows, the flags stay, and
        `root` is either kept, cleared or moved to a node added now; when no
        nested rebuild runs, the list and every old node's element and parent
        stay, and an exact tree gains exactly that element. */
    method AddEntry(middle: int, fuel: nat) returns (o: Outcome<()>, ghost clean: bool)
      requires Valid() && 0 <= middle < |inorder|
      modifies this
      ensures Valid() && |nodes| >= old(|nodes|)
      ensures selfbalance == old(selfbalance) && top == old(top) && bottom == old(bottom)
      ensures root == old(root) || root == -1 || old(|nodes|) <= root
      ensures o.Ok? ==> root != -1
      ensures size >= old(size)
      ensures clean ==> size <= old(size) + 1
      ensures old(root) == -1 ==> o == Ok(()) && clean && size == old(size) + 1
      ensures clean ==> inorder == old(inorder) && Kept(old(nodes), nodes)
      ensures clean && old(Exact(nodes, root, -1)) ==>
        Exact(nodes, root, -1) && Keys(Tree()) == old(Keys(Tree())) + {old(nodes[inorder[middle]].data)}
      decreases fuel, 1, 2
    {
      ghost var ns0, root0 := nodes, root;
      var a;
      a, clean := Add(Some(nodes[inorder[middle]].data), fuel);
      o := if a.Throw? then Throw(a.exc) else Ok(());
      if clean && root0 != -1 && Find(Sub(ns0, root0), ns0[inorder[middle]].data) == -1 {
        AttachedKept(ns0, EndNode(Sub(ns0, root0), ns0[inorder[middle]].data).id, ns0[inorder[middle]].data);
      }
    }

    /** rebalanceHelper: adds the element of the listed node at the midpoint
        of the range, then rebuilds the left and the right half. `calls`
        records the list positions added, in order. When no nested rebuild
        runs and the range lies inside the list, an exact tree stays exact
        and gains exactly the elements the range lists. */
    method RebalanceHelper(start: int, end: int, fuel: nat, ghost mark: int)
      returns (o: Outcome<()>, ghost clean: bool, ghost calls: seq<int>)
      requires Valid() && 0 <= start <= end
      requires mark <= |nodes| && (root == -1 || mark <= root)
      modifies this
      ensures Valid() && |nodes| >= old(|nodes|)
      ensures selfbalance == old(selfbalance) && top == old(top) && bottom == old(bottom)
      ensures root == -1 || mark <= root
      ensures o.Ok? ==> root != -1 && calls == MedianOrder(start, end)
      ensures size >= old(size)
      ensures clean ==> size <= old(size) + (end - start + 1)
      ensures old(root) == -1 && o.Ok? ==> size > old(size)
      ensures clean ==> inorder == old(inorder) && Kept(old(nodes), nodes)
      ensures clean && o.Ok? ==> end < |inorder|
      ensures clean && o.Ok? && old(Exact(nodes, root, -1)) ==>
        Exact(nodes, root, -1)
        && Keys(Tree()) == old(Keys(Tree())) + Listed(old(nodes), old(inorder), start, end)
      decreases fuel, 2, end - start, 2
    {
      var middle := (start + end) / 2;
      if middle >= |inorder| {
        return Throw(IndexOutOfBounds), true, [];
      }
      assert start <= middle <= end;
      ghost var ns0, K0 := nodes, Keys(Tree());
      var a;
      a, clean := AddEntry(middle, fuel);
      if a.Throw? {
        return a, clean, [middle];
      }
      ghost var ns1, K1 := nodes, Keys(Tree());
      ghost var c;
      ghost var cs;
      o, c, cs := RebuildHalves(start, middle, end, fuel, mark);
      calls := [middle] + cs;
      if o.Ok? {
        MedianOrderJoin(start, end);
      }
      if clean && c && o.Ok? {
        KeptTrans(ns0, ns1, nodes);
        if old(Exact(nodes, root, -1)) {
          RangeKeys(ns0, ns1, inorder, start, middle, end, K0, K1, Keys(Tree()));
        }
      }
      clean := clean && c;
    }

    /** The two halves rebalanceHelper rebuilds after the midpoint's `add`:
        the range left of `middle` when `middle` is not `start`, then the
        right one. */
    method RebuildHalves(start: int, middle: int, end: int, fuel: nat, ghost mark: int)
      returns (o: Outcome<()>, ghost clean: bool, ghost calls: seq<int>)
      requires Valid() && 0 <= start <= middle <= end
      requires mark <= |nodes| && root != -1 && mark <= root
      modifies this
      ensures Valid() && |nodes| >= old(|nodes|)
      ensures selfbalance == old(selfbalance) && top == old(top) && bottom == old(bottom)
      ensures root == -1 || mark <= root
      ensures o.Ok? ==> root != -1
      ensures o.Ok? ==> calls == Halves(start, middle, end)
      ensures size >= old(size)
      ensures clean ==> size <= old(size) + (end - start)
      ensures clean ==> inorder == old(inorder) && Kept(old(nodes), nodes)
      ensures clean && o.Ok? ==> end < |inorder| || middle == end
      ensures clean && o.Ok? && old(Exact(nodes, root, -1)) ==>
        Exact(nodes, root, -1)
        && Keys(Tree()) == old(Keys(Tree())) + ListedHalves(old(nodes), old(inorder), start, middle, end)
      decreases fuel, 2, end - start, 1
    {
      ghost var ns0, K0 := nodes, Keys(Tree());
      ghost var cl: seq<int> := [];
      o, clean := Ok(()), true;
      if middle != start {
        o, clean, cl := RebalanceHelper(start, middle - 1, fuel, mark);
        if o.Throw? {
          return o, clean, cl;
        }
      }
      ghost var ns1, K1 := nodes, Keys(Tree());
      ghost var c;
      ghost var cr;
      o, c, cr := RebuildRight(middle, end, fuel, mark);
      calls := cl + cr;
      if clean && c {
        KeptTrans(ns0, ns1, nodes);
        if o.Ok? && old(Exact(nodes, root, -1)) {
          HalvesKeys(ns0, ns1, inorder, start, middle, end, K0, K1, Keys(Tree()));
        }
      }
      clean := clean && c;
    }

    /** The right half rebalanceHelper rebuilds, when `middle` is not `end`. */
    method RebuildRight(middle: int, end: int, fuel: nat, ghost mark: int)
      returns (o: Outcome<()>, ghost clean: bool, ghost calls: seq<int>)
      requires Valid() && 0 <= middle <= end
      requires mark <= |nodes| && root != -1 && mark <= root
      modifies this
      ensures Valid() && |nodes| >= old(|nodes|)
      ensures selfbalance == old(selfbalance) && top == old(top) && bottom == old(bottom)
      ensures root == -1 || mark <= root
      ensures o.Ok? ==> root != -1
      ensures o.Ok? ==> calls == if middle != end then MedianOrder(middle + 1, end) else []
      ensures size >= old(size)
      ensures clean ==> size <= old(size) + (end - middle)
      ensures clean ==> inorder == old(inorder) && Kept(old(nodes), nodes)
      ensures clean && o.Ok? ==> end < |inorder| || middle == end
      ensures clean && o.Ok? && old(Exact(nodes, root, -1)) ==>
        Exact(nodes, root, -1)
        && Keys(Tree()) == old(Keys(Tree())) + (if middle != end then Listed(old(nodes), old(inorder), middle + 1, end) else {})
      decreases fuel, 2, end - middle, 0
    {
      o, clean, calls := Ok(()), true, [];
      if middle != end {
        o, clean, calls := RebalanceHelper(middle + 1, end, fuel, mark);
      }
    }

    method Contains(e: int) returns (b: bool)
      requires Valid()
      ensures b <==> Find(Tree(), e) != -1
      ensures BST(Tree()) ==> (b <==> e in Keys(Tree()))
    {
      var n := GetBSTNode(e);
      b := n != -1;
    }

    /** toString: the layout of the whole tree from depth 0. */
    method ToString(render: int -> seq<char>) returns (s: seq<char>)
      requires Valid()
      ensures s == Layout(Tree(), 0, render)
      ensures (forall k :: '\n' !in render(k)) ==>
        Lines(s) == if root == -1 then 1 else Size(Tree()) + Gaps(Tree())
    {
      s := Level(root, [], 0, render);
      if forall k :: '\n' !in render(k) {
        LayoutLines(Tree(), 0, render);
      }
    }

    /** The indentation loop of level: four spaces per depth. */
    static method AppendIndent(build: seq<char>, height: nat) returns (b: seq<char>)
      ensures b == build + Indent(height)
    {
      b := build;
      for i := 0 to height
        invariant b == build + Indent(i)
      {
        b := b + "    ";
      }
    }

    /** level: appends four spaces per depth, then `null` for a missing
        node, or the element and, when the node has a child, the layouts
        of both children one level deeper. */
    method Level(r: int, build: seq<char>, height: nat, render: int -> seq<char>) returns (b: seq<char>)
      requires Wf(nodes) && Ref(nodes, r)
      ensures b == build + Layout(Sub(nodes, r), height, render)
      decreases if r == -1 then 0 else |nodes| - r
    {
      b := AppendIndent(build, height);
      if r == -1 {
        b := b + "null\n";
        assert Layout(Sub(nodes, r), height, render) == Indent(height) + "null\n";
        return;
      }
      var l, rt := nodes[r].left, nodes[r].right;
      ghost var sl, sr := Sub(nodes, l), Sub(nodes, rt);
      assert Sub(nodes, r) == Node(sl, r, nodes[r].data, sr);
      assert (sl != Empty || sr != Empty) == (l != -1 || rt != -1);
      ghost var kids := if l != -1 || rt != -1 then Layout(sl, height + 1, render) + Layout(sr, height + 1, render) else [];
      b := b + render(nodes[r].data) + "\n";
      ghost var head := b;
      if l != -1 || rt != -1 {
        b := Level(l, b, height + 1, render);
        b := Level(rt, b, height + 1, render);
        Assoc(head, Layout(sl, height + 1, render), Layout(sr, height + 1, render));
      } else {
        assert b == head + kids;
      }
      Joined(build, Indent(height), render(nodes[r].data), "\n", kids);
    }

    /** iterator: a fresh in-order cursor on this set. */
    method Iterator() returns (it: ABTreeIterator)
      requires Valid()
      ensures fresh(it) && it.owner == this && it.Valid() && it.pending == -1
      ensures it.current == if root == -1 then -1 else LeftMost(nodes, root)
    {
      it := new ABTreeIterator(this);
    }
  }

  /** ABTreeIterator: an in-order cursor over an ABTreeSet. `current` is the
      node `next` returns, `pending` the node it returned last (-1 once
      removed, or before any call). */
  class ABTreeIterator {
    const owner: ABTreeSet
    var current: int
    var pending: int

    ghost predicate Valid()
      reads this, owner
    {
      owner.Valid() && Ref(owner.nodes, current) && Ref(owner.nodes, pending)
    }

    /** Starts at the leftmost node below the root, or null for an empty
        tree. */
    constructor (s: ABTreeSet)
      requires s.Valid()
      ensures owner == s && pending == -1 && Valid()
      ensures current == if s.root == -1 then -1 else LeftMost(s.nodes, s.root)
    {
      var c := s.root;
      if c != -1 {
        while s.nodes[c].left != -1
          invariant 0 <= c < |s.nodes|
          invariant LeftMost(s.nodes, c) == LeftMost(s.nodes, s.root)
          decreases |s.nodes| - c
        {
          c := s.nodes[c].left;
        }
      }
      owner, current, pending := s, c, -1;
    }

    method HasNext() returns (b: bool)
      ensures b <==> current != -1
    {
      b := current != -1;
    }

    /** next: returns the current element and steps to the leftmost node of
        its right subtree, or else climbs to the first ancestor reached from
        a left child (null past the last). Throws NoSuchElementException at
        the end. */
    method Next() returns (o: Outcome<int>)
      requires Valid()
      modifies this`current, this`pending
      ensures Valid()
      ensures old(current) == -1 ==>
        o == Throw(NoSuchElement) && current == old(current) && pending == old(pending)
      ensures old(current) != -1 ==>
        && pending == old(current)
        && o == Ok(owner.nodes[pending].data)
        && current == IterSuccessor(owner.nodes, pending)
    {
      if current == -1 {
        return Throw(NoSuchElement);
      }
      var ns := owner.nodes;
      pending := current;
      var c := current;
      if ns[c].right != -1 {
        c := ns[c].right;
        while ns[c].left != -1
          invariant 0 <= c < |ns|
          invariant LeftMost(ns, c) == LeftMost(ns, ns[pending].right)
          decreases |ns| - c
        {
          c := ns[c].left;
        }
        current := c;
        return Ok(ns[pending].data);
      }
      while ns[c].parent != -1 && ns[ns[c].parent].left != c
        invariant 0 <= c < |ns|
        invariant IterClimb(ns, c) == IterClimb(ns, pending)
        decreases c
      {
        c := ns[c].parent;
      }
      current := ns[c].parent;
      return Ok(ns[pending].data);
    }

    /** remove: unlinks the node `next` returned last. When it has two
        children its node stays (taking the successor's element), so the
        cursor moves back onto it. Throws IllegalStateException without a
        pending node; a NullPointerException from unlinkNode leaves
        `pending` set. */
    method Remove() returns (o: Outcome<()>)
      requires Valid()
      modifies this`current, this`pending, owner`nodes
      ensures Valid()
      ensures old(pending) == -1 ==>
        && o == Throw(IllegalState) && owner.nodes == old(owner.nodes)
        && current == old(current) && pending == old(pending)
      ensures old(pending) != -1 ==>
        var n := old(pending);
        var u := Unlink(old(owner.nodes), n);
        && owner.nodes == u.ns
        && current == (if old(owner.nodes)[n].left != -1 && old(owner.nodes)[n].right != -1
                       then n else old(current))
        && (u.npe ==> o == Throw(NullPointer) && pending == n)
        && (!u.npe ==> o == Ok(()) && pending == -1)
    {
      if pending == -1 {
        return Throw(IllegalState);
      }
      if owner.nodes[pending].left != -1 && owner.nodes[pending].right != -1 {
        current := pending;
      }
      o := owner.UnlinkNode(pending);
      if o.Throw? {
        return;
      }
      pending := -1;
      o := Ok(());
    }
  }
}
