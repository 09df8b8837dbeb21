/** The pure shape of a binary search tree, used as the abstract view of the
    node arena of ABTreeSet. Every node carries its arena index `id` (the
    identity of the Java Node object) and its element `key`. */
module Trees {

  datatype Tree = Empty | Node(left: Tree, id: int, key: int, right: Tree)

  function Ids(t: Tree): set<int>
  {
    match t
    case Empty => {}
    case Node(l, i, _, r) => Ids(l) + {i} + Ids(r)
  }

  function Keys(t: Tree): set<int>
  {
    match t
    case Empty => {}
    case Node(l, _, k, r) => Keys(l) + {k} + Keys(r)
  }

  function Size(t: Tree): nat
  {
    match t
    case Empty => 0
    case Node(l, _, _, r) => Size(l) + 1 + Size(r)
  }

  function Height(t: Tree): nat
  {
    match t
    case Empty => 0
    case Node(l, _, _, r) => 1 + if Height(l) < Height(r) then Height(r) else Height(l)
  }

  /** Node identities in left-node-right order. */
  function Inorder(t: Tree): seq<int>
  {
    match t
    case Empty => []
    case Node(l, i, _, r) => Inorder(l) + [i] + Inorder(r)
  }

  /** Keys in left-node-right order. */
  function InorderKeys(t: Tree): seq<int>
  {
    match t
    case Empty => []
    case Node(l, _, k, r) => InorderKeys(l) + [k] + InorderKeys(r)
  }

  /** Node identities in node-left-right order. */
  function Preorder(t: Tree): seq<int>
  {
    match t
    case Empty => []
    case Node(l, i, _, r) => [i] + Preorder(l) + Preorder(r)
  }

  /** No node identity occurs twice: the tree is a tree and not a DAG. */
  predicate Distinct(t: Tree)
  {
    match t
    case Empty => true
    case Node(l, i, _, r) =>
      Distinct(l) && Distinct(r) && i !in Ids(l) && i !in Ids(r) && Ids(l) !! Ids(r)
  }

  /** Binary-search-tree order: smaller keys on the left, larger on the right. */
  predicate BST(t: Tree)
  {
    match t
    case Empty => true
    case Node(l, _, k, r) =>
      BST(l) && BST(r)
      && (forall x :: x in Keys(l) ==> x < k)
      && (forall x :: x in Keys(r) ==> k < x)
  }

  predicate Ascending(s: seq<int>)
  {
    forall i, j :: 0 <= i < j < |s| ==> s[i] < s[j]
  }

  /** The comparison-driven descent of getBSTNode: the identity of the node
      whose key equals `e` on the search path, or -1. */
  function Find(t: Tree, e: int): int
  {
    match t
    case Empty => -1
    case Node(l, i, k, r) =>
      if k == e then i else if k > e then Find(l, e) else Find(r, e)
  }

  /** The last node the descent of `add` visits: the node holding `e`, or
      the node whose empty slot receives the new leaf. */
  function EndNode(t: Tree, e: int): (n: Tree)
    requires t != Empty
    ensures n != Empty
  {
    var Node(l, _, k, r) := t;
    if k == e then t
    else if k > e then (if l == Empty then t else EndNode(l, e))
    else (if r == Empty then t else EndNode(r, e))
  }

  /** Ordinary leaf insertion at the end of the search path; a present key
      leaves the tree as it is. */
  function Insert(t: Tree, n: int, e: int): Tree
  {
    match t
    case Empty => Node(Empty, n, e, Empty)
    case Node(l, i, k, r) =>
      if k == e then t
      else if k > e then Node(Insert(l, n, e), i, k, r)
      else Node(l, i, k, Insert(r, n, e))
  }

  /** The tree in which the node with identity `p` has its left (or right)
      child replaced by `u`. */
  function SetChild(t: Tree, p: int, isLeft: bool, u: Tree): Tree
  {
    match t
    case Empty => Empty
    case Node(l, i, k, r) =>
      if i == p then (if isLeft then Node(u, i, k, r) else Node(l, i, k, u))
      else Node(SetChild(l, p, isLeft, u), i, k, SetChild(r, p, isLeft, u))
  }

  /** The subtree rooted at the node with identity `x` (Empty if absent). */
  function SubtreeAt(t: Tree, x: int): Tree
  {
    match t
    case Empty => Empty
    case Node(l, i, _, r) =>
      if i == x then t
      else if x in Ids(l) then SubtreeAt(l, x)
      else SubtreeAt(r, x)
  }

  /** Appending a node's own entry and then its two subtree lists to a
      list is appending the node's whole traversal. */
  lemma {:induction false} Regroup(a: seq<int>, x: int, l: seq<int>, r: seq<int>)
    ensures (a + [x]) + l + r == a + ([x] + l + r)
    ensures a + l + [x] + r == a + (l + [x] + r)
  {
  }

  /** The identities on the path from the root of `t` down to `x`. */
  function PathTo(t: Tree, x: int): set<int>
  {
    match t
    case Empty => {}
    case Node(l, i, _, r) =>
      if i == x then {i}
      else if x in Ids(l) then {i} + PathTo(l, x)
      else if x in Ids(r) then {i} + PathTo(r, x)
      else {}
  }

  // ---------------------------------------------------------------------
  // Basic facts

  lemma {:induction false} SizeIsIds(t: Tree)
    requires Distinct(t)
    ensures |Ids(t)| == Size(t)
  {
    match t
    case Empty =>
    case Node(l, i, _, r) =>
      SizeIsIds(l);
      SizeIsIds(r);
      assert Ids(l) + {i} + Ids(r) == Ids(l) + Ids(r) + {i};
  }

  lemma {:induction false} InorderShape(t: Tree)
    ensures |Inorder(t)| == Size(t) && |InorderKeys(t)| == Size(t)
    ensures forall x :: x in Inorder(t) <==> x in Ids(t)
    ensures forall x :: x in InorderKeys(t) <==> x in Keys(t)
  {
    match t
    case Empty =>
    case Node(l, _, _, r) =>
      InorderShape(l);
      InorderShape(r);
  }

  /** The preorder sequence has one entry per node and holds exactly the
      tree's node identities. */
  lemma {:induction false} PreorderShape(t: Tree)
    ensures |Preorder(t)| == Size(t)
    ensures forall x :: x in Preorder(t) <==> x in Ids(t)
  {
    match t
    case Empty =>
    case Node(l, _, _, r) =>
      PreorderShape(l);
      PreorderShape(r);
  }

  /** In a search tree the in-order key sequence is strictly ascending. */
  lemma {:induction false} InorderAscending(t: Tree)
    requires BST(t)
    ensures Ascending(InorderKeys(t))
  {
    match t
    case Empty =>
    case Node(l, _, k, r) =>
      InorderAscending(l);
      InorderAscending(r);
      InorderShape(l);
      InorderShape(r);
      var s := InorderKeys(t);
      var a, b := InorderKeys(l), InorderKeys(r);
      assert s == a + [k] + b;
      forall i, j | 0 <= i < j < |s| ensures s[i] < s[j] {
        if j < |a| {
        } else if j == |a| {
          assert s[i] == a[i] && a[i] in Keys(l);
        } else if i < |a| {
          assert s[i] == a[i] && a[i] in Keys(l);
          assert s[j] == b[j - |a| - 1] && b[j - |a| - 1] in Keys(r);
        } else if i == |a| {
          assert s[j] == b[j - |a| - 1] && b[j - |a| - 1] in Keys(r);
        } else {
          assert s[i] == b[i - |a| - 1] && s[j] == b[j - |a| - 1];
        }
      }
  }

  /** In-order identities are pairwise different when the tree is Distinct. */
  lemma {:induction false} InorderNoDuplicates(t: Tree)
    requires Distinct(t)
    ensures forall i, j :: 0 <= i < j < |Inorder(t)| ==> Inorder(t)[i] != Inorder(t)[j]
  {
    match t
    case Empty =>
    case Node(l, x, _, r) =>
      InorderNoDuplicates(l);
      InorderNoDuplicates(r);
      InorderShape(l);
      InorderShape(r);
      var s, a, b := Inorder(t), Inorder(l), Inorder(r);
      assert s == a + [x] + b;
      forall i, j | 0 <= i < j < |s| ensures s[i] != s[j] {
        if j < |a| {
        } else if j == |a| {
          assert s[i] == a[i] && a[i] in Ids(l);
        } else if i < |a| {
          assert s[i] == a[i] && a[i] in Ids(l);
          assert s[j] == b[j - |a| - 1] && b[j - |a| - 1] in Ids(r);
        } else if i == |a| {
          assert s[j] == b[j - |a| - 1] && b[j - |a| - 1] in Ids(r);
        } else {
          assert s[i] == b[i - |a| - 1] && s[j] == b[j - |a| - 1];
        }
      }
  }

  // ---------------------------------------------------------------------
  // Lookup

  lemma {:induction false} FindInTree(t: Tree, e: int)
    ensures Find(t, e) != -1 ==> Find(t, e) in Ids(t)
    ensures Find(t, e) != -1 ==> e in Keys(t)
  {
    match t
    case Empty =>
    case Node(l, i, k, r) =>
      if k != e { FindInTree(l, e); FindInTree(r, e); }
  }

  /** In a search tree with identities different from -1, the descent finds a
      node exactly when some key equals `e`. */
  lemma {:induction false} FindExact(t: Tree, e: int)
    requires BST(t)
    requires -1 !in Ids(t)
    ensures Find(t, e) == -1 <==> e !in Keys(t)
  {
    match t
    case Empty =>
    case Node(l, i, k, r) =>
      FindInTree(t, e);
      if k > e {
        FindExact(l, e);
        assert e !in Keys(r);
      } else if k < e {
        FindExact(r, e);
        assert e !in Keys(l);
      }
  }

  // ---------------------------------------------------------------------
  // Insertion

  lemma {:induction false} InsertKeys(t: Tree, n: int, e: int)
    ensures Keys(Insert(t, n, e)) == Keys(t) + {e}
    ensures Ids(Insert(t, n, e)) <= Ids(t) + {n}
  {
    match t
    case Empty =>
    case Node(l, i, k, r) =>
      if k > e { InsertKeys(l, n, e); }
      else if k < e { InsertKeys(r, n, e); }
  }

  lemma {:induction false} InsertFacts(t: Tree, n: int, e: int)
    requires -1 !in Ids(t)
    ensures Find(t, e) == -1 ==> Ids(Insert(t, n, e)) == Ids(t) + {n}
    ensures Find(t, e) == -1 ==> Size(Insert(t, n, e)) == Size(t) + 1
    ensures Find(t, e) != -1 ==> Insert(t, n, e) == t
    ensures Find(t, e) == -1 ==> n in Ids(Insert(t, n, e))
  {
    match t
    case Empty =>
    case Node(l, i, k, r) =>
      if k > e { InsertFacts(l, n, e); }
      else if k < e { InsertFacts(r, n, e); }
  }

  lemma {:induction false} InsertBST(t: Tree, n: int, e: int)
    requires BST(t)
    ensures BST(Insert(t, n, e))
  {
    match t
    case Empty =>
    case Node(l, i, k, r) =>
      if k > e { InsertBST(l, n, e); InsertKeys(l, n, e); }
      else if k < e { InsertBST(r, n, e); InsertKeys(r, n, e); }
  }

  lemma {:induction false} InsertDistinct(t: Tree, n: int, e: int)
    requires Distinct(t)
    requires n !in Ids(t)
    ensures Distinct(Insert(t, n, e))
  {
    match t
    case Empty =>
    case Node(l, i, k, r) =>
      if k > e { InsertDistinct(l, n, e); InsertKeys(l, n, e); }
      else if k < e { InsertDistinct(r, n, e); InsertKeys(r, n, e); }
  }

  lemma {:induction false} SetChildAbsent(t: Tree, p: int, isLeft: bool, u: Tree)
    requires p !in Ids(t)
    ensures SetChild(t, p, isLeft, u) == t
  {
    match t
    case Empty =>
    case Node(l, _, _, r) =>
      SetChildAbsent(l, p, isLeft, u);
      SetChildAbsent(r, p, isLeft, u);
  }

  lemma {:induction false} EndNodeIn(t: Tree, e: int)
    requires t != Empty
    ensures EndNode(t, e).id in Ids(t)
  {
    var Node(l, _, k, r) := t;
    if k > e && l != Empty { EndNodeIn(l, e); }
    else if k < e && r != Empty { EndNodeIn(r, e); }
  }

  lemma {:induction false} EndNodeShape(t: Tree, e: int)
    requires t != Empty
    ensures var c := EndNode(t, e);
      (c.key > e ==> c.left == Empty) && (c.key < e ==> c.right == Empty)
    ensures -1 !in Ids(t) ==> (EndNode(t, e).key == e <==> Find(t, e) != -1)
  {
    var Node(l, _, k, r) := t;
    if k > e && l != Empty { EndNodeShape(l, e); }
    else if k < e && r != Empty { EndNodeShape(r, e); }
  }

  /** Inserting an absent key is exactly hanging a new leaf in the empty slot
      of the last node on the search path (what `add` does to the links). */
  lemma {:induction false} InsertIsSetChild(t: Tree, n: int, e: int)
    requires t != Empty && Distinct(t) && -1 !in Ids(t)
    requires Find(t, e) == -1
    ensures var c := EndNode(t, e);
      Insert(t, n, e) == SetChild(t, c.id, c.key > e, Node(Empty, n, e, Empty))
  {
    var Node(l, i, k, r) := t;
    var c := EndNode(t, e);
    var u := Node(Empty, n, e, Empty);
    if k > e {
      if l == Empty {
        assert c == t;
        SetChildAbsent(r, i, true, u);
      } else {
        InsertIsSetChild(l, n, e);
        EndNodeIn(l, e);
        SetChildAbsent(r, c.id, true, u);
        SetChildAbsent(r, c.id, false, u);
      }
    } else {
      if r == Empty {
        assert c == t;
        SetChildAbsent(l, i, false, u);
      } else {
        InsertIsSetChild(r, n, e);
        EndNodeIn(r, e);
        SetChildAbsent(l, c.id, true, u);
        SetChildAbsent(l, c.id, false, u);
      }
    }
  }

  /** The path to a freshly inserted leaf lies inside the old tree, except the
      leaf itself. */
  lemma {:induction false} PathToInserted(t: Tree, n: int, e: int)
    requires Find(t, e) == -1 && n !in Ids(t) && -1 !in Ids(t)
    ensures n in PathTo(Insert(t, n, e), n)
    ensures PathTo(Insert(t, n, e), n) <= Ids(t) + {n}
  {
    match t
    case Empty =>
    case Node(l, i, k, r) =>
      InsertFacts(l, n, e);
      InsertFacts(r, n, e);
      if k > e { PathToInserted(l, n, e); }
      else { PathToInserted(r, n, e); }
  }

  lemma {:induction false} PathToIn(t: Tree, x: int)
    ensures PathTo(t, x) <= Ids(t)
    ensures x in Ids(t) ==> x in PathTo(t, x)
  {
    match t
    case Empty =>
    case Node(l, i, _, r) =>
      PathToIn(l, x);
      PathToIn(r, x);
  }

  // ---------------------------------------------------------------------
  // Replacing a child subtree (what unlinkNode does to the links)

  /** The subtree on side `isLeft` below the node `p` (Empty if `p` is
      absent). */
  function ChildOf(t: Tree, p: int, isLeft: bool): Tree
  {
    var s := SubtreeAt(t, p);
    if s == Empty then Empty else if isLeft then s.left else s.right
  }

  lemma {:induction false} SubtreeAtIn(t: Tree, x: int)
    requires x in Ids(t)
    ensures SubtreeAt(t, x) != Empty && SubtreeAt(t, x).id == x
    ensures Ids(SubtreeAt(t, x)) <= Ids(t) && Keys(SubtreeAt(t, x)) <= Keys(t)
    ensures BST(t) ==> BST(SubtreeAt(t, x))
    ensures Distinct(t) ==> Distinct(SubtreeAt(t, x))
  {
    match t
    case Node(l, i, _, r) =>
      if i != x {
        if x in Ids(l) {
          SubtreeAtIn(l, x);
        } else {
          SubtreeAtIn(r, x);
        }
      }
  }

  /** Going down to the side holding `p` does not change `p`'s child. */
  lemma {:induction false} ChildOfStep(t: Tree, p: int, isLeft: bool)
    requires t != Empty && t.id != p
    ensures p in Ids(t.left) ==> ChildOf(t, p, isLeft) == ChildOf(t.left, p, isLeft)
    ensures p !in Ids(t.left) ==> ChildOf(t, p, isLeft) == ChildOf(t.right, p, isLeft)
  {
  }

  /** The child of `p` lies inside the tree, below `p`. */
  lemma {:induction false} ChildOfIn(t: Tree, p: int, isLeft: bool)
    requires Distinct(t) && p in Ids(t)
    ensures Ids(ChildOf(t, p, isLeft)) <= Ids(t) - {p}
    ensures Keys(ChildOf(t, p, isLeft)) <= Keys(t)
    ensures BST(t) ==> BST(ChildOf(t, p, isLeft))
    ensures Distinct(ChildOf(t, p, isLeft))
  {
    match t
    case Node(l, i, k, r) =>
      if i != p {
        ChildOfStep(t, p, isLeft);
        if p in Ids(l) {
          ChildOfIn(l, p, isLeft);
        } else {
          ChildOfIn(r, p, isLeft);
        }
      }
  }

  /** Replacing the child `c` of `p` by `u`: the identities of `c` leave and
      those of `u` arrive. */
  lemma {:induction false} SetChildIds(t: Tree, p: int, isLeft: bool, u: Tree)
    requires Distinct(t) && p in Ids(t)
    ensures Ids(SetChild(t, p, isLeft, u)) == (Ids(t) - Ids(ChildOf(t, p, isLeft))) + Ids(u)
  {
    var Node(l, i, k, r) := t;
    var c := ChildOf(t, p, isLeft);
    if i == p {
      if isLeft {
        assert c == l;
        SwapLeft(Ids(l), {i}, Ids(r), Ids(l), Ids(u));
      } else {
        assert c == r;
        SwapRight(Ids(l), {i}, Ids(r), Ids(r), Ids(u));
      }
    } else {
      ChildOfStep(t, p, isLeft);
      if p in Ids(l) {
        SetChildIds(l, p, isLeft, u);
        SetChildAbsent(r, p, isLeft, u);
        ChildOfIn(l, p, isLeft);
        SwapLeft(Ids(l), {i}, Ids(r), Ids(c), Ids(u));
      } else {
        SetChildIds(r, p, isLeft, u);
        SetChildAbsent(l, p, isLeft, u);
        ChildOfIn(r, p, isLeft);
        SwapRight(Ids(l), {i}, Ids(r), Ids(c), Ids(u));
      }
    }
  }

  /** Identities stay distinct when `u` takes its identities from `c`. */
  lemma {:induction false} SetChildDistinct(t: Tree, p: int, isLeft: bool, u: Tree)
    requires Distinct(t) && p in Ids(t)
    requires Distinct(u) && Ids(u) <= Ids(ChildOf(t, p, isLeft))
    ensures Distinct(SetChild(t, p, isLeft, u))
  {
    match t
    case Node(l, i, k, r) =>
      if i == p {
        assert ChildOf(t, p, isLeft) == if isLeft then l else r;
      } else {
        ChildOfStep(t, p, isLeft);
        if p in Ids(l) {
          var l2 := SetChild(l, p, isLeft, u);
          SetChildDistinct(l, p, isLeft, u);
          SetChildIds(l, p, isLeft, u);
          ChildOfIn(l, p, isLeft);
          SetChildAbsent(r, p, isLeft, u);
          assert Ids(l2) <= Ids(l);
        } else {
          var r2 := SetChild(r, p, isLeft, u);
          SetChildDistinct(r, p, isLeft, u);
          SetChildIds(r, p, isLeft, u);
          ChildOfIn(r, p, isLeft);
          SetChildAbsent(l, p, isLeft, u);
          assert Ids(r2) <= Ids(r);
        }
      }
  }

  /** The keys of a search-tree node fall into three disjoint parts. */
  lemma {:induction false} BSTSplit(t: Tree)
    requires BST(t) && t != Empty
    ensures Keys(t.left) !! Keys(t.right) + {t.key}
    ensures Keys(t.right) !! Keys(t.left) + {t.key}
  {
    forall x | x in Keys(t.left) ensures x !in Keys(t.right) && x != t.key {
      assert x < t.key;
    }
    forall x | x in Keys(t.right) ensures x != t.key {
      assert x > t.key;
    }
  }

  /** In a search tree the replacement removes exactly the keys of `c` and
      adds those of `u`. */
  lemma {:induction false} SetChildKeys(t: Tree, p: int, isLeft: bool, u: Tree)
    requires BST(t) && Distinct(t) && p in Ids(t)
    ensures Keys(SetChild(t, p, isLeft, u)) == (Keys(t) - Keys(ChildOf(t, p, isLeft))) + Keys(u)
  {
    var Node(l, i, k, r) := t;
    var c := ChildOf(t, p, isLeft);
    BSTSplit(t);
    if i == p {
      if isLeft {
        assert c == l;
        SwapLeft(Keys(l), {k}, Keys(r), Keys(l), Keys(u));
      } else {
        assert c == r;
        SwapRight(Keys(l), {k}, Keys(r), Keys(r), Keys(u));
      }
    } else {
      ChildOfStep(t, p, isLeft);
      if p in Ids(l) {
        SetChildKeys(l, p, isLeft, u);
        SetChildAbsent(r, p, isLeft, u);
        ChildOfIn(l, p, isLeft);
        SwapLeft(Keys(l), {k}, Keys(r), Keys(c), Keys(u));
      } else {
        SetChildKeys(r, p, isLeft, u);
        SetChildAbsent(l, p, isLeft, u);
        ChildOfIn(r, p, isLeft);
        SwapRight(Keys(l), {k}, Keys(r), Keys(c), Keys(u));
      }
    }
  }

  /** Set algebra for replacing `C` inside the left part `A` of `A + K + R`. */
  lemma {:induction false} SwapLeft(A: set<int>, K: set<int>, R: set<int>, C: set<int>, U: set<int>)
    requires C <= A && A !! K + R
    ensures ((A - C) + U) + K + R == ((A + K + R) - C) + U
  {
  }

  /** Set algebra for replacing `C` inside the right part `A` of `L + K + A`. */
  lemma {:induction false} SwapRight(L: set<int>, K: set<int>, A: set<int>, C: set<int>, U: set<int>)
    requires C <= A && A !! L + K
    ensures L + K + ((A - C) + U) == ((L + K + A) - C) + U
  {
  }

  /** Search order survives when `u` is a search tree over some of `c`'s
      keys. */
  lemma {:induction false} SetChildBST(t: Tree, p: int, isLeft: bool, u: Tree)
    requires BST(t) && Distinct(t) && p in Ids(t)
    requires BST(u) && Keys(u) <= Keys(ChildOf(t, p, isLeft))
    ensures BST(SetChild(t, p, isLeft, u))
  {
    match t
    case Node(l, i, k, r) =>
      if i != p {
        ChildOfStep(t, p, isLeft);
        if p in Ids(l) {
          SetChildBST(l, p, isLeft, u);
          SetChildKeys(l, p, isLeft, u);
          ChildOfIn(l, p, isLeft);
          SetChildAbsent(r, p, isLeft, u);
        } else {
          SetChildBST(r, p, isLeft, u);
          SetChildKeys(r, p, isLeft, u);
          ChildOfIn(r, p, isLeft);
          SetChildAbsent(l, p, isLeft, u);
        }
      }
  }
}
