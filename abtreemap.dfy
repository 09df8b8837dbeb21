/** ABTreeMap: a map kept as an ABTreeSet of entries compared by key alone.

    The set engine orders plain integers, while Entry.compareTo orders keys
    in reverse. So the entry with key `k` is stored as the element
    `Encode(k)`, and the engine's order on elements is then exactly the
    entries' order (EntryOrder). Each entry is an object whose value
    changes in place; `entries` names the entry object of every stored
    element. */
module MapAdapter {
  import opened Trees
  import opened Arena
  import opened Insertion
  import opened Removal
  import opened Iteration
  import opened SetEngine

  /** The element an entry with key `k` is stored as. */
  function Encode(k: int): int
  {
    -k
  }

  /** The key of the entry stored as element `x`. */
  function Decode(x: int): (k: int)
    ensures Encode(k) == x
  {
    -x
  }

  /** Integer comparison as a three-way result, the way the engine
      compares plain elements. */
  function Natural(a: int, b: int): int
  {
    if a > b then 1 else if a < b then -1 else 0
  }

  /** An entry: an immutable key and a mutable value. */
  class Entry<V> {
    const key: int
    var value: V

    constructor (key: int, value: V)
      ensures this.key == key && this.value == value
    {
      this.key, this.value := key, value;
    }

    /** compareTo: 1 when the other key is larger, -1 when smaller, 0 when
        equal, which is natural order reversed, and natural order on the
        encoded elements. */
    function CompareTo(o: Entry<V>): (c: int)
      ensures c == 0 <==> key == o.key
      ensures c == 1 <==> key < o.key
      ensures c == -Natural(key, o.key)
      ensures c == Natural(Encode(key), Encode(o.key))
    {
      if o.key > key then 1 else if o.key < key then -1 else 0
    }

    function GetKey(): int
    {
      key
    }

    function GetValue(): V
      reads this
    {
      value
    }

    /** setValue: stores and returns the new value. */
    method SetValue(newValue: V) returns (r: V)
      modifies this
      ensures value == newValue && r == newValue
    {
      value := newValue;
      r := newValue;
    }
  }

  /** compareTo is antisymmetric and says 0 only for equal keys. */
  lemma {:induction false} EntryOrder<V>(a: Entry<V>, b: Entry<V>)
    ensures a.CompareTo(b) == -b.CompareTo(a)
    ensures a.CompareTo(b) == 0 <==> a.key == b.key
    ensures a.CompareTo(b) == 1 <==> Encode(a.key) > Encode(b.key)
  {
  }

  /** The decoded keys of a sequence of stored elements. */
  function DecodedKeys(s: seq<int>): set<int>
  {
    if s == [] then {} else DecodedKeys(s[..|s| - 1]) + {Decode(s[|s| - 1])}
  }

  lemma {:induction false} DecodedKeysMembers(s: seq<int>)
    ensures forall k :: k in DecodedKeys(s) <==> Encode(k) in s
    decreases |s|
  {
    if s != [] {
      var s0 := s[..|s| - 1];
      DecodedKeysMembers(s0);
      assert s == s0 + [s[|s| - 1]];
      forall k ensures k in DecodedKeys(s) <==> Encode(k) in s {
        assert Encode(k) in s <==> Encode(k) in s0 || Encode(k) == s[|s| - 1];
      }
    }
  }

  /** The values of the entries of a sequence of stored elements, in that
      order. */
  function ValuesOf<V>(entries: map<int, Entry<V>>, s: seq<int>): (vs: seq<V>)
    requires forall i :: 0 <= i < |s| ==> s[i] in entries
    reads entries.Values
    ensures |vs| == |s|
    ensures forall i :: 0 <= i < |s| ==> vs[i] == entries[s[i]].value
  {
    if s == [] then [] else ValuesOf(entries, s[..|s| - 1]) + [entries[s[|s| - 1]].value]
  }

  /** The decoded in-order elements of a tree are the keys it stores. */
  lemma {:induction false} DecodedKeysOf(t: Tree)
    ensures forall k :: k in DecodedKeys(InorderKeys(t)) <==> Encode(k) in Keys(t)
  {
    DecodedKeysMembers(InorderKeys(t));
    InorderShape(t);
  }

  lemma {:induction false} PrefixStep<T>(s: seq<T>, i: int)
    requires 0 <= i < |s|
    ensures s[..i + 1] == s[..i] + [s[i]]
  {
  }

  lemma {:induction false} DecodedKeysStep(s: seq<int>, i: int)
    requires 0 <= i < |s|
    ensures DecodedKeys(s[..i + 1]) == DecodedKeys(s[..i]) + {Decode(s[i])}
  {
    assert s[..i + 1][..i] == s[..i];
  }

  /** Under search-tree order the iterator meets the stored elements in
      ascending order, which are the keys in descending order. */
  lemma {:induction false} KeysDescend(t: Tree)
    requires BST(t)
    ensures forall i, j :: 0 <= i < j < |InorderKeys(t)| ==>
      Decode(InorderKeys(t)[i]) > Decode(InorderKeys(t)[j])
  {
    InorderAscending(t);
  }

  /** Every node of the store holds an element of `m`. */
  ghost predicate DataIn(ns: seq<NodeRec>, m: set<int>)
  {
    forall i :: 0 <= i < |ns| ==> ns[i].data in m
  }

  /** Adding `e` below `c` stores no element other than `e`. */
  lemma {:induction false} AttachedDataIn(ns: seq<NodeRec>, c: int, e: int, m: set<int>)
    requires Wf(ns) && 0 <= c < |ns| && DataIn(ns, m)
    ensures DataIn(Attached(ns, c, e), m + {e})
  {
    AttachedData(ns, c, e);
  }

  /** Unlinking stores no new element. */
  lemma {:induction false} UnlinkDataIn(ns: seq<NodeRec>, n: int, m: set<int>)
    requires Wf(ns) && 0 <= n < |ns| && DataIn(ns, m)
    ensures DataIn(Unlink(ns, n).ns, m)
  {
    UnlinkData(ns, n);
  }

  class ABTreeMap<V> {
    const entrySet: ABTreeSet
    var entries: map<int, Entry<V>>
    var size: int
    var selfbalance: bool
    var top: int
    var bottom: int

    /** The entry set is the default, non-balancing set, every stored
        element has its entry and each entry sits under its own key. */
    ghost predicate Valid()
      reads this, entrySet
    {
      && entrySet.Valid() && !entrySet.selfbalance
      && DataIn(entrySet.nodes, entries.Keys)
      && (forall x :: x in entries ==> entries[x].key == Decode(x))
    }

    /** The default constructor: a non-balancing map. */
    constructor ()
      ensures Valid() && fresh(entrySet) && entrySet.root == -1 && entrySet.nodes == []
      ensures entries == map[] && size == 0 && !selfbalance && top == 0 && bottom == 0
    {
      entrySet := new ABTreeSet();
      entries, size := map[], 0;
      selfbalance, top, bottom := false, 0, 0;
    }

    /** The flag and alpha = 2/3 are stored but never handed to the entry
        set, which stays the default, non-balancing set. */
    constructor WithBalance(isSelfBalancing: bool)
      ensures Valid() && fresh(entrySet) && entrySet.root == -1 && entrySet.nodes == []
      ensures entries == map[] && size == 0 && selfbalance == isSelfBalancing
      ensures top == (if isSelfBalancing then 2 else 0)
      ensures bottom == (if isSelfBalancing then 3 else 0)
    {
      entrySet := new ABTreeSet();
      entries, size := map[], 0;
      selfbalance, top, bottom := isSelfBalancing, 0, 0;
      if isSelfBalancing {
        top, bottom := 2, 3;
      }
    }

    /** Stores alpha = top / bottom when self-balancing, without checking
        its range and without handing it to the entry set. */
    constructor WithAlpha(isSelfBalancing: bool, top: int, bottom: int)
      ensures Valid() && fresh(entrySet) && entrySet.root == -1 && entrySet.nodes == []
      ensures entries == map[] && size == 0 && selfbalance == isSelfBalancing
      ensures this.top == (if isSelfBalancing then top else 0)
      ensures this.bottom == (if isSelfBalancing then bottom else 0)
    {
      entrySet := new ABTreeSet();
      entries, size := map[], 0;
      selfbalance, this.top, this.bottom := isSelfBalancing, 0, 0;
      if isSelfBalancing {
        this.top, this.bottom := top, bottom;
      }
    }

    /** containsKey: the descent for the entry's element finds a node. */
    method ContainsKey(key: int) returns (b: bool)
      requires Valid()
      ensures b <==> Find(entrySet.Tree(), Encode(key)) != -1
      ensures BST(entrySet.Tree()) ==> (b <==> Encode(key) in Keys(entrySet.Tree()))
    {
      var n := entrySet.GetBSTNode(Encode(key));
      b := n != -1;
    }

    /** get: the value of the entry found, or nothing. */
    method Get(key: int) returns (r: Option<V>)
      requires Valid()
      ensures Find(entrySet.Tree(), Encode(key)) == -1 ==> r == None
      ensures Find(entrySet.Tree(), Encode(key)) != -1 ==>
        Encode(key) in entries && r == Some(entries[Encode(key)].value)
      ensures BST(entrySet.Tree()) ==> (r.Some? <==> Encode(key) in Keys(entrySet.Tree()))
    {
      var n := entrySet.GetBSTNode(Encode(key));
      if n != -1 {
        return Some(entries[entrySet.nodes[n].data].value);
      }
      return None;
    }

    /** put: a found entry gets the new value in place (the tree and `size`
        stay); otherwise a new entry is added to the set and `size` rises
        by one. Returns the previous value, if any. */
    method Put(key: int, value: V) returns (r: Option<V>)
      requires Valid()
      modifies this, entrySet, entries.Values
      ensures Valid()
      ensures Encode(key) in entries && entries[Encode(key)].value == value
      ensures forall x :: x in old(entries) && x != Encode(key) ==>
        x in entries && entries[x] == old(entries[x]) && entries[x].value == old(entries[x].value)
      ensures Find(old(entrySet.Tree()), Encode(key)) != -1 ==>
        && Encode(key) in old(entries)
        && r == Some(old(entries[Encode(key)].value))
        && entries == old(entries) && size == old(size)
        && entrySet.nodes == old(entrySet.nodes) && entrySet.root == old(entrySet.root)
      ensures Find(old(entrySet.Tree()), Encode(key)) == -1 ==>
        && r == None && size == old(size) + 1
        && entries.Keys == old(entries.Keys) + {Encode(key)} && fresh(entries[Encode(key)])
        && (old(Exact(entrySet.nodes, entrySet.root, -1)) ==>
              Exact(entrySet.nodes, entrySet.root, -1)
              && Keys(entrySet.Tree()) == old(Keys(entrySet.Tree())) + {Encode(key)})
    {
      var e := Encode(key);
      var n := entrySet.GetBSTNode(e);
      if n != -1 {
        var en := entries[entrySet.nodes[n].data];
        r := Some(en.value);
        en.value := value;
        assert forall x :: x in entries && x != e ==> entries[x] != en by {
          forall x | x in entries && x != e ensures entries[x] != en {
            assert entries[x].key == Decode(x) && en.key == Decode(e);
          }
        }
      } else {
        Insert(key, value);
        r := None;
      }
    }

    /** The branch of put that adds a new entry: the default set is never
        self-balancing, so the addition is a plain attach. */
    method Insert(key: int, value: V)
      requires Valid() && Find(entrySet.Tree(), Encode(key)) == -1
      modifies this, entrySet
      ensures Valid() && size == old(size) + 1
      ensures Encode(key) in entries && fresh(entries[Encode(key)])
      ensures entries[Encode(key)].key == key && entries[Encode(key)].value == value
      ensures entries == old(entries)[Encode(key) := entries[Encode(key)]]
      ensures old(Exact(entrySet.nodes, entrySet.root, -1)) ==>
        Exact(entrySet.nodes, entrySet.root, -1)
        && Keys(entrySet.Tree()) == old(Keys(entrySet.Tree())) + {Encode(key)}
    {
      var e := Encode(key);
      ghost var ns0 := entrySet.nodes;
      ghost var root0 := entrySet.root;
      var o, clean := entrySet.Add(Some(e), 0);
      if root0 != -1 {
        var c := EndNode(Sub(ns0, root0), e).id;
        AttachedDataIn(ns0, c, e, entries.Keys);
      } else {
        assert DataIn(entrySet.nodes, entries.Keys + {e}) by {
          assert entrySet.nodes == ns0 + [NodeRec(e, -1, -1, -1, 1)];
        }
      }
      var en := new Entry(key, value);
      entries := entries[e := en];
      size := size + 1;
    }

    /** remove: unlinks the entry's node without any balance check and
        without changing `size`; returns the previous value. A
        NullPointerException from unlinkNode escapes. */
    method Remove(key: int) returns (o: Outcome<Option<V>>)
      requires Valid()
      modifies entrySet`nodes
      ensures Valid()
      ensures Find(old(entrySet.Tree()), Encode(key)) == -1 ==>
        o == Ok(None) && entrySet.nodes == old(entrySet.nodes)
      ensures Find(old(entrySet.Tree()), Encode(key)) != -1 ==>
        var n := Find(old(entrySet.Tree()), Encode(key));
        0 <= n < old(|entrySet.nodes|) &&
        var u := Unlink(old(entrySet.nodes), n);
        && entrySet.nodes == u.ns
        && (u.npe ==> o == Throw(NullPointer))
        && (!u.npe ==> Encode(key) in entries && o == Ok(Some(entries[Encode(key)].value)))
    {
      var e := Encode(key);
      var n := entrySet.GetBSTNode(e);
      if n == -1 {
        return Ok(None);
      }
      var result := Some(entries[entrySet.nodes[n].data].value);
      ghost var ns0 := entrySet.nodes;
      UnlinkDataIn(ns0, n, entries.Keys);
      var u := entrySet.UnlinkNode(n);
      if u.Throw? {
        return Throw(u.exc);
      }
      return Ok(result);
    }

    method Size() returns (s: int)
      ensures s == size
    {
      s := size;
    }

    /** keySet: a fresh default set filled by adding the key of every entry
        the iterator returns, which on a tree with consistent links is
        every stored entry. */
    method KeySet() returns (result: ABTreeSet)
      requires Valid() && ParentsOk(entrySet.nodes, entrySet.Tree(), -1) && Distinct(entrySet.Tree())
      ensures fresh(result) && result.Valid() && !result.selfbalance
      ensures Exact(result.nodes, result.root, -1)
      ensures forall k :: k in Keys(result.Tree()) <==> Encode(k) in Keys(entrySet.Tree())
    {
      ghost var ns, root := entrySet.nodes, entrySet.root;
      ghost var L, K := Inorder(Sub(ns, root)), InorderKeys(Sub(ns, root));
      WalkFacts(ns, root);
      result := new ABTreeSet();
      var iter := entrySet.Iterator();
      ghost var pos := 0;
      var more := iter.HasNext();
      while more
        invariant fresh(result) && result != entrySet
        invariant result.Valid() && !result.selfbalance && Exact(result.nodes, result.root, -1)
        invariant fresh(iter) && iter.Valid() && iter.owner == entrySet
        invariant entrySet.nodes == ns && entrySet.root == root
        invariant 0 <= pos <= |L| && iter.current == (if pos < |L| then L[pos] else -1)
        invariant more <==> pos < |L|
        invariant Keys(result.Tree()) == DecodedKeys(K[..pos])
        decreases |L| - pos
      {
        StepFacts(ns, root, pos);
        var x := iter.Next();
        AddPlain(result, Decode(x.value));
        DecodedKeysStep(K, pos);
        pos := pos + 1;
        more := iter.HasNext();
      }
      assert K[..pos] == K;
      DecodedKeysOf(Sub(ns, root));
    }

    /** values: the value of every entry the iterator returns, in that
        order: ascending stored elements, so descending keys. */
    method Values() returns (vs: seq<V>)
      requires Valid() && ParentsOk(entrySet.nodes, entrySet.Tree(), -1) && Distinct(entrySet.Tree())
      ensures forall i :: 0 <= i < |InorderKeys(entrySet.Tree())| ==> InorderKeys(entrySet.Tree())[i] in entries
      ensures vs == ValuesOf(entries, InorderKeys(entrySet.Tree()))
      ensures |vs| == Trees.Size(entrySet.Tree())
    {
      ghost var ns, root := entrySet.nodes, entrySet.root;
      ghost var L, K := Inorder(Sub(ns, root)), InorderKeys(Sub(ns, root));
      WalkFacts(ns, root);
      KeysIn(ns, root, entries.Keys);
      ghost var vals := ValuesOf(entries, K);
      vs := [];
      var iter := entrySet.Iterator();
      ghost var pos := 0;
      var more := iter.HasNext();
      while more
        invariant fresh(iter) && iter.Valid() && iter.owner == entrySet
        invariant entrySet.nodes == ns && entrySet.root == root
        invariant 0 <= pos <= |L| && iter.current == (if pos < |L| then L[pos] else -1)
        invariant more <==> pos < |L|
        invariant vs == vals[..pos]
        decreases |L| - pos
      {
        StepFacts(ns, root, pos);
        var x := iter.Next();
        vs := vs + [entries[x.value].value];
        PrefixStep(vals, pos);
        pos := pos + 1;
        more := iter.HasNext();
      }
      assert K[..pos] == K;
    }
  }

  /** The add keySet makes on its fresh default set: never self-balancing,
      so every add is clean, keeping the tree exact and adding `k`. */
  method AddPlain(s: ABTreeSet, k: int)
    requires s.Valid() && !s.selfbalance && Exact(s.nodes, s.root, -1)
    modifies s
    ensures s.Valid() && !s.selfbalance && Exact(s.nodes, s.root, -1)
    ensures Keys(s.Tree()) == old(Keys(s.Tree())) + {k}
  {
    var o, clean := s.Add(Some(k), 0);
  }

  /** Every element met in order belongs to `m` when every stored one does. */
  lemma {:induction false} KeysIn(ns: seq<NodeRec>, root: int, m: set<int>)
    requires Wf(ns) && Ref(ns, root) && DataIn(ns, m)
    ensures forall j :: 0 <= j < |InorderKeys(Sub(ns, root))| ==> InorderKeys(Sub(ns, root))[j] in m
  {
    InorderData(ns, root);
  }

  /** What the loops over the iterator rely on: the in-order node list and
      the in-order element list match, start where the iterator starts, and
      every element has an entry. */
  lemma {:induction false} WalkFacts(ns: seq<NodeRec>, root: int)
    requires Wf(ns) && Ref(ns, root) && ParentsOk(ns, Sub(ns, root), -1) && Distinct(Sub(ns, root))
    ensures var L := Inorder(Sub(ns, root));
      && |L| == |InorderKeys(Sub(ns, root))| == Trees.Size(Sub(ns, root))
      && (|L| == 0 <==> root == -1)
      && (root != -1 ==> L[0] == LeftMost(ns, root))
  {
    InorderData(ns, root);
    InorderShape(Sub(ns, root));
    if root != -1 {
      IterationOrder(ns, root);
    }
  }

  /** One step of the iterator at position `pos` returns the element at
      that position and moves to the next position. */
  lemma {:induction false} StepFacts(ns: seq<NodeRec>, root: int, pos: int)
    requires Wf(ns) && Ref(ns, root) && ParentsOk(ns, Sub(ns, root), -1) && Distinct(Sub(ns, root))
    requires 0 <= pos < |Inorder(Sub(ns, root))|
    ensures var L, K := Inorder(Sub(ns, root)), InorderKeys(Sub(ns, root));
      && |L| == |K| && 0 <= L[pos] < |ns| && ns[L[pos]].data == K[pos]
      && (pos + 1 < |L| ==> 0 <= L[pos + 1] < |ns|)
      && IterSuccessor(ns, L[pos]) == (if pos + 1 < |L| then L[pos + 1] else -1)
  {
    InorderData(ns, root);
    IterationOrder(ns, root);
  }
}
