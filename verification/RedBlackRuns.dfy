/** The keyed interface of the red-black tree, its iterator, and whole runs of operations. */
module RedBlackRuns {
  import opened Powers
  import opened RedBlackShape
  import opened RedBlackHeap
  import opened RedBlackTrees

  /** `try_insert`: a new node for the key. */
  method InsertKey(tree: BaseRedBlackTree, key: int)
    requires tree.Valid()
    modifies tree, tree.nodes
    ensures tree.Valid() && fresh(tree.nodes - old(tree.nodes))
    ensures Keys(tree.Order()) == old(Keys(tree.Order())) + multiset{key}
  {
    hide InOrder, Keys, Sorted, At, Colored;
    var node := new Node(key);
    InsertedKeys(tree.Order(), node);
    tree.Insert(node);
  }

  /** `remove` by key: one node with the key leaves, if there is one. */
  method RemoveKey(tree: BaseRedBlackTree, key: int) returns (removed: bool)
    requires tree.Valid()
    modifies tree, tree.nodes
    ensures tree.Valid() && tree.nodes <= old(tree.nodes)
    ensures removed <==> key in old(Keys(tree.Order()))
    ensures Keys(tree.Order()) == old(Keys(tree.Order())) - multiset{key}
  {
    hide InOrder, Keys, Sorted, At, Colored;
    var node := tree.Find(key);
    if node == null {
      AbsentKey(tree.Order(), key);
      return false;
    }
    InOrderNodes(tree.shape);
    assert node in Elems(tree.Order());
    MemberKey(tree.Order(), node);
    RemovedKeys(tree.Order(), node);
    tree.Remove(node);
    ghost var h := Snap(tree.nodes);
    node.right := null;
    node.left := null;
    assert Snap(tree.nodes) == h;
    return true;
  }

  /** Every tree of n nodes has height at most 2*log2(n + 1). */
  lemma TreeHeight(tree: BaseRedBlackTree)
    requires tree.Valid()
    ensures Pow2(Height(tree.shape)) <= (tree.size + 1) * (tree.size + 1)
  {
    HeightBound(tree.shape);
  }

  // ---- Iteration ----

  class RedBlackTreeIterator {
    var node: Node?
    var prev: Node?

    constructor (node: Node?, prev: Node?)
      ensures this.node == node && this.prev == prev
    {
      this.node, this.prev := node, prev;
    }

    /** `operator++` */
    method Increment(tree: BaseRedBlackTree)
      requires tree.Valid() && (node != null ==> node in tree.nodes)
      modifies this
      ensures old(node) == null ==> node == null && prev == old(prev)
      ensures old(node) != null ==> prev == old(node) && node == Next(tree.Order(), old(node))
    {
      if node == null {
        return;
      }
      prev := node;
      node := tree.Successor(node);
    }

    /** `operator--` */
    method Decrement(tree: BaseRedBlackTree)
      requires tree.Valid() && (prev != null ==> prev in tree.nodes)
      modifies this
      ensures old(prev) == null ==> node == old(node) && prev == null
      ensures old(prev) != null ==> node == old(prev) && prev == Previous(tree.Order(), old(prev))
    {
      if prev == null {
        return;
      }
      node := prev;
      prev := tree.Predecessor(prev);
    }

    /** A step forward and a step back return to the node, and to the whole position exactly if it knew its predecessor
        (an iterator from `begin_from` does not). */
    method StepForthAndBack(tree: BaseRedBlackTree)
      requires tree.Valid() && node != null && node in tree.nodes
      modifies this
      ensures node == old(node)
      ensures prev == old(prev) <==> old(prev) == Previous(tree.Order(), old(node))
    {
      Increment(tree);
      Decrement(tree);
    }
  }

  lemma {:induction false} NextAtIndex(s: seq<Node>, i: nat)
    requires i < |s| && NoDuplicates(s)
    ensures Next(s, s[i]) == if i + 1 < |s| then s[i + 1] else null
  {
    if i > 0 {
      NextAtIndex(s[1..], i - 1);
    }
  }

  /** Iterating from `begin` to `end` visits every node once, in key order. */
  method Traverse(tree: BaseRedBlackTree) returns (visited: seq<Node>)
    requires tree.Valid()
    ensures visited == tree.Order()
  {
    hide InOrder, Sorted, At, Colored, NoDuplicates;
    ghost var order := tree.Order();
    InOrderDistinct(tree.shape) by { DistinctShape(tree); }
    InOrderNodes(tree.shape);
    var it := new RedBlackTreeIterator(tree.minimum, null);
    visited := [];
    while it.node != null
      invariant tree.Valid() && tree.Order() == order && fresh(it)
      invariant |visited| <= |order| && visited == order[..|visited|]
      invariant it.node == if |visited| < |order| then order[|visited|] else null
      decreases |order| - |visited|
    {
      assert it.node in Elems(order);
      NextAtIndex(order, |visited|);
      visited := visited + [it.node];
      it.Increment(tree);
    }
  }

  lemma DistinctShape(tree: BaseRedBlackTree)
    requires tree.Valid()
    ensures Distinct(tree.shape)
  {
  }

  // ---- Runs ----

  datatype Op = Insert(key: int) | Remove(key: int)

  /** The reference behaviour: a multiset of keys. */
  ghost function KeysAfter(ops: seq<Op>): multiset<int> {
    if ops == [] then multiset{} else KeysAfterOne(KeysAfter(ops[..|ops| - 1]), ops[|ops| - 1])
  }

  ghost function KeysAfterOne(keys: multiset<int>, op: Op): multiset<int> {
    match op
    case Insert(key) => keys + multiset{key}
    case Remove(key) => keys - multiset{key}
  }

  method RunOne(tree: BaseRedBlackTree, op: Op)
    requires tree.Valid()
    modifies tree, tree.nodes
    ensures tree.Valid() && fresh(tree.nodes - old(tree.nodes))
    ensures Keys(tree.Order()) == KeysAfterOne(old(Keys(tree.Order())), op)
  {
    match op {
      case Insert(key) => InsertKey(tree, key);
      case Remove(key) => var _ := RemoveKey(tree, key);
    }
  }

  /** Any run of insertions and removals keeps a valid tree with exactly the keys of the multiset. */
  method Run(ops: seq<Op>) returns (tree: BaseRedBlackTree)
    ensures tree.Valid() && Keys(tree.Order()) == KeysAfter(ops)
  {
    hide InOrder, Keys, Sorted, At, Colored, KeysAfterOne;
    tree := new BaseRedBlackTree();
    NoKeys();
    for i := 0 to |ops|
      invariant fresh(tree) && fresh(tree.nodes)
      invariant tree.Valid() && Keys(tree.Order()) == KeysAfter(ops[..i])
    {
      assert ops[..i + 1][..i] == ops[..i];
      RunOne(tree, ops[i]);
    }
    assert ops[..|ops|] == ops;
  }

  lemma NoKeys()
    ensures Keys([]) == multiset{}
  {
  }
}
