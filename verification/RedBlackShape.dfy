/** Red-black trees as values: shapes, zippers, key order and colour rules, without any heap. */
module RedBlackShape {
  import opened Powers

  datatype Color = Red | Black

  class Node {
    var left: Node?
    var right: Node?
    var parent: Node?
    var color: Color
    const key: int

    constructor (key: int)
      ensures this.key == key
      ensures left == null && right == null && parent == null && color == Red
    {
      this.key := key;
      left, right, parent, color := null, null, null, Red;
    }
  }

  datatype Tree = Leaf | T(left: Tree, node: Node, color: Color, right: Tree)

  /** A tree with a hole: the path from the hole up to the root, with the subtrees that hang off it. */
  datatype Ctx =
    | Top
    | L(up: Ctx, node: Node, color: Color, right: Tree)
    | R(up: Ctx, node: Node, color: Color, left: Tree)

  ghost function Plug(c: Ctx, t: Tree): Tree {
    match c
    case Top => t
    case L(up, n, col, r) => Plug(up, T(t, n, col, r))
    case R(up, n, col, l) => Plug(up, T(l, n, col, t))
  }

  ghost function Nodes(t: Tree): set<Node> {
    match t
    case Leaf => {}
    case T(l, n, _, r) => Nodes(l) + {n} + Nodes(r)
  }

  ghost function CtxNodes(c: Ctx): set<Node> {
    match c
    case Top => {}
    case L(up, n, _, r) => CtxNodes(up) + {n} + Nodes(r)
    case R(up, n, _, l) => CtxNodes(up) + {n} + Nodes(l)
  }

  /** No node occurs twice. */
  ghost predicate Distinct(t: Tree) {
    match t
    case Leaf => true
    case T(l, n, _, r) => n !in Nodes(l) && n !in Nodes(r) && Nodes(l) !! Nodes(r) && Distinct(l) && Distinct(r)
  }

  ghost predicate CtxDistinct(c: Ctx) {
    match c
    case Top => true
    case L(up, n, _, s) =>
      n !in CtxNodes(up) && n !in Nodes(s) && Nodes(s) !! CtxNodes(up) && Distinct(s) && CtxDistinct(up)
    case R(up, n, _, s) =>
      n !in CtxNodes(up) && n !in Nodes(s) && Nodes(s) !! CtxNodes(up) && Distinct(s) && CtxDistinct(up)
  }

  ghost predicate Apart(c: Ctx, t: Tree) {
    Distinct(t) && CtxDistinct(c) && Nodes(t) !! CtxNodes(c)
  }

  lemma {:induction false} PlugNodes(c: Ctx, t: Tree)
    ensures Nodes(Plug(c, t)) == CtxNodes(c) + Nodes(t)
    ensures Apart(c, t) <==> Distinct(Plug(c, t))
  {
    match c
    case Top =>
    case L(up, n, col, r) => PlugNodes(up, T(t, n, col, r));
    case R(up, n, col, l) => PlugNodes(up, T(l, n, col, t));
  }

  // ---- Key order ----

  ghost function InOrder(t: Tree): seq<Node> {
    match t
    case Leaf => []
    case T(l, n, _, r) => InOrder(l) + [n] + InOrder(r)
  }

  ghost function Before(c: Ctx): seq<Node> {
    match c
    case Top => []
    case L(up, _, _, _) => Before(up)
    case R(up, n, _, l) => Before(up) + InOrder(l) + [n]
  }

  ghost function After(c: Ctx): seq<Node> {
    match c
    case Top => []
    case L(up, n, _, r) => [n] + InOrder(r) + After(up)
    case R(up, _, _, _) => After(up)
  }

  lemma Regroup(a: seq<Node>, b: seq<Node>, c: seq<Node>, d: seq<Node>, e: seq<Node>)
    ensures a + (b + c + d) + e == a + b + (c + d + e)
    ensures a + (b + c + d) + e == a + b + c + d + e
    ensures a + (b + c + d) + e == a + b + c + (d + e)
  {
  }

  lemma {:induction false} PlugInOrder(c: Ctx, t: Tree)
    ensures InOrder(Plug(c, t)) == Before(c) + InOrder(t) + After(c)
  {
    match c
    case Top =>
    case L(up, n, col, r) =>
      PlugInOrder(up, T(t, n, col, r));
      Regroup(Before(up), InOrder(t), [n], InOrder(r), After(up));
    case R(up, n, col, l) =>
      PlugInOrder(up, T(l, n, col, t));
      Regroup(Before(up), InOrder(l), [n], InOrder(t), After(up));
  }

  /** Keys do not decrease along the sequence; equal keys are allowed. */
  ghost predicate Sorted(s: seq<Node>) {
    forall i, j | 0 <= i < j < |s| :: s[i].key <= s[j].key
  }

  ghost function Elems(s: seq<Node>): set<Node> {
    set n | n in s
  }

  lemma JoinElems(a: seq<Node>, n: Node, b: seq<Node>)
    ensures Elems(a + [n] + b) == Elems(a) + {n} + Elems(b)
  {
  }

  lemma {:induction false} InOrderNodes(t: Tree)
    ensures Elems(InOrder(t)) == Nodes(t)
  {
    match t
    case Leaf =>
    case T(l, n, _, r) =>
      InOrderNodes(l);
      InOrderNodes(r);
      JoinElems(InOrder(l), n, InOrder(r));
  }

  ghost predicate NoDuplicates(s: seq<Node>) {
    forall i, j | 0 <= i < j < |s| :: s[i] != s[j]
  }

  lemma JoinNoDuplicates(a: seq<Node>, n: Node, b: seq<Node>)
    requires NoDuplicates(a) && NoDuplicates(b)
    requires n !in Elems(a) && n !in Elems(b) && Elems(a) !! Elems(b)
    ensures NoDuplicates(a + [n] + b)
  {
    var s := a + [n] + b;
    forall i, j | 0 <= i < j < |s| ensures s[i] != s[j] {
      if i < |a| {
        assert s[i] in Elems(a);
      }
      if j > |a| {
        assert s[j] in Elems(b);
      }
    }
  }

  lemma {:induction false} InOrderDistinct(t: Tree)
    requires Distinct(t)
    ensures NoDuplicates(InOrder(t))
  {
    hide NoDuplicates;
    match t
    case Leaf => EmptyNoDuplicates();
    case T(l, n, _, r) =>
      InOrderDistinct(l);
      InOrderDistinct(r);
      InOrderNodes(l);
      InOrderNodes(r);
      JoinNoDuplicates(InOrder(l), n, InOrder(r));
  }

  lemma EmptyNoDuplicates()
    ensures NoDuplicates([])
  {
  }

  ghost predicate AtMost(s: seq<Node>, key: int) {
    forall i | 0 <= i < |s| :: s[i].key <= key
  }

  ghost predicate Above(s: seq<Node>, key: int) {
    forall i | 0 <= i < |s| :: key < s[i].key
  }

  /** `n` goes behind every node with the same or a smaller key. */
  ghost function InsertedInto(s: seq<Node>, n: Node): seq<Node> {
    if s == [] then [n]
    else if n.key < s[0].key then [n] + s
    else [s[0]] + InsertedInto(s[1..], n)
  }

  lemma {:induction false} InsertedBetween(a: seq<Node>, n: Node, b: seq<Node>)
    requires AtMost(a, n.key) && Above(b, n.key)
    ensures InsertedInto(a + b, n) == a + [n] + b
  {
    if a != [] {
      InsertedBetween(a[1..], n, b);
      assert (a + b)[1..] == a[1..] + b;
      assert a + [n] + b == [a[0]] + (a[1..] + [n] + b);
    } else {
      assert a + b == b;
    }
  }

  lemma SortedBetween(a: seq<Node>, n: Node, b: seq<Node>)
    requires Sorted(a + b) && AtMost(a, n.key) && Above(b, n.key)
    ensures Sorted(a + [n] + b)
  {
    var s, s' := a + b, a + [n] + b;
    forall i, j | 0 <= i < j < |s'| ensures s'[i].key <= s'[j].key {
      if i != |a| && j != |a| {
        var i0, j0 := if i < |a| then i else i - 1, if j < |a| then j else j - 1;
        assert s[i0] == s'[i] && s[j0] == s'[j];
      }
    }
  }

  lemma SortedAround(p: seq<Node>, n: Node, q: seq<Node>)
    requires Sorted(p + [n] + q)
    ensures forall i | 0 <= i < |p| :: p[i].key <= n.key
    ensures forall i | 0 <= i < |q| :: n.key <= q[i].key
  {
    var s := p + [n] + q;
    assert s[|p|] == n;
    forall i | 0 <= i < |p| ensures p[i].key <= n.key {
      assert s[i] == p[i];
    }
    forall i | 0 <= i < |q| ensures n.key <= q[i].key {
      assert s[|p| + 1 + i] == q[i];
    }
  }

  lemma NodeInOrder(c: Ctx, t: Tree)
    requires t.T?
    ensures InOrder(Plug(c, t)) == Before(c) + InOrder(t.left) + [t.node] + (InOrder(t.right) + After(c))
  {
    PlugInOrder(c, t);
    var a, l, r, b := Before(c), InOrder(t.left), InOrder(t.right), After(c);
    Regroup(a, l, [t.node], r, b);
  }

  /** Descending by key keeps everything on the left of the hole at most `key` and everything on the right above it. */
  lemma Descend(c: Ctx, t: Tree, key: int)
    requires t.T? && Sorted(InOrder(Plug(c, t)))
    requires AtMost(Before(c), key) && Above(After(c), key)
    ensures key < t.node.key ==> Above(After(L(c, t.node, t.color, t.right)), key)
    ensures key >= t.node.key ==> AtMost(Before(R(c, t.node, t.color, t.left)), key)
  {
    NodeInOrder(c, t);
    var p, q := Before(c) + InOrder(t.left), InOrder(t.right) + After(c);
    SortedAround(p, t.node, q);
    assert After(L(c, t.node, t.color, t.right)) == [t.node] + q;
    assert Before(R(c, t.node, t.color, t.left)) == p + [t.node];
  }

  lemma StartBelow(key: int)
    ensures AtMost(Before(Top), key - 1) && Above(After(Top), key)
    ensures Last(Before(Top)) == null && First(After(Top)) == null
  {
  }

  /** Descending past a node with another key leaves smaller keys left of the hole and larger ones right of it. */
  lemma DescendPast(c: Ctx, t: Tree, key: int)
    requires t.T? && Sorted(InOrder(Plug(c, t))) && t.node.key != key
    requires AtMost(Before(c), key - 1) && Above(After(c), key)
    ensures key < t.node.key ==> Above(After(L(c, t.node, t.color, t.right)), key)
    ensures key > t.node.key ==> AtMost(Before(R(c, t.node, t.color, t.left)), key - 1)
    ensures Last(Before(R(c, t.node, t.color, t.left))) == t.node
    ensures First(After(L(c, t.node, t.color, t.right))) == t.node
  {
    Descend(c, t, key);
    Descend(c, t, key - 1);
  }

  lemma AllPassed(c: Ctx, key: int, s: seq<Node>)
    requires AtMost(Before(c), key - 1) && Above(After(c), key)
    requires s == InOrder(Plug(c, Leaf))
    ensures forall i | 0 <= i < |s| :: s[i].key != key
  {
    PlugInOrder(c, Leaf);
    var a, b := Before(c), After(c);
    assert InOrder(Plug(c, Leaf)) == a + b;
  }

  lemma LargestPassed(c: Ctx, key: int)
    requires AtMost(Before(c), key - 1) && Above(After(c), key) && Sorted(InOrder(Plug(c, Leaf)))
    ensures var s, m := InOrder(Plug(c, Leaf)), Last(Before(c));
      && (m == null ==> forall i | 0 <= i < |s| :: key < s[i].key)
      && (m != null ==> m.key <= key && forall i | 0 <= i < |s| && s[i].key <= key :: s[i].key <= m.key)
  {
    PlugInOrder(c, Leaf);
    var a, b := Before(c), After(c);
    var s := a + b;
    assert InOrder(Plug(c, Leaf)) == s;
    if a != [] {
      assert s[|a| - 1] == a[|a| - 1];
    }
  }

  lemma SmallestPassed(c: Ctx, key: int)
    requires AtMost(Before(c), key - 1) && Above(After(c), key) && Sorted(InOrder(Plug(c, Leaf)))
    ensures var s, m := InOrder(Plug(c, Leaf)), First(After(c));
      && (m == null ==> forall i | 0 <= i < |s| :: s[i].key < key)
      && (m != null ==> m.key >= key && forall i | 0 <= i < |s| && s[i].key >= key :: s[i].key >= m.key)
  {
    PlugInOrder(c, Leaf);
    var a, b := Before(c), After(c);
    var s := a + b;
    assert InOrder(Plug(c, Leaf)) == s;
    if b != [] {
      assert s[|a|] == b[0];
    }
  }

  /** The parent of a hole found by descending tells by its key which side the hole is on. */
  lemma HoleSide(c: Ctx, key: int)
    requires !c.Top? && AtMost(Before(c), key) && Above(After(c), key)
    ensures key < c.node.key <==> c.L?
  {
    if c.L? {
      assert After(c)[0] == c.node;
    } else {
      assert Before(c)[|Before(c)| - 1] == c.node;
    }
  }

  ghost function RemovedFrom(s: seq<Node>, n: Node): seq<Node> {
    if s == [] then [] else if s[0] == n then s[1..] else [s[0]] + RemovedFrom(s[1..], n)
  }

  lemma {:induction false} RemovedBetween(a: seq<Node>, n: Node, b: seq<Node>)
    requires n !in Elems(a)
    ensures RemovedFrom(a + [n] + b, n) == a + b
  {
    var s := a + [n] + b;
    if a == [] {
      assert s[1..] == b;
      assert a + b == b;
    } else {
      assert a[0] in Elems(a);
      assert s[1..] == a[1..] + [n] + b;
      assert Elems(a) == {a[0]} + Elems(a[1..]) by { assert a == [a[0]] + a[1..]; }
      RemovedBetween(a[1..], n, b);
      assert a + b == [a[0]] + (a[1..] + b);
    }
  }

  lemma SortedWithout(a: seq<Node>, n: Node, b: seq<Node>)
    requires Sorted(a + [n] + b)
    ensures Sorted(a + b)
  {
    var s, s' := a + [n] + b, a + b;
    forall i, j | 0 <= i < j < |s'| ensures s'[i].key <= s'[j].key {
      var i0, j0 := if i < |a| then i else i + 1, if j < |a| then j else j + 1;
      assert s[i0] == s'[i] && s[j0] == s'[j];
    }
  }

  /** The element after `n`, or null. */
  ghost function Next(s: seq<Node>, n: Node): Node? {
    if s == [] then null else if s[0] == n then First(s[1..]) else Next(s[1..], n)
  }

  lemma {:induction false} NextAfter(a: seq<Node>, n: Node, b: seq<Node>)
    requires n !in Elems(a)
    ensures Next(a + [n] + b, n) == First(b) == if |b| > 0 then b[0] else null
  {
    var s := a + [n] + b;
    if a == [] {
      assert s[1..] == b;
    } else {
      assert a[0] in Elems(a);
      assert s[1..] == a[1..] + [n] + b;
      assert Elems(a) == {a[0]} + Elems(a[1..]) by { assert a == [a[0]] + a[1..]; }
      NextAfter(a[1..], n, b);
    }
  }

  ghost function Last(s: seq<Node>): Node? {
    if s == [] then null else s[|s| - 1]
  }

  /** The element before `n`, or null. */
  ghost function Previous(s: seq<Node>, n: Node): Node? {
    if s == [] then null else if s[|s| - 1] == n then Last(s[..|s| - 1]) else Previous(s[..|s| - 1], n)
  }

  lemma {:induction false} PreviousBefore(a: seq<Node>, n: Node, b: seq<Node>)
    requires n !in Elems(b)
    ensures Previous(a + [n] + b, n) == Last(a) == if |a| > 0 then a[|a| - 1] else null
  {
    var s := a + [n] + b;
    if b == [] {
      assert s[..|s| - 1] == a;
    } else {
      var z := b[|b| - 1];
      assert z in Elems(b);
      assert s[..|s| - 1] == a + [n] + b[..|b| - 1];
      assert Elems(b) == Elems(b[..|b| - 1]) + {z} by { assert b == b[..|b| - 1] + [z]; }
      PreviousBefore(a, n, b[..|b| - 1]);
    }
  }

  ghost function First(s: seq<Node>): Node? {
    if s == [] then null else s[0]
  }

  // ---- Keys as a multiset ----

  ghost function Keys(s: seq<Node>): multiset<int> {
    if s == [] then multiset{} else multiset{s[0].key} + Keys(s[1..])
  }

  lemma {:induction false} InsertedKeys(s: seq<Node>, n: Node)
    ensures Keys(InsertedInto(s, n)) == Keys(s) + multiset{n.key}
  {
    if s != [] && n.key >= s[0].key {
      InsertedKeys(s[1..], n);
      assert InsertedInto(s, n)[1..] == InsertedInto(s[1..], n);
    } else {
      assert InsertedInto(s, n)[1..] == s;
    }
  }

  lemma {:induction false} RemovedKeys(s: seq<Node>, n: Node)
    requires n in s
    ensures Keys(s) == Keys(RemovedFrom(s, n)) + multiset{n.key}
  {
    if s[0] != n {
      RemovedKeys(s[1..], n);
      assert RemovedFrom(s, n)[1..] == RemovedFrom(s[1..], n);
    }
  }

  lemma {:induction false} MemberKey(s: seq<Node>, n: Node)
    requires n in s
    ensures n.key in Keys(s)
  {
    if s[0] != n {
      MemberKey(s[1..], n);
    }
  }

  /** A key that no node has is not among the keys. */
  lemma {:induction false} AbsentKey(s: seq<Node>, key: int)
    requires forall i | 0 <= i < |s| :: s[i].key != key
    ensures key !in Keys(s)
  {
    if s != [] {
      AbsentKey(s[1..], key);
    }
  }

  // ---- Colours ----

  predicate IsRed(t: Tree) {
    t.T? && t.color.Red?
  }

  ghost predicate CtxRed(c: Ctx) {
    !c.Top? && c.color.Red?
  }

  function Weight(col: Color): nat {
    if col.Black? then 1 else 0
  }

  /** Every path down from the root of `t` meets `k` black nodes. */
  ghost predicate Balanced(t: Tree, k: int) {
    match t
    case Leaf => k == 0
    case T(l, _, col, r) => Balanced(l, k - Weight(col)) && Balanced(r, k - Weight(col))
  }

  /** Filling the hole with a tree of black height `k` keeps all black heights equal. */
  ghost predicate CtxBalanced(c: Ctx, k: int) {
    match c
    case Top => true
    case L(up, _, col, s) => Balanced(s, k) && CtxBalanced(up, k + Weight(col))
    case R(up, _, col, s) => Balanced(s, k) && CtxBalanced(up, k + Weight(col))
  }

  ghost predicate NoRedRed(t: Tree) {
    match t
    case Leaf => true
    case T(l, _, col, r) => (col.Red? ==> !IsRed(l) && !IsRed(r)) && NoRedRed(l) && NoRedRed(r)
  }

  ghost predicate CtxNoRedRed(c: Ctx) {
    match c
    case Top => true
    case L(up, _, col, s) => (col.Red? ==> !IsRed(s) && !CtxRed(up) && !up.Top?) && NoRedRed(s) && CtxNoRedRed(up)
    case R(up, _, col, s) => (col.Red? ==> !IsRed(s) && !CtxRed(up) && !up.Top?) && NoRedRed(s) && CtxNoRedRed(up)
  }

  /** The red-black rules for a whole tree. */
  ghost predicate RedBlack(t: Tree, k: int) {
    Balanced(t, k) && NoRedRed(t) && !IsRed(t)
  }

  ghost predicate Colored(t: Tree) {
    exists k :: RedBlack(t, k)
  }

  /** The rules for `Plug(c, t)`, seen from the hole; `loose` drops the rule between the root of `t` and the context. */
  ghost predicate Fits(c: Ctx, t: Tree, k: int) {
    && Balanced(t, k) && CtxBalanced(c, k)
    && NoRedRed(t) && CtxNoRedRed(c)
    && (IsRed(t) ==> !CtxRed(c) && !c.Top?)
  }

  /** Stepping down keeps the rules in view. */
  lemma FitsDown(c: Ctx, t: Tree, k: int)
    requires t.T?
    ensures Fits(c, t, k) <==> Fits(L(c, t.node, t.color, t.right), t.left, k - Weight(t.color))
    ensures Fits(c, t, k) <==> Fits(R(c, t.node, t.color, t.left), t.right, k - Weight(t.color))
  {
  }

  /** The rules of the whole tree, seen from any place in it. */
  lemma {:induction false} UnplugFits(c: Ctx, t: Tree, k': int) returns (k: int)
    requires RedBlack(Plug(c, t), k')
    ensures Fits(c, t, k)
  {
    match c
    case Top => k := k';
    case L(up, n, col, r) =>
      k := UnplugFits(up, T(t, n, col, r), k');
      FitsDown(up, T(t, n, col, r), k);
      k := k - Weight(col);
    case R(up, n, col, l) =>
      k := UnplugFits(up, T(l, n, col, t), k');
      FitsDown(up, T(l, n, col, t), k);
      k := k - Weight(col);
  }

  lemma BalancedNat(t: Tree, k: int)
    requires Balanced(t, k)
    ensures k >= 0
  {
  }

  lemma {:induction false} PlugFits(c: Ctx, t: Tree, k: int) returns (k': int)
    requires Fits(c, t, k)
    ensures RedBlack(Plug(c, t), k')
  {
    match c
    case Top => k' := k;
    case L(up, n, col, r) => k' := PlugFits(up, T(t, n, col, r), k + Weight(col));
    case R(up, n, col, l) => k' := PlugFits(up, T(l, n, col, t), k + Weight(col));
  }

  /** The state of `insert_fixups`: a red focus that may only clash with a red parent. */
  ghost predicate Loose(c: Ctx, t: Tree, k: int) {
    && IsRed(t)
    && Balanced(t, k) && CtxBalanced(c, k)
    && NoRedRed(t) && CtxNoRedRed(c)
  }

  ghost function Depth(c: Ctx): nat {
    if c.Top? then 0 else 1 + Depth(c.up)
  }

  // ---- Leaves ----

  /** `n` sits in `t` without children. */
  ghost predicate HasLeaf(t: Tree, n: Node) {
    t.T? && (HasLeaf(t.left, n) || HasLeaf(t.right, n) || (t.node == n && t.left.Leaf? && t.right.Leaf?))
  }

  ghost predicate CtxHasLeaf(c: Ctx, n: Node) {
    match c
    case Top => false
    case L(up, _, _, s) => HasLeaf(s, n) || CtxHasLeaf(up, n)
    case R(up, _, _, s) => HasLeaf(s, n) || CtxHasLeaf(up, n)
  }

  lemma {:induction false} PlugHasLeaf(c: Ctx, t: Tree, n: Node)
    requires t.T?
    ensures HasLeaf(Plug(c, t), n) <==> HasLeaf(t, n) || CtxHasLeaf(c, n)
  {
    match c
    case Top =>
    case L(up, m, col, s) => PlugHasLeaf(up, T(t, m, col, s), n);
    case R(up, m, col, s) => PlugHasLeaf(up, T(s, m, col, t), n);
  }

  /** If `n` comes first in key order, it has no children. */
  ghost predicate LeafIfFirst(t: Tree, n: Node) {
    InOrder(t) != [] && InOrder(t)[0] == n ==> HasLeaf(t, n)
  }

  lemma {:induction false} HasLeafIsNode(t: Tree, n: Node)
    requires HasLeaf(t, n)
    ensures n in Nodes(t)
  {
    if HasLeaf(t.left, n) {
      HasLeafIsNode(t.left, n);
    } else if HasLeaf(t.right, n) {
      HasLeafIsNode(t.right, n);
    }
  }

  // ---- Rotations ----

  function LeftRotated(t: Tree): Tree
    requires t.T? && t.right.T?
  {
    T(T(t.left, t.node, t.color, t.right.left), t.right.node, t.right.color, t.right.right)
  }

  function RightRotated(t: Tree): Tree
    requires t.T? && t.left.T?
  {
    T(t.left.left, t.left.node, t.left.color, T(t.left.right, t.node, t.color, t.right))
  }

  lemma Rebracket(a: seq<Node>, x: seq<Node>, b: seq<Node>, y: seq<Node>, d: seq<Node>)
    ensures a + x + (b + y + d) == (a + x + b) + y + d
  {
  }

  lemma RotatedInOrder(t: Tree)
    requires t.T?
    ensures t.right.T? ==> InOrder(LeftRotated(t)) == InOrder(t)
    ensures t.left.T? ==> InOrder(RightRotated(t)) == InOrder(t)
  {
    if t.right.T? {
      Rebracket(InOrder(t.left), [t.node], InOrder(t.right.left), [t.right.node], InOrder(t.right.right));
    }
    if t.left.T? {
      Rebracket(InOrder(t.left.left), [t.left.node], InOrder(t.left.right), [t.node], InOrder(t.right));
    }
  }

  lemma RotatedLeaves(t: Tree, n: Node)
    requires t.T? && HasLeaf(t, n)
    ensures t.right.T? && (t.right.node != n || t.right.left.T? || t.right.right.T?) ==> HasLeaf(LeftRotated(t), n)
    ensures t.left.T? && (t.left.node != n || t.left.left.T? || t.left.right.T?) ==> HasLeaf(RightRotated(t), n)
  {
    assert t.right.T? ==> (HasLeaf(LeftRotated(t).left, n) <==>
      HasLeaf(t.left, n) || HasLeaf(t.right.left, n) || (t.node == n && t.left.Leaf? && t.right.left.Leaf?));
    assert t.left.T? ==> (HasLeaf(RightRotated(t).right, n) <==>
      HasLeaf(t.right, n) || HasLeaf(t.left.right, n) || (t.node == n && t.right.Leaf? && t.left.right.Leaf?));
  }

  lemma SameOrder(c: Ctx, t: Tree, t': Tree)
    requires InOrder(t) == InOrder(t')
    ensures InOrder(Plug(c, t)) == InOrder(Plug(c, t'))
  {
    PlugInOrder(c, t);
    PlugInOrder(c, t');
  }

  // ---- Insertion fix-up, one step at a time ----

  /** The tree at the parent of the focus. */
  function ParentTree(c: Ctx, t: Tree): Tree
    requires !c.Top?
  {
    if c.L? then T(t, c.node, c.color, c.right) else T(c.left, c.node, c.color, t)
  }

  function Sibling(c: Ctx): Tree
    requires !c.Top?
  {
    if c.L? then c.right else c.left
  }

  /** The context of the sibling. */
  function SiblingCtx(c: Ctx, t: Tree): Ctx
    requires !c.Top?
  {
    if c.L? then R(c.up, c.node, c.color, t) else L(c.up, c.node, c.color, t)
  }

  function Blackened(t: Tree): Tree
    requires t.T?
  {
    t.(color := Black)
  }

  lemma RedParentHasBlackParent(c: Ctx, t: Tree, k: int)
    requires Loose(c, t, k) && CtxRed(c)
    ensures !c.up.Top? && c.up.color.Black?
  {
    assert CtxNoRedRed(c.up);
  }

  /** Red parent and red uncle: both turn black, the grandparent red, and the problem moves up to it. */
  function PushedUp(c: Ctx, t: Tree): Tree
    requires !c.Top? && !c.up.Top? && Sibling(c.up).T?
  {
    var p := Blackened(ParentTree(c, t));
    var u := Blackened(Sibling(c.up));
    if c.up.L? then T(p, c.up.node, Red, u) else T(u, c.up.node, Red, p)
  }

  lemma PushedUpIsLoose(c: Ctx, t: Tree, k: int)
    requires Loose(c, t, k) && CtxRed(c) && IsRed(Sibling(c.up))
    ensures Loose(c.up.up, PushedUp(c, t), k + 1)
  {
    var p, u := ParentTree(c, t), Sibling(c.up);
    assert CtxBalanced(c.up, k) && CtxNoRedRed(c.up);
    assert Balanced(u, k) && NoRedRed(u) && Balanced(u.left, k) && Balanced(u.right, k);
    assert Balanced(Sibling(c), k);
    assert Balanced(Blackened(p), k + 1) && Balanced(Blackened(u), k + 1);
    assert NoRedRed(Blackened(p)) && NoRedRed(Blackened(u));
  }

  lemma PushedUpSame(c: Ctx, t: Tree, n: Node)
    requires !c.Top? && !c.up.Top? && Sibling(c.up).T? && t.T?
    ensures InOrder(Plug(c.up.up, PushedUp(c, t))) == InOrder(Plug(c, t))
    ensures HasLeaf(Plug(c, t), n) ==> HasLeaf(Plug(c.up.up, PushedUp(c, t)), n)
  {
    var p := ParentTree(c, t);
    var g := ParentTree(c.up, p);
    assert Plug(c, t) == Plug(c.up.up, g);
    var g' := PushedUp(c, t);
    assert InOrder(Blackened(p)) == InOrder(p);
    SameOrder(c.up.up, g, g');
    PlugHasLeaf(c.up.up, g, n);
    PlugHasLeaf(c.up.up, g', n);
    assert HasLeaf(Blackened(p), n) == HasLeaf(p, n);
  }

  /** Black uncle, focus on the outside: the parent turns black and takes the red grandparent's place. */
  function RaisedCtx(c: Ctx): Ctx
    requires !c.Top? && !c.up.Top?
  {
    if c.up.L? then L(c.up.up, c.node, Black, T(Sibling(c), c.up.node, Red, c.up.right))
    else R(c.up.up, c.node, Black, T(c.up.left, c.up.node, Red, Sibling(c)))
  }

  lemma RaisedIsLoose(c: Ctx, t: Tree, k: int)
    requires Loose(c, t, k) && CtxRed(c) && !c.up.Top? && !IsRed(Sibling(c.up))
    ensures Loose(RaisedCtx(c), t, k) && !CtxRed(RaisedCtx(c))
  {
    assert CtxBalanced(c.up, k) && CtxNoRedRed(c.up);
    assert Balanced(Sibling(c), k) && Balanced(Sibling(c.up), k);
  }

  /** Black uncle, focus on the inside: rotating the parent swaps its role with the focus. */
  function SwungCtx(c: Ctx, t: Tree): Ctx
    requires !c.Top? && t.T?
  {
    if c.R? then L(c.up, t.node, t.color, t.right) else R(c.up, t.node, t.color, t.left)
  }

  function SwungTree(c: Ctx, t: Tree): Tree
    requires !c.Top? && t.T?
  {
    if c.R? then T(c.left, c.node, c.color, t.left) else T(t.right, c.node, c.color, c.right)
  }

  lemma SwungIsRotation(c: Ctx, t: Tree)
    requires !c.Top? && t.T?
    ensures ParentTree(SwungCtx(c, t), SwungTree(c, t))
         == if c.R? then LeftRotated(ParentTree(c, t)) else RightRotated(ParentTree(c, t))
    ensures SwungCtx(c, t).up == c.up && Sibling(SwungCtx(c, t)) == if c.R? then t.right else t.left
  {
  }

  lemma BeforeIsInContext(c: Ctx)
    ensures Elems(Before(c)) <= CtxNodes(c)
  {
    match c
    case Top =>
    case L(up, _, _, _) => BeforeIsInContext(up);
    case R(up, n, _, l) =>
      BeforeIsInContext(up);
      InOrderNodes(l);
      assert Before(c) == Before(up) + (InOrder(l) + [n]) + [];
      assert Elems(Before(c)) == Elems(Before(up)) + Elems(InOrder(l)) + {n};
  }

  lemma ElemsConcat(a: seq<Node>, b: seq<Node>)
    ensures Elems(a + b) == Elems(a) + Elems(b)
  {
  }

  lemma {:induction false} AfterIsInContext(c: Ctx)
    ensures Elems(After(c)) <= CtxNodes(c)
  {
    match c
    case Top =>
    case L(up, n, _, r) =>
      AfterIsInContext(up);
      InOrderNodes(r);
      ElemsConcat([n] + InOrder(r), After(up));
      ElemsConcat([n], InOrder(r));
    case R(up, _, _, _) => AfterIsInContext(up);
  }

  /** A node with something before its context is not first. */
  lemma NotFirst(c: Ctx, t: Tree, n: Node)
    requires Apart(c, t) && n in Nodes(t) && Before(c) != []
    ensures InOrder(Plug(c, t)) != [] && InOrder(Plug(c, t))[0] != n
  {
    PlugInOrder(c, t);
    BeforeIsInContext(c);
    assert InOrder(Plug(c, t))[0] == Before(c)[0];
    assert Before(c)[0] in Elems(Before(c));
  }

  /** Swinging the focus outwards keeps the order, and keeps `n` childless if it comes first. */
  lemma SwungSame(c: Ctx, t: Tree, n: Node)
    requires Apart(c, t) && t.T? && !c.Top? && !c.up.Top? && (c.L? <==> c.up.R?)
    requires LeafIfFirst(Plug(c, t), n)
    ensures InOrder(Plug(SwungCtx(c, t), SwungTree(c, t))) == InOrder(Plug(c, t))
    ensures LeafIfFirst(Plug(SwungCtx(c, t), SwungTree(c, t)), n)
  {
    var p := ParentTree(c, t);
    var p' := if c.R? then LeftRotated(p) else RightRotated(p);
    SwungIsRotation(c, t);
    assert Plug(SwungCtx(c, t), SwungTree(c, t)) == Plug(c.up, p') && Plug(c, t) == Plug(c.up, p);
    RotatedInOrder(p);
    SameOrder(c.up, p, p');
    if HasLeaf(Plug(c, t), n) {
      PlugHasLeaf(c.up, p, n);
      PlugHasLeaf(c.up, p', n);
      if HasLeaf(p, n) {
        RotatedLeaves(p, n);
        if n == t.node {
          NotFirst(c, t, n);
        }
      }
    }
  }

  /** Raising the parent keeps the order, and keeps `n` childless. */
  lemma RaisedSame(c: Ctx, t: Tree, n: Node)
    requires t.T? && !c.Top? && !c.up.Top? && (c.L? <==> c.up.L?)
    ensures InOrder(Plug(RaisedCtx(c), t)) == InOrder(Plug(c, t))
    ensures HasLeaf(Plug(c, t), n) ==> HasLeaf(Plug(RaisedCtx(c), t), n)
  {
    var g := ParentTree(c.up, ParentTree(c, t));
    var g' := if c.L? then RightRotated(g) else LeftRotated(g);
    var g'' := ParentTree(RaisedCtx(c), t);
    assert Plug(RaisedCtx(c), t) == Plug(c.up.up, g'') && Plug(c, t) == Plug(c.up.up, g);
    RotatedInOrder(g);
    assert InOrder(g'') == InOrder(g');
    SameOrder(c.up.up, g, g'');
    PlugHasLeaf(c.up.up, g, n);
    PlugHasLeaf(c.up.up, g'', n);
    if HasLeaf(g, n) {
      RotatedLeaves(g, n);
      assert HasLeaf(g'', n);
    }
  }

  lemma BlackenedSame(t: Tree, n: Node)
    requires t.T?
    ensures InOrder(Blackened(t)) == InOrder(t) && HasLeaf(Blackened(t), n) == HasLeaf(t, n)
  {
  }

  lemma {:induction false} PlugIsNode(c: Ctx, t: Tree)
    requires t.T?
    ensures Plug(c, t).T?
  {
    if !c.Top? {
      PlugIsNode(c.up, ParentTree(c, t));
    }
  }

  /** When the fix-up loop stops, blackening the root gives a red-black tree. */
  lemma BlackenRoot(c: Ctx, t: Tree, k: int)
    requires Loose(c, t, k) && !CtxRed(c)
    ensures Plug(c, t).T? && Colored(Blackened(Plug(c, t)))
  {
    PlugIsNode(c, t);
    if c.Top? {
      assert RedBlack(Blackened(t), k + 1);
    } else {
      var k' := PlugFits(c, t, k);
      assert RedBlack(Blackened(Plug(c, t)), k');
    }
  }

  /** A red node in an empty hole breaks at most the rule between it and its parent. */
  lemma AttachedIsLoose(c: Ctx, n: Node, k: int)
    requires Fits(c, Leaf, k)
    ensures Loose(c, T(Leaf, n, Red, Leaf), 0)
    ensures !c.Top? && c.up.Top? ==> !CtxRed(c)
  {
  }

  lemma AttachedInOrder(c: Ctx, n: Node)
    requires AtMost(Before(c), n.key) && Above(After(c), n.key) && Sorted(InOrder(Plug(c, Leaf)))
    ensures InOrder(Plug(c, T(Leaf, n, Red, Leaf))) == InsertedInto(InOrder(Plug(c, Leaf)), n)
    ensures Sorted(InOrder(Plug(c, T(Leaf, n, Red, Leaf))))
    ensures LeafIfFirst(Plug(c, T(Leaf, n, Red, Leaf)), n)
  {
    PlugInOrder(c, Leaf);
    PlugInOrder(c, T(Leaf, n, Red, Leaf));
    assert InOrder(Plug(c, Leaf)) == Before(c) + After(c);
    assert InOrder(T(Leaf, n, Red, Leaf)) == [n];
    InsertedBetween(Before(c), n, After(c));
    SortedBetween(Before(c), n, After(c));
    PlugHasLeaf(c, T(Leaf, n, Red, Leaf), n);
  }

  lemma {:induction false} InsertedElems(s: seq<Node>, n: Node)
    ensures Elems(InsertedInto(s, n)) == Elems(s) + {n}
    ensures |InsertedInto(s, n)| == |s| + 1
  {
    if s != [] && n.key >= s[0].key {
      InsertedElems(s[1..], n);
      assert s == [s[0]] + s[1..];
      assert Elems(s) == {s[0]} + Elems(s[1..]);
      assert Elems(InsertedInto(s, n)) == {s[0]} + Elems(InsertedInto(s[1..], n));
    } else {
      assert Elems([n] + s) == {n} + Elems(s);
    }
  }

  /** Where an insertion puts the minimum. */
  lemma InsertedFirst(s: seq<Node>, n: Node)
    ensures InsertedInto(s, n)[0] == n || (s != [] && InsertedInto(s, n)[0] == s[0])
    ensures s != [] && InsertedInto(s, n)[0] == n && n !in Elems(s) ==> InsertedInto(s, n)[1] == s[0]
  {
    if s != [] {
      assert s[0] in Elems(s);
    }
  }

  lemma FitsWhenParentBlack(c: Ctx, t: Tree, k: int)
    requires Loose(c, t, k) && !c.Top? && !CtxRed(c)
    ensures Colored(Plug(c, t))
  {
    var k' := PlugFits(c, t, k);
  }

  lemma SingleNode(n: Node)
    ensures InOrder(T(Leaf, n, Black, Leaf)) == [n] && InsertedInto([], n) == [n] && Sorted([n])
    ensures Colored(T(Leaf, n, Black, Leaf))
  {
    assert Balanced(Leaf, 0) && NoRedRed(Leaf);
    assert RedBlack(T(Leaf, n, Black, Leaf), 1);
  }

  lemma SwungIsLoose(c: Ctx, t: Tree, k: int)
    requires Loose(c, t, k) && CtxRed(c)
    ensures Loose(SwungCtx(c, t), SwungTree(c, t), k) && CtxRed(SwungCtx(c, t))
  {
  }

  // ---- Height ----

  ghost function Height(t: Tree): nat {
    match t
    case Leaf => 0
    case T(l, _, _, r) => 1 + if Height(l) < Height(r) then Height(r) else Height(l)
  }

  lemma {:induction false} BlackHeightBounds(t: Tree, k: nat)
    requires Balanced(t, k) && NoRedRed(t)
    ensures Pow2(k) <= |InOrder(t)| + 1
    ensures Height(t) <= 2 * k + if IsRed(t) then 1 else 0
  {
    match t
    case Leaf =>
    case T(l, n, col, r) =>
      BalancedNat(l, k - Weight(col));
      BlackHeightBounds(l, k - Weight(col));
      BlackHeightBounds(r, k - Weight(col));
  }

  lemma SquareMonotone(a: nat, b: nat)
    requires a <= b
    ensures a * a <= b * b
  {
    assert a * a <= a * b <= b * b;
  }

  /** A red-black tree of n nodes has height at most 2*log2(n + 1). */
  lemma HeightBound(t: Tree)
    requires Colored(t)
    ensures Pow2(Height(t)) <= (|InOrder(t)| + 1) * (|InOrder(t)| + 1)
  {
    var k :| RedBlack(t, k);
    BalancedNat(t, k);
    BlackHeightBounds(t, k);
    Pow2Monotone(Height(t), k + k);
    Pow2Sum(k, k);
    SquareMonotone(Pow2(k), |InOrder(t)| + 1);
  }
}
