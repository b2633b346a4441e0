/** Swapping two nodes' places in the tree by relinking them, seen as renaming the nodes in the heap. */
module RedBlackRelink {
  import opened RedBlackShape
  import opened RedBlackHeap

  function Swap(a: Node, b: Node, x: Node?): Node? {
    if x == a then b else if x == b then a else x
  }

  function SwapNode(a: Node, b: Node, x: Node): Node {
    if x == a then b else if x == b then a else x
  }

  ghost function SwapFields(a: Node, b: Node, f: Fields): Fields {
    Fields(Swap(a, b, f.left), Swap(a, b, f.right), Swap(a, b, f.parent), f.color)
  }

  /** Every link to `a` becomes one to `b` and the other way round; colours stay with the places. */
  ghost predicate Renamed(h: Heap, h': Heap, a: Node, b: Node)
    requires a in h && b in h
  {
    h'.Keys == h.Keys && forall x | x in h :: h'[x] == SwapFields(a, b, h[SwapNode(a, b, x)])
  }

  ghost function RenamedTree(t: Tree, a: Node, b: Node): Tree {
    match t
    case Leaf => Leaf
    case T(l, n, col, r) => T(RenamedTree(l, a, b), SwapNode(a, b, n), col, RenamedTree(r, a, b))
  }

  ghost function RenamedCtx(c: Ctx, a: Node, b: Node): Ctx {
    match c
    case Top => Top
    case L(up, n, col, s) => L(RenamedCtx(up, a, b), SwapNode(a, b, n), col, RenamedTree(s, a, b))
    case R(up, n, col, s) => R(RenamedCtx(up, a, b), SwapNode(a, b, n), col, RenamedTree(s, a, b))
  }

  /** What the links of a single node say about its neighbours. */
  ghost predicate LinkedNode(h: Heap, x: Node, root: Node?)
    requires x in h
  {
    var f := h[x];
    && x != f.left && x != f.right && x != f.parent
    && (f.left != null ==> f.left in h && h[f.left].parent == x && f.left != f.right)
    && (f.right != null ==> f.right in h && h[f.right].parent == x)
    && (f.parent == null <==> x == root)
    && (f.parent != null ==> f.parent in h && (h[f.parent].left == x || h[f.parent].right == x))
  }

  ghost predicate Linked(h: Heap, root: Node?) {
    forall x {:trigger LinkedNode(h, x, root)} | x in h :: LinkedNode(h, x, root)
  }

  lemma LinksOf(h: Heap, x: Node, root: Node?)
    requires Linked(h, root) && x in h
    ensures LinkedNode(h, x, root)
  {
  }

  ghost predicate Redirected(h: Heap, h': Heap, n: Node, s: Node, x: Node)
    requires n in h
  {
    && x in h && x in h'
    && h'[x].left == (if h[x].left == n then s else h[x].left)
    && h'[x].right == (if h[x].right == n then s else h[x].right)
    && h'[x].parent == (if x == h[n].left || (x == h[n].right && x != s) then s else h[x].parent)
    && h'[x].color == h[x].color
  }

  ghost predicate DistantTraded(h: Heap, h': Heap, n: Node, s: Node, x: Node)
    requires n in h && s in h
  {
    && x in h && x in h'
    && h'[x].left == (if x == h[s].parent then n else h[x].left)
    && h'[x].right == h[x].right
    && h'[x].parent == (if x == n then h[s].parent else if x == s then h[n].parent
                        else if x == h[s].right then n else h[x].parent)
    && h'[x].color == h[x].color
  }

  ghost predicate ChildTraded(h: Heap, h': Heap, n: Node, s: Node, x: Node)
    requires n in h && s in h
  {
    && x in h && x in h'
    && h'[x].left == h[x].left && h'[x].right == h[x].right
    && h'[x].parent == (if x == n then s else if x == s then h[n].parent
                        else if x == h[s].right then n else h[x].parent)
    && h'[x].color == h[x].color
  }

  ghost predicate ChildrenTraded(h: Heap, h': Heap, n: Node, s: Node, neighbourSwap: bool, x: Node)
    requires n in h && s in h
  {
    && x in h && x in h'
    && h'[x].left == h[SwapNode(n, s, x)].left
    && h'[x].right == (if x == s && neighbourSwap then n else h[SwapNode(n, s, x)].right)
    && h'[x].parent == h[x].parent
    && h'[x].color == h[SwapNode(n, s, x)].color
  }

  /** `s` is the successor of the two-child node `n`: its right child without left child, or a left child below. */
  ghost predicate Successive(h: Heap, n: Node, s: Node) {
    && n in h && s in h && n != s
    && h[n].left != null && h[n].right != null && h[s].left == null
    && h[s].parent != null && h[n].parent != s
    && (if h[s].parent == n then h[n].right == s else h[s].parent in h && h[h[s].parent].left == s && h[n].right != s)
  }

  lemma RootLinks(h: Heap, n: Node, s: Node, root: Node?)
    requires Linked(h, root) && Successive(h, n, s)
    ensures root != s
  {
    LinksOf(h, s, root);
  }

  /** What the second part finds once the first has run. */
  lemma RedirectedSuccessor(h: Heap, h1: Heap, n: Node, s: Node, root: Node?)
    requires Linked(h, root) && Successive(h, n, s) && h1.Keys == h.Keys
    requires forall x | x in h :: Redirected(h, h1, n, s, x)
    ensures h1[s].right == h[s].right && (h[s].right != null ==> h[s].right in h && h[s].right != s && h[s].right != n)
    ensures h[s].parent != n ==>
      && h1[s].parent == h[s].parent && h1[s].parent in h1 && h1[h1[s].parent].left == s && h1[s].parent != s
  {
    hide Linked;
    LinksOf(h, s, root);
    LinksOf(h, n, root);
    if h[s].right != null {
      LinksOf(h, h[s].right, root);
    }
    assert Redirected(h, h1, n, s, s);
    assert Redirected(h, h1, n, s, h[s].parent);
  }

  /** The three parts together rename the two nodes everywhere. */
  lemma TradedIsRenamed(h: Heap, h1: Heap, h2: Heap, h3: Heap, n: Node, s: Node, root: Node?, x: Node)
    requires Linked(h, root) && Successive(h, n, s) && h1.Keys == h.Keys == h2.Keys == h3.Keys && x in h
    requires forall y | y in h :: Redirected(h, h1, n, s, y)
    requires forall y | y in h ::
      if h[s].parent == n then ChildTraded(h1, h2, n, s, y) else DistantTraded(h1, h2, n, s, y)
    requires forall y | y in h :: ChildrenTraded(h2, h3, n, s, h[s].parent == n, y)
    ensures h3[x] == SwapFields(n, s, h[SwapNode(n, s, x)])
  {
    hide Linked;
    var y := SwapNode(n, s, x);
    LinksOf(h, n, root);
    LinksOf(h, s, root);
    LinksOf(h, x, root);
    LinksOf(h, y, root);
    assert Redirected(h, h1, n, s, x) && Redirected(h, h1, n, s, y) && Redirected(h, h1, n, s, s);
    assert if h[s].parent == n then ChildTraded(h1, h2, n, s, x) else DistantTraded(h1, h2, n, s, x);
    assert if h[s].parent == n then ChildTraded(h1, h2, n, s, y) else DistantTraded(h1, h2, n, s, y);
    assert ChildrenTraded(h2, h3, n, s, h[s].parent == n, x);
  }

  // ---- The tree before and after ----

  /** In a tree, every node's links agree with those of its neighbours. */
  lemma {:induction false} TreeLinks(h: Heap, t: Tree, p: Node?, x: Node)
    requires TreeAt(h, t, p) && Distinct(t) && x in Nodes(t) && Nodes(t) <= h.Keys && (p == null || p !in Nodes(t))
    ensures h[x].left != null ==> h[x].left in Nodes(t) && h[h[x].left].parent == x && h[x].left != h[x].right
    ensures h[x].right != null ==> h[x].right in Nodes(t) && h[h[x].right].parent == x
    ensures x != h[x].left && x != h[x].right && x != h[x].parent
    ensures x == t.node ==> h[x].parent == p
    ensures x != t.node ==>
      h[x].parent != null && h[x].parent in Nodes(t) && (h[h[x].parent].left == x || h[h[x].parent].right == x)
  {
    assert TreeAt(h, t.left, t.node) && TreeAt(h, t.right, t.node);
    if x in Nodes(t.left) {
      TreeLinks(h, t.left, t.node, x);
    } else if x in Nodes(t.right) {
      TreeLinks(h, t.right, t.node, x);
    }
  }

  lemma TreeIsLinked(h: Heap, root: Node?, t: Tree)
    requires At(h, root, Top, t) && h.Keys == Nodes(t)
    ensures Linked(h, root)
  {
    forall x | x in h ensures LinkedNode(h, x, root) {
      TreeLinks(h, t, null, x);
    }
  }

  ghost function RenamedSet(s: set<Node>, a: Node, b: Node): set<Node> {
    set x | x in s :: SwapNode(a, b, x)
  }

  lemma RenamedUnion(p: set<Node>, n: Node, q: set<Node>, a: Node, b: Node)
    ensures RenamedSet(p + {n} + q, a, b) == RenamedSet(p, a, b) + {SwapNode(a, b, n)} + RenamedSet(q, a, b)
    ensures n !in p ==> SwapNode(a, b, n) !in RenamedSet(p, a, b)
    ensures n !in q ==> SwapNode(a, b, n) !in RenamedSet(q, a, b)
    ensures p !! q ==> RenamedSet(p, a, b) !! RenamedSet(q, a, b)
  {
  }

  lemma {:induction false} RenamedNodes(t: Tree, a: Node, b: Node)
    ensures Nodes(RenamedTree(t, a, b)) == RenamedSet(Nodes(t), a, b)
    ensures Distinct(t) ==> Distinct(RenamedTree(t, a, b))
  {
    hide RenamedSet;
    match t
    case Leaf => NothingRenamed(a, b);
    case T(l, n, _, r) =>
      RenamedNodes(l, a, b);
      RenamedNodes(r, a, b);
      RenamedUnion(Nodes(l), n, Nodes(r), a, b);
  }

  lemma {:induction false} RenamedCtxNodes(c: Ctx, a: Node, b: Node)
    ensures CtxNodes(RenamedCtx(c, a, b)) == RenamedSet(CtxNodes(c), a, b)
    ensures CtxDistinct(c) ==> CtxDistinct(RenamedCtx(c, a, b))
  {
    hide RenamedSet;
    match c
    case Top => NothingRenamed(a, b);
    case L(up, n, _, s) =>
      RenamedCtxNodes(up, a, b);
      RenamedNodes(s, a, b);
      RenamedUnion(CtxNodes(up), n, Nodes(s), a, b);
    case R(up, n, _, s) =>
      RenamedCtxNodes(up, a, b);
      RenamedNodes(s, a, b);
      RenamedUnion(CtxNodes(up), n, Nodes(s), a, b);
  }

  lemma NothingRenamed(a: Node, b: Node)
    ensures RenamedSet({}, a, b) == {}
  {
  }

  lemma {:induction false} RenamedTreeAt(h: Heap, h': Heap, a: Node, b: Node, t: Tree, p: Node?)
    requires a in h && b in h && Renamed(h, h', a, b) && TreeAt(h, t, p)
    ensures TreeAt(h', RenamedTree(t, a, b), Swap(a, b, p))
  {
    match t
    case Leaf =>
    case T(l, n, _, r) =>
      RenamedTreeAt(h, h', a, b, l, n);
      RenamedTreeAt(h, h', a, b, r, n);
      assert h'[SwapNode(a, b, n)] == SwapFields(a, b, h[n]);
  }

  lemma {:induction false} RenamedCtxAt(h: Heap, h': Heap, a: Node, b: Node, c: Ctx, hole: Node?, root: Node?)
    requires a in h && b in h && Renamed(h, h', a, b) && CtxAt(h, c, hole, root)
    ensures CtxAt(h', RenamedCtx(c, a, b), Swap(a, b, hole), Swap(a, b, root))
  {
    match c
    case Top =>
    case L(up, n, _, s) =>
      RenamedTreeAt(h, h', a, b, s, n);
      RenamedCtxAt(h, h', a, b, up, n, root);
      assert h'[SwapNode(a, b, n)] == SwapFields(a, b, h[n]);
    case R(up, n, _, s) =>
      RenamedTreeAt(h, h', a, b, s, n);
      RenamedCtxAt(h, h', a, b, up, n, root);
      assert h'[SwapNode(a, b, n)] == SwapFields(a, b, h[n]);
  }

  lemma RenamedApart(c: Ctx, t: Tree, a: Node, b: Node)
    requires Apart(c, t)
    ensures Apart(RenamedCtx(c, a, b), RenamedTree(t, a, b))
  {
    RenamedNodes(t, a, b);
    RenamedCtxNodes(c, a, b);
    RenamedUnion(Nodes(t), a, CtxNodes(c), a, b);
  }

  lemma UpRenamed(c: Ctx, a: Node, b: Node)
    ensures Up(RenamedCtx(c, a, b)) == Swap(a, b, Up(c))
  {
  }

  lemma RootRenamed(t: Tree, a: Node, b: Node)
    ensures Root(RenamedTree(t, a, b)) == Swap(a, b, Root(t))
  {
  }

  /** A renamed heap holds the renamed tree. */
  lemma RenamedAt(h: Heap, h': Heap, a: Node, b: Node, root: Node?, c: Ctx, t: Tree)
    requires a in h && b in h && Renamed(h, h', a, b) && At(h, root, c, t)
    ensures At(h', Swap(a, b, root), RenamedCtx(c, a, b), RenamedTree(t, a, b))
  {
    hide Renamed, TreeAt, CtxAt, RenamedTree, RenamedCtx, Apart;
    RenamedTreeAt(h, h', a, b, t, Up(c));
    RenamedCtxAt(h, h', a, b, c, Root(t), root);
    RenamedApart(c, t, a, b);
    UpRenamed(c, a, b);
    RootRenamed(t, a, b);
  }

  /** Renaming leaves the colours of every place alone. */
  lemma {:induction false} RenamedTreeColors(t: Tree, a: Node, b: Node, k: int)
    ensures Balanced(RenamedTree(t, a, b), k) == Balanced(t, k)
    ensures NoRedRed(RenamedTree(t, a, b)) == NoRedRed(t)
    ensures IsRed(RenamedTree(t, a, b)) == IsRed(t)
  {
    match t
    case Leaf =>
    case T(l, n, col, r) =>
      RenamedTreeColors(l, a, b, k - Weight(col));
      RenamedTreeColors(r, a, b, k - Weight(col));
  }

  lemma {:induction false} RenamedCtxColors(c: Ctx, a: Node, b: Node, k: int)
    ensures CtxBalanced(RenamedCtx(c, a, b), k) == CtxBalanced(c, k)
    ensures CtxNoRedRed(RenamedCtx(c, a, b)) == CtxNoRedRed(c)
    ensures CtxRed(RenamedCtx(c, a, b)) == CtxRed(c) && RenamedCtx(c, a, b).Top? == c.Top?
  {
    match c
    case Top =>
    case L(up, n, col, s) =>
      RenamedCtxColors(up, a, b, k + Weight(col));
      RenamedTreeColors(s, a, b, k);
    case R(up, n, col, s) =>
      RenamedCtxColors(up, a, b, k + Weight(col));
      RenamedTreeColors(s, a, b, k);
  }

  lemma RenamedFits(c: Ctx, t: Tree, a: Node, b: Node, k: int)
    requires Fits(c, t, k)
    ensures Fits(RenamedCtx(c, a, b), RenamedTree(t, a, b), k)
  {
    RenamedTreeColors(t, a, b, k);
    RenamedCtxColors(c, a, b, k);
  }

  // ---- Key order before and after ----

  ghost function RenamedSeq(s: seq<Node>, a: Node, b: Node): seq<Node> {
    seq(|s|, i requires 0 <= i < |s| => SwapNode(a, b, s[i]))
  }

  lemma RenamedConcat(p: seq<Node>, q: seq<Node>, a: Node, b: Node)
    ensures RenamedSeq(p + q, a, b) == RenamedSeq(p, a, b) + RenamedSeq(q, a, b)
  {
  }

  lemma RenamedSame(s: seq<Node>, a: Node, b: Node)
    requires a !in Elems(s) && b !in Elems(s)
    ensures RenamedSeq(s, a, b) == s
  {
    forall i | 0 <= i < |s| ensures SwapNode(a, b, s[i]) == s[i] {
      assert s[i] in Elems(s);
    }
  }

  lemma {:induction false} RenamedInOrder(t: Tree, a: Node, b: Node)
    ensures InOrder(RenamedTree(t, a, b)) == RenamedSeq(InOrder(t), a, b)
  {
    match t
    case Leaf =>
    case T(l, n, _, r) =>
      RenamedInOrder(l, a, b);
      RenamedInOrder(r, a, b);
      RenamedConcat(InOrder(l), [n], a, b);
      RenamedConcat(InOrder(l) + [n], InOrder(r), a, b);
  }

  lemma {:induction false} RenamedAround(c: Ctx, a: Node, b: Node)
    ensures Before(RenamedCtx(c, a, b)) == RenamedSeq(Before(c), a, b)
    ensures After(RenamedCtx(c, a, b)) == RenamedSeq(After(c), a, b)
  {
    match c
    case Top =>
    case L(up, n, _, s) =>
      RenamedAround(up, a, b);
      RenamedInOrder(s, a, b);
      RenamedConcat([n], InOrder(s), a, b);
      RenamedConcat([n] + InOrder(s), After(up), a, b);
    case R(up, n, _, s) =>
      RenamedAround(up, a, b);
      RenamedInOrder(s, a, b);
      RenamedConcat(Before(up), InOrder(s), a, b);
      RenamedConcat(Before(up) + InOrder(s), [n], a, b);
  }

  // ---- The successor's place ----

  /** The leftmost place of the right subtree is the successor's, as the relinking step needs it. */
  lemma LeftmostIsSuccessive(h: Heap, root: Node?, c: Ctx, t: Tree, cs: Ctx, ts: Tree)
    requires At(h, root, c, t) && t.T? && t.left.T? && t.right.T?
    requires At(h, root, cs, ts) && ts.T? && ts.left.Leaf?
    requires cs == R(c, t.node, t.color, t.left) ||
      (cs.L? && CtxNodes(R(c, t.node, t.color, t.left)) <= CtxNodes(cs.up))
    ensures Successive(h, t.node, ts.node)
  {
    FocusLinks(h, root, c, t);
    FocusLinks(h, root, cs, ts);
    assert t.node in CtxNodes(R(c, t.node, t.color, t.left));
    assert !c.Top? ==> c.node in CtxNodes(c);
  }

  /** The order before and after, with `p` in front of `n` and `x + y` behind its successor `s`. */
  lemma OrderTraded(p: seq<Node>, n: Node, s: Node, x: seq<Node>, y: seq<Node>)
    requires NoDuplicates(p + [n] + [s] + (x + y))
    ensures RemovedFrom(p + [n] + [s] + (x + y), n)
         == RenamedSeq(p + [n], n, s) + RenamedSeq(x, n, s) + RenamedSeq(y, n, s)
  {
    var rest := x + y;
    SplitDistinct(p, n, s, rest);
    assert p + [n] + [s] + rest == p + [n] + ([s] + rest);
    RemovedBetween(p, n, [s] + rest);
    RenamedSame(p, n, s);
    RenamedSame(rest, n, s);
    RenamedConcat(p, [n], n, s);
    RenamedConcat(x, y, n, s);
    assert RenamedSeq([n], n, s) == [s];
    Associate(p, [s], RenamedSeq(x, n, s), RenamedSeq(y, n, s));
  }

  lemma Associate(a: seq<Node>, b: seq<Node>, c: seq<Node>, d: seq<Node>)
    ensures a + b + c + d == a + (b + (c + d))
  {
  }

  /** After renaming, `n` is at the successor's old place, and taking it out there leaves the order without `n`. */
  lemma RenamedOrder(c: Ctx, t: Tree, cs: Ctx, ts: Tree)
    requires t.T? && ts.T? && ts.left.Leaf? && Apart(c, t)
    requires Plug(cs, ts) == Plug(c, t) && Before(cs) == Before(c) + InOrder(t.left) + [t.node]
    ensures var n, s := t.node, ts.node;
      InOrder(Plug(RenamedCtx(cs, n, s), RenamedTree(ts, n, s).right)) == RemovedFrom(InOrder(Plug(c, t)), n)
  {
    var n, s := t.node, ts.node;
    var p := Before(c) + InOrder(t.left);
    NodeInOrder(cs, ts);
    assert Before(cs) + InOrder(ts.left) == p + [n];
    PlugNodes(c, t);
    InOrderDistinct(Plug(c, t));
    OrderTraded(p, n, s, InOrder(ts.right), After(cs));
    RenamedAround(cs, n, s);
    RenamedInOrder(ts.right, n, s);
    PlugInOrder(RenamedCtx(cs, n, s), RenamedTree(ts, n, s).right);
  }

  lemma SplitDistinct(p: seq<Node>, n: Node, s: Node, rest: seq<Node>)
    requires NoDuplicates(p + [n] + [s] + rest)
    ensures n !in Elems(p) && s !in Elems(p) && n !in Elems(rest) && s !in Elems(rest)
  {
    var o := p + [n] + [s] + rest;
    assert o[|p|] == n && o[|p| + 1] == s;
    forall i | 0 <= i < |p| ensures p[i] != n && p[i] != s {
      assert o[i] == p[i];
    }
    forall i | 0 <= i < |rest| ensures rest[i] != n && rest[i] != s {
      assert o[|p| + 2 + i] == rest[i];
    }
  }

  lemma BeforeRight(c: Ctx, t: Tree)
    requires t.T?
    ensures Before(R(c, t.node, t.color, t.left)) == Before(c) + InOrder(t.left) + [t.node]
  {
  }

  lemma ApartAt(h: Heap, root: Node?, c: Ctx, t: Tree)
    requires At(h, root, c, t)
    ensures Apart(c, t)
  {
  }

  lemma FitsSomewhere(c: Ctx, t: Tree) returns (k: int)
    requires Colored(Plug(c, t))
    ensures Fits(c, t, k)
  {
    var k' :| RedBlack(Plug(c, t), k');
    k := UnplugFits(c, t, k');
  }

  /** Renaming two nodes of the tree permutes its nodes. */
  lemma RenamedPlaces(c: Ctx, t: Tree, a: Node, b: Node, all: set<Node>)
    requires all == Nodes(Plug(c, t)) && a in all && b in all
    ensures Nodes(RenamedTree(t, a, b)) + CtxNodes(RenamedCtx(c, a, b)) == all
  {
    hide Plug, Nodes, CtxNodes, Apart, Distinct, CtxDistinct;
    PlugNodes(c, t);
    RenamedNodes(t, a, b);
    RenamedCtxNodes(c, a, b);
    forall x | x in all ensures x in Nodes(RenamedTree(t, a, b)) + CtxNodes(RenamedCtx(c, a, b)) {
      assert SwapNode(a, b, SwapNode(a, b, x)) == x;
      assert SwapNode(a, b, x) in Nodes(t) + CtxNodes(c);
    }
  }
}
