/** Node links in the heap, seen as a snapshot, and the trees they form. */
module RedBlackHeap {
  import opened RedBlackShape

  datatype Fields = Fields(left: Node?, right: Node?, parent: Node?, color: Color)

  type Heap = map<Node, Fields>

  /** The links of the nodes in `s`, as a value. */
  ghost function Snap(s: set<Node>): (h: Heap)
    reads s
    ensures h.Keys == s
  {
    map n | n in s :: Fields(n.left, n.right, n.parent, n.color)
  }

  ghost function Root(t: Tree): Node? {
    if t.Leaf? then null else t.node
  }

  /** The parent of the hole. */
  ghost function Up(c: Ctx): Node? {
    if c.Top? then null else c.node
  }

  /** The links in `h` form the tree `t` below `p`: child and parent links agree everywhere. */
  ghost predicate TreeAt(h: Heap, t: Tree, p: Node?) {
    match t
    case Leaf => true
    case T(l, n, col, r) =>
      && n in h && h[n] == Fields(Root(l), Root(r), p, col)
      && TreeAt(h, l, n) && TreeAt(h, r, n)
  }

  /** The links in `h` form the context `c` around a hole that links to `hole`, up to the tree's root link. */
  ghost predicate CtxAt(h: Heap, c: Ctx, hole: Node?, root: Node?) {
    match c
    case Top => root == hole
    case L(up, n, col, s) =>
      && n in h && h[n] == Fields(hole, Root(s), Up(up), col)
      && TreeAt(h, s, n) && CtxAt(h, up, n, root)
    case R(up, n, col, s) =>
      && n in h && h[n] == Fields(Root(s), hole, Up(up), col)
      && TreeAt(h, s, n) && CtxAt(h, up, n, root)
  }

  ghost predicate At(h: Heap, root: Node?, c: Ctx, t: Tree) {
    Apart(c, t) && TreeAt(h, t, Up(c)) && CtxAt(h, c, Root(t), root)
  }

  ghost predicate Agree(h: Heap, h': Heap, s: set<Node>) {
    forall n | n in s :: n in h && n in h' && h'[n] == h[n]
  }

  lemma {:induction false} TreeFrame(h: Heap, h': Heap, t: Tree, p: Node?)
    requires TreeAt(h, t, p) && Agree(h, h', Nodes(t))
    ensures TreeAt(h', t, p)
  {
    match t
    case Leaf =>
    case T(l, n, _, r) =>
      TreeFrame(h, h', l, n);
      TreeFrame(h, h', r, n);
  }

  lemma {:induction false} CtxFrame(h: Heap, h': Heap, c: Ctx, hole: Node?, root: Node?)
    requires CtxAt(h, c, hole, root) && Agree(h, h', CtxNodes(c))
    ensures CtxAt(h', c, hole, root)
  {
    match c
    case Top =>
    case L(up, n, _, s) =>
      TreeFrame(h, h', s, n);
      CtxFrame(h, h', up, n, root);
    case R(up, n, _, s) =>
      TreeFrame(h, h', s, n);
      CtxFrame(h, h', up, n, root);
  }

  /** The tree hangs below another parent: only its root's parent link changes. */
  lemma Reparent(h: Heap, h': Heap, t: Tree, p: Node?, p': Node?)
    requires TreeAt(h, t, p) && Distinct(t)
    requires t.T? ==> Agree(h, h', Nodes(t) - {t.node}) && t.node in h' && h'[t.node] == h[t.node].(parent := p')
    ensures TreeAt(h', t, p')
  {
    match t
    case Leaf =>
    case T(l, n, _, r) =>
      TreeFrame(h, h', l, n);
      TreeFrame(h, h', r, n);
  }

  /** The hole links to another node: only the innermost context node, or the root link, changes. */
  lemma Relink(h: Heap, h': Heap, c: Ctx, hole: Node?, hole': Node?, root: Node?, root': Node?)
    requires CtxAt(h, c, hole, root) && CtxDistinct(c)
    requires c.Top? ==> root' == hole'
    requires !c.Top? ==> root' == root && Agree(h, h', CtxNodes(c) - {c.node}) && c.node in h'
    requires c.L? ==> h'[c.node] == h[c.node].(left := hole')
    requires c.R? ==> h'[c.node] == h[c.node].(right := hole')
    ensures CtxAt(h', c, hole', root')
  {
    match c
    case Top =>
    case L(up, n, _, s) =>
      TreeFrame(h, h', s, n);
      CtxFrame(h, h', up, n, root);
    case R(up, n, _, s) =>
      TreeFrame(h, h', s, n);
      CtxFrame(h, h', up, n, root);
  }

  // ---- Moving the focus ----

  lemma ZipLeft(h: Heap, root: Node?, c: Ctx, t: Tree)
    requires t.T?
    ensures At(h, root, c, t) <==> At(h, root, L(c, t.node, t.color, t.right), t.left)
  {
  }

  lemma ZipRight(h: Heap, root: Node?, c: Ctx, t: Tree)
    requires t.T?
    ensures At(h, root, c, t) <==> At(h, root, R(c, t.node, t.color, t.left), t.right)
  {
  }

  lemma PlugDown(c: Ctx, t: Tree)
    requires t.T?
    ensures Plug(L(c, t.node, t.color, t.right), t.left) == Plug(c, t)
    ensures Plug(R(c, t.node, t.color, t.left), t.right) == Plug(c, t)
    ensures Before(L(c, t.node, t.color, t.right)) == Before(c)
    ensures After(R(c, t.node, t.color, t.left)) == After(c)
  {
  }

  /** The whole tree as a focus. */
  lemma StartAtTop(h: Heap, root: Node?, t: Tree, key: int) returns (k: int)
    requires At(h, root, Top, t) && Colored(t)
    ensures root == Root(t) && Fits(Top, t, k) && Plug(Top, t) == t
    ensures AtMost(Before(Top), key) && Above(After(Top), key)
  {
    k :| RedBlack(t, k);
  }

  lemma ZipUp(h: Heap, root: Node?, c: Ctx, t: Tree)
    requires !c.Top?
    ensures At(h, root, c, t) <==> At(h, root, c.up, ParentTree(c, t))
  {
    if c.L? {
      ZipLeft(h, root, c.up, ParentTree(c, t));
    } else {
      ZipRight(h, root, c.up, ParentTree(c, t));
    }
  }

  lemma NoNodes()
    ensures Nodes(Leaf) == {}
  {
  }

  /** An occupied tree has a non-empty order, made of its own nodes. */
  lemma HeldOnce(h: Heap, root: Node?, t: Tree, c: Ctx, n: Node)
    requires At(h, root, Top, t) && Plug(c, Leaf) == t && !c.Top? && n !in Nodes(t)
    ensures InOrder(t) != [] && n !in Elems(InOrder(t)) && c.node in Nodes(t)
  {
    InOrderNodes(t);
    PlugNodes(c, Leaf);
    assert c.node in CtxNodes(c);
    assert c.node in Elems(InOrder(t));
  }

  lemma {:induction false} ZipTop(h: Heap, root: Node?, c: Ctx, t: Tree)
    ensures At(h, root, c, t) <==> At(h, root, Top, Plug(c, t))
  {
    match c
    case Top =>
    case L(up, n, col, s) =>
      ZipLeft(h, root, up, T(t, n, col, s));
      ZipTop(h, root, up, T(t, n, col, s));
    case R(up, n, col, s) =>
      ZipRight(h, root, up, T(s, n, col, t));
      ZipTop(h, root, up, T(s, n, col, t));
  }

  // ---- Recolouring and rotating at the focus ----

  lemma RecolorAt(h: Heap, h': Heap, root: Node?, c: Ctx, t: Tree, col: Color)
    requires t.T? && At(h, root, c, t)
    requires t.node in h' && h'[t.node] == h[t.node].(color := col)
    requires Agree(h, h', Nodes(t) + CtxNodes(c) - {t.node})
    ensures At(h', root, c, t.(color := col))
  {
    TreeFrame(h, h', t.left, t.node);
    TreeFrame(h, h', t.right, t.node);
    CtxFrame(h, h', c, t.node, root);
  }

  lemma LeftRotatedApart(c: Ctx, t: Tree)
    requires t.T? && t.right.T? && Apart(c, t)
    ensures Apart(c, LeftRotated(t)) && Nodes(LeftRotated(t)) == Nodes(t)
  {
    assert Distinct(t.right);
    assert Nodes(t.right) == Nodes(t.right.left) + {t.right.node} + Nodes(t.right.right);
    assert Distinct(LeftRotated(t).left);
  }

  lemma RightRotatedApart(c: Ctx, t: Tree)
    requires t.T? && t.left.T? && Apart(c, t)
    ensures Apart(c, RightRotated(t)) && Nodes(RightRotated(t)) == Nodes(t)
  {
    assert Distinct(t.left);
    assert Nodes(t.left) == Nodes(t.left.left) + {t.left.node} + Nodes(t.left.right);
    assert Distinct(RightRotated(t).right);
  }

  /** The child link of the hole's parent, or the root link, points to `hole`; nothing else of it changes. */
  ghost predicate HoleSet(h: Heap, h': Heap, c: Ctx, hole: Node?, root: Node?, root': Node?) {
    match c
    case Top => root' == hole
    case L(_, n, _, _) => root' == root && n in h && n in h' && h'[n] == h[n].(left := hole)
    case R(_, n, _, _) => root' == root && n in h && n in h' && h'[n] == h[n].(right := hole)
  }

  ghost predicate ParentSet(h: Heap, h': Heap, n: Node?, p: Node?) {
    n != null ==> n in h && n in h' && h'[n] == h[n].(parent := p)
  }

  ghost function Opt(n: Node?): set<Node> {
    if n == null then {} else {n}
  }

  /** What a node at the focus knows of its neighbours: the links the code follows and tests. */
  lemma FocusLinks(h: Heap, root: Node?, c: Ctx, t: Tree)
    requires t.T? && At(h, root, c, t)
    ensures t.node in h && h[t.node] == Fields(Root(t.left), Root(t.right), Up(c), t.color)
    ensures t.left.T? ==> t.left.node in h && h[t.left.node].parent == t.node && t.left.node != t.node
    ensures t.right.T? ==> t.right.node in h && h[t.right.node].parent == t.node && t.right.node != t.node
    ensures t.left.T? && t.right.T? ==> t.left.node != t.right.node
    ensures c.Top? <==> root == t.node
    ensures !c.Top? ==> c.node in h && c.node !in Nodes(t) && c.color == h[c.node].color
    ensures c.L? ==> h[c.node].left == t.node && h[c.node].right != t.node
    ensures c.R? ==> h[c.node].right == t.node && h[c.node].left != t.node
  {
    assert TreeAt(h, t.left, t.node) && TreeAt(h, t.right, t.node);
    if !c.Top? {
      RootInContext(h, c, t.node, root);
    }
  }

  lemma {:induction false} TreeInHeap(h: Heap, t: Tree, p: Node?)
    requires TreeAt(h, t, p)
    ensures Nodes(t) <= h.Keys
  {
    match t
    case Leaf =>
    case T(l, n, _, r) =>
      TreeInHeap(h, l, n);
      TreeInHeap(h, r, n);
  }

  lemma {:induction false} CtxInHeap(h: Heap, c: Ctx, hole: Node?, root: Node?)
    requires CtxAt(h, c, hole, root)
    ensures CtxNodes(c) <= h.Keys
  {
    match c
    case Top =>
    case L(up, n, _, s) =>
      TreeInHeap(h, s, n);
      CtxInHeap(h, up, n, root);
    case R(up, n, _, s) =>
      TreeInHeap(h, s, n);
      CtxInHeap(h, up, n, root);
  }

  lemma AllInHeap(h: Heap, root: Node?, c: Ctx, t: Tree)
    requires At(h, root, c, t)
    ensures Nodes(t) + CtxNodes(c) <= h.Keys
  {
    TreeInHeap(h, t, Up(c));
    CtxInHeap(h, c, Root(t), root);
  }

  lemma UncleColor(h: Heap, root: Node?, c: Ctx, t: Tree)
    requires At(h, root, c, t)
    ensures t.T? ==> t.node in h && h[t.node].color == t.color
    ensures Apart(c, t)
  {
  }

  lemma {:induction false} RootInContext(h: Heap, c: Ctx, hole: Node?, root: Node?)
    requires CtxAt(h, c, hole, root) && !c.Top?
    ensures root != null && root in CtxNodes(c)
  {
    if !c.up.Top? {
      RootInContext(h, c.up, c.node, root);
    }
  }

  /** All that a rotation follows or tests: the focus, the pivot, the subtree between them and the parent. */
  ghost predicate RotationLinks(h: Heap, root: Node?, c: Ctx, x: Node, y: Node, m: Node?) {
    var p := Up(c);
    && x in h && y in h && x != y
    && h[x].parent == p && h[y].parent == x
    && (m != null ==> m in h && h[m].parent == y && m != x && m != y && m != p)
    && (p == null <==> root == x)
    && (p != null ==> p in h && p != x && p != y)
    && (c.L? ==> h[p].left == x)
    && (c.R? ==> h[p].right == x && h[p].left != x)
  }

  lemma LeftRotationLinks(h: Heap, root: Node?, c: Ctx, t: Tree)
    requires t.T? && t.right.T? && At(h, root, c, t)
    ensures RotationLinks(h, root, c, t.node, t.right.node, Root(t.right.left))
    ensures h[t.node].right == t.right.node && h[t.right.node].left == Root(t.right.left)
    ensures Nodes(t) + CtxNodes(c) <= h.Keys
  {
    AllInHeap(h, root, c, t);
    FocusLinks(h, root, c, t);
    FocusLinks(h, root, R(c, t.node, t.color, t.left), t.right);
  }

  lemma RightRotationLinks(h: Heap, root: Node?, c: Ctx, t: Tree)
    requires t.T? && t.left.T? && At(h, root, c, t)
    ensures RotationLinks(h, root, c, t.node, t.left.node, Root(t.left.right))
    ensures h[t.node].left == t.left.node && h[t.left.node].right == Root(t.left.right)
    ensures Nodes(t) + CtxNodes(c) <= h.Keys
  {
    AllInHeap(h, root, c, t);
    FocusLinks(h, root, c, t);
    FocusLinks(h, root, L(c, t.node, t.color, t.right), t.left);
  }

  lemma RotateLeftAt(h: Heap, h': Heap, root: Node?, root': Node?, c: Ctx, t: Tree)
    requires t.T? && t.right.T? && At(h, root, c, t)
    requires var x, y, m := t.node, t.right.node, t.right.left;
      && x in h' && h'[x] == h[x].(right := Root(m), parent := y)
      && y in h && y in h' && h'[y] == h[y].(left := x, parent := Up(c))
      && ParentSet(h, h', Root(m), x)
      && HoleSet(h, h', c, y, root, root')
      && Agree(h, h', Nodes(t) + CtxNodes(c) - {x, y} - Opt(Root(m)) - Opt(Up(c)))
    ensures At(h', root', c, LeftRotated(t))
  {
    var x, y := t.node, t.right.node;
    LeftRotatedApart(c, t);
    assert TreeAt(h, t.right, x) && Distinct(t.right);
    assert Nodes(t.right) == Nodes(t.right.left) + {y} + Nodes(t.right.right);
    TreeFrame(h, h', t.left, x);
    Reparent(h, h', t.right.left, y, x);
    TreeFrame(h, h', t.right.right, y);
    assert TreeAt(h', LeftRotated(t).left, y);
    assert TreeAt(h', LeftRotated(t), Up(c));
    Relink(h, h', c, x, y, root, root');
  }

  lemma RotateRightAt(h: Heap, h': Heap, root: Node?, root': Node?, c: Ctx, t: Tree)
    requires t.T? && t.left.T? && At(h, root, c, t)
    requires var x, y, m := t.node, t.left.node, t.left.right;
      && x in h' && h'[x] == h[x].(left := Root(m), parent := y)
      && y in h && y in h' && h'[y] == h[y].(right := x, parent := Up(c))
      && ParentSet(h, h', Root(m), x)
      && HoleSet(h, h', c, y, root, root')
      && Agree(h, h', Nodes(t) + CtxNodes(c) - {x, y} - Opt(Root(m)) - Opt(Up(c)))
    ensures At(h', root', c, RightRotated(t))
  {
    var x, y := t.node, t.left.node;
    RightRotatedApart(c, t);
    assert TreeAt(h, t.left, x) && Distinct(t.left);
    assert Nodes(t.left) == Nodes(t.left.left) + {y} + Nodes(t.left.right);
    TreeFrame(h, h', t.right, x);
    Reparent(h, h', t.left.right, y, x);
    TreeFrame(h, h', t.left.left, y);
    assert TreeAt(h', RightRotated(t).right, y);
    assert TreeAt(h', RightRotated(t), Up(c));
    Relink(h, h', c, x, y, root, root');
  }

  // ---- The leftmost node ----

  lemma {:induction false} FirstHasNoLeft(h: Heap, t: Tree, p: Node?)
    requires TreeAt(h, t, p) && t.T?
    ensures InOrder(t) != [] && InOrder(t)[0] in h && h[InOrder(t)[0]].left == null
  {
    if t.left.T? {
      FirstHasNoLeft(h, t.left, t.node);
    }
  }

  /** A childless first node is the left child of the second: how `insert` recognises a new minimum. */
  lemma {:induction false} SecondPointsToFirst(h: Heap, t: Tree, p: Node?, n: Node)
    requires TreeAt(h, t, p) && Distinct(t) && HasLeaf(t, n)
    requires |InOrder(t)| >= 2 && InOrder(t)[0] == n
    ensures InOrder(t)[1] in h && h[InOrder(t)[1]].left == n
  {
    if HasLeaf(t.right, n) {
      HasLeafIsNode(t.right, n);
    }
    if t.left.T? {
      var a := InOrder(t.left);
      FirstHasNoLeft(h, t.left, t.node);
      InOrderNodes(t.left);
      assert n in Elems(a);
      if |a| == 1 {
        assert InOrder(t)[1] == t.node;
        OnlyNode(t.left);
      } else {
        assert InOrder(t)[1] == a[1];
        SecondPointsToFirst(h, t.left, t.node, n);
      }
    }
  }

  lemma OnlyNode(t: Tree)
    requires |InOrder(t)| == 1
    ensures t.T? && InOrder(t)[0] == t.node
  {
  }

  // ---- Attaching and detaching a node ----

  /** A fresh node fills the empty hole of `c`. */
  lemma AttachAt(h: Heap, h': Heap, root: Node?, root': Node?, c: Ctx, n: Node)
    requires At(h, root, c, Leaf) && n !in CtxNodes(c)
    requires n in h' && h'[n] == Fields(null, null, Up(c), Red)
    requires HoleSet(h, h', c, n, root, root')
    requires Agree(h, h', CtxNodes(c) - Opt(Up(c)))
    ensures At(h', root', c, T(Leaf, n, Red, Leaf))
  {
    Relink(h, h', c, null, n, root, root');
  }

  /** After an insertion, the old minimum links to the new node on its left exactly if the new node comes first. */
  lemma MinimumTest(h: Heap, root: Node?, t: Tree, order: seq<Node>, n: Node)
    requires At(h, root, Top, t) && order != [] && n !in Elems(order)
    requires InOrder(t) == InsertedInto(order, n) && LeafIfFirst(t, n)
    ensures order[0] in h
    ensures h[order[0]].left == n <==> InOrder(t)[0] == n
    ensures InOrder(t)[0] == n || InOrder(t)[0] == order[0]
  {
    InsertedFirst(order, n);
    InsertedElems(order, n);
    if InOrder(t)[0] == n {
      SecondPointsToFirst(h, t, null, n);
    } else {
      FirstHasNoLeft(h, t, null);
    }
  }

  /** The nodes of the tree after an insertion. */
  lemma InsertedNodes(t: Tree, t': Tree, n: Node)
    requires InOrder(t') == InsertedInto(InOrder(t), n)
    ensures Nodes(t') == Nodes(t) + {n} && |InOrder(t')| == |InOrder(t)| + 1
  {
    InOrderNodes(t);
    InOrderNodes(t');
    InsertedElems(InOrder(t), n);
  }

  // ---- The sibling ----

  lemma ZipSibling(h: Heap, root: Node?, c: Ctx, t: Tree)
    requires !c.Top?
    ensures At(h, root, c, t) <==> At(h, root, SiblingCtx(c, t), Sibling(c))
    ensures ParentTree(SiblingCtx(c, t), Sibling(c)) == ParentTree(c, t)
  {
    ZipUp(h, root, c, t);
    ZipUp(h, root, SiblingCtx(c, t), Sibling(c));
  }

  /** All that the removal repair reads around its focus. */
  ghost predicate SiblingView(h: Heap, c: Ctx, t: Tree)
    requires !c.Top? && Sibling(c).T?
  {
    var p, s := c.node, Sibling(c);
    && p in h && s.node in h && h[p].color == c.color && h[s.node].color == s.color
    && (c.L? ==> h[p].left == Root(t) && h[p].right == s.node)
    && (c.R? ==> h[p].right == Root(t) && h[p].left == s.node && h[p].left != Root(t))
    && h[s.node].left == Root(s.left) && h[s.node].right == Root(s.right)
    && (s.left.T? ==> s.left.node in h && h[s.left.node].color == s.left.color)
    && (s.right.T? ==> s.right.node in h && h[s.right.node].color == s.right.color)
  }

  lemma ViewSibling(h: Heap, root: Node?, c: Ctx, t: Tree)
    requires At(h, root, c, t) && !c.Top? && Sibling(c).T?
    ensures SiblingView(h, c, t)
  {
    ZipSibling(h, root, c, t);
    var cs, s := SiblingCtx(c, t), Sibling(c);
    ZipUp(h, root, c, t);
    FocusLinks(h, root, c.up, ParentTree(c, t));
    FocusLinks(h, root, cs, s);
    ZipLeft(h, root, cs, s);
    ZipRight(h, root, cs, s);
    UncleColor(h, root, L(cs, s.node, s.color, s.right), s.left);
    UncleColor(h, root, R(cs, s.node, s.color, s.left), s.right);
  }

  /** What the removal loop tests about its focus. */
  lemma RootView(h: Heap, root: Node?, c: Ctx, t: Tree)
    requires At(h, root, c, t) && (t.T? || !c.Top?)
    ensures Root(t) == root <==> c.Top?
    ensures t.T? ==> t.node in h && h[t.node].color == t.color && h[t.node].parent == Up(c)
  {
    if t.T? {
      FocusLinks(h, root, c, t);
    } else {
      RootInContext(h, c, null, root);
    }
  }

  lemma PlugTop(t: Tree)
    ensures Plug(Top, t) == t
  {
  }

  lemma BlackenedOrder(c: Ctx, t: Tree)
    requires t.T?
    ensures InOrder(Plug(c, Blackened(t))) == InOrder(Plug(c, t))
  {
    SameOrder(c, t, Blackened(t));
  }

  // ---- Finding a node's place ----

  /** The zipper focused on a node of the tree. */
  lemma {:induction false} Locate(h: Heap, root: Node?, c: Ctx, t: Tree, n: Node) returns (c': Ctx, t': Tree)
    requires At(h, root, c, t) && n in Nodes(t)
    ensures At(h, root, c', t') && t'.T? && t'.node == n
    ensures Plug(c', t') == Plug(c, t)
    decreases t
  {
    if t.node == n {
      c', t' := c, t;
    } else if n in Nodes(t.left) {
      ZipLeft(h, root, c, t);
      c', t' := Locate(h, root, L(c, t.node, t.color, t.right), t.left, n);
    } else {
      ZipRight(h, root, c, t);
      c', t' := Locate(h, root, R(c, t.node, t.color, t.left), t.right, n);
    }
  }

  /** A node's neighbours in key order, seen from its place. */
  lemma NeighboursInOrder(c: Ctx, t: Tree)
    requires t.T? && Apart(c, t)
    ensures Next(InOrder(Plug(c, t)), t.node) == First(InOrder(t.right) + After(c))
    ensures Previous(InOrder(Plug(c, t)), t.node) == Last(Before(c) + InOrder(t.left))
  {
    NodeInOrder(c, t);
    var p, q := Before(c) + InOrder(t.left), InOrder(t.right) + After(c);
    BeforeIsInContext(c);
    AfterIsInContext(c);
    InOrderNodes(t.left);
    InOrderNodes(t.right);
    ElemsConcat(Before(c), InOrder(t.left));
    ElemsConcat(InOrder(t.right), After(c));
    NextAfter(p, t.node, q);
    PreviousBefore(p, t.node, q);
  }

  lemma UpInHeap(h: Heap, root: Node?, c: Ctx, t: Tree)
    requires At(h, root, c, t)
    ensures Up(c) != null ==> Up(c) in h
  {
  }

  function Child(t: Tree): Tree
    requires t.T?
  {
    if t.left.T? then t.left else t.right
  }

  /** The only child, if any, takes the place of the focus. */
  lemma DetachAt(h: Heap, h': Heap, root: Node?, root': Node?, c: Ctx, t: Tree)
    requires t.T? && (t.left.Leaf? || t.right.Leaf?) && At(h, root, c, t)
    requires ParentSet(h, h', Root(Child(t)), Up(c)) && HoleSet(h, h', c, Root(Child(t)), root, root')
    requires Agree(h, h', Nodes(t) + CtxNodes(c) - {t.node} - Opt(Root(Child(t))) - Opt(Up(c)))
    ensures At(h', root', c, Child(t))
  {
    assert TreeAt(h, Child(t), t.node) && Distinct(Child(t));
    Reparent(h, h', Child(t), t.node, Up(c));
    Relink(h, h', c, t.node, Root(Child(t)), root, root');
  }

  lemma AtFrame(h: Heap, h': Heap, root: Node?, c: Ctx, t: Tree)
    requires At(h, root, c, t) && Agree(h, h', Nodes(t) + CtxNodes(c))
    ensures At(h', root, c, t)
  {
    TreeFrame(h, h', t, Up(c));
    CtxFrame(h, h', c, Root(t), root);
  }

  lemma HoldsNode(t: Tree, n: Node)
    requires n in Nodes(t)
    ensures n in Elems(InOrder(t))
  {
    InOrderNodes(t);
  }

  lemma OnlyNodeLeft(t: Tree, n: Node)
    requires |InOrder(t)| == 1 && n in Elems(InOrder(t))
    ensures Nodes(t) == {n} && RemovedFrom(InOrder(t), n) == []
  {
    InOrderNodes(t);
    assert InOrder(t) == [n];
  }

  lemma EmptyAt(h: Heap)
    ensures At(h, null, Top, Leaf)
  {
  }
}
