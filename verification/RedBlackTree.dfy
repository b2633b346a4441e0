/** The red-black tree: nodes linked in place, by child and parent pointers. */
module RedBlackTrees {
  import opened RedBlackShape
  import opened RedBlackHeap
  import opened RedBlackRelink
  import opened RedBlackRemoval

  class BaseRedBlackTree {
    var root: Node?
    var size: nat
    var minimum: Node?

    /** The nodes of the tree, and the tree they form. */
    ghost var nodes: set<Node>
    ghost var shape: Tree

    /** Links, key order, colours, size and cached minimum all agree with the abstract tree. */
    ghost predicate Valid()
      reads this, nodes
    {
      && nodes == Nodes(shape)
      && At(Snap(nodes), root, Top, shape)
      && Colored(shape)
      && Sorted(InOrder(shape))
      && size == |InOrder(shape)|
      && minimum == First(InOrder(shape))
    }

    /** The nodes in key order. */
    ghost function Order(): seq<Node>
      reads this
    {
      InOrder(shape)
    }

    constructor ()
      ensures Valid() && Order() == [] && nodes == {}
    {
      root, minimum, size := null, null, 0;
      nodes, shape := {}, Leaf;
      assert RedBlack(Leaf, 0);
    }

    /** `rotate_left` at the focus of the zipper `(c, t)`. */
    method RotateLeft(subtreeRoot: Node, ghost c: Ctx, ghost t: Tree)
      requires At(Snap(nodes), root, c, t) && t.T? && t.node == subtreeRoot && t.right.T?
      modifies this`root, nodes`left, nodes`right, nodes`parent
      ensures At(Snap(nodes), root, c, LeftRotated(t))
    {
      hide At, Nodes, CtxNodes;
      ghost var h := Snap(nodes);
      LeftRotationLinks(h, root, c, t);
      var pivot := subtreeRoot.right;
      var parent := subtreeRoot.parent;

      subtreeRoot.right := pivot.left;
      if subtreeRoot.right != null {
        subtreeRoot.right.parent := subtreeRoot;
      }
      pivot.left := subtreeRoot;
      subtreeRoot.parent := pivot;
      pivot.parent := parent;
      if parent == null {
        root := pivot;
      } else if parent.left == subtreeRoot {
        parent.left := pivot;
      } else {
        parent.right := pivot;
      }
      RotateLeftAt(h, Snap(nodes), old(root), root, c, t);
    }

    /** `rotate_right` at the focus of the zipper `(c, t)`. */
    method RotateRight(subtreeRoot: Node, ghost c: Ctx, ghost t: Tree)
      requires At(Snap(nodes), root, c, t) && t.T? && t.node == subtreeRoot && t.left.T?
      modifies this`root, nodes`left, nodes`right, nodes`parent
      ensures At(Snap(nodes), root, c, RightRotated(t))
    {
      hide At, Nodes, CtxNodes;
      ghost var h := Snap(nodes);
      RightRotationLinks(h, root, c, t);
      var pivot := subtreeRoot.left;
      var parent := subtreeRoot.parent;

      subtreeRoot.left := pivot.right;
      if subtreeRoot.left != null {
        subtreeRoot.left.parent := subtreeRoot;
      }
      pivot.right := subtreeRoot;
      subtreeRoot.parent := pivot;
      pivot.parent := parent;
      if parent == null {
        root := pivot;
      } else if parent.left == subtreeRoot {
        parent.left := pivot;
      } else {
        parent.right := pivot;
      }
      RotateRightAt(h, Snap(nodes), old(root), root, c, t);
    }

    /** Colour writes at the focus. */
    method Recolor(node: Node, col: Color, ghost c: Ctx, ghost t: Tree)
      requires At(Snap(nodes), root, c, t) && t.T? && t.node == node
      modifies nodes`color
      ensures At(Snap(nodes), root, c, t.(color := col))
    {
      ghost var h := Snap(nodes);
      AllInHeap(h, root, c, t);
      node.color := col;
      RecolorAt(h, Snap(nodes), root, c, t, col);
    }

    // ---- Insertion ----

    /** `insert_fixups` stands at `node`, the focus of `(c, t)`; the tree as a whole is in the order `order`. */
    ghost predicate Fixing(node: Node, c: Ctx, t: Tree, k: int, order: seq<Node>, inserted: Node)
      reads this`root, this`nodes, nodes
    {
      && At(Snap(nodes), root, c, t)
      && t.T? && t.node == node && Loose(c, t, k)
      && InOrder(Plug(c, t)) == order
      && LeafIfFirst(Plug(c, t), inserted)
    }

    /** Parent and uncle are red: recolour, and move up to the grandparent. */
    method PushUp(node: Node, grandParent: Node, uncle: Node, ghost c: Ctx, ghost t: Tree)
      requires At(Snap(nodes), root, c, t) && t.T? && t.node == node
      requires !c.Top? && !c.up.Top? && c.up.node == grandParent
      requires Sibling(c.up).T? && Sibling(c.up).node == uncle
      modifies nodes`color
      ensures At(Snap(nodes), root, c.up.up, PushedUp(c, t))
    {
      hide At, Nodes, CtxNodes;
      FocusLinks(Snap(nodes), root, c, t);
      ghost var p := ParentTree(c, t);
      ZipUp(Snap(nodes), root, c, t);
      Recolor(node.parent, Black, c.up, p);
      ZipUp(Snap(nodes), root, c.up, Blackened(p));
      ghost var g := ParentTree(c.up, Blackened(p));
      ghost var u := Sibling(c.up);
      ghost var cu := if c.up.L? then R(c.up.up, g.node, g.color, g.left) else L(c.up.up, g.node, g.color, g.right);
      ZipUp(Snap(nodes), root, cu, u);
      Recolor(uncle, Black, cu, u);
      ZipUp(Snap(nodes), root, cu, Blackened(u));
      Recolor(grandParent, Red, c.up.up, ParentTree(cu, Blackened(u)));
    }

    /** Black uncle, left side: the parent turns black, the grandparent red, and the parent is rotated above it. */
    method RaiseLeftParent(node: Node, grandParent: Node, ghost c: Ctx, ghost t: Tree)
      requires At(Snap(nodes), root, c, t) && t.T? && t.node == node
      requires c.L? && c.up.L? && c.up.node == grandParent
      modifies this`root, nodes`left, nodes`right, nodes`parent, nodes`color
      ensures At(Snap(nodes), root, RaisedCtx(c), t)
    {
      hide At, Nodes, CtxNodes;
      FocusLinks(Snap(nodes), root, c, t);
      ghost var p := ParentTree(c, t);
      ZipUp(Snap(nodes), root, c, t);
      Recolor(node.parent, Black, c.up, p);
      ZipUp(Snap(nodes), root, c.up, Blackened(p));
      ghost var g := ParentTree(c.up, Blackened(p));
      Recolor(grandParent, Red, c.up.up, g);
      RotateRight(grandParent, c.up.up, g.(color := Red));
      ZipUp(Snap(nodes), root, RaisedCtx(c), t);
    }

    /** The mirror image of `RaiseLeftParent`. */
    method RaiseRightParent(node: Node, grandParent: Node, ghost c: Ctx, ghost t: Tree)
      requires At(Snap(nodes), root, c, t) && t.T? && t.node == node
      requires c.R? && c.up.R? && c.up.node == grandParent
      modifies this`root, nodes`left, nodes`right, nodes`parent, nodes`color
      ensures At(Snap(nodes), root, RaisedCtx(c), t)
    {
      hide At, Nodes, CtxNodes;
      FocusLinks(Snap(nodes), root, c, t);
      ghost var p := ParentTree(c, t);
      ZipUp(Snap(nodes), root, c, t);
      Recolor(node.parent, Black, c.up, p);
      ZipUp(Snap(nodes), root, c.up, Blackened(p));
      ghost var g := ParentTree(c.up, Blackened(p));
      Recolor(grandParent, Red, c.up.up, g);
      RotateLeft(grandParent, c.up.up, g.(color := Red));
      ZipUp(Snap(nodes), root, RaisedCtx(c), t);
    }

    /** The black-uncle case, the parent being a left child: an inner node is turned outwards, and the parent raised. */
    method TurnAndRaiseLeft(node: Node, grandParent: Node, ghost c: Ctx, ghost t: Tree, ghost k: int,
                     ghost order: seq<Node>, ghost inserted: Node)
      returns (next: Node, ghost c': Ctx, ghost t': Tree)
      requires Fixing(node, c, t, k, order, inserted)
      requires CtxRed(c) && c.up.L? && c.up.node == grandParent && !IsRed(Sibling(c.up))
      modifies this`root, nodes`left, nodes`right, nodes`parent, nodes`color
      ensures Fixing(next, c', t', k, order, inserted) && Depth(c') < Depth(c)
    {
      hide At, Loose, Plug, InOrder, HasLeaf;
      FocusLinks(Snap(nodes), root, c, t);
      ZipUp(Snap(nodes), root, c, t);
      UncleColor(Snap(nodes), root, c, t);
      next := node;
      c', t' := c, t;
      if node.parent.right == node {
        next := node.parent;
        SwungIsRotation(c, t);
        SwungIsLoose(c, t, k);
        SwungSame(c, t, inserted);
        RotateLeft(next, c.up, ParentTree(c, t));
        c', t' := SwungCtx(c, t), SwungTree(c, t);
        ZipUp(Snap(nodes), root, c', t');
      }
      RaisedIsLoose(c', t', k);
      RaisedSame(c', t', inserted);
      RaiseLeftParent(next, grandParent, c', t');
      c' := RaisedCtx(c');
    }

    /** One turn of the `insert_fixups` loop when the parent is a left child. */
    method FixupLeft(node: Node, grandParent: Node, ghost c: Ctx, ghost t: Tree, ghost k: int,
                     ghost order: seq<Node>, ghost inserted: Node)
      returns (next: Node, ghost c': Ctx, ghost t': Tree, ghost k': int)
      requires Fixing(node, c, t, k, order, inserted)
      requires CtxRed(c) && c.up.L? && c.up.node == grandParent
      modifies this`root, nodes`left, nodes`right, nodes`parent, nodes`color
      ensures Fixing(next, c', t', k', order, inserted) && Depth(c') < Depth(c)
    {
      hide At, Loose, Plug, InOrder, HasLeaf;
      FocusLinks(Snap(nodes), root, c, t);
      ZipUp(Snap(nodes), root, c, t);
      ZipUp(Snap(nodes), root, c.up, ParentTree(c, t));
      ghost var g := ParentTree(c.up, ParentTree(c, t));
      FocusLinks(Snap(nodes), root, c.up.up, g);
      ZipUp(Snap(nodes), root, R(c.up.up, g.node, g.color, g.left), g.right);
      UncleColor(Snap(nodes), root, R(c.up.up, g.node, g.color, g.left), g.right);

      var uncle := grandParent.right;
      if uncle != null && uncle.color == Red {
        PushedUpIsLoose(c, t, k);
        PushedUpSame(c, t, inserted);
        PushUp(node, grandParent, uncle, c, t);
        next := grandParent;
        c', t', k' := c.up.up, PushedUp(c, t), k + 1;
      } else {
        k' := k;
        next, c', t' := TurnAndRaiseLeft(node, grandParent, c, t, k, order, inserted);
      }
    }

    /** The mirror image of `TurnAndRaiseLeft`. */
    method TurnAndRaiseRight(node: Node, grandParent: Node, ghost c: Ctx, ghost t: Tree, ghost k: int,
                     ghost order: seq<Node>, ghost inserted: Node)
      returns (next: Node, ghost c': Ctx, ghost t': Tree)
      requires Fixing(node, c, t, k, order, inserted)
      requires CtxRed(c) && c.up.R? && c.up.node == grandParent && !IsRed(Sibling(c.up))
      modifies this`root, nodes`left, nodes`right, nodes`parent, nodes`color
      ensures Fixing(next, c', t', k, order, inserted) && Depth(c') < Depth(c)
    {
      hide At, Loose, Plug, InOrder, HasLeaf;
      FocusLinks(Snap(nodes), root, c, t);
      ZipUp(Snap(nodes), root, c, t);
      UncleColor(Snap(nodes), root, c, t);
      next := node;
      c', t' := c, t;
      if node.parent.left == node {
        next := node.parent;
        SwungIsRotation(c, t);
        SwungIsLoose(c, t, k);
        SwungSame(c, t, inserted);
        RotateRight(next, c.up, ParentTree(c, t));
        c', t' := SwungCtx(c, t), SwungTree(c, t);
        ZipUp(Snap(nodes), root, c', t');
      }
      RaisedIsLoose(c', t', k);
      RaisedSame(c', t', inserted);
      RaiseRightParent(next, grandParent, c', t');
      c' := RaisedCtx(c');
    }

    /** One turn of the `insert_fixups` loop when the parent is a right child. (`unclde`, at line 171 of the
        source, is read as `uncle`.) */
    method FixupRight(node: Node, grandParent: Node, ghost c: Ctx, ghost t: Tree, ghost k: int,
                     ghost order: seq<Node>, ghost inserted: Node)
      returns (next: Node, ghost c': Ctx, ghost t': Tree, ghost k': int)
      requires Fixing(node, c, t, k, order, inserted)
      requires CtxRed(c) && c.up.R? && c.up.node == grandParent
      modifies this`root, nodes`left, nodes`right, nodes`parent, nodes`color
      ensures Fixing(next, c', t', k', order, inserted) && Depth(c') < Depth(c)
    {
      hide At, Loose, Plug, InOrder, HasLeaf;
      FocusLinks(Snap(nodes), root, c, t);
      ZipUp(Snap(nodes), root, c, t);
      ZipUp(Snap(nodes), root, c.up, ParentTree(c, t));
      ghost var g := ParentTree(c.up, ParentTree(c, t));
      FocusLinks(Snap(nodes), root, c.up.up, g);
      ZipUp(Snap(nodes), root, L(c.up.up, g.node, g.color, g.right), g.left);
      UncleColor(Snap(nodes), root, L(c.up.up, g.node, g.color, g.right), g.left);

      var uncle := grandParent.left;
      if uncle != null && uncle.color == Red {
        PushedUpIsLoose(c, t, k);
        PushedUpSame(c, t, inserted);
        PushUp(node, grandParent, uncle, c, t);
        next := grandParent;
        c', t', k' := c.up.up, PushedUp(c, t), k + 1;
      } else {
        k' := k;
        next, c', t' := TurnAndRaiseRight(node, grandParent, c, t, k, order, inserted);
      }
    }

    /** `insert_fixups` */
    method InsertFixups(node0: Node, ghost c0: Ctx, ghost t0: Tree, ghost k0: int, ghost order: seq<Node>)
      returns (ghost whole: Tree)
      requires Fixing(node0, c0, t0, k0, order, node0) && !c0.Top?
      modifies this`root, nodes`left, nodes`right, nodes`parent, nodes`color
      ensures At(Snap(nodes), root, Top, whole) && Colored(whole)
      ensures InOrder(whole) == order && LeafIfFirst(whole, node0)
    {
      var node := node0;
      ghost var c, t, k := c0, t0, k0;
      hide At, Loose, Plug, InOrder, HasLeaf;
      FocusLinks(Snap(nodes), root, c, t);
      while node.parent != null && node.parent.color == Red
        invariant Fixing(node, c, t, k, order, node0)
        invariant node.parent == Up(c) && (!c.Top? ==> c.node in nodes && c.node.color == c.color)
        decreases Depth(c)
      {
        RedParentHasBlackParent(c, t, k);
        ZipUp(Snap(nodes), root, c, t);
        FocusLinks(Snap(nodes), root, c.up, ParentTree(c, t));
        var grandParent := node.parent.parent;
        if grandParent.right == node.parent {
          node, c, t, k := FixupRight(node, grandParent, c, t, k, order, node0);
        } else {
          node, c, t, k := FixupLeft(node, grandParent, c, t, k, order, node0);
        }
        FocusLinks(Snap(nodes), root, c, t);
      }
      whole := Plug(c, t);
      ZipTop(Snap(nodes), root, c, t);
      BlackenRoot(c, t, k);
      FocusLinks(Snap(nodes), root, Top, whole);
      ghost var whole' := Blackened(whole);
      assert LeafIfFirst(whole', node0) && InOrder(whole') == order by { BlackenedSame(whole, node0); }
      Recolor(root, Black, Top, whole);
      whole := whole';
    }

    /** The descent of `insert`: the parent of the empty hole for `key`. */
    method FindHole(key: int) returns (parent: Node?, ghost c: Ctx, ghost k: int)
      requires Valid()
      ensures At(Snap(nodes), root, c, Leaf) && parent == Up(c)
      ensures Fits(c, Leaf, k) && Plug(c, Leaf) == shape
      ensures AtMost(Before(c), key) && Above(After(c), key)
    {
      hide At, Fits, Plug, InOrder, AtMost, Above;
      parent := null;
      var temp := root;
      ghost var t := shape;
      c := Top;
      k := StartAtTop(Snap(nodes), root, shape, key);
      while temp != null
        invariant At(Snap(nodes), root, c, t) && temp == Root(t) && parent == Up(c)
        invariant Fits(c, t, k) && Plug(c, t) == shape
        invariant AtMost(Before(c), key) && Above(After(c), key)
        decreases t
      {
        FocusLinks(Snap(nodes), root, c, t);
        FitsDown(c, t, k);
        Descend(c, t, key);
        ZipLeft(Snap(nodes), root, c, t);
        ZipRight(Snap(nodes), root, c, t);
        PlugDown(c, t);
        k := k - Weight(t.color);
        parent := temp;
        if key < temp.key {
          temp := temp.left;
          c, t := L(c, t.node, t.color, t.right), t.left;
        } else {
          temp := temp.right;
          c, t := R(c, t.node, t.color, t.left), t.right;
        }
      }
    }

    /** Links the node into the empty hole. */
    method Attach(node: Node, parent: Node, ghost c: Ctx)
      requires At(Snap(nodes), root, c, Leaf) && !c.Top? && c.node == parent
      requires nodes == CtxNodes(c) && node !in nodes
      requires node.left == null && node.right == null && node.color == Red
      requires node.key < parent.key <==> c.L?
      modifies this`nodes, parent`left, parent`right, node`parent
      ensures nodes == old(nodes) + {node}
      ensures At(Snap(nodes), root, c, T(Leaf, node, Red, Leaf))
    {
      ghost var h := Snap(nodes);
      if node.key < parent.key {
        parent.left := node;
      } else {
        parent.right := node;
      }
      node.parent := parent;
      nodes := nodes + {node};
      AttachAt(h, Snap(nodes), root, root, c, node);
    }

    /** `insert` of a fresh node: behind all nodes with the same or a smaller key. */
    method Insert(node: Node)
      requires Valid()
      requires node !in nodes && node.left == null && node.right == null && node.parent == null && node.color == Red
      modifies this, nodes, node
      ensures Valid()
      ensures nodes == old(nodes) + {node}
      ensures Order() == InsertedInto(old(Order()), node)
    {
      var parent, c, k := FindHole(node.key);
      if parent == null {
        InsertFirst(node);
      } else {
        InsertBelow(node, parent, c, k);
      }
    }

    method InsertFirst(node: Node)
      requires Valid() && shape == Leaf
      requires node.left == null && node.right == null && node.parent == null
      modifies this, node
      ensures Valid()
      ensures nodes == {node} && Order() == [node]
    {
      node.color := Black;
      root := node;
      size := 1;
      minimum := node;
      nodes := {node};
      shape := T(Leaf, node, Black, Leaf);
      SingleNode(node);
      assert Snap(nodes)[node] == Fields(null, null, null, Black);
      assert TreeAt(Snap(nodes), Leaf, node);
    }

    method InsertBelow(node: Node, parent: Node, ghost c: Ctx, ghost k: int)
      requires Valid() && node !in nodes && node.left == null && node.right == null && node.color == Red
      requires At(Snap(nodes), root, c, Leaf) && parent == Up(c)
      requires Fits(c, Leaf, k) && Plug(c, Leaf) == shape
      requires AtMost(Before(c), node.key) && Above(After(c), node.key)
      modifies this, nodes, node
      ensures Valid()
      ensures nodes == old(nodes) + {node}
      ensures Order() == InsertedInto(old(Order()), node)
    {
      hide Fits, InOrder, AtMost, Above, Sorted, Apart, At, Plug, Nodes, CtxNodes, Colored, HasLeaf;
      ghost var order := Order();
      PlugNodes(c, Leaf);
      NoNodes();
      HeldOnce(Snap(nodes), root, shape, c, node);
      AttachedInOrder(c, node);
      ghost var whole := AttachAndFix(node, parent, c, k);
      InsertedNodes(shape, whole, node);
      shape := whole;
      size := size + 1;
      MinimumTest(Snap(nodes), root, whole, order, node);
      if minimum.left == node {
        minimum := node;
      }
    }

    /** Links the node below `parent` and repairs the colours if there is a grandparent. */
    method AttachAndFix(node: Node, parent: Node, ghost c: Ctx, ghost k: int) returns (ghost whole: Tree)
      requires node !in nodes && node.left == null && node.right == null && node.color == Red
      requires nodes == CtxNodes(c) && parent in nodes
      requires At(Snap(nodes), root, c, Leaf) && parent == Up(c) && Fits(c, Leaf, k)
      requires AtMost(Before(c), node.key) && Above(After(c), node.key)
      requires LeafIfFirst(Plug(c, T(Leaf, node, Red, Leaf)), node)
      modifies this`nodes, this`root, nodes, node
      ensures nodes == old(nodes) + {node}
      ensures At(Snap(nodes), root, Top, whole) && Colored(whole)
      ensures InOrder(whole) == InOrder(Plug(c, T(Leaf, node, Red, Leaf))) && LeafIfFirst(whole, node)
    {
      hide Fits, Loose, InOrder, AtMost, Above, Apart, At, Plug, Nodes, CtxNodes, Colored, HasLeaf;
      HoleSide(c, node.key);
      AttachedIsLoose(c, node, k);
      Attach(node, parent, c);
      ghost var t := T(Leaf, node, Red, Leaf);
      FocusLinks(Snap(nodes), root, c, t);
      ZipUp(Snap(nodes), root, c, t);
      FocusLinks(Snap(nodes), root, c.up, ParentTree(c, t));
      whole := Plug(c, t);
      if node.parent.parent != null {
        whole := InsertFixups(node, c, t, 0, InOrder(whole));
      } else {
        ZipTop(Snap(nodes), root, c, t);
        FitsWhenParentBlack(c, t, 0);
      }
    }

    /** First part of the relinking step: every link down to `node`, and its children's parent links, go to the
        successor. (`node -> rotate_right`, at line 228 of the source, is read as `node -> right_child`.) */
    method RedirectToSuccessor(node: Node, s: Node, neighbourSwap: bool)
      requires node in nodes && s in nodes && node != s
      requires Linked(Snap(nodes), root)
      requires node.left != null && node.right != null
      requires neighbourSwap == (node.right == s)
      modifies this`root, nodes`left, nodes`right, nodes`parent
      ensures forall x | x in nodes :: Redirected(old(Snap(nodes)), Snap(nodes), node, s, x)
      ensures root == if old(root) == node then s else old(root)
    {
      hide Linked;
      ghost var h := Snap(nodes);
      LinksOf(h, node, root);
      node.left.parent := s;
      if !neighbourSwap {
        node.right.parent := s;
      }
      if node.parent != null {
        if node.parent.left == node {
          node.parent.left := s;
        } else {
          node.parent.right := s;
        }
      } else {
        root := s;
      }
      forall x | x in nodes ensures Redirected(h, Snap(nodes), node, s, x) {
        LinksOf(h, x, old(root));
      }
    }

    /** Second part, successor not a child of `node`: the links to it go to `node`, and the two trade parents. */
    method TradeWithDistant(node: Node, s: Node)
      requires node in nodes && s in nodes && node != s
      requires s.parent != null && s.parent in nodes && s.parent.left == s && s.parent != node && s.parent != s
      requires s.right != null ==> s.right in nodes && s.right != s && s.right != node
      modifies nodes`left, nodes`parent
      ensures forall x | x in nodes :: DistantTraded(old(Snap(nodes)), Snap(nodes), node, s, x)
    {
      if s.right != null {
        s.right.parent := node;
      }
      if s.parent.left == s {
        s.parent.left := node;
      } else {
        assert false;
      }
      node.parent, s.parent := s.parent, node.parent;
    }

    /** Second part, successor the right child of `node`. */
    method TradeWithChild(node: Node, s: Node)
      requires node in nodes && s in nodes && node != s
      requires s.right != null ==> s.right in nodes && s.right != s && s.right != node
      modifies nodes`parent
      ensures forall x | x in nodes :: ChildTraded(old(Snap(nodes)), Snap(nodes), node, s, x)
    {
      if s.right != null {
        s.right.parent := node;
      }
      s.parent := node.parent;
      node.parent := s;
    }

    /** Third part: the two trade colours and children; a neighbouring successor gets `node` as its right child. */
    method TradeChildren(node: Node, s: Node, neighbourSwap: bool)
      requires node in nodes && s in nodes && node != s
      modifies nodes`left, nodes`right, nodes`color
      ensures forall x | x in nodes :: ChildrenTraded(old(Snap(nodes)), Snap(nodes), node, s, neighbourSwap, x)
    {
      node.left, s.left := s.left, node.left;
      if neighbourSwap {
        node.right := s.right;
        s.right := node;
      } else {
        node.right, s.right := s.right, node.right;
      }
      node.color, s.color := s.color, node.color;
    }

    /** The relinking step of `remove`: `node` and its successor trade places and colours. */
    method RelinkWithSuccessor(node: Node, successorNode: Node)
      requires node in nodes && successorNode in nodes && node != successorNode
      requires Linked(Snap(nodes), root) && Successive(Snap(nodes), node, successorNode)
      modifies this`root, nodes`left, nodes`right, nodes`parent, nodes`color
      ensures Renamed(old(Snap(nodes)), Snap(nodes), node, successorNode)
      ensures root == Swap(node, successorNode, old(root))
    {
      hide Linked, Redirected, DistantTraded, ChildTraded, ChildrenTraded;
      ghost var h := Snap(nodes);
      RootLinks(h, node, successorNode, root);
      var neighbourSwap := successorNode.parent == node;
      RedirectToSuccessor(node, successorNode, neighbourSwap);
      ghost var h1 := Snap(nodes);
      RedirectedSuccessor(h, h1, node, successorNode, old(root));
      if neighbourSwap {
        TradeWithChild(node, successorNode);
      } else {
        TradeWithDistant(node, successorNode);
      }

      ghost var h2 := Snap(nodes);
      TradeChildren(node, successorNode, neighbourSwap);
      forall x | x in nodes
        ensures Snap(nodes)[x] == SwapFields(node, successorNode, h[SwapNode(node, successorNode, x)])
      {
        TradedIsRenamed(h, h1, h2, Snap(nodes), node, successorNode, old(root), x);
      }
    }

    // ---- Removal repairs; `left` tells on which side of its parent the focus is ----

    method Rotate(subtreeRoot: Node, left: bool, ghost c: Ctx, ghost t: Tree)
      requires At(Snap(nodes), root, c, t) && t.T? && t.node == subtreeRoot
      requires if left then t.right.T? else t.left.T?
      modifies this`root, nodes`left, nodes`right, nodes`parent
      ensures At(Snap(nodes), root, c, if left then LeftRotated(t) else RightRotated(t))
    {
      if left {
        RotateLeft(subtreeRoot, c, t);
      } else {
        RotateRight(subtreeRoot, c, t);
      }
    }

    method RepairRedSibling(parent: Node, sibling: Node, left: bool, ghost c: Ctx, ghost t: Tree)
      requires At(Snap(nodes), root, c, t) && !c.Top? && left == c.L? && parent == c.node
      requires Sibling(c).T? && Sibling(c).node == sibling
      modifies this`root, nodes`left, nodes`right, nodes`parent, nodes`color
      ensures At(Snap(nodes), root, RedSiblingCtx(c), t)
    {
      hide At, Nodes, CtxNodes;
      ghost var s := Sibling(c);
      ghost var cs := SiblingCtx(c, t);
      ZipSibling(Snap(nodes), root, c, t);
      Recolor(sibling, Black, cs, s);
      ZipUp(Snap(nodes), root, cs, Blackened(s));
      ghost var p := ParentTree(cs, Blackened(s));
      Recolor(parent, Red, c.up, p);
      Rotate(parent, left, c.up, p.(color := Red));
      ZipUp(Snap(nodes), root, RedSiblingCtx(c), t);
      ZipUp(Snap(nodes), root, RedSiblingCtx(c).up, ParentTree(RedSiblingCtx(c), t));
    }

    /** A black sibling with black children is painted red, and the loop goes on from the parent. (`node -> parent;`, at
        line 295 of the source, is read as `node = parent;`, as at line 319.) */
    method RepairByPainting(sibling: Node, ghost c: Ctx, ghost t: Tree)
      requires At(Snap(nodes), root, c, t) && !c.Top?
      requires Sibling(c).T? && Sibling(c).node == sibling
      modifies nodes`color
      ensures At(Snap(nodes), root, c.up, PaintedUp(c, t))
    {
      hide At, Nodes, CtxNodes;
      ghost var s := Sibling(c);
      ZipSibling(Snap(nodes), root, c, t);
      Recolor(sibling, Red, SiblingCtx(c, t), s);
      ZipUp(Snap(nodes), root, SiblingCtx(c, t), s.(color := Red));
    }

    method RepairByTurning(sibling: Node, left: bool, ghost c: Ctx, ghost t: Tree)
      requires At(Snap(nodes), root, c, t) && !c.Top? && left == c.L?
      requires Sibling(c).T? && Sibling(c).node == sibling && Near(c).T?
      modifies this`root, nodes`left, nodes`right, nodes`parent, nodes`color
      ensures At(Snap(nodes), root, TurnedCtx(c), t)
    {
      hide At, Nodes, CtxNodes;
      ghost var s := Sibling(c);
      ghost var cs := SiblingCtx(c, t);
      ghost var m := Near(c);
      ghost var cm := if c.L? then L(cs, s.node, s.color, s.right) else R(cs, s.node, s.color, s.left);
      ViewSibling(Snap(nodes), root, c, t);
      ZipSibling(Snap(nodes), root, c, t);
      ZipUp(Snap(nodes), root, cm, m);
      if left {
        Recolor(sibling.left, Black, cm, m);
      } else {
        Recolor(sibling.right, Black, cm, m);
      }
      ZipUp(Snap(nodes), root, cm, Blackened(m));
      ghost var s' := ParentTree(cm, Blackened(m));
      Recolor(sibling, Red, cs, s');
      Rotate(sibling, !left, cs, s'.(color := Red));
      ZipSibling(Snap(nodes), root, TurnedCtx(c), t);
    }

    method RepairBySettling(parent: Node, sibling: Node, left: bool, ghost c: Ctx, ghost t: Tree)
      requires At(Snap(nodes), root, c, t) && !c.Top? && left == c.L? && parent == c.node
      requires Sibling(c).T? && Sibling(c).node == sibling && Far(c).T?
      modifies this`root, nodes`left, nodes`right, nodes`parent, nodes`color
      ensures At(Snap(nodes), root, c.up, Settled(c, t))
    {
      hide At, Nodes, CtxNodes;
      ghost var s := Sibling(c).(color := c.color);
      ghost var cs := SiblingCtx(c, t);
      ViewSibling(Snap(nodes), root, c, t);
      ZipSibling(Snap(nodes), root, c, t);
      Recolor(sibling, parent.color, cs, Sibling(c));
      ZipUp(Snap(nodes), root, cs, s);
      ghost var p := ParentTree(cs, s);
      Recolor(parent, Black, c.up, p);
      ghost var cs' := if c.L? then R(c.up, c.node, Black, t) else L(c.up, c.node, Black, t);
      ghost var f := Far(c);
      ghost var cf := if c.L? then R(cs', s.node, s.color, s.left) else L(cs', s.node, s.color, s.right);
      ZipUp(Snap(nodes), root, cs', s);
      FocusLinks(Snap(nodes), root, cs', s);
      ZipUp(Snap(nodes), root, cf, f);
      if left {
        Recolor(sibling.right, Black, cf, f);
      } else {
        Recolor(sibling.left, Black, cf, f);
      }
      ZipUp(Snap(nodes), root, cf, Blackened(f));
      ZipUp(Snap(nodes), root, cs', ParentTree(cf, Blackened(f)));
      Rotate(parent, left, c.up, ParentTree(cs', ParentTree(cf, Blackened(f))));
    }

    /** `remove_fixups` stands at `node`, possibly null, below `parent`. */
    ghost predicate Repairing(node: Node?, parent: Node?, c: Ctx, t: Tree, k: int, order: seq<Node>)
      reads this`root, this`nodes, nodes
    {
      && At(Snap(nodes), root, c, t)
      && node == Root(t) && parent == Up(c)
      && Deficient(c, t, k) && (t.T? || !c.Top?)
      && InOrder(Plug(c, t)) == order
    }

    /** One turn of the `remove_fixups` loop. */
    method RepairStep(node: Node?, parent: Node, ghost c: Ctx, ghost t: Tree, ghost k: int, ghost order: seq<Node>)
      returns (next: Node, ghost c': Ctx, ghost t': Tree, ghost k': int)
      requires Repairing(node, parent, c, t, k, order) && !c.Top? && !IsRed(t)
      modifies this`root, nodes`left, nodes`right, nodes`parent, nodes`color
      ensures Repairing(next, Up(c'), c', t', k', order)
      ensures Rank(c', t') < Rank(c, t)
    {
      hide At, Nodes, CtxNodes, Deficient, InOrder, Plug;
      SiblingExists(c, t, k);
      ViewSibling(Snap(nodes), root, c, t);
      var left := parent.left == node;
      var sibling := if left then parent.right else parent.left;
      c', t', k' := c, t, k;
      if sibling.color == Red {
        RedSiblingKeeps(c, t, k);
        RepairsKeepOrder(c, t);
        RepairRedSibling(parent, sibling, left, c, t);
        c' := RedSiblingCtx(c);
        ViewSibling(Snap(nodes), root, c', t);
        sibling := if left then parent.right else parent.left;
      }
      next, c', t', k' := RepairBlackSibling(parent, sibling, left, c', t, k, order);
    }

    /** The end of a turn, once the sibling is black and its far child red: the whole tree is repaired. */
    method SettleTurn(parent: Node, sibling: Node, left: bool, ghost c: Ctx, ghost t: Tree, ghost k: int,
                      ghost order: seq<Node>)
      returns (next: Node, ghost c': Ctx, ghost t': Tree, ghost k': int)
      requires Repairing(Root(t), parent, c, t, k, order) && !c.Top? && !IsRed(t) && left == c.L?
      requires Sibling(c).T? && !IsRed(Sibling(c)) && Sibling(c).node == sibling && IsRed(Far(c))
      modifies this`root, nodes`left, nodes`right, nodes`parent, nodes`color
      ensures Repairing(next, Up(c'), c', t', k', order) && c' == Top
    {
      hide At, Nodes, CtxNodes, Deficient, InOrder, Plug;
      SettledFits(c, t, k);
      RepairsKeepOrder(c, t);
      RepairBySettling(parent, sibling, left, c, t);
      t' := Settled(c, t);
      ZipTop(Snap(nodes), root, c.up, t');
      k' := WholeIsDeficient(c.up, t', k + 1 + Weight(c.color));
      c', t' := Top, Plug(c.up, t');
      FocusLinks(Snap(nodes), root, Top, t');
      PlugTop(t');
      next := root;
    }

    /** The rest of the turn, once the sibling is black. */
    method RepairBlackSibling(parent: Node, sibling0: Node, left: bool, ghost c: Ctx, ghost t: Tree, ghost k: int,
                              ghost order: seq<Node>)
      returns (next: Node, ghost c': Ctx, ghost t': Tree, ghost k': int)
      requires Repairing(Root(t), parent, c, t, k, order) && !c.Top? && !IsRed(t) && left == c.L?
      requires Sibling(c).T? && !IsRed(Sibling(c)) && Sibling(c).node == sibling0
      modifies this`root, nodes`left, nodes`right, nodes`parent, nodes`color
      ensures Repairing(next, Up(c'), c', t', k', order)
      ensures c' == Top || (c' == c.up && IsRed(t') == CtxRed(c))
    {
      hide At, Nodes, CtxNodes, Deficient, InOrder, Plug;
      var sibling := sibling0;
      ViewSibling(Snap(nodes), root, c, t);
      if (sibling.left == null || sibling.left.color == Black)
        && (sibling.right == null || sibling.right.color == Black)
      {
        PaintedUpKeeps(c, t, k);
        RepairsKeepOrder(c, t);
        RepairByPainting(sibling, c, t);
        next := parent;
        c', t', k' := c.up, PaintedUp(c, t), k + Weight(c.color);
      } else {
        c' := c;
        var far := if left then sibling.right else sibling.left;
        if far == null || far.color == Black {
          TurnedKeeps(c, t, k);
          TurnKeepsOrder(c, t);
          RepairByTurning(sibling, left, c, t);
          c' := TurnedCtx(c);
          ViewSibling(Snap(nodes), root, c', t);
          sibling := if left then parent.right else parent.left;
        }
        next, c', t', k' := SettleTurn(parent, sibling, left, c', t, k, order);
      }
    }

    /** `remove_fixups` */
    method RemoveFixups(node0: Node?, parent0: Node?, ghost c0: Ctx, ghost t0: Tree, ghost k0: int,
                        ghost order: seq<Node>)
      returns (ghost whole: Tree)
      requires Repairing(node0, parent0, c0, t0, k0, order)
      modifies this`root, nodes`left, nodes`right, nodes`parent, nodes`color
      ensures At(Snap(nodes), root, Top, whole) && Colored(whole) && InOrder(whole) == order
    {
      hide At, Nodes, CtxNodes, Deficient, InOrder, Plug;
      var node, parent := node0, parent0;
      ghost var c, t, k := c0, t0, k0;
      RootView(Snap(nodes), root, c, t);
      while node != root && (node == null || node.color == Black)
        invariant Repairing(node, parent, c, t, k, order)
        invariant (node == root <==> c.Top?) && (node != null ==> node in nodes && node.color == t.color)
        decreases Rank(c, t)
      {
        node, c, t, k := RepairStep(node, parent, c, t, k, order);
        RootView(Snap(nodes), root, c, t);
        parent := node.parent;
      }
      BlackenedFocus(c, t, k);
      Recolor(node, Black, c, t);
      ZipTop(Snap(nodes), root, c, Blackened(t));
      whole := Plug(c, Blackened(t));
      BlackenedOrder(c, t);
    }

    // ---- Neighbours ----

    /** The descent of `successor` into the right subtree. The zipper moves down a left spine. */
    method Leftmost(node0: Node, ghost c0: Ctx, ghost t0: Tree) returns (node: Node, ghost c: Ctx, ghost t: Tree)
      requires At(Snap(nodes), root, c0, t0) && t0.T? && t0.node == node0
      ensures At(Snap(nodes), root, c, t) && t.T? && t.node == node && t.left.Leaf?
      ensures Plug(c, t) == Plug(c0, t0) && Before(c) == Before(c0)
      ensures c == c0 || (c.L? && CtxNodes(c0) <= CtxNodes(c.up))
      ensures InOrder(t0) != [] && node == InOrder(t0)[0]
    {
      node, c, t := node0, c0, t0;
      FocusLinks(Snap(nodes), root, c, t);
      while node.left != null
        invariant At(Snap(nodes), root, c, t) && t.T? && t.node == node && node in nodes && node.left == Root(t.left)
        invariant Plug(c, t) == Plug(c0, t0) && Before(c) == Before(c0)
        invariant c == c0 || (c.L? && CtxNodes(c0) <= CtxNodes(c.up))
        invariant InOrder(t) != [] && InOrder(t0) != [] && InOrder(t)[0] == InOrder(t0)[0]
        decreases t
      {
        ZipLeft(Snap(nodes), root, c, t);
        PlugDown(c, t);
        node := node.left;
        c, t := L(c, t.node, t.color, t.right), t.left;
        FocusLinks(Snap(nodes), root, c, t);
      }
    }

    /** `successor` of a node whose place is known. */
    method SuccessorAt(node0: Node, ghost c0: Ctx, ghost t0: Tree) returns (r: Node?)
      requires At(Snap(nodes), root, c0, t0) && t0.T? && t0.node == node0
      ensures r == First(InOrder(t0.right) + After(c0))
    {
      FocusLinks(Snap(nodes), root, c0, t0);
      if node0.right != null {
        ZipRight(Snap(nodes), root, c0, t0);
        ghost var c, t;
        r, c, t := Leftmost(node0.right, R(c0, t0.node, t0.color, t0.left), t0.right);
        return;
      }
      var node := node0;
      var temp := node.parent;
      ghost var c, t := c0, t0;
      assert InOrder(t0.right) + After(c0) == After(c0);
      while temp != null && node == temp.right
        invariant At(Snap(nodes), root, c, t) && t.T? && t.node == node && temp == Up(c)
        invariant temp != null ==> temp in nodes
        invariant First(After(c)) == First(After(c0))
        decreases c
      {
        FocusLinks(Snap(nodes), root, c, t);
        ZipUp(Snap(nodes), root, c, t);
        FocusLinks(Snap(nodes), root, c.up, ParentTree(c, t));
        node := temp;
        temp := temp.parent;
        c, t := c.up, ParentTree(c, t);
        UpInHeap(Snap(nodes), root, c, t);
      }
      FocusLinks(Snap(nodes), root, c, t);
      r := temp;
    }

    /** The mirror image of `Leftmost`. */
    method Rightmost(node0: Node, ghost c0: Ctx, ghost t0: Tree) returns (node: Node)
      requires At(Snap(nodes), root, c0, t0) && t0.T? && t0.node == node0
      ensures InOrder(t0) != [] && node == InOrder(t0)[|InOrder(t0)| - 1]
    {
      node := node0;
      ghost var c, t := c0, t0;
      FocusLinks(Snap(nodes), root, c, t);
      while node.right != null
        invariant At(Snap(nodes), root, c, t) && t.T? && t.node == node && node in nodes && node.right == Root(t.right)
        invariant InOrder(t) != [] && InOrder(t0) != [] && Last(InOrder(t)) == Last(InOrder(t0))
        decreases t
      {
        ZipRight(Snap(nodes), root, c, t);
        node := node.right;
        c, t := R(c, t.node, t.color, t.left), t.right;
        FocusLinks(Snap(nodes), root, c, t);
      }
    }

    /** `predecessor` of a node whose place is known. */
    method PredecessorAt(node0: Node, ghost c0: Ctx, ghost t0: Tree) returns (r: Node?)
      requires At(Snap(nodes), root, c0, t0) && t0.T? && t0.node == node0
      ensures r == Last(Before(c0) + InOrder(t0.left))
    {
      FocusLinks(Snap(nodes), root, c0, t0);
      if node0.left != null {
        ZipLeft(Snap(nodes), root, c0, t0);
        r := Rightmost(node0.left, L(c0, t0.node, t0.color, t0.right), t0.left);
        return;
      }
      var node := node0;
      var temp := node.parent;
      ghost var c, t := c0, t0;
      assert Before(c0) + InOrder(t0.left) == Before(c0);
      while temp != null && node == temp.left
        invariant At(Snap(nodes), root, c, t) && t.T? && t.node == node && temp == Up(c)
        invariant temp != null ==> temp in nodes
        invariant Last(Before(c)) == Last(Before(c0))
        decreases c
      {
        FocusLinks(Snap(nodes), root, c, t);
        ZipUp(Snap(nodes), root, c, t);
        FocusLinks(Snap(nodes), root, c.up, ParentTree(c, t));
        node := temp;
        temp := temp.parent;
        c, t := c.up, ParentTree(c, t);
        UpInHeap(Snap(nodes), root, c, t);
      }
      FocusLinks(Snap(nodes), root, c, t);
      r := temp;
    }

    /** `successor`: the next node in key order, as the iterator's `++` uses it. */
    method Successor(node: Node) returns (r: Node?)
      requires Valid() && node in nodes
      ensures r == Next(Order(), node)
    {
      ghost var c, t := Locate(Snap(nodes), root, Top, shape, node);
      PlugTop(shape);
      NeighboursInOrder(c, t);
      r := SuccessorAt(node, c, t);
    }

    /** `predecessor`: the previous node in key order, as the iterator's `--` uses it. */
    method Predecessor(node: Node) returns (r: Node?)
      requires Valid() && node in nodes
      ensures r == Previous(Order(), node)
    {
      ghost var c, t := Locate(Snap(nodes), root, Top, shape, node);
      PlugTop(shape);
      NeighboursInOrder(c, t);
      r := PredecessorAt(node, c, t);
    }

    // ---- Removal ----

    /** Takes a node with at most one child out of its place. */
    method Detach(node: Node, ghost c: Ctx, ghost t: Tree) returns (child: Node?)
      requires At(Snap(nodes), root, c, t) && t.T? && t.node == node && (t.left.Leaf? || t.right.Leaf?)
      modifies this`root, nodes`left, nodes`right, nodes`parent
      ensures At(Snap(nodes), root, c, Child(t)) && child == Root(Child(t))
      ensures node.parent == Up(c) && node.color == t.color
    {
      hide CtxNodes;
      ghost var h := Snap(nodes);
      AllInHeap(h, root, c, t);
      FocusLinks(h, root, c, t);
      child := if node.left != null then node.left else node.right;
      if child != null {
        child.parent := node.parent;
      }
      if node.parent != null {
        if node.parent.left == node {
          node.parent.left := child;
        } else {
          node.parent.right := child;
        }
      } else {
        root := child;
      }
      DetachAt(h, Snap(nodes), old(root), root, c, t);
    }

    /** `node` is at the place `(c, t)` with at most one child, and taking it out there leaves `order` without it. */
    ghost predicate Removable(node: Node, c: Ctx, t: Tree, k: int, order: seq<Node>)
      reads this`root, this`nodes, nodes
    {
      && At(Snap(nodes), root, c, t) && nodes == Nodes(t) + CtxNodes(c)
      && t.T? && t.node == node && (t.left.Leaf? || t.right.Leaf?)
      && Fits(c, t, k)
      && InOrder(Plug(c, Child(t))) == RemovedFrom(order, node)
    }

    /** The two-child case of `remove`: `node` moves to its successor's place. */
    method MoveToSuccessor(node: Node, ghost c0: Ctx, ghost t0: Tree)
      returns (ghost c: Ctx, ghost t: Tree, ghost k: int)
      requires At(Snap(nodes), root, c0, t0) && nodes == Nodes(Plug(c0, t0)) && Colored(Plug(c0, t0))
      requires t0.T? && t0.node == node && t0.left.T? && t0.right.T?
      modifies this`root, nodes`left, nodes`right, nodes`parent, nodes`color
      ensures Removable(node, c, t, k, InOrder(Plug(c0, t0)))
    {
      hide At, Fits, Plug, InOrder, Colored, Nodes, CtxNodes;
      ghost var h := Snap(nodes);
      ZipRight(h, root, c0, t0);
      FocusLinks(h, root, c0, t0);
      var s, cs, ts := Leftmost(node.right, R(c0, t0.node, t0.color, t0.left), t0.right);
      PlugDown(c0, t0);
      LeftmostIsSuccessive(h, root, c0, t0, cs, ts);
      ZipTop(h, root, c0, t0);
      TreeIsLinked(h, root, Plug(c0, t0));
      k := FitsSomewhere(cs, ts);
      RelinkWithSuccessor(node, s);
      RenamedAt(h, Snap(nodes), node, s, old(root), cs, ts);
      RenamedFits(cs, ts, node, s, k);
      BeforeRight(c0, t0);
      ApartAt(h, old(root), c0, t0);
      ApartAt(h, old(root), cs, ts);
      RenamedOrder(c0, t0, cs, ts);
      RenamedPlaces(cs, ts, node, s, nodes);
      c, t := RenamedCtx(cs, node, s), RenamedTree(ts, node, s);
    }

    /** `remove`: exactly this node leaves the tree. */
    method Remove(node: Node)
      requires Valid() && node in nodes
      modifies this, nodes
      ensures Valid()
      ensures nodes == old(nodes) - {node}
      ensures Order() == RemovedFrom(old(Order()), node)
    {
      hide At, Plug, InOrder, Colored, Nodes, CtxNodes, Sorted;
      if size == 1 {
        HoldsNode(shape, node);
        OnlyNodeLeft(shape, node);
        root := null;
        minimum := null;
        size := 0;
        nodes := {};
        shape := Leaf;
        EmptyTree();
        EmptyAt(Snap(nodes));
        return;
      }

      ghost var order := Order();
      ghost var c, t := Locate(Snap(nodes), root, Top, shape, node);
      PlugTop(shape);
      ApartAt(Snap(nodes), root, c, t);
      RemovedFacts(c, t);
      if minimum == node {
        minimum := Successor(node);
      }
      RemoveFrom(node, c, t);
      size := size - 1;
    }

    /** `remove` once the minimum has been taken care of: relinking if there are two children, and taking out. */
    method RemoveFrom(node: Node, ghost c0: Ctx, ghost t0: Tree)
      requires At(Snap(nodes), root, c0, t0) && t0.T? && t0.node == node
      requires nodes == Nodes(Plug(c0, t0)) && Colored(Plug(c0, t0)) && RemovedFrom(InOrder(Plug(c0, t0)), node) != []
      modifies this`root, this`nodes, this`shape, nodes`left, nodes`right, nodes`parent, nodes`color
      ensures nodes == old(nodes) - {node} == Nodes(shape)
      ensures At(Snap(nodes), root, Top, shape) && Colored(shape)
      ensures InOrder(shape) == RemovedFrom(InOrder(Plug(c0, t0)), node)
    {
      hide At, Fits, Plug, InOrder, Colored, Nodes, CtxNodes, Apart;
      ghost var order := InOrder(Plug(c0, t0));
      ghost var c, t := c0, t0;
      FocusLinks(Snap(nodes), root, c, t);
      ghost var k := FitsSomewhere(c, t);
      if node.left != null && node.right != null {
        c, t, k := MoveToSuccessor(node, c, t);
      } else {
        ApartAt(Snap(nodes), root, c, t);
        ChildInOrder(c, t);
        PlugNodes(c, t);
      }
      TakeOut(node, c, t, k, order);
    }

    /** The last part of `remove`: the node has at most one child and is taken out. */
    method TakeOut(node: Node, ghost c: Ctx, ghost t: Tree, ghost k: int, ghost order: seq<Node>)
      requires Removable(node, c, t, k, order) && RemovedFrom(order, node) != []
      modifies this`root, this`nodes, this`shape, nodes`left, nodes`right, nodes`parent, nodes`color
      ensures nodes == old(nodes) - {node} == Nodes(shape)
      ensures At(Snap(nodes), root, Top, shape) && Colored(shape)
      ensures InOrder(shape) == RemovedFrom(order, node)
    {
      hide At, Fits, Deficient, Plug, InOrder, Colored, Nodes, CtxNodes;
      ApartAt(Snap(nodes), root, c, t);
      TakenOutNodes(c, t, Plug(c, Child(t)));
      SomethingLeft(c, Child(t));
      PlugNodes(c, Child(t));
      var child := Detach(node, c, t);
      ghost var h := Snap(nodes);
      nodes := nodes - {node};
      AtFrame(h, Snap(nodes), root, c, Child(t));
      ghost var whole := Plug(c, Child(t));
      if node.color != Red {
        BlackNodeOut(c, t, k);
        whole := RemoveFixups(child, node.parent, c, Child(t), k - 1, InOrder(whole));
      } else {
        RedLeafGone(c, t, k);
        ZipTop(Snap(nodes), root, c, Leaf);
      }
      TakenOutNodes(c, t, whole);
      shape := whole;
    }

    // ---- Lookups ----

    /** `find`: a node with this key, if there is one. */
    method Find(key: int) returns (node: Node?)
      requires Valid()
      ensures node != null ==> node in nodes && node.key == key
      ensures node == null ==> forall i | 0 <= i < |Order()| :: Order()[i].key != key
    {
      hide At, Plug, InOrder, AtMost, Above, Nodes, Sorted;
      node := root;
      ghost var c, t := Top, shape;
      ghost var _ := StartAtTop(Snap(nodes), root, shape, key);
      StartBelow(key);
      UncleColor(Snap(nodes), root, Top, shape);
      while node != null && node.key != key
        invariant At(Snap(nodes), root, c, t) && node == Root(t) && Plug(c, t) == shape
        invariant node != null ==> node in nodes
        invariant AtMost(Before(c), key - 1) && Above(After(c), key)
        decreases t
      {
        FocusLinks(Snap(nodes), root, c, t);
        PlugDown(c, t);
        ZipLeft(Snap(nodes), root, c, t);
        ZipRight(Snap(nodes), root, c, t);
        DescendPast(c, t, key);
        if key < node.key {
          node := node.left;
          c, t := L(c, t.node, t.color, t.right), t.left;
        } else {
          node := node.right;
          c, t := R(c, t.node, t.color, t.left), t.right;
        }
      }
      if node == null {
        AllPassed(c, key, Order());
      }
    }

    /** `find_largest_not_above`: a node with the largest key up to `key`. */
    method FindLargestNotAbove(key: int) returns (candidate: Node?)
      requires Valid()
      ensures candidate == null ==> forall i | 0 <= i < |Order()| :: key < Order()[i].key
      ensures candidate != null ==> candidate in nodes && candidate.key <= key
      ensures candidate != null ==>
        forall i | 0 <= i < |Order()| && Order()[i].key <= key :: Order()[i].key <= candidate.key
    {
      hide At, Plug, InOrder, AtMost, Above, Nodes, Sorted;
      candidate := null;
      var node := root;
      ghost var c, t := Top, shape;
      ghost var _ := StartAtTop(Snap(nodes), root, shape, key);
      StartBelow(key);
      UncleColor(Snap(nodes), root, Top, shape);
      while node != null
        invariant At(Snap(nodes), root, c, t) && node == Root(t) && Plug(c, t) == shape
        invariant (node != null ==> node in nodes) && (candidate != null ==> candidate in nodes)
        invariant AtMost(Before(c), key - 1) && Above(After(c), key)
        invariant candidate == Last(Before(c))
        decreases t
      {
        FocusLinks(Snap(nodes), root, c, t);
        if key == node.key {
          return node;
        }
        PlugDown(c, t);
        ZipLeft(Snap(nodes), root, c, t);
        ZipRight(Snap(nodes), root, c, t);
        DescendPast(c, t, key);
        if key < node.key {
          node := node.left;
          c, t := L(c, t.node, t.color, t.right), t.left;
        } else {
          candidate := node;
          node := node.right;
          c, t := R(c, t.node, t.color, t.left), t.right;
        }
      }
      LargestPassed(c, key);
    }

    /** `find_smallest_not_below`: a node with the smallest key from `key` on. */
    method FindSmallestNotBelow(key: int) returns (candidate: Node?)
      requires Valid()
      ensures candidate == null ==> forall i | 0 <= i < |Order()| :: Order()[i].key < key
      ensures candidate != null ==> candidate in nodes && candidate.key >= key
      ensures candidate != null ==>
        forall i | 0 <= i < |Order()| && Order()[i].key >= key :: Order()[i].key >= candidate.key
    {
      hide At, Plug, InOrder, AtMost, Above, Nodes, Sorted;
      candidate := null;
      var node := root;
      ghost var c, t := Top, shape;
      ghost var _ := StartAtTop(Snap(nodes), root, shape, key);
      StartBelow(key);
      UncleColor(Snap(nodes), root, Top, shape);
      while node != null
        invariant At(Snap(nodes), root, c, t) && node == Root(t) && Plug(c, t) == shape
        invariant (node != null ==> node in nodes) && (candidate != null ==> candidate in nodes)
        invariant AtMost(Before(c), key - 1) && Above(After(c), key)
        invariant candidate == First(After(c))
        decreases t
      {
        FocusLinks(Snap(nodes), root, c, t);
        if node.key == key {
          return node;
        }
        PlugDown(c, t);
        ZipLeft(Snap(nodes), root, c, t);
        ZipRight(Snap(nodes), root, c, t);
        DescendPast(c, t, key);
        if node.key <= key {
          node := node.right;
          c, t := R(c, t.node, t.color, t.left), t.right;
        } else {
          candidate := node;
          node := node.left;
          c, t := L(c, t.node, t.color, t.right), t.left;
        }
      }
      SmallestPassed(c, key);
    }
  }
}
