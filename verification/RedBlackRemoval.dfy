/** The colour repairs of `remove_fixups`, one case at a time, on shapes. */
module RedBlackRemoval {
  import opened RedBlackShape
  import opened RedBlackHeap

  /** The focus is one black node short; a red root may also clash with its children. */
  ghost predicate Deficient(c: Ctx, t: Tree, k: int) {
    && Balanced(t, k) && CtxBalanced(c, k + 1)
    && (t.T? ==> NoRedRed(t.left) && NoRedRed(t.right))
    && CtxNoRedRed(c)
  }

  /** What goes down in every turn of the repair loop: a red focus ends it. */
  ghost function Rank(c: Ctx, t: Tree): nat {
    2 * Depth(c) + if IsRed(t) then 0 else 1
  }

  /** The sibling's child next to the focus, and the one away from it. */
  function Near(c: Ctx): Tree
    requires !c.Top? && Sibling(c).T?
  {
    if c.L? then Sibling(c).left else Sibling(c).right
  }

  function Far(c: Ctx): Tree
    requires !c.Top? && Sibling(c).T?
  {
    if c.L? then Sibling(c).right else Sibling(c).left
  }

  /** A focus that is short of a black node has a sibling. */
  lemma SiblingExists(c: Ctx, t: Tree, k: int)
    requires Deficient(c, t, k) && !c.Top?
    ensures Sibling(c).T?
    ensures IsRed(Sibling(c)) ==> !CtxRed(c) && Near(c).T? && Far(c).T? && !IsRed(Near(c))
  {
    BalancedNat(t, k);
    var s := Sibling(c);
    assert Balanced(s, k + 1) && NoRedRed(s);
    if IsRed(s) {
      assert Balanced(s.left, k + 1) && Balanced(s.right, k + 1);
    }
  }

  // ---- Red sibling: it is rotated above the parent ----

  function RedSiblingCtx(c: Ctx): Ctx
    requires !c.Top? && Sibling(c).T?
  {
    var s := Sibling(c);
    if c.L? then L(L(c.up, s.node, Black, s.right), c.node, Red, s.left)
    else R(R(c.up, s.node, Black, s.left), c.node, Red, s.right)
  }

  lemma RedSiblingKeeps(c: Ctx, t: Tree, k: int)
    requires Deficient(c, t, k) && !c.Top? && IsRed(Sibling(c))
    ensures Deficient(RedSiblingCtx(c), t, k)
    ensures Sibling(RedSiblingCtx(c)).T? && !IsRed(Sibling(RedSiblingCtx(c)))
  {
    SiblingExists(c, t, k);
    assert CtxBalanced(L(c.up, Sibling(c).node, Black, Far(c)), k + 1);
    assert CtxBalanced(R(c.up, Sibling(c).node, Black, Far(c)), k + 1);
  }

  // ---- Black sibling with black children: it turns red and the problem moves up ----

  function PaintedUp(c: Ctx, t: Tree): Tree
    requires !c.Top? && Sibling(c).T?
  {
    var s := Sibling(c).(color := Red);
    if c.L? then T(t, c.node, c.color, s) else T(s, c.node, c.color, t)
  }

  lemma PaintedUpKeeps(c: Ctx, t: Tree, k: int)
    requires Deficient(c, t, k) && !c.Top? && !IsRed(t)
    requires Sibling(c).T? && !IsRed(Sibling(c)) && !IsRed(Near(c)) && !IsRed(Far(c))
    ensures Deficient(c.up, PaintedUp(c, t), k + Weight(c.color))
  {
    assert Balanced(Sibling(c).(color := Red), k);
  }

  // ---- Black sibling with only its near child red: rotate the sibling ----

  function TurnedCtx(c: Ctx): Ctx
    requires !c.Top? && Sibling(c).T? && Near(c).T?
  {
    var s, m := Sibling(c), Near(c);
    if c.L? then L(c.up, c.node, c.color, T(m.left, m.node, Black, T(m.right, s.node, Red, s.right)))
    else R(c.up, c.node, c.color, T(T(s.left, s.node, Red, m.left), m.node, Black, m.right))
  }

  lemma TurnedKeeps(c: Ctx, t: Tree, k: int)
    requires Deficient(c, t, k) && !c.Top?
    requires Sibling(c).T? && !IsRed(Sibling(c)) && IsRed(Near(c)) && !IsRed(Far(c))
    ensures Deficient(TurnedCtx(c), t, k)
    ensures Sibling(TurnedCtx(c)).T? && !IsRed(Sibling(TurnedCtx(c))) && IsRed(Far(TurnedCtx(c)))
  {
    var s, m := Sibling(c), Near(c);
    assert Balanced(m, k) && Balanced(m.left, k) && Balanced(m.right, k) && Balanced(Far(c), k);
    assert NoRedRed(m) && NoRedRed(m.left) && NoRedRed(m.right) && NoRedRed(Far(c));
    var inner := if c.L? then T(m.right, s.node, Red, s.right) else T(s.left, s.node, Red, m.left);
    assert Balanced(inner, k) && NoRedRed(inner);
  }

  // ---- Black sibling with its far child red: rotate the parent, and done ----

  function Settled(c: Ctx, t: Tree): Tree
    requires !c.Top? && Sibling(c).T? && Far(c).T?
  {
    var s := Sibling(c);
    if c.L? then T(T(t, c.node, Black, s.left), s.node, c.color, Blackened(s.right))
    else T(Blackened(s.left), s.node, c.color, T(s.right, c.node, Black, t))
  }

  lemma SettledFits(c: Ctx, t: Tree, k: int)
    requires Deficient(c, t, k) && !c.Top? && !IsRed(t)
    requires Sibling(c).T? && !IsRed(Sibling(c)) && IsRed(Far(c))
    ensures Fits(c.up, Settled(c, t), k + 1 + Weight(c.color))
  {
    var s, f := Sibling(c), Far(c);
    assert Balanced(f, k) && NoRedRed(f) && Balanced(f.left, k) && Balanced(f.right, k);
    assert Balanced(Blackened(f), k + 1) && NoRedRed(Blackened(f));
    var inner := if c.L? then T(t, c.node, Black, s.left) else T(s.right, c.node, Black, t);
    assert Balanced(inner, k + 1) && NoRedRed(inner);
  }

  /** A finished tree counts as deficient at the top, where no black height is asked for. */
  lemma WholeIsDeficient(c: Ctx, t: Tree, k: int) returns (k': int)
    requires Fits(c, t, k) && t.T?
    ensures Deficient(Top, Plug(c, t), k') && Plug(c, t).T? && !IsRed(Plug(c, t))
  {
    k' := PlugFits(c, t, k);
    PlugIsNode(c, t);
  }

  /** The final write: a black focus at the top, or instead of a red one, leaves a red-black tree. */
  lemma BlackenedFocus(c: Ctx, t: Tree, k: int)
    requires Deficient(c, t, k) && t.T? && (c.Top? || IsRed(t))
    ensures Colored(Plug(c, Blackened(t)))
  {
    if c.Top? && !IsRed(t) {
      assert RedBlack(t, k);
    } else {
      var k' := PlugFits(c, Blackened(t), k + 1);
    }
  }

  // ---- Taking a node with at most one child out ----

  lemma RedLeafOut(c: Ctx, t: Tree, k: int)
    requires Fits(c, t, k) && IsRed(t) && (t.left.Leaf? || t.right.Leaf?)
    ensures t.left.Leaf? && t.right.Leaf? && Fits(c, Leaf, k)
  {
    assert Balanced(t.left, k) && Balanced(t.right, k) && !IsRed(t.left) && !IsRed(t.right);
    BlackHasHeight(t.left, k);
    BlackHasHeight(t.right, k);
  }

  lemma BlackHasHeight(t: Tree, k: int)
    requires Balanced(t, k) && !IsRed(t)
    ensures t.T? <==> k >= 1
  {
    if t.T? {
      BalancedNat(t.left, k - 1);
    }
  }

  lemma BlackNodeOut(c: Ctx, t: Tree, k: int)
    requires Fits(c, t, k) && t.T? && !IsRed(t)
    ensures t.left.Leaf? ==> Deficient(c, t.right, k - 1)
    ensures t.right.Leaf? ==> Deficient(c, t.left, k - 1)
  {
    assert NoRedRed(t.left) && NoRedRed(t.right);
  }

  // ---- The order is unchanged throughout ----

  lemma RepairsKeepOrder(c: Ctx, t: Tree)
    requires !c.Top? && Sibling(c).T?
    ensures InOrder(Plug(RedSiblingCtx(c), t)) == InOrder(Plug(c, t))
    ensures InOrder(Plug(c.up, PaintedUp(c, t))) == InOrder(Plug(c, t))
    ensures Far(c).T? ==> InOrder(Plug(c.up, Settled(c, t))) == InOrder(Plug(c, t))
  {
    var p, s := ParentTree(c, t), Sibling(c);
    RotatedInOrder(p);
    var r := if c.L? then LeftRotated(p) else RightRotated(p);
    var r' := ParentTree(RedSiblingCtx(c).up, ParentTree(RedSiblingCtx(c), t));
    assert InOrder(r') == InOrder(r);
    SameOrder(c.up, p, r');
    assert InOrder(PaintedUp(c, t)) == InOrder(p);
    SameOrder(c.up, p, PaintedUp(c, t));
    if Far(c).T? {
      assert InOrder(Blackened(Far(c))) == InOrder(Far(c));
      assert InOrder(Settled(c, t)) == InOrder(r);
      SameOrder(c.up, p, Settled(c, t));
    }
  }

  lemma TurnKeepsOrder(c: Ctx, t: Tree)
    requires !c.Top? && Sibling(c).T? && Near(c).T?
    ensures InOrder(Plug(TurnedCtx(c), t)) == InOrder(Plug(c, t))
  {
    var s := Sibling(c);
    RotatedInOrder(s);
    var r := if c.L? then RightRotated(s) else LeftRotated(s);
    var s' := Sibling(TurnedCtx(c));
    assert InOrder(s') == InOrder(r);
    var p, p' := ParentTree(c, t), ParentTree(TurnedCtx(c), t);
    SameOrder(c.up, p, p');
  }

  // ---- Order, minimum and size after a removal ----

  /** What removing the node at a place does to the key order. */
  lemma RemovedFacts(c: Ctx, t: Tree)
    requires t.T? && Apart(c, t)
    ensures var n, order := t.node, InOrder(Plug(c, t));
      && RemovedFrom(order, n) == Before(c) + InOrder(t.left) + (InOrder(t.right) + After(c))
      && |RemovedFrom(order, n)| == |order| - 1
      && (Sorted(order) ==> Sorted(RemovedFrom(order, n)))
      && First(RemovedFrom(order, n)) == (if First(order) == n then Next(order, n) else First(order))
      && n in Elems(order)
  {
    NodeInOrder(c, t);
    NeighboursInOrder(c, t);
    PlugNodes(c, t);
    InOrderDistinct(Plug(c, t));
    var p, n, q := Before(c) + InOrder(t.left), t.node, InOrder(t.right) + After(c);
    var order := p + [n] + q;
    assert order[|p|] == n;
    forall i | 0 <= i < |p| ensures p[i] != n {
      assert order[i] == p[i];
    }
    RemovedBetween(p, n, q);
    if Sorted(order) {
      SortedWithout(p, n, q);
    }
  }

  lemma ChildInOrder(c: Ctx, t: Tree)
    requires t.T? && Apart(c, t) && (t.left.Leaf? || t.right.Leaf?)
    ensures InOrder(Plug(c, Child(t))) == RemovedFrom(InOrder(Plug(c, t)), t.node)
  {
    RemovedFacts(c, t);
    PlugInOrder(c, Child(t));
    if t.left.Leaf? {
      assert Before(c) + InOrder(t.left) == Before(c);
    } else {
      assert InOrder(t.right) + After(c) == After(c);
    }
  }

  lemma TakenOutNodes(c: Ctx, t: Tree, whole: Tree)
    requires t.T? && Apart(c, t) && (t.left.Leaf? || t.right.Leaf?)
    requires InOrder(whole) == InOrder(Plug(c, Child(t)))
    ensures Nodes(whole) == Nodes(t) + CtxNodes(c) - {t.node}
  {
    InOrderNodes(whole);
    InOrderNodes(Plug(c, Child(t)));
    PlugNodes(c, Child(t));
  }

  lemma SomethingLeft(c: Ctx, t: Tree)
    requires InOrder(Plug(c, t)) != []
    ensures t.T? || !c.Top?
  {
  }

  lemma RedLeafGone(c: Ctx, t: Tree, k: int)
    requires Fits(c, t, k) && IsRed(t) && (t.left.Leaf? || t.right.Leaf?)
    ensures Child(t) == Leaf && Colored(Plug(c, Leaf))
  {
    RedLeafOut(c, t, k);
    var k' := PlugFits(c, Leaf, k);
  }

  lemma EmptyTree()
    ensures Nodes(Leaf) == {} && InOrder(Leaf) == [] && Colored(Leaf) && Sorted([])
  {
    assert RedBlack(Leaf, 0);
  }
}
