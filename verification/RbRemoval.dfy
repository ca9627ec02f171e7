/**
 rb_remove of lib/rbtree.c in the heap: do_remove, then the repair loop as it is written, with
 the reads through null pointers it can make.
 */
module RbRemoval {
  import opened RbTree
  import opened RbRepair
  import opened VmaTree

  lemma Cross(rb: RbRoot, c: Ctx<RbNode>, t: Tree<RbNode>)
    requires c.Up?
    ensures rb.Realises(c, t) <==> rb.Realises(Across(c, t), c.sibling)
  {
    hide Links, CtxLinks, Tidy, TidyCtx, Nodes, CtxNodes, CtxRoot, RbRoot.Realises;
    rb.Zoom(c, t);
    rb.Zoom(Across(c, t), c.sibling);
    assert Mk(c.dir.Flip(), c.sibling, c.v, c.color, t) == Mk(c.dir, t, c.v, c.color, c.sibling);
  }

  /* What an iteration reads around the node in focus. */
  lemma Kin(rb: RbRoot, c: Ctx<RbNode>, t: Tree<RbNode>)
    requires rb.Realises(c, t) && c.Up?
    ensures c.v in rb.nodes && c.v.color == c.color && c.v.parent == CtxParent(c.up)
    ensures c.v.Child(c.dir) == Root(t) && c.v.Child(c.dir.Flip()) == Root(c.sibling)
    ensures t.Node? ==> t.v.parent == c.v && (c.v.left == t.v <==> c.dir == Left)
    ensures c.sibling.Node? ==>
      && c.sibling.v in rb.nodes && c.sibling.v.color == c.sibling.color
      && c.sibling.v.left == Root(c.sibling.left) && c.sibling.v.right == Root(c.sibling.right)
      && (c.sibling.left.Node? ==> c.sibling.left.v in rb.nodes && c.sibling.left.v.color == c.sibling.left.color)
      && (c.sibling.right.Node? ==> c.sibling.right.v in rb.nodes && c.sibling.right.v.color == c.sibling.right.color)
  {
    if c.sibling.Node? {
      assert Links(c.sibling) && Links(c.sibling.left) && Links(c.sibling.right);
      assert Nodes(c.sibling) <= rb.nodes;
    }
  }

  method PaintParent(rb: RbRoot, color: Color, ghost c: Ctx<RbNode>, ghost t: Tree<RbNode>, parent: RbNode)
    requires rb.Realises(c, t) && c.Up? && parent == c.v
    modifies parent
    ensures rb.Realises(c.(color := color), t)
  {
    hide Links, CtxLinks, Tidy, TidyCtx, Nodes, CtxNodes, CtxRoot, RbRoot.Realises;
    rb.Zoom(c, t);
    rb.Paint(parent, color, c.up, Mk(c.dir, t, c.v, c.color, c.sibling));
    rb.Zoom(c.(color := color), t);
  }

  method PaintSibling(rb: RbRoot, color: Color, ghost c: Ctx<RbNode>, ghost t: Tree<RbNode>, sibling: RbNode)
    requires rb.Realises(c, t) && c.Up? && c.sibling.Node? && sibling == c.sibling.v
    modifies sibling
    ensures rb.Realises(c.(sibling := c.sibling.(color := color)), t)
  {
    hide Links, CtxLinks, Tidy, TidyCtx, Nodes, CtxNodes, CtxRoot, RbRoot.Realises;
    Cross(rb, c, t);
    rb.Paint(sibling, color, Across(c, t), c.sibling);
    Cross(rb, c.(sibling := c.sibling.(color := color)), t);
  }

  /* Painting child d of the sibling. */
  method PaintNephew(rb: RbRoot, d: Dir, color: Color, ghost c: Ctx<RbNode>, ghost t: Tree<RbNode>, nephew: RbNode)
    requires rb.Realises(c, t) && c.Up? && c.sibling.Node? && c.sibling.Child(d).Node? && nephew == c.sibling.Child(d).v
    modifies nephew
    ensures rb.Realises(c.(sibling := Mk(d, c.sibling.Child(d).(color := color), c.sibling.v, c.sibling.color, c.sibling.Child(d.Flip()))), t)
  {
    hide Links, CtxLinks, Tidy, TidyCtx, Nodes, CtxNodes, CtxRoot, RbRoot.Realises;
    ghost var s, n := c.sibling, c.sibling.Child(d);
    Cross(rb, c, t);
    rb.Zoom(Down(Across(c, t), s, d), n);
    rb.Paint(nephew, color, Down(Across(c, t), s, d), n);
    rb.Zoom(Down(Across(c, t), s, d), n.(color := color));
    ghost var s' := Mk(d, n.(color := color), s.v, s.color, s.Child(d.Flip()));
    Cross(rb, c.(sibling := s'), t);
  }

  /* A red sibling is lifted above the parent. */
  method Lift(rb: RbRoot, parent: RbNode, sibling: RbNode, dir: Dir, ghost c: Ctx<RbNode>, ghost t: Tree<RbNode>)
    requires rb.Realises(c, t) && c.Up? && c.sibling.Node? && parent == c.v && sibling == c.sibling.v && dir == c.dir
    modifies rb`root, rb.nodes
    ensures rb.Realises(Lifted(c), t)
  {
    Kin(rb, c, t);
    hide Links, CtxLinks, Tidy, TidyCtx, Nodes, CtxNodes, CtxRoot, RbRoot.Realises;
    PaintParent(rb, Red, c, t, parent);
    ghost var c1 := c.(color := Red);
    PaintSibling(rb, Black, c1, t, sibling);
    ghost var c2 := c1.(sibling := c.sibling.(color := Black));
    rb.Zoom(c2, t);
    rb.RotateNode(parent, dir, c.up, Mk(c.dir, t, c.v, Red, c2.sibling));
    ghost var inner := Mk(c.dir, t, c.v, Red, Near(c));
    assert inner == Mk(c.dir.Flip(), Near(c), c.v, Red, t);
    rb.Zoom(Lifted(c).up, inner);
    rb.Zoom(Lifted(c), t);
  }

  /* The colours and the rotation for a red near and a black far child. */
  method SwingUp(rb: RbRoot, parent: RbNode, sibling: RbNode, dir: Dir, ghost c: Ctx<RbNode>, ghost t: Tree<RbNode>)
    requires rb.Realises(c, t) && t.Node? && c.Up? && c.sibling.Node? && Near(c).Node?
    requires parent == c.v && sibling == c.sibling.v && dir == c.dir.Flip()
    modifies rb`root, rb.nodes
    ensures rb.Realises(c.up, Swung(c, t))
  {
    Kin(rb, c, t);
    hide Links, CtxLinks, Tidy, TidyCtx, Nodes, CtxNodes, CtxRoot, RbRoot.Realises;
    PaintSibling(rb, Red, c, t, sibling);
    ghost var c1 := c.(sibling := c.sibling.(color := Red));
    Kin(rb, c1, t);
    PaintNephew(rb, dir.Flip(), Black, c1, t, sibling.Child(dir.Flip()));
    ghost var s := Mk(c.dir, Near(c).(color := Black), c.sibling.v, Red, Far(c));
    rb.Zoom(c.(sibling := s), t);
    rb.RotateNode(parent, dir, c.up, Mk(c.dir, t, c.v, c.color, s));
  }

  /* The step for a red near and a black far child, up to the next lookup of the sibling. */
  method Swing(rb: RbRoot, node: RbNode, dir: Dir, ghost c: Ctx<RbNode>, ghost t: Tree<RbNode>) returns (ok: bool)
    requires rb.Realises(c, t) && t.Node? && node == t.v && c.Up? && c.sibling.Node? && Near(c).Node? && dir == c.dir.Flip()
    modifies rb`root, rb.nodes
    ensures ok <==> c.up.Up? && SwungCtx(c, t).sibling.Node?
    ensures ok ==> rb.Realises(SwungCtx(c, t), SwungTree(c, t)) && node.parent == c.up.v
  {
    Kin(rb, c, t);
    SwungOrder(c, t);
    hide Links, CtxLinks, Tidy, TidyCtx, Nodes, CtxNodes, CtxRoot, RbRoot.Realises, Swung;
    SwingUp(rb, node.parent, node.parent.Child(dir), dir, c, t);
    rb.ParentCtx(c.up, Swung(c, t));
    if node.parent == null {
      return false;
    }
    Kin(rb, c.up, Swung(c, t));
    Cross(rb, c.up, Swung(c, t));
    ok := node.parent.Child(dir) != null;
  }

  /* The end of the loop body: the colours and the last rotation. */
  method Settle(rb: RbRoot, parent: RbNode, sibling: RbNode, dir: Dir, ghost c: Ctx<RbNode>, ghost t: Tree<RbNode>)
    requires rb.Realises(c, t) && c.Up? && c.sibling.Node? && Far(c).Node?
    requires parent == c.v && sibling == c.sibling.v && dir == c.dir.Flip()
    modifies rb`root, rb.nodes
    ensures rb.Realises(c.up, Settled(c, t))
  {
    Kin(rb, c, t);
    hide Links, CtxLinks, Tidy, TidyCtx, Nodes, CtxNodes, CtxRoot, RbRoot.Realises;
    PaintSibling(rb, parent.color, c, t, sibling);
    ghost var c1 := c.(sibling := c.sibling.(color := c.color));
    PaintParent(rb, Black, c1, t, parent);
    ghost var c2 := c1.(color := Black);
    Kin(rb, c2, t);
    PaintNephew(rb, dir, Black, c2, t, sibling.Child(dir));
    ghost var s := Mk(c.dir, Near(c), c.sibling.v, c.color, Far(c).(color := Black));
    assert s == Mk(dir, Far(c).(color := Black), c.sibling.v, c.color, Near(c));
    ghost var c3 := c2.(sibling := s);
    rb.Zoom(c3, t);
    rb.RotateNode(parent, dir.Flip(), c.up, Mk(c.dir, t, c.v, Black, s));
  }

  lemma AtTop(rb: RbRoot, t: Tree<RbNode>)
    requires rb.Realises(Top, t) && t.Node?
    ensures rb.root == t.v && t.v.parent == null && t.v in rb.nodes
  {
  }

  /* One iteration from a node with a sibling. Either the node moves up to its parent, or the
     tree is as it shall be, or a null pointer is read. */
  method Iterate(rb: RbRoot, node: RbNode, ghost c: Ctx<RbNode>, ghost t: Tree<RbNode>)
    returns (ok: bool, next: RbNode?, ghost c': Ctx<RbNode>, ghost t': Tree<RbNode>)
    requires rb.Realises(c, t) && t.Node? && node == t.v && c.Up? && c.sibling.Node?
    modifies rb`root, rb.nodes
    ensures !ok ==> !Safe(c)
    ensures ok ==> rb.Realises(c', t') && t'.Node? && next == t'.v && Around(c') < Around(c)
    ensures ok ==> (Safe(c') <==> Safe(c)) && (Safe(c) ==> Repaired(c', t') == Repaired(c, t))
  {
    Kin(rb, c, t);
    hide Links, CtxLinks, Tidy, TidyCtx, Nodes, CtxNodes, CtxRoot, RbRoot.Realises, Plug, Around, Safe, SafeBelow, Repaired, RepairedBelow;
    var dir := if node.parent.left == node then Right else Left;
    c', t', next := c, t, node;
    SafeUnfold(c, t);
    var sibling := node.parent.Child(dir);
    if sibling.color == Red {
      Lift(rb, node.parent, sibling, dir.Flip(), c, t);
      c' := Lifted(c);
      Kin(rb, c', t);
      sibling := node.parent.Child(dir);
      if sibling == null {
        return false, next, c', t';
      }
    }
    ok, next, c', t' := Rebalance(rb, node, dir, c', t);
  }

  lemma SafeUnfold(c: Ctx<RbNode>, t: Tree<RbNode>)
    requires c.Up? && c.sibling.Node? && t.Node?
    ensures Around(Lifted(c)) == Around(c)
    ensures Safe(c) <==> if c.sibling.color == Red then Near(c).Node? && SafeBelow(Lifted(c)) else SafeBelow(c)
    ensures Safe(c) ==> Repaired(c, t) == RepairedBelow(if c.sibling.color == Red then Lifted(c) else c, t)
  {
    LiftedAround(c);
  }

  lemma BelowUnfold(c: Ctx<RbNode>, t: Tree<RbNode>)
    requires c.Up? && c.sibling.Node? && t.Node?
    ensures SafeBelow(c) <==>
      if IsBlack(Near(c)) && IsBlack(Far(c)) then Safe(c.up)
      else (IsBlack(Far(c)) ==> c.up.Up? && (c.up.dir == c.dir ==> c.up.sibling.Node? && Far(c.up).Node?))
    ensures SafeBelow(c) ==>
      if IsBlack(Near(c)) && IsBlack(Far(c)) then RepairedBelow(c, t) == Repaired(c.up, Darkened(c, t))
      else if IsBlack(Far(c)) then RepairedBelow(c, t) == Concluded(SwungCtx(c, t), SwungTree(c, t))
      else RepairedBelow(c, t) == Concluded(c, t)
    ensures Around(c.up) < Around(c)
    ensures Safe<RbNode>(Top) && Around<RbNode>(Top) < Around(c)
  {
  }

  lemma StopsSafe(c: Ctx<RbNode>, t: Tree<RbNode>)
    requires t.Node? && (c.Top? || c.sibling.Leaf?)
    ensures Safe(c) && Repaired(c, t) == Plug(c, t.(color := Black))
    ensures c.Top? ==> Repaired(c, t) == Blackened(t)
  {
  }

  /* A sibling with two black children becomes red, and the node moves up. */
  method Darken(rb: RbRoot, sibling: RbNode, ghost c: Ctx<RbNode>, ghost t: Tree<RbNode>)
    requires rb.Realises(c, t) && c.Up? && c.sibling.Node? && sibling == c.sibling.v
    modifies sibling
    ensures rb.Realises(c.up, Darkened(c, t))
  {
    hide Links, CtxLinks, Tidy, TidyCtx, Nodes, CtxNodes, CtxRoot, RbRoot.Realises;
    PaintSibling(rb, Red, c, t, sibling);
    rb.Zoom(c.(sibling := c.sibling.(color := Red)), t);
  }

  /* The end of the loop body, which reads the far child of the sibling, and the move to the
     root. */
  method Conclude(rb: RbRoot, node: RbNode, dir: Dir, ghost c: Ctx<RbNode>, ghost t: Tree<RbNode>)
    returns (ok: bool, next: RbNode?, ghost tree: Tree<RbNode>)
    requires rb.Realises(c, t) && c.Up? && c.sibling.Node? && node.parent == c.v && dir == c.dir.Flip()
    modifies rb`root, rb.nodes
    ensures ok <==> Far(c).Node?
    ensures ok ==> rb.Realises(Top, tree) && tree.Node? && next == tree.v && Safe<RbNode>(Top)
    ensures ok ==> Repaired(Top, tree) == Concluded(c, t)
  {
    Kin(rb, c, t);
    hide Links, CtxLinks, Tidy, TidyCtx, Nodes, CtxNodes, CtxRoot, RbRoot.Realises, Plug, Settled, Safe, Repaired;
    next, tree := node, Leaf;
    var parent := node.parent;
    var sibling := parent.Child(dir);
    ok := sibling.Child(dir) != null;
    if ok {
      SettledOrder(c, t);
      PlugIsNode(c.up, Settled(c, t));
      Settle(rb, parent, sibling, dir, c, t);
      tree := Plug(c.up, Settled(c, t));
      rb.ZoomOut(c.up, Settled(c, t));
      AtTop(rb, tree);
      next := rb.root;
      StopsSafe(Top, tree);
    }
  }

  /* The rest of an iteration, once the sibling is the one to look at. */
  method Rebalance(rb: RbRoot, node: RbNode, dir: Dir, ghost c: Ctx<RbNode>, ghost t: Tree<RbNode>)
    returns (ok: bool, next: RbNode?, ghost c': Ctx<RbNode>, ghost t': Tree<RbNode>)
    requires rb.Realises(c, t) && t.Node? && node == t.v && c.Up? && c.sibling.Node? && dir == c.dir.Flip()
    modifies rb`root, rb.nodes
    ensures !ok ==> !SafeBelow(c)
    ensures ok ==> rb.Realises(c', t') && t'.Node? && next == t'.v && Around(c') < Around(c)
    ensures ok ==> (Safe(c') <==> SafeBelow(c)) && (SafeBelow(c) ==> Repaired(c', t') == RepairedBelow(c, t))
  {
    Kin(rb, c, t);
    hide Links, CtxLinks, Tidy, TidyCtx, Nodes, CtxNodes, CtxRoot, RbRoot.Realises, Around, Safe, SafeBelow, Repaired, RepairedBelow;
    hide Swung, Concluded, Inorder, Plug;
    BelowUnfold(c, t);
    c', t', next := c, t, node;
    var sibling := node.parent.Child(dir);
    var near, far := sibling.Child(dir.Flip()), sibling.Child(dir);
    if (near == null || near.color == Black) && (far == null || far.color == Black) {
      Darken(rb, sibling, c, t);
      return true, node.parent, c.up, Darkened(c, t);
    }
    if far == null || far.color == Black {
      ok := Swing(rb, node, dir, c, t);
      if c.up.Up? {
        SwungView(c, t);
      }
      if !ok {
        return;
      }
      c', t' := SwungCtx(c, t), SwungTree(c, t);
    }
    hide SwungCtx, SwungTree;
    ok, next, t' := Conclude(rb, node, dir, c', t');
    c' := Top;
  }

  /* The repair loop of rb_remove: it returns if and only if it is safe where it starts, and
     then makes the tree `Repaired`. */
  method Repair(rb: RbRoot, node0: RbNode, ghost c0: Ctx<RbNode>, ghost t0: Tree<RbNode>) returns (ok: bool)
    requires rb.Realises(c0, t0) && t0.Node? && node0 == t0.v
    modifies rb`root, rb.nodes
    ensures ok <==> Safe(c0)
    ensures ok ==> rb.Realises(Top, Repaired(c0, t0))
  {
    hide Links, CtxLinks, Tidy, TidyCtx, Nodes, CtxNodes, CtxRoot, RbRoot.Realises, Plug, Around, Safe, Repaired;
    var node := node0;
    ghost var c, t := c0, t0;
    rb.ParentCtx(c, t);
    while node.parent != null
      invariant rb.Realises(c, t) && t.Node? && node == t.v && node.parent == CtxParent(c)
      invariant (Safe(c) <==> Safe(c0)) && (Safe(c0) ==> Repaired(c, t) == Repaired(c0, t0))
      decreases Around(c)
    {
      Kin(rb, c, t);
      var dir := if node.parent.left == node then Right else Left;
      if node.parent.Child(dir) == null {
        break;
      }
      var next;
      ok, next, c, t := Iterate(rb, node, c, t);
      if !ok {
        return false;
      }
      node := next;
      rb.ParentCtx(c, t);
    }
    if c.Up? {
      Kin(rb, c, t);
    }
    StopsSafe(c, t);
    rb.ParentCtx(c, t);
    rb.Paint(node, Black, c, t);
    rb.ZoomOut(c, t.(color := Black));
    ok := true;
  }

  /* rb_remove: it returns if and only if `SafeRemove` says so, and then makes the tree
     `AfterRemove`, from which exactly the node has gone. */
  method RbRemove(rb: RbRoot, node: RbNode, ghost c: Ctx<RbNode>, ghost t: Tree<RbNode>) returns (ok: bool)
    requires rb.Realises(c, t) && t.Node? && t.v == node && IsBlack(Plug(c, t))
    modifies rb, rb.nodes
    ensures ok <==> SafeRemove(c, t)
    ensures ok ==> rb.Realises(Top, AfterRemove(c, t)) && rb.nodes == old(rb.nodes) - {node} && IsBlack(AfterRemove(c, t))
    ensures ok ==> Inorder(AfterRemove(c, t)) == Before(c) + Inorder(t.left) + (Inorder(t.right) + After(c))
    ensures ok ==> node.parent == null && node.left == null && node.right == null && node.color == Black
  {
    hide Links, CtxLinks, Tidy, TidyCtx, Nodes, CtxNodes, CtxRoot, RbRoot.Realises, Inorder, Plug, Safe, Repaired, Before, After;
    rb.AdoptReady(c, t);
    if SafeRemove(c, t) {
      AfterRemoveOrder(c, t);
    }
    var childDir := if node.left == null then Right else Left;
    var child := node.Child(childDir);
    var other := node.Child(childDir.Flip());
    ghost var t' := rb.DoRemove(node, c, t);
    Started(rb, c, t);
    ghost var cc, ct := StartCtx(c, t), StartTree(t);
    if child == null && other == null {
      rb.ZoomOut(cc, ct);
      return true;
    }
    rb.ParentCtx(cc, ct);
    if child.color == Red {
      rb.Paint(child, Black, cc, ct);
      rb.ZoomOut(cc, ct.(color := Black));
      return true;
    }
    ok := Repair(rb, child, cc, ct);
  }

  /* Where the child that rb_remove starts from is after do_remove. */
  lemma Started(rb: RbRoot, c: Ctx<RbNode>, t: Tree<RbNode>)
    requires t.Node? && rb.Realises(c, Spliced(t))
    ensures rb.Realises(StartCtx(c, t), StartTree(t))
    ensures Root(StartTree(t)) == if t.left.Node? then t.left.v else Root(t.right)
  {
    hide Links, CtxLinks, Tidy, TidyCtx, Nodes, CtxNodes, CtxRoot, RbRoot.Realises;
    if LowStart(t) {
      rb.Zoom(StartCtx(c, t), StartTree(t));
    }
  }
}
