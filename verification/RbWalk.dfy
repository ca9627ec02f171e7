/**
 rb_first, rb_last, rb_next and rb_prev of lib/rbtree.c: walking the tree by its links is
 walking the list.
 */
module RbWalk {
  import opened RbTree
  import opened VmaTree
  import opened Vmas

  /* The end of a sequence on side d. */
  function End(d: Dir, s: seq<RbNode>): RbNode?
  {
    if s == [] then null else if d == Left then s[0] else s[|s| - 1]
  }

  /* What lies beyond the hole of c on side d. */
  function Beyond(d: Dir, c: Ctx<RbNode>): seq<RbNode> {
    if d == Left then Before(c) else After(c)
  }

  /* What lies beyond the root of t on side d. */
  function Rest(d: Dir, c: Ctx<RbNode>, t: Tree<RbNode>): seq<RbNode>
    requires t.Node?
  {
    if d == Left then Before(c) + Inorder(t.left) else Inorder(t.right) + After(c)
  }

  /* The outermost node of a subtree is that of its child on that side. */
  lemma EndStep(d: Dir, t: Tree<RbNode>)
    requires t.Node?
    ensures End(d, Inorder(t)) == if t.Child(d).Node? then End(d, Inorder(t.Child(d))) else t.v
  {
    var u := t.Child(d);
    if u.Node? {
      assert Inorder(u) == Inorder(u.left) + [u.v] + Inorder(u.right);
    }
  }

  lemma Facts(rb: RbRoot, c: Ctx<RbNode>, t: Tree<RbNode>, d: Dir)
    requires rb.Realises(c, t) && t.Node?
    ensures t.v.parent == CtxParent(c) && t.v.Child(d) == Root(t.Child(d))
    ensures c.Up? ==> (c.v.Child(d) == t.v <==> c.dir == d)
    ensures c.Up? ==> rb.Realises(c.up, Mk(c.dir, t, c.v, c.color, c.sibling))
    ensures t.Child(d).Node? ==> rb.Realises(Down(c, t, d), t.Child(d))
  {
    if c.Up? {
      rb.Zoom(c, t);
    }
    rb.Zoom(Down(c, t, d), t.Child(d));
  }

  /* get_outermost, from a node in focus. */
  method Outermost(rb: RbRoot, node0: RbNode, d: Dir, ghost c0: Ctx<RbNode>, ghost t0: Tree<RbNode>) returns (node: RbNode)
    requires rb.Realises(c0, t0) && t0.Node? && t0.v == node0
    ensures node == End(d, Inorder(t0))
  {
    hide Links, CtxLinks, Tidy, TidyCtx, Nodes, CtxNodes, CtxRoot, RbRoot.Realises, Inorder, End;
    node := node0;
    ghost var c, t := c0, t0;
    Facts(rb, c, t, d);
    EndStep(d, t);
    while node.Child(d) != null
      invariant rb.Realises(c, t) && t.Node? && t.v == node && node.Child(d) == Root(t.Child(d))
      invariant End(d, Inorder(t)) == End(d, Inorder(t0))
      invariant End(d, Inorder(t)) == if t.Child(d).Node? then End(d, Inorder(t.Child(d))) else t.v
      decreases t
    {
      Facts(rb, c, t, d);
      node := node.Child(d);
      c, t := Down(c, t, d), t.Child(d);
      Facts(rb, c, t, d);
      EndStep(d, t);
    }
  }

  lemma BeyondStep(d: Dir, c: Ctx<RbNode>)
    ensures c.Top? ==> Beyond(d, c) == []
    ensures c.Up? && c.dir == d ==> Beyond(d, c.up) == Beyond(d, c)
    ensures c.Up? && c.dir != d ==> End(d.Flip(), Beyond(d, c)) == c.v
  {
  }

  lemma RestStep(d: Dir, c: Ctx<RbNode>, t: Tree<RbNode>)
    requires t.Node?
    ensures if t.Child(d) == Leaf then Rest(d, c, t) == Beyond(d, c)
            else End(d.Flip(), Rest(d, c, t)) == End(d.Flip(), Inorder(t.Child(d)))
  {
    var u := t.Child(d);
    if u.Node? {
      assert Inorder(u) == Inorder(u.left) + [u.v] + Inorder(u.right);
    }
  }

  /* get_closest: the next node in order on side d. */
  method Closest(rb: RbRoot, node0: RbNode, d: Dir, ghost c0: Ctx<RbNode>, ghost t0: Tree<RbNode>) returns (r: RbNode?)
    requires rb.Realises(c0, t0) && t0.Node? && t0.v == node0
    ensures r == End(d.Flip(), Rest(d, c0, t0))
  {
    hide Links, CtxLinks, Tidy, TidyCtx, Nodes, CtxNodes, CtxRoot, RbRoot.Realises, Inorder, End, Rest, Beyond;
    Facts(rb, c0, t0, d);
    RestStep(d, c0, t0);
    if node0.Child(d) != null {
      r := Outermost(rb, node0.Child(d), d.Flip(), Down(c0, t0, d), t0.Child(d));
      return;
    }
    var node := node0;
    ghost var c, t := c0, t0;
    BeyondStep(d, c);
    while node.parent != null && node.parent.Child(d) == node
      invariant rb.Realises(c, t) && t.Node? && t.v == node && Beyond(d, c) == Beyond(d, c0)
      decreases c
    {
      Facts(rb, c, t, d);
      BeyondStep(d, c);
      node := node.parent;
      c, t := c.up, Mk(c.dir, t, c.v, c.color, c.sibling);
    }
    Facts(rb, c, t, d);
    BeyondStep(d, c);
    r := node.parent;
    assert c.Top? ==> End(d.Flip(), Beyond(d, c)) == null by { EndOfNone(d.Flip()); }
  }

  lemma EndOfNone(d: Dir)
    ensures End(d, []) == null
  {
  }

  /* rb_next and rb_prev: the neighbour in task_mmap, or NULL at its end. */
  method Neighbour(task: Task, n: RbNode, d: Dir) returns (r: RbNode?)
    requires task.Linked() && n in task.mmap
    ensures var i := IndexOf(task.mmap, n);
      r == if d == Right then (if i + 1 < |task.mmap| then task.mmap[i + 1] else null)
           else (if i > 0 then task.mmap[i - 1] else null)
  {
    ghost var (c, t) := Spot(Top, task.tree, IndexOf(task.mmap, n));
    SpotPlug(Top, task.tree, IndexOf(task.mmap, n));
    task.rb.ZoomIn(c, t);
    hide Links, CtxLinks, Tidy, TidyCtx, Nodes, CtxNodes, CtxRoot, RbRoot.Realises, Inorder;
    r := Closest(task.rb, n, d, c, t);
    PlugNode(c, t);
    Around(task.mmap, Before(c) + Inorder(t.left), n, Inorder(t.right) + After(c));
  }

  lemma Around(s: seq<RbNode>, a: seq<RbNode>, n: RbNode, b: seq<RbNode>)
    requires s == a + [n] + b && Separate(s)
    ensures n in s && IndexOf(s, n) == |a|
    ensures End(Right, a) == if |a| > 0 then s[|a| - 1] else null
    ensures End(Left, b) == if |a| + 1 < |s| then s[|a| + 1] else null
  {
    assert s[|a|] == n;
  }

  /* rb_first and rb_last */
  method Extreme(task: Task, d: Dir) returns (r: RbNode?)
    requires task.Linked()
    ensures r == End(d, task.mmap)
  {
    if task.rb.root == null {
      return null;
    }
    r := Outermost(task.rb, task.rb.root, d, Top, task.tree);
  }
}
