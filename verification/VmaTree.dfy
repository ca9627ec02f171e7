/**
 The red-black tree of VMAs as linked nodes: parent, child and colour fields in the heap,
 tied to the tree they form by a ghost zipper, and rewritten in place by rotate_node and
 rb_balance (lib/rbtree.c).
 */
module VmaTree {
  import opened RbTree

  /* struct vma: the range it covers and its attributes. The name is a pointer, compared as
     such. */
  class Vma {
    var name: nat
    var base: nat
    var end: nat
    var flags: nat

    constructor (name: nat, base: nat, end: nat, flags: nat)
      ensures this.name == name && this.base == base && this.end == end && this.flags == flags
    {
      this.name, this.base, this.end, this.flags := name, base, end, flags;
    }
  }

  /* struct rb_node. It is embedded in a struct vma; `vma` is what container_of yields. */
  class RbNode {
    const vma: Vma
    var parent: RbNode?
    var left: RbNode?
    var right: RbNode?
    var color: Color

    constructor (vma: Vma)
      ensures this.vma == vma
      ensures parent == null && left == null && right == null && color == Black
    {
      this.vma := vma;
      parent, left, right, color := null, null, null, Black;
    }

    function Child(d: Dir): RbNode?
      reads this
    {
      if d == Left then left else right
    }

    method SetChild(d: Dir, n: RbNode?)
      modifies this
      ensures Child(d) == n && Child(d.Flip()) == old(Child(d.Flip()))
      ensures parent == old(parent) && color == old(color)
    {
      if d == Left {
        left := n;
      } else {
        right := n;
      }
    }
  }

  function Root(t: Tree<RbNode>): RbNode? {
    if t.Node? then t.v else null
  }

  function Nodes(t: Tree<RbNode>): (s: set<RbNode>)
    ensures t.Node? ==> t.v in s
  {
    match t
    case Leaf => {}
    case Node(l, v, _, r) => Nodes(l) + {v} + Nodes(r)
  }

  function CtxNodes(c: Ctx<RbNode>): (s: set<RbNode>)
    ensures c.Up? ==> c.v in s && Nodes(c.sibling) <= s
  {
    match c
    case Top => {}
    case Up(_, v, _, s, up) => {v} + Nodes(s) + CtxNodes(up)
  }

  /* The nodes of t are distinct. */
  ghost predicate Tidy(t: Tree<RbNode>) {
    match t
    case Leaf => true
    case Node(l, v, _, r) =>
      && Tidy(l) && Tidy(r)
      && v !in Nodes(l) && v !in Nodes(r) && Nodes(l) !! Nodes(r)
  }

  ghost predicate TidyCtx(c: Ctx<RbNode>) {
    match c
    case Top => true
    case Up(_, v, _, s, up) =>
      && Tidy(s) && TidyCtx(up)
      && v !in Nodes(s) && v !in CtxNodes(up) && Nodes(s) !! CtxNodes(up)
  }

  /* The fields of the nodes of t form t. The parent field of its root is not constrained. */
  ghost predicate Links(t: Tree<RbNode>)
    reads Nodes(t)
  {
    match t
    case Leaf => true
    case Node(l, v, color, r) =>
      && v.left == Root(l) && v.right == Root(r) && v.color == color
      && (l.Node? ==> l.v.parent == v) && (r.Node? ==> r.v.parent == v)
      && Links(l) && Links(r)
  }

  function CtxParent(c: Ctx<RbNode>): RbNode? {
    if c.Up? then c.v else null
  }

  function CtxRoot(c: Ctx<RbNode>, n: RbNode?): RbNode? {
    match c
    case Top => n
    case Up(_, v, _, _, up) => CtxRoot(up, v)
  }

  /* The fields of the nodes of c form c around a subtree rooted at n. */
  ghost predicate CtxLinks(c: Ctx<RbNode>, n: RbNode?)
    reads CtxNodes(c)
  {
    match c
    case Top => true
    case Up(d, v, color, s, up) =>
      && v.Child(d) == n && v.Child(d.Flip()) == Root(s) && v.color == color
      && (s.Node? ==> s.v.parent == v)
      && Links(s)
      && v.parent == CtxParent(up)
      && CtxLinks(up, v)
  }

  lemma RotateTidy(t: Tree<RbNode>, d: Dir)
    requires Tidy(t) && t.Node? && t.Child(d.Flip()).Node?
    ensures Tidy(Rotate(t, d)) && Nodes(Rotate(t, d)) == Nodes(t)
  {
    var e := d.Flip();
    var ch := t.Child(e);
    var n := Mk(e, ch.Child(d), t.v, t.color, t.Child(d));
    assert Nodes(ch) == Nodes(ch.Child(d)) + {ch.v} + Nodes(ch.Child(e));
    assert Nodes(t) == Nodes(t.Child(d)) + {t.v} + Nodes(ch);
    assert Tidy(n) && Nodes(n) == Nodes(ch.Child(d)) + {t.v} + Nodes(t.Child(d));
  }

  /* The parts of a rotation do not share nodes. */
  lemma RotateParts(t: Tree<RbNode>, d: Dir)
    requires Tidy(t) && t.Node? && t.Child(d.Flip()).Node?
    ensures var ch := t.Child(d.Flip());
      var a, b, o := ch.Child(d), ch.Child(d.Flip()), t.Child(d);
      && Tidy(a) && t.v != ch.v && t.v in Nodes(t) && ch.v in Nodes(t)
      && Nodes(a) <= Nodes(t) && Nodes(b) <= Nodes(t) && Nodes(o) <= Nodes(t)
      && t.v !in Nodes(a) && t.v !in Nodes(b) && t.v !in Nodes(o)
      && ch.v !in Nodes(a) && ch.v !in Nodes(b) && ch.v !in Nodes(o)
      && (a.Node? ==> a.v !in Nodes(b) && a.v !in Nodes(o) && a.v in Nodes(t))
  {
    var ch := t.Child(d.Flip());
    assert Nodes(ch) == Nodes(ch.Child(d)) + {ch.v} + Nodes(ch.Child(d.Flip()));
    assert Nodes(t) == Nodes(t.Child(d)) + {t.v} + Nodes(ch);
  }

  lemma LinkMk(d: Dir, a: Tree<RbNode>, v: RbNode, b: Tree<RbNode>)
    requires Links(a) && Links(b)
    requires v.Child(d) == Root(a) && (a.Node? ==> a.v.parent == v)
    requires v.Child(d.Flip()) == Root(b) && (b.Node? ==> b.v.parent == v)
    ensures Links(Mk(d, a, v, v.color, b))
  {
  }

  /* A rotation towards d, up to the parent fields of the two nodes it turns: node has
     subtrees a (inner) and o, child has node and subtree b. */
  ghost predicate Turned(d: Dir, node: RbNode, nc: Color, child: RbNode, cc: Color,
                         a: Tree<RbNode>, b: Tree<RbNode>, o: Tree<RbNode>)
    reads node, child, Nodes(a), Nodes(b), Nodes(o)
  {
    && Links(a) && Links(b) && Links(o)
    && node.color == nc && child.color == cc
    && node.Child(d.Flip()) == Root(a) && (a.Node? ==> a.v.parent == node)
    && node.Child(d) == Root(o) && (o.Node? ==> o.v.parent == node)
    && child.Child(d.Flip()) == Root(b) && (b.Node? ==> b.v.parent == child)
    && child.Child(d) == node
  }

  lemma TurnedLinks(d: Dir, node: RbNode, nc: Color, child: RbNode, cc: Color,
                    a: Tree<RbNode>, b: Tree<RbNode>, o: Tree<RbNode>)
    requires Turned(d, node, nc, child, cc, a, b, o) && node.parent == child
    ensures Links(Mk(d, Mk(d.Flip(), a, node, nc, o), child, cc, b))
  {
    LinkMk(d.Flip(), a, node, o);
    LinkMk(d, Mk(d.Flip(), a, node, nc, o), child, b);
  }

  class RbRoot {
    var root: RbNode?
    /* All linked nodes. */
    ghost var nodes: set<RbNode>

    constructor ()
      ensures root == null && nodes == {} && Realises(Top, Leaf)
    {
      root, nodes := null, {};
    }

    /* The linked nodes form the tree Plug(c, t). */
    ghost predicate Realises(c: Ctx<RbNode>, t: Tree<RbNode>)
      reads this, nodes, Nodes(t), CtxNodes(c)
    {
      && nodes == Nodes(t) + CtxNodes(c)
      && Tidy(t) && TidyCtx(c) && Nodes(t) !! CtxNodes(c)
      && Links(t) && CtxLinks(c, Root(t))
      && (t.Node? ==> t.v.parent == CtxParent(c))
      && root == CtxRoot(c, Root(t))
    }

    /* Moving the focus between a node and its child. */
    lemma Zoom(c: Ctx<RbNode>, t: Tree<RbNode>)
      requires c.Up?
      ensures Realises(c, t) <==> Realises(c.up, Mk(c.dir, t, c.v, c.color, c.sibling))
    {
    }

    lemma {:induction false} ZoomOut(c: Ctx<RbNode>, t: Tree<RbNode>)
      requires Realises(c, t)
      ensures Realises(Top, Plug(c, t))
      decreases c
    {
      if c.Up? {
        Zoom(c, t);
        ZoomOut(c.up, Mk(c.dir, t, c.v, c.color, c.sibling));
      }
    }

    method Reparent(n: RbNode, p: RbNode?, ghost t: Tree<RbNode>)
      requires Links(t) && Tidy(t) && t.Node? && t.v == n
      modifies n
      ensures Links(t) && n.parent == p
    {
      assert Links(t.left) && Links(t.right);
      n.parent := p;
      assert Links(t.left) && Links(t.right);
    }

    lemma {:induction false} ZoomIn(c: Ctx<RbNode>, t: Tree<RbNode>)
      requires Realises(Top, Plug(c, t))
      ensures Realises(c, t)
      decreases c
    {
      if c.Up? {
        ZoomIn(c.up, Mk(c.dir, t, c.v, c.color, c.sibling));
        Zoom(c, t);
      }
    }

    /* The first half of rotate_node: node gives up its child and adopts the inner
       grandchild a, and becomes the child's child. */
    method TurnDown(node: RbNode, child: RbNode, d: Dir, ghost a: Tree<RbNode>, ghost b: Tree<RbNode>, ghost o: Tree<RbNode>)
      requires node != child && Tidy(a)
      requires Apart(node, a, b, o) && Apart(child, a, b, o) && Links(a) && Links(b) && Links(o)
      requires a.Node? ==> a.v !in Nodes(b) && a.v !in Nodes(o)
      requires node.Child(d) == Root(o) && (o.Node? ==> o.v.parent == node)
      requires child.Child(d.Flip()) == Root(b) && (b.Node? ==> b.v.parent == child)
      requires child.Child(d) == Root(a)
      modifies node, child, if a.Node? then {a.v} else {}
      ensures Turned(d, node, old(node.color), child, old(child.color), a, b, o)
      ensures node.parent == old(node.parent) && child.parent == old(child.parent)
      ensures node.color == old(node.color) && child.color == old(child.color)
    {
      assert o.Node? ==> o.v in Nodes(o);
      assert b.Node? ==> b.v in Nodes(b);
      assert a.Node? ==> a.v in Nodes(a);
      hide Tidy, Nodes;
      node.SetChild(d.Flip(), child.Child(d));
      assert Links(a) && Links(b) && Links(o);
      if child.Child(d) != null {
        Reparent(child.Child(d), node, a);
        assert Links(a) && Links(b) && Links(o);
      }
      child.SetChild(d, node);
      assert Links(a) && Links(b) && Links(o);
    }

    /* node is none of the nodes of the three subtrees, which are all linked nodes. */
    ghost predicate Apart(node: RbNode, a: Tree<RbNode>, b: Tree<RbNode>, o: Tree<RbNode>)
      reads this
    {
      && Nodes(a) <= nodes && Nodes(b) <= nodes && Nodes(o) <= nodes
      && node !in Nodes(a) && node !in Nodes(b) && node !in Nodes(o)
    }

    /* A node's sibling is another node, so the test `parent->child[RB_RIGHT] == node` finds
       the side the node is on. */
    lemma SideOf(c: Ctx<RbNode>, n: RbNode)
      requires c.Up? && CtxLinks(c, n) && n !in CtxNodes(c)
      ensures c.v.right == n <==> c.dir == Right
    {
    }

    /* The second half of rotate_node: the child takes the node's place below the parent. */
    method TakePlace(node: RbNode, child: RbNode, parent: RbNode?, ghost c: Ctx<RbNode>)
      requires CtxLinks(c, node) && TidyCtx(c) && parent == CtxParent(c) && CtxNodes(c) <= nodes
      requires node !in CtxNodes(c) && child !in CtxNodes(c) && node != child
      requires root == CtxRoot(c, node)
      modifies this`root, node, child, if c.Up? then {c.v} else {}
      ensures CtxLinks(c, child) && root == CtxRoot(c, child)
      ensures child.parent == parent && node.parent == child
      ensures node.left == old(node.left) && node.right == old(node.right) && node.color == old(node.color)
      ensures child.left == old(child.left) && child.right == old(child.right) && child.color == old(child.color)
    {
      child.parent := parent;
      if parent != null {
        SideOf(c, node);
        parent.SetChild(if parent.right == node then Right else Left, child);
      } else {
        root := child;
      }
      node.parent := child;
    }

    method TurnUp(node: RbNode, child: RbNode, parent: RbNode?, d: Dir, ghost c: Ctx<RbNode>,
                  ghost a: Tree<RbNode>, ghost b: Tree<RbNode>, ghost o: Tree<RbNode>, ghost below: set<RbNode>)
      requires CtxLinks(c, node) && TidyCtx(c) && parent == CtxParent(c) && CtxNodes(c) <= nodes
      requires node !in CtxNodes(c) && child !in CtxNodes(c) && node != child
      requires root == CtxRoot(c, node)
      requires Turned(d, node, node.color, child, child.color, a, b, o)
      requires Nodes(a) <= below && Nodes(b) <= below && Nodes(o) <= below && below <= nodes
      requires node !in below && child !in below && (c.Up? ==> c.v !in below)
      modifies this`root, node, child, if c.Up? then {c.v} else {}
      ensures CtxLinks(c, child) && root == CtxRoot(c, child)
      ensures Links(Mk(d, Mk(d.Flip(), a, node, old(node.color), o), child, old(child.color), b))
      ensures child.parent == parent
    {
      hide Links, CtxLinks, Nodes, CtxNodes, CtxRoot, TidyCtx, Mk;
      TakePlace(node, child, parent, c);
      assert Links(a) && Links(b) && Links(o);
      TurnedLinks(d, node, old(node.color), child, old(child.color), a, b, o);
    }

    /* What rotate_node finds in the heap. */
    lemma RotateReady(c: Ctx<RbNode>, t: Tree<RbNode>, d: Dir)
      requires Realises(c, t) && t.Node? && t.Child(d.Flip()).Node?
      ensures var ch := t.Child(d.Flip());
        var a, b, o := ch.Child(d), ch.Child(d.Flip()), t.Child(d);
        && Links(a) && Links(b) && Links(o)
        && t.v.Child(d) == Root(o) && (o.Node? ==> o.v.parent == t.v)
        && ch.v.Child(d.Flip()) == Root(b) && (b.Node? ==> b.v.parent == ch.v)
        && ch.v.Child(d) == Root(a) && t.v.Child(d.Flip()) == ch.v
        && t.v.color == t.color && ch.v.color == ch.color
        && Apart(t.v, a, b, o) && Apart(ch.v, a, b, o)
        && t.v in nodes && ch.v in nodes && (a.Node? ==> a.v in nodes) && (c.Up? ==> c.v in nodes)
        && t.v !in CtxNodes(c) && ch.v !in CtxNodes(c) && (a.Node? ==> a.v !in CtxNodes(c))
        && CtxNodes(c) !! Nodes(a) && CtxNodes(c) !! Nodes(b) && CtxNodes(c) !! Nodes(o)
    {
      RotateParts(t, d);
      assert Links(t.Child(d.Flip()));
    }

    /* rotate_node */
    method RotateNode(node: RbNode, d: Dir, ghost c: Ctx<RbNode>, ghost t: Tree<RbNode>)
      requires Realises(c, t) && t.Node? && t.v == node && t.Child(d.Flip()).Node?
      modifies this`root, nodes
      ensures Realises(c, Rotate(t, d))
    {
      hide Links, CtxLinks, Tidy, TidyCtx, Nodes, CtxNodes, CtxRoot, Turned;
      ghost var ch := t.Child(d.Flip());
      ghost var a, b, o := ch.Child(d), ch.Child(d.Flip()), t.Child(d);
      RotateTidy(t, d);
      RotateParts(t, d);
      RotateReady(c, t, d);
      var parent := node.parent;
      var child := node.Child(d.Flip());
      TurnDown(node, child, d, a, b, o);
      assert CtxLinks(c, node);
      TurnUp(node, child, parent, d, c, a, b, o, Nodes(a) + Nodes(b) + Nodes(o));
    }

    /* Writing the colour of the node in focus. */
    method Paint(n: RbNode, color: Color, ghost c: Ctx<RbNode>, ghost t: Tree<RbNode>)
      requires Realises(c, t) && t.Node? && t.v == n
      modifies n
      ensures Realises(c, t.(color := color))
    {
      assert Links(t.left) && Links(t.right);
      n.color := color;
      assert Links(t.left) && Links(t.right);
      assert CtxLinks(c, n);
    }

    /* What rb_balance finds above a node with a red parent. */
    lemma Relatives(c: Ctx<RbNode>, t: Tree<RbNode>)
      requires Realises(c, t) && t.Node? && RedParent(c)
      ensures t.v.parent == c.v && c.v.parent == c.up.v && c.v in nodes && c.up.v in nodes && t.v in nodes
      ensures c.v.Child(c.dir) == t.v && c.v.Child(c.dir.Flip()) != t.v
      ensures c.up.v.left == c.v <==> c.up.dir == Left
      ensures c.up.v.Child(c.up.dir.Flip()) == Root(c.up.sibling)
      ensures c.up.sibling.Node? ==> c.up.sibling.v.color == c.up.sibling.color && c.up.sibling.v in nodes
    {
      var g := c.up;
      assert CtxLinks(g, c.v) && TidyCtx(g) && Links(g.sibling);
      assert CtxNodes(c) == {c.v} + Nodes(c.sibling) + CtxNodes(g);
      assert CtxNodes(g) == {g.v} + Nodes(g.sibling) + CtxNodes(g.up);
      assert g.sibling.Node? ==> g.sibling.v in Nodes(g.sibling);
      assert c.sibling.Node? ==> c.sibling.v in Nodes(c.sibling);
    }

    /* Parent and uncle are red: both become black, the grandparent red. */
    method StepRecolor(parent: RbNode, uncle: RbNode, grandparent: RbNode, ghost c: Ctx<RbNode>, ghost t: Tree<RbNode>)
      requires Realises(c, t) && t.Node? && RedParent(c) && c.up.sibling.Node?
      requires parent == c.v && uncle == c.up.sibling.v && grandparent == c.up.v
      modifies nodes
      ensures Realises(c.up.up, Recolored(c, t))
    {
      Relatives(c, t);
      hide Links, CtxLinks, Tidy, TidyCtx, Nodes, CtxNodes, CtxRoot, Realises;
      ghost var g := c.up;
      Zoom(c, t);
      Paint(parent, Black, g, Mk(c.dir, t, c.v, c.color, c.sibling));
      ghost var p := Mk(c.dir, t, c.v, Black, c.sibling);
      Zoom(g, p);
      ghost var other := Up(g.dir.Flip(), g.v, g.color, p, g.up);
      assert Mk(other.dir, g.sibling, g.v, g.color, p) == Mk(g.dir, p, g.v, g.color, g.sibling);
      Zoom(other, g.sibling);
      Paint(uncle, Black, other, g.sibling);
      ghost var u := g.sibling.(color := Black);
      Zoom(other, u);
      Paint(grandparent, Red, g.up, Mk(other.dir, u, g.v, g.color, p));
    }

    /* The node is an inner grandchild: rotate the parent below it. */
    method StepInner(parent: RbNode, dir: Dir, ghost c: Ctx<RbNode>, ghost t: Tree<RbNode>)
      requires Realises(c, t) && t.Node? && t.color == Red && RedParent(c) && parent == c.v && dir == c.dir == c.up.dir.Flip()
      modifies this`root, nodes
      ensures Realises(InnerCtx(c, t), InnerTree(c, t))
    {
      hide Links, CtxLinks, Tidy, TidyCtx, Nodes, CtxNodes, CtxRoot, Realises;
      Zoom(c, t);
      InnerStep(c, t);
      RotateNode(parent, dir.Flip(), c.up, Mk(c.dir, t, c.v, c.color, c.sibling));
      Zoom(InnerCtx(c, t), InnerTree(c, t));
    }

    /* The node is an outer grandchild: recolour parent and grandparent and rotate the
       grandparent below the parent. */
    method StepOuter(parent: RbNode, grandparent: RbNode, dir: Dir, ghost c: Ctx<RbNode>, ghost t: Tree<RbNode>)
      requires Realises(c, t) && t.Node? && RedParent(c) && c.dir == c.up.dir == dir.Flip()
      requires parent == c.v && grandparent == c.up.v
      modifies this`root, nodes
      ensures Realises(OuterCtx(c), t)
    {
      Relatives(c, t);
      hide Links, CtxLinks, Tidy, TidyCtx, Nodes, CtxNodes, CtxRoot, Realises;
      ghost var g := c.up;
      Zoom(c, t);
      Paint(parent, Black, g, Mk(c.dir, t, c.v, c.color, c.sibling));
      ghost var p := Mk(c.dir, t, c.v, Black, c.sibling);
      Zoom(g, p);
      Paint(grandparent, Red, g.up, Mk(g.dir, p, g.v, g.color, g.sibling));
      OuterStep(c, t);
      RotateNode(grandparent, dir, g.up, Mk(g.dir, p, g.v, Red, g.sibling));
      Zoom(OuterCtx(c), t);
    }

    /* Hanging a new leaf below the parent found by the descent. */
    method LinkLeaf(n: RbNode, parent: RbNode?, dir: Dir, ghost c: Ctx<RbNode>)
      requires Realises(c, Leaf) && n !in nodes && parent == CtxParent(c) && (c.Up? ==> dir == c.dir)
      requires n.parent == null && n.left == null && n.right == null
      modifies this, n, if c.Up? then {c.v} else {}
      ensures Realises(c, Node(Leaf, n, old(n.color), Leaf)) && nodes == old(nodes) + {n}
    {
      LeafNodes(n, n.color);
      hide Links, CtxLinks, Tidy, TidyCtx, Nodes, CtxNodes, CtxRoot;
      Hang(n, parent, dir, c);
      nodes := nodes + {n};
      LeafLinks(n);
    }

    method Hang(n: RbNode, parent: RbNode?, dir: Dir, ghost c: Ctx<RbNode>)
      requires CtxLinks(c, null) && TidyCtx(c) && parent == CtxParent(c) && CtxNodes(c) <= nodes
      requires n !in CtxNodes(c) && root == CtxRoot(c, null) && n.parent == null && (c.Up? ==> dir == c.dir)
      modifies this`root, n, if c.Up? then {c.v} else {}
      ensures CtxLinks(c, n) && root == CtxRoot(c, n) && n.parent == parent
      ensures n.left == old(n.left) && n.right == old(n.right) && n.color == old(n.color)
    {
      assert c.Up? ==> CtxLinks(c.up, c.v) && Links(c.sibling);
      if parent == null {
        root := n;
      } else {
        parent.SetChild(dir, n);
        n.parent := parent;
        assert CtxLinks(c.up, c.v) && Links(c.sibling);
      }
    }

    lemma LeafNodes(n: RbNode, color: Color)
      ensures Nodes(Node(Leaf, n, color, Leaf)) == {n} && Nodes(Leaf) == {} && Tidy(Node(Leaf, n, color, Leaf))
    {
    }

    lemma LeafLinks(n: RbNode)
      requires n.left == null && n.right == null
      ensures Links(Node(Leaf, n, n.color, Leaf))
    {
    }

    lemma {:induction false} ZoomOutTo(p: Ctx<RbNode>, c: Ctx<RbNode>, t: Tree<RbNode>)
      requires Realises(Append(p, c), t)
      ensures Realises(c, Plug(p, t))
      decreases p
    {
      if p.Up? {
        Zoom(Append(p, c), t);
        ZoomOutTo(p.up, c, Mk(p.dir, t, p.v, p.color, p.sibling));
      }
    }

    /* get_outermost towards the right, from a node in focus. */
    method Rightmost(node0: RbNode, ghost c: Ctx<RbNode>, ghost t: Tree<RbNode>)
      returns (node: RbNode, ghost p: Ctx<RbNode>, ghost t': Tree<RbNode>)
      requires Realises(c, t) && t.Node? && t.v == node0
      ensures Realises(Append(p, c), t') && t'.Node? && t'.v == node && t'.right == Leaf
      ensures AllRight(p) && Plug(p, t') == t
    {
      node, p, t' := node0, Top, t;
      while node.right != null
        invariant Realises(Append(p, c), t') && t'.Node? && t'.v == node
        invariant AllRight(p) && Plug(p, t') == t
        decreases t'
      {
        Zoom(Down(Append(p, c), t', Right), t'.right);
        DownOrder(p, t', Right);
        node := node.right;
        p, t' := Down(p, t', Right), t'.right;
      }
    }

    /* memset of a node that has been unlinked. */
    method Clear(n: RbNode)
      modifies n
      ensures n.parent == null && n.left == null && n.right == null && n.color == Black
    {
      n.parent, n.left, n.right, n.color := null, null, null, Black;
    }

    /* Putting another child, or none, in the place of node below its parent. */
    method Reattach(node: RbNode, child: RbNode?, parent: RbNode?, ghost c: Ctx<RbNode>)
      requires CtxLinks(c, node) && TidyCtx(c) && parent == CtxParent(c) && CtxNodes(c) <= nodes
      requires node !in CtxNodes(c) && root == CtxRoot(c, node)
      modifies this`root, if c.Up? then {c.v} else {}
      ensures CtxLinks(c, child) && root == CtxRoot(c, child)
    {
      assert c.Up? ==> CtxLinks(c.up, c.v) && Links(c.sibling);
      if parent != null {
        SideOf(c, node);
        parent.SetChild(if parent.right == node then Right else Left, child);
        assert CtxLinks(c.up, c.v) && Links(c.sibling);
      } else {
        root := child;
      }
    }

    lemma SpliceReady(c: Ctx<RbNode>, t: Tree<RbNode>, t': Tree<RbNode>)
      requires Realises(c, t) && t.Node?
      requires (t.left == Leaf && t' == t.right) || (t.right == Leaf && t' == t.left)
      ensures Nodes(t) == Nodes(t') + {t.v} && t.v !in Nodes(t') && t.v !in CtxNodes(c) && Tidy(t') && Links(t')
      ensures Root(t') == if t.v.left != null then t.v.left else t.v.right
      ensures t'.Node? ==> t'.v in Nodes(t') && t'.v in nodes && t'.v !in CtxNodes(c)
      ensures c.Up? ==> c.v in CtxNodes(c) && c.v !in Nodes(t') && c.v in nodes
      ensures t.v in nodes && CtxNodes(c) <= nodes && Nodes(t') <= nodes
    {
    }

    /* do_remove for a node with at most one child: the child takes its place. */
    method Splice(node: RbNode, ghost c: Ctx<RbNode>, ghost t: Tree<RbNode>) returns (ghost t': Tree<RbNode>)
      requires Realises(c, t) && t.Node? && t.v == node && (t.left == Leaf || t.right == Leaf)
      modifies this, nodes
      ensures t' == (if t.left.Node? then t.left else t.right)
      ensures Realises(c, t') && nodes == old(nodes) - {node}
      ensures node.parent == null && node.left == null && node.right == null && node.color == Black
    {
      hide Links, CtxLinks, Tidy, TidyCtx, Nodes, CtxNodes, CtxRoot;
      t' := if t.left.Node? then t.left else t.right;
      SpliceReady(c, t, t');
      var parent := node.parent;
      var child := if node.left != null then node.left else node.right;
      Reattach(node, child, parent, c);
      assert Links(t');
      if child != null {
        Reparent(child, parent, t');
      }
      assert CtxLinks(c, child);
      Clear(node);
      assert Links(t') && CtxLinks(c, child);
      nodes := nodes - {node};
    }

    lemma AdoptReady(c: Ctx<RbNode>, t: Tree<RbNode>)
      requires Realises(c, t) && t.Node?
      ensures Links(t.left) && Links(t.right) && Tidy(t.left) && Tidy(t.right)
      ensures Nodes(t) == Nodes(t.left) + {t.v} + Nodes(t.right)
      ensures t.v !in Nodes(t.left) && t.v !in Nodes(t.right) && Nodes(t.left) !! Nodes(t.right)
      ensures t.v.left == Root(t.left) && t.v.right == Root(t.right) && t.v.parent == CtxParent(c)
      ensures t.left.Node? ==> t.left.v in Nodes(t.left)
      ensures t.right.Node? ==> t.right.v in Nodes(t.right)
      ensures c.Up? ==> c.v in CtxNodes(c)
      ensures nodes == Nodes(t) + CtxNodes(c) && Nodes(t) !! CtxNodes(c)
    {
    }

    /* The end of do_remove for a node with two children: n, already unlinked, takes over
       both subtrees and the place of the node. */
    method Adopt(node: RbNode, n: RbNode, ghost c: Ctx<RbNode>, ghost t: Tree<RbNode>)
      requires Realises(c, t) && t.Node? && t.v == node && n !in nodes
      modifies this, nodes, n
      ensures Realises(c, Node(t.left, n, old(n.color), t.right)) && nodes == old(nodes) - {node} + {n}
      ensures node.parent == null && node.left == null && node.right == null && node.color == Black
    {
      hide Links, CtxLinks, Tidy, TidyCtx, Nodes, CtxNodes, CtxRoot;
      AdoptReady(c, t);
      var parent := node.parent;
      TakeSubtrees(node, n, t.left, t.right);
      assert CtxLinks(c, node);
      TakeOver(node, n, parent, c, t.left, t.right, Nodes(t.left) + Nodes(t.right));
      nodes := nodes - {node} + {n};
      NewRoot(n, t);
    }

    /* n, which has the subtrees already, takes the place of the node below its parent. */
    method TakeOver(node: RbNode, n: RbNode, parent: RbNode?, ghost c: Ctx<RbNode>,
                    ghost l: Tree<RbNode>, ghost r: Tree<RbNode>, ghost below: set<RbNode>)
      requires CtxLinks(c, node) && TidyCtx(c) && parent == CtxParent(c) && CtxNodes(c) <= nodes
      requires node !in CtxNodes(c) && n !in CtxNodes(c) && node != n && root == CtxRoot(c, node)
      requires Links(l) && Links(r) && Nodes(l) <= below && Nodes(r) <= below && below <= nodes
      requires node !in below && n !in below && (c.Up? ==> c.v !in below)
      requires (l.Node? ==> l.v.parent == n) && (r.Node? ==> r.v.parent == n)
      modifies this`root, node, n, if c.Up? then {c.v} else {}
      ensures CtxLinks(c, n) && root == CtxRoot(c, n) && n.parent == parent && Links(l) && Links(r)
      ensures n.left == old(n.left) && n.right == old(n.right) && n.color == old(n.color)
      ensures (l.Node? ==> l.v.parent == n) && (r.Node? ==> r.v.parent == n)
      ensures node.parent == null && node.left == null && node.right == null && node.color == Black
    {
      hide Links, CtxLinks, TidyCtx, Nodes, CtxNodes, CtxRoot;
      Reattach(node, n, parent, c);
      n.parent := parent;
      Clear(node);
      assert Links(l) && Links(r) && CtxLinks(c, n);
    }

    method TakeSubtrees(node: RbNode, n: RbNode, ghost l: Tree<RbNode>, ghost r: Tree<RbNode>)
      requires node != n && n !in Nodes(l) && n !in Nodes(r) && node !in Nodes(l) && node !in Nodes(r)
      requires Links(l) && Links(r) && Tidy(l) && Tidy(r) && Nodes(l) !! Nodes(r) && Nodes(l) <= nodes && Nodes(r) <= nodes
      requires node.left == Root(l) && node.right == Root(r)
      modifies n, if l.Node? then {l.v} else {}, if r.Node? then {r.v} else {}
      ensures Links(l) && Links(r) && n.left == Root(l) && n.right == Root(r) && n.color == old(n.color)
      ensures (l.Node? ==> l.v.parent == n) && (r.Node? ==> r.v.parent == n)
    {
      assert l.Node? ==> l.v in Nodes(l);
      assert r.Node? ==> r.v in Nodes(r);
      hide Links, Tidy, Nodes;
      n.left := node.left;
      if node.left != null {
        Reparent(node.left, n, l);
      }
      assert Links(l) && Links(r);
      n.right := node.right;
      if node.right != null {
        Reparent(node.right, n, r);
      }
      assert Links(l) && Links(r);
    }

    lemma NewRoot(n: RbNode, t: Tree<RbNode>)
      requires t.Node? && Links(t.left) && Links(t.right) && Tidy(t)
      requires n.left == Root(t.left) && n.right == Root(t.right)
      requires (t.left.Node? ==> t.left.v.parent == n) && (t.right.Node? ==> t.right.v.parent == n)
      requires n !in Nodes(t.left) && n !in Nodes(t.right)
      ensures Links(Node(t.left, n, n.color, t.right)) && Tidy(Node(t.left, n, n.color, t.right))
      ensures Nodes(Node(t.left, n, n.color, t.right)) == Nodes(t) - {t.v} + {n}
    {
    }

    /* do_remove: unlinks a node; one with two children is replaced by its predecessor. */
    method DoRemove(node: RbNode, ghost c: Ctx<RbNode>, ghost t: Tree<RbNode>) returns (ghost t': Tree<RbNode>)
      requires Realises(c, t) && t.Node? && t.v == node
      modifies this, nodes
      ensures Realises(c, t') && nodes == old(nodes) - {node}
      ensures t' == Spliced(t) && Inorder(t') == Inorder(t.left) + Inorder(t.right)
      ensures node.parent == null && node.left == null && node.right == null && node.color == Black
      decreases if t.left.Node? && t.right.Node? then 1 else 0
    {
      hide Links, CtxLinks, Tidy, TidyCtx, Nodes, CtxNodes, CtxRoot, Realises;
      AdoptReady(c, t);
      SplicedOrder(t);
      if node.left != null && node.right != null {
        ghost var cl := Down(c, t, Left);
        Zoom(cl, t.left);
        var child;
        ghost var p, tc;
        child, p, tc := Rightmost(node.left, cl, t.left);
        Distinct(p, cl, tc, node);
        var _ := DoRemove(child, Append(p, cl), tc);
        ZoomOutTo(p, cl, tc.left);
        ghost var l := Plug(p, tc.left);
        Zoom(cl, l);
        LastDropped(p, tc);
        Adopt(node, child, c, Node(l, node, t.color, t.right));
        t' := Node(l, child, Black, t.right);
      } else {
        t' := Splice(node, c, t);
      }
    }

    /* The node found below another one is not that node. */
    lemma Distinct(p: Ctx<RbNode>, c: Ctx<RbNode>, t: Tree<RbNode>, n: RbNode)
      requires Realises(Append(p, c), t) && t.Node? && c.Up? && c.v == n
      ensures t.v != n && t.v in nodes && n in nodes
    {
      InAppend(p, c);
      assert t.v in Nodes(t);
    }

    lemma {:induction false} InAppend(p: Ctx<RbNode>, c: Ctx<RbNode>)
      requires c.Up?
      ensures c.v in CtxNodes(Append(p, c))
      decreases p
    {
      if p.Up? {
        InAppend(p.up, c);
      }
    }

    /* A node whose parent field is set has surroundings whose top node is that parent. */
    lemma ParentCtx(c: Ctx<RbNode>, t: Tree<RbNode>)
      requires Realises(c, t) && t.Node?
      ensures t.v.parent == CtxParent(c) && t.v in nodes && t.v.color == t.color
      ensures c.Up? ==> c.v.color == c.color && c.v in nodes
      ensures c.Top? ==> root == t.v
    {
    }

    /* rb_balance: repairs the colours upwards from a newly linked node. */
    method RbBalance(node0: RbNode, ghost c0: Ctx<RbNode>, ghost t0: Tree<RbNode>) returns (ghost tree: Tree<RbNode>)
      requires Realises(c0, t0) && t0.Node? && t0.v == node0 && BlackTop(c0)
      modifies this`root, nodes
      ensures tree == Balanced(c0, t0.(color := Red))
      ensures Realises(Top, tree) && tree.Node? && tree.color == Black
      ensures Inorder(tree) == Inorder(Plug(c0, t0))
      ensures Repairing(c0, t0.(color := Red)) ==> RedBlack(tree)
    {
      hide Links, CtxLinks, Tidy, TidyCtx, Nodes, CtxNodes, CtxRoot, Realises, Plug, Inorder, RedBlack, RedBlackCtx, Rotate;
      hide Balanced, BlackTop, Depth;
      var node := node0;
      ParentCtx(c0, t0);
      ghost var c, t := c0, t0.(color := Red);
      SameOrder(c0, t0, Red);
      BalancedOrder(c, t);
      Paint(node, Red, c0, t0);
      while node.parent != null && node.parent.color == Red
        invariant Realises(c, t) && t.Node? && t.v == node && t.color == Red && BlackTop(c)
        invariant Balanced(c, t) == Balanced(c0, t0.(color := Red))
        decreases Depth(c)
      {
        ParentCtx(c, t);
        BalancedStep(c, t);
        Relatives(c, t);
        var parent := node.parent;
        var grandparent := parent.parent;
        var dir := if grandparent.left == parent then Right else Left;
        var uncle := grandparent.Child(dir);
        if uncle != null && uncle.color == Red {
          StepRecolor(parent, uncle, grandparent, c, t);
          c, t := c.up.up, Recolored(c, t);
          node := grandparent;
          continue;
        }
        if parent.Child(dir) == node {
          StepInner(parent, dir, c, t);
          c, t := InnerCtx(c, t), InnerTree(c, t);
          ParentCtx(c, t);
          node := parent;
          parent := node.parent;
        }
        StepOuter(parent, grandparent, dir, c, t);
        c := OuterCtx(c);
      }
      ParentCtx(c, t);
      ZoomOut(c, t);
      tree := Plug(c, t);
      PlugIsNode(c, t);
      BalancedEnd(c, t);
      ParentCtx(Top, tree);
      Paint(root, Black, Top, tree);
      tree := tree.(color := Black);
    }
  }

  lemma BalancedStep(c: Ctx<RbNode>, t: Tree<RbNode>)
    requires t.Node? && t.color == Red && BlackTop(c) && c.Up? && c.color == Red
    ensures RedParent(c)
    ensures BlackTop(c.up.up) && Depth(c.up.up) < Depth(c)
    ensures BlackTop(OuterCtx(c)) && Depth(OuterCtx(c)) < Depth(c)
    ensures BlackTop(OuterCtx(InnerCtx(c, t))) && Depth(OuterCtx(InnerCtx(c, t))) < Depth(c)
    ensures
      if !IsBlack(c.up.sibling) then Balanced(c, t) == Balanced(c.up.up, Recolored(c, t))
      else if c.dir == c.up.dir then Balanced(c, t) == Balanced(OuterCtx(c), t)
      else Balanced(c, t) == Balanced(OuterCtx(InnerCtx(c, t)), InnerTree(c, t))
  {
    StepsUp(c, t);
  }

  lemma BalancedEnd(c: Ctx<RbNode>, t: Tree<RbNode>)
    requires t.Node? && t.color == Red && BlackTop(c) && (c.Up? ==> c.color == Black)
    ensures Balanced(c, t) == Blackened(Plug(c, t))
  {
  }

  lemma SameOrder(c: Ctx<RbNode>, t: Tree<RbNode>, color: Color)
    requires t.Node?
    ensures Inorder(Plug(c, t.(color := color))) == Inorder(Plug(c, t))
  {
    PlugInorder(c, t);
    PlugInorder(c, t.(color := color));
  }

  lemma {:induction false} PlugIsNode(c: Ctx<RbNode>, t: Tree<RbNode>)
    requires t.Node?
    ensures Plug(c, t).Node?
    decreases c
  {
    if c.Up? {
      PlugIsNode(c.up, Mk(c.dir, t, c.v, c.color, c.sibling));
    }
  }
}
