/**
 Red-black trees as values: the tree a set of linked nodes forms, zippers into it, and what
 the steps of rb_balance and do_remove do to its order, colours and height.
 */
module RbTree {
  import opened Common

  datatype Color = Black | Red

  datatype Dir = Left | Right {
    function Flip(): Dir {
      if this == Left then Right else Left
    }
  }

  datatype Tree<V> = Leaf | Node(left: Tree<V>, v: V, color: Color, right: Tree<V>) {
    function Child(d: Dir): Tree<V>
      requires Node?
    {
      if d == Left then left else right
    }
  }

  /* A node seen from side d: a on that side, b on the other. */
  function Mk<V>(d: Dir, a: Tree<V>, v: V, color: Color, b: Tree<V>): Tree<V> {
    if d == Left then Node(a, v, color, b) else Node(b, v, color, a)
  }

  /* The surroundings of a subtree: the hole is child `dir` of node v. */
  datatype Ctx<V> = Top | Up(dir: Dir, v: V, color: Color, sibling: Tree<V>, up: Ctx<V>)

  function Plug<V>(c: Ctx<V>, t: Tree<V>): Tree<V> {
    match c
    case Top => t
    case Up(d, v, color, s, up) => Plug(up, Mk(d, t, v, color, s))
  }

  function Inorder<V>(t: Tree<V>): seq<V> {
    match t
    case Leaf => []
    case Node(l, v, _, r) => Inorder(l) + [v] + Inorder(r)
  }

  /* What comes before and after the hole, in order. */
  function Before<V>(c: Ctx<V>): seq<V> {
    match c
    case Top => []
    case Up(d, v, _, s, up) => if d == Left then Before(up) else Before(up) + Inorder(s) + [v]
  }

  function After<V>(c: Ctx<V>): seq<V> {
    match c
    case Top => []
    case Up(d, v, _, s, up) => if d == Left then [v] + Inorder(s) + After(up) else After(up)
  }

  lemma {:induction false} PlugInorder<V>(c: Ctx<V>, t: Tree<V>)
    ensures Inorder(Plug(c, t)) == Before(c) + Inorder(t) + After(c)
  {
    match c
    case Top =>
    case Up(d, v, color, s, up) =>
      PlugInorder(up, Mk(d, t, v, color, s));
  }

  lemma PlugLeaf<V>(c: Ctx<V>)
    ensures Inorder(Plug(c, Leaf)) == Before(c) + After(c)
  {
    PlugInorder(c, Leaf);
  }

  lemma PlugNode<V>(c: Ctx<V>, t: Tree<V>)
    requires t.Node?
    ensures Inorder(Plug(c, t)) == Before(c) + Inorder(t.left) + [t.v] + (Inorder(t.right) + After(c))
  {
    PlugInorder(c, t);
    assert Inorder(t) == Inorder(t.left) + [t.v] + Inorder(t.right);
    hide Inorder, Plug, Before, After;
    Regroup(Before(c), Inorder(t.left), [t.v], Inorder(t.right), After(c));
  }

  lemma Regroup<V>(a: seq<V>, b: seq<V>, m: seq<V>, c: seq<V>, d: seq<V>)
    ensures a + (b + m + c) + d == a + b + m + (c + d)
  {
  }

  // ------------------------------------------------------------------ colours and heights

  predicate IsBlack<V>(t: Tree<V>) {
    t.Node? ==> t.color == Black
  }

  function BlackHeight<V>(t: Tree<V>): nat {
    match t
    case Leaf => 0
    case Node(l, _, color, _) => BlackHeight(l) + if color == Black then 1 else 0
  }

  /* No red-red edge, and equal black heights everywhere. */
  predicate RedBlack<V>(t: Tree<V>) {
    match t
    case Leaf => true
    case Node(l, _, color, r) =>
      && RedBlack(l) && RedBlack(r)
      && BlackHeight(l) == BlackHeight(r)
      && (color == Red ==> IsBlack(l) && IsBlack(r))
  }

  /* Surroundings that are red-black around any black subtree of black height h. */
  predicate RedBlackCtx<V>(c: Ctx<V>, h: nat) {
    match c
    case Top => true
    case Up(_, _, color, s, up) =>
      && RedBlack(s) && BlackHeight(s) == h
      && (color == Red ==> IsBlack(s) && up.Up? && up.color == Black)
      && RedBlackCtx(up, h + if color == Black then 1 else 0)
  }

  /* The root of the surroundings, if there is one, is black. */
  predicate BlackTop<V>(c: Ctx<V>) {
    match c
    case Top => true
    case Up(_, _, color, _, up) => BlackTop(up) && (up.Top? ==> color == Black)
  }

  lemma {:induction false} RedBlackCtxTop<V>(c: Ctx<V>, h: nat)
    requires RedBlackCtx(c, h)
    ensures BlackTop(c)
  {
    match c
    case Top =>
    case Up(_, _, color, s, up) =>
      RedBlackCtxTop(up, h + if color == Black then 1 else 0);
  }

  lemma {:induction false} PlugBlackTop<V>(c: Ctx<V>, t: Tree<V>)
    requires IsBlack(Plug(c, t))
    ensures BlackTop(c) && (c.Top? ==> IsBlack(t))
    decreases c
  {
    if c.Up? {
      PlugBlackTop(c.up, Mk(c.dir, t, c.v, c.color, c.sibling));
    }
  }

  lemma {:induction false} PlugRedBlack<V>(c: Ctx<V>, t: Tree<V>)
    requires RedBlack(t) && RedBlackCtx(c, BlackHeight(t))
    requires IsBlack(t) || c.Top? || c.color == Black
    ensures RedBlack(Plug(c, t))
    ensures c.Up? ==> IsBlack(Plug(c, t))
  {
    match c
    case Top =>
    case Up(d, v, color, s, up) =>
      PlugRedBlack(up, Mk(d, t, v, color, s));
  }

  lemma {:induction false} UnplugRedBlack<V>(c: Ctx<V>, t: Tree<V>)
    requires RedBlack(Plug(c, t)) && IsBlack(Plug(c, t))
    ensures RedBlack(t) && RedBlackCtx(c, BlackHeight(t))
    ensures IsBlack(t) || (c.Up? && c.color == Black)
  {
    match c
    case Top =>
    case Up(d, v, color, s, up) =>
      UnplugRedBlack(up, Mk(d, t, v, color, s));
  }

  function Depth<V>(c: Ctx<V>): nat {
    if c.Up? then 1 + Depth(c.up) else 0
  }

  // ------------------------------------------------------------------ rotation

  /* rotate_node: the child on the side away from d takes the place of the root, which
     becomes its child d. */
  function Rotate<V>(t: Tree<V>, d: Dir): Tree<V>
    requires t.Node? && t.Child(d.Flip()).Node?
  {
    var e := d.Flip();
    var ch := t.Child(e);
    Mk(d, Mk(e, ch.Child(d), t.v, t.color, t.Child(d)), ch.v, ch.color, ch.Child(e))
  }

  lemma RotateInorder<V>(t: Tree<V>, d: Dir)
    requires t.Node? && t.Child(d.Flip()).Node?
    ensures Inorder(Rotate(t, d)) == Inorder(t)
  {
    var e := d.Flip();
    var ch := t.Child(e);
    var n := Mk(e, ch.Child(d), t.v, t.color, t.Child(d));
    assert Rotate(t, d) == Mk(d, n, ch.v, ch.color, ch.Child(e));
    if d == Left {
      assert Inorder(t) == Inorder(t.left) + [t.v] + (Inorder(ch.left) + [ch.v] + Inorder(ch.right));
    } else {
      assert Inorder(t) == (Inorder(ch.left) + [ch.v] + Inorder(ch.right)) + [t.v] + Inorder(t.right);
    }
  }

  // ------------------------------------------------------------------ the steps of rb_balance

  /* The node under repair and its surroundings: a red subtree, possibly below a red node. */
  predicate Repairing<V>(c: Ctx<V>, t: Tree<V>) {
    t.Node? && t.color == Red && RedBlack(t) && RedBlackCtx(c, BlackHeight(t))
  }

  /* The hole is below a red node that has a parent. */
  predicate RedParent<V>(c: Ctx<V>) {
    c.Up? && c.color == Red && c.up.Up?
  }

  /* The uncle is red: recolour and continue at the grandparent. */
  function Recolored<V>(c: Ctx<V>, t: Tree<V>): Tree<V>
    requires RedParent(c) && c.up.sibling.Node?
  {
    Mk(c.up.dir, Mk(c.dir, t, c.v, Black, c.sibling), c.up.v, Red, c.up.sibling.(color := Black))
  }

  lemma RecolorStep<V>(c: Ctx<V>, t: Tree<V>)
    requires RedParent(c) && c.up.sibling.Node?
    ensures Inorder(Plug(c.up.up, Recolored(c, t))) == Inorder(Plug(c, t))
  {
    var g := Mk(c.up.dir, Mk(c.dir, t, c.v, c.color, c.sibling), c.up.v, c.up.color, c.up.sibling);
    assert Plug(c, t) == Plug(c.up.up, g);
    PlugInorder(c.up.up, g);
    PlugInorder(c.up.up, Recolored(c, t));
    assert Inorder(c.up.sibling.(color := Black)) == Inorder(c.up.sibling);
    assert Inorder(Mk(c.dir, t, c.v, Black, c.sibling)) == Inorder(Mk(c.dir, t, c.v, c.color, c.sibling));
  }

  lemma RecolorRedBlack<V>(c: Ctx<V>, t: Tree<V>)
    requires RedParent(c) && c.up.sibling.Node? && c.up.sibling.color == Red && Repairing(c, t)
    ensures Repairing(c.up.up, Recolored(c, t))
  {
    var u := c.up.sibling;
    assert RedBlackCtx(c.up, BlackHeight(t)) && c.up.color == Black;
    assert RedBlackCtx(c.up.up, BlackHeight(t) + 1);
    var p := Mk(c.dir, t, c.v, Black, c.sibling);
    assert RedBlack(p) && BlackHeight(p) == BlackHeight(t) + 1;
    var u' := u.(color := Black);
    assert RedBlack(u') && BlackHeight(u') == BlackHeight(t) + 1;
    assert RedBlack(Mk(c.up.dir, p, c.up.v, Red, u'));
  }

  /* The node is an inner grandchild: after rotating the parent, the parent is under repair
     below the node. */
  function InnerCtx<V>(c: Ctx<V>, t: Tree<V>): Ctx<V>
    requires RedParent(c) && t.Node?
  {
    Up(c.up.dir, t.v, t.color, t.Child(c.up.dir.Flip()), c.up)
  }

  function InnerTree<V>(c: Ctx<V>, t: Tree<V>): Tree<V>
    requires RedParent(c) && t.Node?
  {
    Mk(c.up.dir, c.sibling, c.v, c.color, t.Child(c.up.dir))
  }

  lemma InnerStep<V>(c: Ctx<V>, t: Tree<V>)
    requires RedParent(c) && t.Node? && t.color == Red && c.dir == c.up.dir.Flip()
    ensures Rotate(Mk(c.dir, t, c.v, c.color, c.sibling), c.up.dir) ==
            Mk(c.up.dir, InnerTree(c, t), t.v, t.color, t.Child(c.up.dir.Flip()))
    ensures Inorder(Plug(InnerCtx(c, t), InnerTree(c, t))) == Inorder(Plug(c, t))
    ensures Repairing(c, t) && IsBlack(c.up.sibling) ==> Repairing2(InnerCtx(c, t), InnerTree(c, t))
  {
    var p := Mk(c.dir, t, c.v, c.color, c.sibling);
    RotateInorder(p, c.up.dir);
    PlugInorder(c.up, p);
    PlugInorder(c.up, Rotate(p, c.up.dir));
  }

  /* Red node below a red parent on the same side, with a black uncle: what the last
     rotation starts from. */
  predicate Repairing2<V>(c: Ctx<V>, t: Tree<V>) {
    && RedParent(c) && c.dir == c.up.dir && IsBlack(c.up.sibling)
    && t.Node? && t.color == Red && RedBlack(t)
    && RedBlack(c.sibling) && IsBlack(c.sibling) && BlackHeight(c.sibling) == BlackHeight(t)
    && RedBlackCtx(c.up, BlackHeight(t)) && c.up.color == Black
  }

  /* The node is an outer grandchild: parent and grandparent swap colours, and the
     grandparent is rotated below the parent. */
  function OuterCtx<V>(c: Ctx<V>): Ctx<V>
    requires RedParent(c)
  {
    Up(c.up.dir, c.v, Black, Mk(c.up.dir, c.sibling, c.up.v, Red, c.up.sibling), c.up.up)
  }

  lemma OuterStep<V>(c: Ctx<V>, t: Tree<V>)
    requires RedParent(c) && c.dir == c.up.dir && t.Node?
    ensures Rotate(Mk(c.up.dir, Mk(c.dir, t, c.v, Black, c.sibling), c.up.v, Red, c.up.sibling), c.up.dir.Flip()) ==
            Mk(c.up.dir, t, c.v, Black, OuterCtx(c).sibling)
    ensures Inorder(Plug(OuterCtx(c), t)) == Inorder(Plug(c, t))
    ensures Repairing2(c, t) ==> Repairing(OuterCtx(c), t)
  {
    var p := Mk(c.dir, t, c.v, Black, c.sibling);
    var g := Mk(c.up.dir, Mk(c.dir, t, c.v, c.color, c.sibling), c.up.v, c.up.color, c.up.sibling);
    var g' := Mk(c.up.dir, p, c.up.v, Red, c.up.sibling);
    assert Plug(c, t) == Plug(c.up.up, g);
    assert Inorder(p) == Inorder(Mk(c.dir, t, c.v, c.color, c.sibling));
    RotateInorder(g', c.up.dir.Flip());
    PlugInorder(c.up.up, g);
    PlugInorder(c.up.up, Rotate(g', c.up.dir.Flip()));
  }

  lemma OuterFromRepairing<V>(c: Ctx<V>, t: Tree<V>)
    requires Repairing(c, t) && RedParent(c) && c.dir == c.up.dir && IsBlack(c.up.sibling)
    ensures Repairing2(c, t)
  {
  }

  /* Blackening the root of the plugged tree changes nothing below a black top. */
  lemma {:induction false} PlugRootBlack<V>(c: Ctx<V>, t: Tree<V>)
    requires BlackTop(c) && c.Up?
    ensures Plug(c, t).Node? && Plug(c, t).color == Black
  {
    if c.up.Up? {
      PlugRootBlack(c.up, Mk(c.dir, t, c.v, c.color, c.sibling));
    }
  }

  function Blackened<V>(t: Tree<V>): Tree<V> {
    if t.Leaf? then t else t.(color := Black)
  }

  lemma BlackenedOrder<V>(t: Tree<V>)
    ensures Inorder(Blackened(t)) == Inorder(t) && IsBlack(Blackened(t))
    ensures RedBlack(t) ==> RedBlack(Blackened(t))
  {
  }

  /* Every step of rb_balance moves up. */
  lemma StepsUp<V>(c: Ctx<V>, t: Tree<V>)
    requires c.Up? && c.color == Red && BlackTop(c) && t.Node? && t.color == Red
    ensures RedParent(c)
    ensures BlackTop(c.up.up) && Depth(c.up.up) < Depth(c)
    ensures BlackTop(OuterCtx(c)) && Depth(OuterCtx(c)) < Depth(c)
    ensures BlackTop(OuterCtx(InnerCtx(c, t))) && Depth(OuterCtx(InnerCtx(c, t))) < Depth(c)
  {
    assert BlackTop(c.up) && Depth(c) == 1 + Depth(c.up) && Depth(c.up) == 1 + Depth(c.up.up);
  }

  /* The whole tree after rb_balance has been called for the red node at the root of t. */
  function Balanced<V>(c: Ctx<V>, t: Tree<V>): Tree<V>
    requires t.Node? && t.color == Red && BlackTop(c)
    decreases Depth(c)
  {
    if c.Top? || c.color == Black then Blackened(Plug(c, t))
    else
      StepsUp(c, t);
      if !IsBlack(c.up.sibling) then Balanced(c.up.up, Recolored(c, t))
      else if c.dir == c.up.dir then Balanced(OuterCtx(c), t)
      else Balanced(OuterCtx(InnerCtx(c, t)), InnerTree(c, t))
  }

  /* rb_balance keeps the order, leaves a black root, and mends a tree whose only fault is the
     red node. */
  lemma {:induction false} BalancedOrder<V>(c: Ctx<V>, t: Tree<V>)
    requires t.Node? && t.color == Red && BlackTop(c)
    ensures Inorder(Balanced(c, t)) == Inorder(Plug(c, t)) && IsBlack(Balanced(c, t))
    ensures Repairing(c, t) ==> RedBlack(Balanced(c, t))
    decreases Depth(c)
  {
    hide Inorder, Plug, RedBlack, RedBlackCtx, BlackTop, Depth;
    if c.Top? || c.color == Black {
      BlackenedOrder(Plug(c, t));
      if Repairing(c, t) {
        PlugRedBlack(c, t);
      }
      return;
    }
    StepsUp(c, t);
    if !IsBlack(c.up.sibling) {
      RecolorStep(c, t);
      if Repairing(c, t) {
        RecolorRedBlack(c, t);
      }
      BalancedOrder(c.up.up, Recolored(c, t));
    } else if c.dir == c.up.dir {
      if Repairing(c, t) {
        OuterFromRepairing(c, t);
      }
      OuterStep(c, t);
      BalancedOrder(OuterCtx(c), t);
    } else {
      InnerStep(c, t);
      var c', t' := InnerCtx(c, t), InnerTree(c, t);
      OuterStep(c', t');
      BalancedOrder(OuterCtx(c'), t');
    }
  }

  // ------------------------------------------------------------------ depth of a descent

  lemma {:induction false} Pow2Monotone(j: nat, k: nat)
    requires j <= k
    ensures Pow2(j) <= Pow2(k)
    decreases k
  {
    if j < k {
      Pow2Monotone(j, k - 1);
    }
  }

  lemma {:induction false} SizeFromBlackHeight<V>(t: Tree<V>)
    requires RedBlack(t)
    ensures Pow2(BlackHeight(t)) <= |Inorder(t)| + 1
  {
    if t.Node? {
      SizeFromBlackHeight(t.left);
      SizeFromBlackHeight(t.right);
    }
  }

  function Blacks<V>(c: Ctx<V>): nat {
    match c
    case Top => 0
    case Up(_, _, color, _, up) => Blacks(up) + if color == Black then 1 else 0
  }

  lemma {:induction false} BlackHeightOfPlug<V>(c: Ctx<V>, t: Tree<V>)
    requires RedBlackCtx(c, BlackHeight(t))
    ensures BlackHeight(Plug(c, t)) == BlackHeight(t) + Blacks(c)
    decreases c
  {
    if c.Up? {
      BlackHeightOfPlug(c.up, Mk(c.dir, t, c.v, c.color, c.sibling));
    }
  }

  /* At least every other node on a path is black. */
  lemma {:induction false} HalfBlack<V>(c: Ctx<V>, h: nat)
    requires RedBlackCtx(c, h)
    ensures Depth(c) <= 2 * Blacks(c) - if c.Up? && c.color == Black then 1 else 0
    decreases c
  {
    if c.Up? {
      HalfBlack(c.up, h + if c.color == Black then 1 else 0);
    }
  }

  /* A path of length Depth(c) in a red-black tree of n nodes: Depth(c) <= 2 * log2(n + 1). */
  lemma DepthBound<V>(c: Ctx<V>, t: Tree<V>)
    requires RedBlack(Plug(c, t)) && IsBlack(Plug(c, t))
    ensures Pow2((Depth(c) + 1) / 2) <= |Inorder(Plug(c, t))| + 1
  {
    UnplugRedBlack(c, t);
    BlackHeightOfPlug(c, t);
    HalfBlack(c, BlackHeight(t));
    SizeFromBlackHeight(Plug(c, t));
    Pow2Monotone((Depth(c) + 1) / 2, BlackHeight(Plug(c, t)));
  }

  /* Going from a node to its child d. */
  function Down<V>(c: Ctx<V>, t: Tree<V>, d: Dir): Ctx<V>
    requires t.Node?
  {
    Up(d, t.v, t.color, t.Child(d.Flip()), c)
  }

  lemma DownOrder<V>(c: Ctx<V>, t: Tree<V>, d: Dir)
    requires t.Node?
    ensures Plug(Down(c, t, d), t.Child(d)) == Plug(c, t)
    ensures Depth(Down(c, t, d)) == Depth(c) + 1
    ensures d == Left ==> Before(Down(c, t, d)) == Before(c) && After(Down(c, t, d)) == [t.v] + Inorder(t.right) + After(c)
    ensures d == Right ==> Before(Down(c, t, d)) == Before(c) + Inorder(t.left) + [t.v] && After(Down(c, t, d)) == After(c)
  {
  }

  // ------------------------------------------------------------------ paths inside a subtree

  /* The surroundings p of a place inside a subtree whose own surroundings are c. */
  function Append<V>(p: Ctx<V>, c: Ctx<V>): Ctx<V> {
    match p
    case Top => c
    case Up(d, v, color, s, up) => Up(d, v, color, s, Append(up, c))
  }

  /* p goes right at every step. */
  predicate AllRight<V>(p: Ctx<V>) {
    p.Up? ==> p.dir == Right && AllRight(p.up)
  }

  function LastOf<V>(t: Tree<V>): V
    requires t.Node?
  {
    if t.right.Leaf? then t.v else LastOf(t.right)
  }

  function DropLast<V>(t: Tree<V>): Tree<V>
    requires t.Node?
  {
    if t.right.Leaf? then t.left else t.(right := DropLast(t.right))
  }

  /* What do_remove leaves of t: its only child, or its predecessor, now black, in its place. */
  function Spliced<V>(t: Tree<V>): Tree<V>
    requires t.Node?
  {
    if t.left.Node? && t.right.Node? then Node(DropLast(t.left), LastOf(t.left), Black, t.right)
    else if t.left.Node? then t.left
    else t.right
  }

  lemma {:induction false} LastDropped<V>(p: Ctx<V>, t: Tree<V>)
    requires AllRight(p) && t.Node? && t.right == Leaf
    ensures Plug(p, t).Node? && LastOf(Plug(p, t)) == t.v && DropLast(Plug(p, t)) == Plug(p, t.left)
  {
    DropIn(p, t);
  }

  lemma {:induction false} DropIn<V>(p: Ctx<V>, t: Tree<V>)
    requires AllRight(p) && t.Node?
    ensures Plug(p, t).Node? && LastOf(Plug(p, t)) == LastOf(t) && DropLast(Plug(p, t)) == Plug(p, DropLast(t))
    decreases p
  {
    if p.Up? {
      DropIn(p.up, Mk(p.dir, t, p.v, p.color, p.sibling));
    }
  }

  lemma {:induction false} DropLastOrder<V>(t: Tree<V>)
    requires t.Node?
    ensures Inorder(DropLast(t)) + [LastOf(t)] == Inorder(t)
  {
    if t.right.Node? {
      DropLastOrder(t.right);
    }
  }

  lemma SplicedOrder<V>(t: Tree<V>)
    requires t.Node?
    ensures Inorder(Spliced(t)) == Inorder(t.left) + Inorder(t.right)
  {
    if t.left.Node? && t.right.Node? {
      DropLastOrder(t.left);
    }
  }

  /* The place of the node at position k of the order. */
  function Spot<V>(c: Ctx<V>, t: Tree<V>, k: nat): (r: (Ctx<V>, Tree<V>))
    requires k < |Inorder(t)|
    ensures r.1.Node? && r.1.v == Inorder(t)[k]
    decreases t
  {
    var l := |Inorder(t.left)|;
    if k == l then (c, t)
    else if k < l then Spot(Down(c, t, Left), t.left, k)
    else Spot(Down(c, t, Right), t.right, k - l - 1)
  }

  lemma {:induction false} SpotPlug<V>(c: Ctx<V>, t: Tree<V>, k: nat)
    requires k < |Inorder(t)|
    ensures Plug(Spot(c, t, k).0, Spot(c, t, k).1) == Plug(c, t)
    decreases t
  {
    var l := |Inorder(t.left)|;
    if k < l {
      SpotPlug(Down(c, t, Left), t.left, k);
    } else if k > l {
      SpotPlug(Down(c, t, Right), t.right, k - l - 1);
    }
  }

  // ------------------------------------------------------------------ insertion by position

  /* The surroundings of the empty subtree before position k of the order of t. */
  function Gap<V>(c: Ctx<V>, t: Tree<V>, k: nat): Ctx<V>
    requires k <= |Inorder(t)|
    decreases t
  {
    if t.Leaf? then c
    else if k <= |Inorder(t.left)| then Gap(Down(c, t, Left), t.left, k)
    else Gap(Down(c, t, Right), t.right, k - |Inorder(t.left)| - 1)
  }

  lemma {:induction false} GapPlug<V>(c: Ctx<V>, t: Tree<V>, k: nat)
    requires k <= |Inorder(t)|
    ensures Plug(Gap(c, t, k), Leaf) == Plug(c, t)
    decreases t
  {
    if t.Node? {
      if k <= |Inorder(t.left)| {
        GapPlug(Down(c, t, Left), t.left, k);
      } else {
        GapPlug(Down(c, t, Right), t.right, k - |Inorder(t.left)| - 1);
      }
    }
  }

  /* A position has one place in the tree, whichever way it was found. */
  lemma {:induction false} GapUnique<V>(c: Ctx<V>, t: Tree<V>, k: nat)
    requires k <= |Inorder(t)|
    ensures |Before(c)| + k <= |Inorder(Plug(c, t))| && Gap(Top, Plug(c, t), |Before(c)| + k) == Gap(c, t, k)
    decreases c
  {
    if c.Up? {
      var p := Mk(c.dir, t, c.v, c.color, c.sibling);
      GapUnique(c.up, p, if c.dir == Left then k else |Inorder(c.sibling)| + 1 + k);
    }
  }

  /* The tree after a node was linked in at position k and rb_balance called for it. */
  function InsertedAt<V>(t: Tree<V>, k: nat, n: V): Tree<V>
    requires IsBlack(t) && k <= |Inorder(t)|
  {
    GapPlug(Top, t, k);
    PlugBlackTop(Gap(Top, t, k), Leaf);
    Balanced(Gap(Top, t, k), Node(Leaf, n, Red, Leaf))
  }

  lemma {:induction false} GapBefore<V>(c: Ctx<V>, t: Tree<V>, k: nat)
    requires k <= |Inorder(t)|
    ensures |Before(Gap(c, t, k))| == |Before(c)| + k
    decreases t
  {
    if t.Node? {
      if k <= |Inorder(t.left)| {
        GapBefore(Down(c, t, Left), t.left, k);
      } else {
        GapBefore(Down(c, t, Right), t.right, k - |Inorder(t.left)| - 1);
      }
    }
  }

  /* The node is at its position, the root is black, and a red-black tree stays one. */
  lemma InsertedOrder<V>(t: Tree<V>, k: nat, n: V)
    requires IsBlack(t) && k <= |Inorder(t)|
    ensures Inorder(InsertedAt(t, k, n)) == Inorder(t)[..k] + [n] + Inorder(t)[k..] && IsBlack(InsertedAt(t, k, n))
    ensures RedBlack(t) ==> RedBlack(InsertedAt(t, k, n))
  {
    hide Inorder, RedBlack, Before, After, Balanced;
    var c, l := Gap(Top, t, k), Node(Leaf, n, Red, Leaf);
    GapPlug(Top, t, k);
    GapBefore(Top, t, k);
    PlugLeaf(c);
    PlugNode(c, l);
    PlugBlackTop(c, Leaf);
    BalancedOrder(c, l);
    NoLeaves<V>();
    if RedBlack(t) {
      UnplugRedBlack(c, Leaf);
      NewRedBlack(c, n);
    }
  }

  lemma NoLeaves<V>()
    ensures Inorder<V>(Leaf) == [] && Before<V>(Top) == []
  {
  }

  lemma NewRedBlack<V>(c: Ctx<V>, n: V)
    requires RedBlackCtx(c, BlackHeight<V>(Leaf))
    ensures Repairing(c, Node(Leaf, n, Red, Leaf))
  {
  }

  lemma InsertedHere<V>(c: Ctx<V>, n: V)
    requires IsBlack(Plug(c, Leaf))
    ensures BlackTop(c) && |Before(c)| <= |Inorder(Plug(c, Leaf))|
    ensures InsertedAt(Plug(c, Leaf), |Before(c)|, n) == Balanced(c, Node(Leaf, n, Red, Leaf))
  {
    PlugBlackTop(c, Leaf);
    GapUnique(c, Leaf, 0);
    assert Gap(c, Leaf, 0) == c;
    hide Gap, Balanced, Inorder, Plug, Before;
  }
}
