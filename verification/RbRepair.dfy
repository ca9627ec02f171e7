/**
 The repair loop of rb_remove (lib/rbtree.c) on trees as values: what its steps do to the
 surroundings of the node in focus, and exactly when it reads through a null pointer.
 */
module RbRepair {
  import opened Common
  import opened RbTree

  /* The children of the sibling, next to the hole and away from it. */
  function Near<V>(c: Ctx<V>): Tree<V>
    requires c.Up? && c.sibling.Node?
  {
    c.sibling.Child(c.dir)
  }

  function Far<V>(c: Ctx<V>): Tree<V>
    requires c.Up? && c.sibling.Node?
  {
    c.sibling.Child(c.dir.Flip())
  }

  /* The same tree seen from the sibling. */
  function Across<V>(c: Ctx<V>, t: Tree<V>): Ctx<V>
    requires c.Up?
  {
    Up(c.dir.Flip(), c.v, c.color, t, c.up)
  }

  /* A red sibling becomes black and takes the place of the parent, which becomes red. */
  function Lifted<V>(c: Ctx<V>): Ctx<V>
    requires c.Up? && c.sibling.Node?
  {
    Up(c.dir, c.v, Red, Near(c), Up(c.dir, c.sibling.v, Black, Far(c), c.up))
  }

  /* The sibling, red now, and its near child, black now; then the parent is turned away from
     the sibling, so that the node takes the parent's place. */
  function Swung<V>(c: Ctx<V>, t: Tree<V>): Tree<V>
    requires c.Up? && c.sibling.Node? && Near(c).Node? && t.Node?
  {
    var s := Mk(c.dir, Near(c).(color := Black), c.sibling.v, Red, Far(c));
    Rotate(Mk(c.dir, t, c.v, c.color, s), c.dir.Flip())
  }

  /* The last step: the sibling takes the parent's colour and place, the parent and the far
     child become black. */
  function Settled<V>(c: Ctx<V>, t: Tree<V>): Tree<V>
    requires c.Up? && c.sibling.Node? && Far(c).Node?
  {
    var s := Mk(c.dir, Near(c), c.sibling.v, c.color, Far(c).(color := Black));
    Rotate(Mk(c.dir, t, c.v, Black, s), c.dir)
  }

  /* After the parent was turned the wrong way, the sibling that is looked up next is the child
     of the grandparent on the side away from the hole: the uncle, or the node itself. */
  function SwungCtx<V>(c: Ctx<V>, t: Tree<V>): Ctx<V>
    requires c.Up? && c.sibling.Node? && Near(c).Node? && t.Node? && c.up.Up?
  {
    if c.up.dir == c.dir then c.up else Across(c.up, Swung(c, t))
  }

  function SwungTree<V>(c: Ctx<V>, t: Tree<V>): Tree<V>
    requires c.Up? && c.sibling.Node? && Near(c).Node? && t.Node? && c.up.Up?
  {
    if c.up.dir == c.dir then Swung(c, t) else c.up.sibling
  }

  // ------------------------------------------------------------------ order

  lemma AcrossPlug<V>(c: Ctx<V>, t: Tree<V>)
    requires c.Up?
    ensures Plug(Across(c, t), c.sibling) == Plug(c, t)
  {
    assert Mk(c.dir.Flip(), c.sibling, c.v, c.color, t) == Mk(c.dir, t, c.v, c.color, c.sibling);
  }

  lemma MkInorder<V>(d: Dir, a: Tree<V>, v: V, color: Color, b: Tree<V>)
    ensures Inorder(Mk(d, a, v, color, b)) == if d == Left then Inorder(a) + [v] + Inorder(b) else Inorder(b) + [v] + Inorder(a)
  {
  }

  /* Subtrees with the same order are interchangeable as far as order goes. */
  lemma PlugSame<V>(c: Ctx<V>, t: Tree<V>, t': Tree<V>)
    requires Inorder(t') == Inorder(t)
    ensures Inorder(Plug(c, t')) == Inorder(Plug(c, t))
  {
    PlugInorder(c, t);
    PlugInorder(c, t');
  }

  lemma LiftedOrder<V>(c: Ctx<V>, t: Tree<V>)
    requires c.Up? && c.sibling.Node?
    ensures Inorder(Plug(Lifted(c), t)) == Inorder(Plug(c, t))
    ensures BlackTop(c) ==> BlackTop(Lifted(c))
  {
    var s := c.sibling.(color := Black);
    var p, q := Mk(c.dir, t, c.v, Red, s), Mk(c.dir, t, c.v, c.color, c.sibling);
    LiftedPlug(c, t);
    RotateInorder(p, c.dir);
    MkInorder(c.dir, t, c.v, Red, s);
    MkInorder(c.dir, t, c.v, c.color, c.sibling);
    PlugSame(c.up, q, Rotate(p, c.dir));
  }

  lemma LiftedPlug<V>(c: Ctx<V>, t: Tree<V>)
    requires c.Up? && c.sibling.Node?
    ensures Plug(Lifted(c), t) == Plug(c.up, Rotate(Mk(c.dir, t, c.v, Red, c.sibling.(color := Black)), c.dir))
  {
    var inner := Mk(c.dir, t, c.v, Red, Near(c));
    assert inner == Mk(c.dir.Flip(), Near(c), c.v, Red, t);
    assert Rotate(Mk(c.dir, t, c.v, Red, c.sibling.(color := Black)), c.dir) == Mk(c.dir, inner, c.sibling.v, Black, Far(c));
    assert Plug(Lifted(c), t) == Plug(Lifted(c).up, inner);
  }

  lemma DarkenedOrder<V>(c: Ctx<V>, t: Tree<V>)
    requires c.Up? && c.sibling.Node?
    ensures Inorder(Plug(c.up, Darkened(c, t))) == Inorder(Plug(c, t))
  {
    PlugInorder(c.(sibling := c.sibling.(color := Red)), t);
    PlugInorder(c, t);
  }

  lemma SwungOrder<V>(c: Ctx<V>, t: Tree<V>)
    requires c.Up? && c.sibling.Node? && Near(c).Node? && t.Node?
    ensures Inorder(Plug(c.up, Swung(c, t))) == Inorder(Plug(c, t))
    ensures Swung(c, t).Node? && Swung(c, t).v == t.v && Swung(c, t).Child(c.dir.Flip()).Node?
  {
    var n := Near(c).(color := Black);
    var s := Mk(c.dir, n, c.sibling.v, Red, Far(c));
    assert Inorder(s) == Inorder(c.sibling) by {
      MkInorder(c.dir, n, c.sibling.v, Red, Far(c));
      MkInorder(c.dir, Near(c), c.sibling.v, c.sibling.color, Far(c));
    }
    var p, q := Mk(c.dir, t, c.v, c.color, s), Mk(c.dir, t, c.v, c.color, c.sibling);
    MkInorder(c.dir, t, c.v, c.color, s);
    MkInorder(c.dir, t, c.v, c.color, c.sibling);
    RotateInorder(p, c.dir.Flip());
    PlugSame(c.up, q, Swung(c, t));
  }

  lemma SettledOrder<V>(c: Ctx<V>, t: Tree<V>)
    requires c.Up? && c.sibling.Node? && Far(c).Node?
    ensures Inorder(Plug(c.up, Settled(c, t))) == Inorder(Plug(c, t))
    ensures Settled(c, t).Node?
  {
    var f := Far(c).(color := Black);
    var s := Mk(c.dir, Near(c), c.sibling.v, c.color, f);
    assert Inorder(s) == Inorder(c.sibling) by {
      MkInorder(c.dir, Near(c), c.sibling.v, c.color, f);
      MkInorder(c.dir, Near(c), c.sibling.v, c.sibling.color, Far(c));
    }
    var p, q := Mk(c.dir, t, c.v, Black, s), Mk(c.dir, t, c.v, c.color, c.sibling);
    MkInorder(c.dir, t, c.v, Black, s);
    MkInorder(c.dir, t, c.v, c.color, c.sibling);
    RotateInorder(p, c.dir);
    PlugSame(c.up, q, Settled(c, t));
  }

  lemma SwungView<V>(c: Ctx<V>, t: Tree<V>)
    requires c.Up? && c.sibling.Node? && Near(c).Node? && t.Node? && c.up.Up?
    ensures Inorder(Plug(SwungCtx(c, t), SwungTree(c, t))) == Inorder(Plug(c, t))
    ensures SwungCtx(c, t).dir == c.dir && SwungCtx(c, t).v == c.up.v
    ensures SwungCtx(c, t).sibling.Node? <==> (c.up.dir == c.dir ==> c.up.sibling.Node?)
    ensures SwungCtx(c, t).sibling.Node? ==> (Far(SwungCtx(c, t)).Node? <==> (c.up.dir == c.dir ==> Far(c.up).Node?))
  {
    SwungOrder(c, t);
    AcrossPlug(c.up, Swung(c, t));
  }

  // ------------------------------------------------------------------ when the loop faults

  function Size<V>(t: Tree<V>): nat {
    if t.Leaf? then 0 else Size(t.left) + 1 + Size(t.right)
  }

  /* The nodes around the hole: each iteration leaves fewer. */
  function Around<V>(c: Ctx<V>): nat {
    if c.Top? then 0 else 1 + Size(c.sibling) + Around(c.up)
  }

  lemma LiftedAround<V>(c: Ctx<V>)
    requires c.Up? && c.sibling.Node?
    ensures Around(Lifted(c)) == Around(c)
  {
    assert Around(Lifted(c)) == 1 + Size(Near(c)) + (1 + Size(Far(c)) + Around(c.up));
  }

  /* The loop, started at the hole of c, reads through no null pointer. */
  predicate Safe<V>(c: Ctx<V>)
    decreases Around(c), 1
  {
    if c.Top? || c.sibling.Leaf? then true
    else
      LiftedAround(c);
      if c.sibling.color == Red then Near(c).Node? && SafeBelow(Lifted(c)) else SafeBelow(c)
  }

  /* The part of an iteration after a red sibling has been lifted. */
  predicate SafeBelow<V>(c: Ctx<V>)
    requires c.Up? && c.sibling.Node?
    decreases Around(c), 0
  {
    if IsBlack(Near(c)) && IsBlack(Far(c)) then Safe(c.up)
    else IsBlack(Far(c)) ==> c.up.Up? && (c.up.dir == c.dir ==> c.up.sibling.Node? && Far(c.up).Node?)
  }

  // ------------------------------------------------------------------ what the loop makes of the tree

  /* The whole tree after the loop, started at the root of t. */
  function Repaired<V>(c: Ctx<V>, t: Tree<V>): Tree<V>
    requires Safe(c) && t.Node?
    decreases Around(c), 1
  {
    if c.Top? || c.sibling.Leaf? then Plug(c, Blackened(t))
    else
      LiftedAround(c);
      RepairedBelow(if c.sibling.color == Red then Lifted(c) else c, t)
  }

  function RepairedBelow<V>(c: Ctx<V>, t: Tree<V>): Tree<V>
    requires c.Up? && c.sibling.Node? && SafeBelow(c) && t.Node?
    decreases Around(c), 0
  {
    if IsBlack(Near(c)) && IsBlack(Far(c)) then Repaired(c.up, Darkened(c, t))
    else if IsBlack(Far(c)) then Concluded(SwungCtx(c, t), SwungTree(c, t))
    else Concluded(c, t)
  }

  /* The parent, when the sibling has become red. */
  function Darkened<V>(c: Ctx<V>, t: Tree<V>): Tree<V>
    requires c.Up? && c.sibling.Node?
  {
    Mk(c.dir, t, c.v, c.color, c.sibling.(color := Red))
  }

  function Concluded<V>(c: Ctx<V>, t: Tree<V>): Tree<V>
    requires c.Up? && c.sibling.Node? && Far(c).Node?
  {
    Blackened(Plug(c.up, Settled(c, t)))
  }

  lemma BlackPlug<V>(c: Ctx<V>, t: Tree<V>)
    requires BlackTop(c) && IsBlack(t)
    ensures IsBlack(Plug(c, t))
  {
    if c.Up? {
      PlugRootBlack(c, t);
    }
  }

  /* The loop keeps the order, and leaves a black root. */
  lemma {:induction false} RepairedOrder<V>(c: Ctx<V>, t: Tree<V>)
    requires Safe(c) && BlackTop(c) && t.Node?
    ensures Inorder(Repaired(c, t)) == Inorder(Plug(c, t)) && IsBlack(Repaired(c, t))
    decreases Around(c), 1
  {
    if c.Top? || c.sibling.Leaf? {
      BlackenedOrder(t);
      PlugSame(c, t, Blackened(t));
      BlackPlug(c, Blackened(t));
    } else {
      LiftedAround(c);
      LiftedOrder(c, t);
      RepairedBelowOrder(if c.sibling.color == Red then Lifted(c) else c, t);
    }
  }

  lemma {:induction false} RepairedBelowOrder<V>(c: Ctx<V>, t: Tree<V>)
    requires c.Up? && c.sibling.Node? && SafeBelow(c) && BlackTop(c) && t.Node?
    ensures Inorder(RepairedBelow(c, t)) == Inorder(Plug(c, t)) && IsBlack(RepairedBelow(c, t))
    decreases Around(c), 0
  {
    if IsBlack(Near(c)) && IsBlack(Far(c)) {
      DarkenedOrder(c, t);
      RepairedOrder(c.up, Darkened(c, t));
    } else if IsBlack(Far(c)) {
      SwungView(c, t);
      ConcludedOrder(SwungCtx(c, t), SwungTree(c, t));
    } else {
      ConcludedOrder(c, t);
    }
  }

  lemma ConcludedOrder<V>(c: Ctx<V>, t: Tree<V>)
    requires c.Up? && c.sibling.Node? && Far(c).Node?
    ensures Inorder(Concluded(c, t)) == Inorder(Plug(c, t)) && IsBlack(Concluded(c, t))
  {
    SettledOrder(c, t);
    BlackenedOrder(Plug(c.up, Settled(c, t)));
  }

  // ------------------------------------------------------------------ rb_remove

  /* The zipper at the node the repair starts from: the child that the removed node had, where
     do_remove has left it. */
  function StartCtx<V>(c: Ctx<V>, t: Tree<V>): Ctx<V>
    requires t.Node?
  {
    if LowStart(t) then Down(c, Spliced(t), Left) else c
  }

  function StartTree<V>(t: Tree<V>): Tree<V>
    requires t.Node?
  {
    if LowStart(t) then Spliced(t).left else Spliced(t)
  }

  predicate LowStart<V>(t: Tree<V>)
    requires t.Node?
  {
    t.left.Node? && t.right.Node? && t.left.right.Node?
  }

  /* rb_remove of the root of t reads through no null pointer. */
  predicate SafeRemove<V>(c: Ctx<V>, t: Tree<V>)
    requires t.Node?
  {
    StartTree(t).Leaf? || StartTree(t).color == Red || Safe(StartCtx(c, t))
  }

  /* The whole tree after rb_remove of the root of t. */
  function AfterRemove<V>(c: Ctx<V>, t: Tree<V>): Tree<V>
    requires t.Node? && SafeRemove(c, t)
  {
    if IsBlack(StartTree(t)) && StartTree(t).Node? then Repaired(StartCtx(c, t), StartTree(t))
    else Plug(StartCtx(c, t), Blackened(StartTree(t)))
  }

  lemma StartPlug<V>(c: Ctx<V>, t: Tree<V>)
    requires t.Node?
    ensures Plug(StartCtx(c, t), StartTree(t)) == Plug(c, Spliced(t))
    ensures BlackTop(c) && (c.Top? ==> t.color == Black) ==> BlackTop(StartCtx(c, t))
  {
    if LowStart(t) {
      DownOrder(c, Spliced(t), Left);
    }
  }

  /* Exactly the node leaves the order, and the root is black. */
  lemma AfterRemoveOrder<V>(c: Ctx<V>, t: Tree<V>)
    requires t.Node? && SafeRemove(c, t) && IsBlack(Plug(c, t))
    ensures Inorder(Plug(c, t)) == Before(c) + Inorder(t.left) + [t.v] + (Inorder(t.right) + After(c))
    ensures Inorder(AfterRemove(c, t)) == Before(c) + Inorder(t.left) + (Inorder(t.right) + After(c))
    ensures IsBlack(AfterRemove(c, t))
  {
    hide Inorder, Plug, Before, After, Spliced, Repaired, Safe, BlackTop;
    var cc, ct := StartCtx(c, t), StartTree(t);
    PlugBlackTop(c, t);
    PlugNode(c, t);
    SplicedOrder(t);
    PlugInorder(c, Spliced(t));
    StartPlug(c, t);
    if IsBlack(ct) && ct.Node? {
      RepairedOrder(cc, ct);
    } else {
      BlackenedOrder(ct);
      PlugSame(cc, ct, Blackened(ct));
      BlackPlug(cc, Blackened(ct));
    }
  }

  // ------------------------------------------------------------------ by position

  /* rb_remove of the node at position k of the tree reads through no null pointer. */
  predicate CanRemove<V>(t: Tree<V>, k: nat)
    requires k < |Inorder(t)|
  {
    var z := Spot(Top, t, k);
    SafeRemove(z.0, z.1)
  }

  /* The tree after rb_remove of the node at position k. */
  function RemovedAt<V>(t: Tree<V>, k: nat): Tree<V>
    requires k < |Inorder(t)| && CanRemove(t, k)
  {
    var z := Spot(Top, t, k);
    AfterRemove(z.0, z.1)
  }

  // ------------------------------------------------------------------ shapes

  /* Only the shape and the colours of a tree matter to rb_balance and rb_remove. */
  function Shape<V>(t: Tree<V>): Tree<()> {
    match t
    case Leaf => Leaf
    case Node(l, _, color, r) => Node(Shape(l), (), color, Shape(r))
  }

  function ShapeCtx<V>(c: Ctx<V>): Ctx<()> {
    match c
    case Top => Top
    case Up(d, _, color, s, up) => Up(d, (), color, Shape(s), ShapeCtx(up))
  }

  lemma ShapeSize<V>(t: Tree<V>)
    ensures |Inorder(Shape(t))| == |Inorder(t)|
  {
  }

  lemma {:induction false} ShapePlug<V>(c: Ctx<V>, t: Tree<V>)
    ensures Shape(Plug(c, t)) == Plug(ShapeCtx(c), Shape(t))
    decreases c
  {
    if c.Up? {
      ShapePlug(c.up, Mk(c.dir, t, c.v, c.color, c.sibling));
    }
  }

  lemma {:induction false} ShapeGap<V>(c: Ctx<V>, t: Tree<V>, k: nat)
    requires k <= |Inorder(t)|
    ensures k <= |Inorder(Shape(t))| && Gap(ShapeCtx(c), Shape(t), k) == ShapeCtx(Gap(c, t, k))
    decreases t
  {
    ShapeSize(t);
    if t.Node? {
      ShapeSize(t.left);
      if k <= |Inorder(t.left)| {
        ShapeGap(Down(c, t, Left), t.left, k);
      } else {
        ShapeGap(Down(c, t, Right), t.right, k - |Inorder(t.left)| - 1);
      }
    }
  }

  lemma {:induction false} ShapeSpot<V>(c: Ctx<V>, t: Tree<V>, k: nat)
    requires k < |Inorder(t)|
    ensures k < |Inorder(Shape(t))|
    ensures Spot(ShapeCtx(c), Shape(t), k) == (ShapeCtx(Spot(c, t, k).0), Shape(Spot(c, t, k).1))
    decreases t
  {
    ShapeSize(t);
    ShapeSize(t.left);
    var l := |Inorder(t.left)|;
    if k < l {
      ShapeSpot(Down(c, t, Left), t.left, k);
    } else if k > l {
      ShapeSpot(Down(c, t, Right), t.right, k - l - 1);
    }
  }

  lemma {:induction false} ShapeTop<V>(c: Ctx<V>)
    ensures BlackTop(ShapeCtx(c)) <==> BlackTop(c)
  {
    if c.Up? {
      ShapeTop(c.up);
    }
  }

  lemma {:induction false} ShapeBalanced<V>(c: Ctx<V>, t: Tree<V>)
    requires t.Node? && t.color == Red && BlackTop(c)
    ensures BlackTop(ShapeCtx(c)) && Balanced(ShapeCtx(c), Shape(t)) == Shape(Balanced(c, t))
    decreases Depth(c)
  {
    ShapeTop(c);
    if c.Top? || c.color == Black {
      ShapePlug(c, t);
      return;
    }
    StepsUp(c, t);
    if !IsBlack(c.up.sibling) {
      ShapeBalanced(c.up.up, Recolored(c, t));
    } else if c.dir == c.up.dir {
      ShapeBalanced(OuterCtx(c), t);
    } else {
      ShapeBalanced(OuterCtx(InnerCtx(c, t)), InnerTree(c, t));
    }
  }

  lemma ShapeInserted<V>(t: Tree<V>, k: nat, n: V)
    requires IsBlack(t) && k <= |Inorder(t)|
    ensures k <= |Inorder(Shape(t))| && InsertedAt(Shape(t), k, ()) == Shape(InsertedAt(t, k, n))
  {
    ShapeGap(Top, t, k);
    GapPlug(Top, t, k);
    PlugBlackTop(Gap(Top, t, k), Leaf);
    ShapeBalanced(Gap(Top, t, k), Node(Leaf, n, Red, Leaf));
  }

  lemma ShapeKin<V>(c: Ctx<V>)
    requires c.Up? && c.sibling.Node?
    ensures Near(ShapeCtx(c)) == Shape(Near(c)) && Far(ShapeCtx(c)) == Shape(Far(c))
    ensures Lifted(ShapeCtx(c)) == ShapeCtx(Lifted(c))
  {
  }

  lemma ShapeStart<V>(c: Ctx<V>, t: Tree<V>)
    requires t.Node?
    ensures StartTree(Shape(t)) == Shape(StartTree(t)) && StartCtx(ShapeCtx(c), Shape(t)) == ShapeCtx(StartCtx(c, t))
  {
    if t.left.Node? {
      ShapeDropLast(t.left);
      assert LastOf(Shape(t.left)) == ();
    }
  }

  lemma {:induction false} ShapeSafe<V>(c: Ctx<V>)
    ensures Safe(ShapeCtx(c)) <==> Safe(c)
    decreases Around(c), 1
  {
    if c.Up? && c.sibling.Node? {
      LiftedAround(c);
      LiftedAround(ShapeCtx(c));
      ShapeKin(c);
      if c.sibling.color == Black {
        ShapeSafeBelow(c);
      } else if Near(c).Node? {
        ShapeSafeBelow(Lifted(c));
      }
    }
  }

  lemma {:induction false} ShapeSafeBelow<V>(c: Ctx<V>)
    requires c.Up? && c.sibling.Node?
    ensures SafeBelow(ShapeCtx(c)) <==> SafeBelow(c)
    decreases Around(c), 0
  {
    ShapeSafe(c.up);
    ShapeKin(c);
    if c.up.Up? && c.up.sibling.Node? {
      ShapeKin(c.up);
    }
  }

  lemma {:induction false} ShapeDropLast<V>(t: Tree<V>)
    requires t.Node?
    ensures Shape(DropLast(t)) == DropLast(Shape(t))
  {
    if t.right.Node? {
      ShapeDropLast(t.right);
    }
  }

  /* Whether a removal faults depends on the shape only. */
  lemma ShapeCanRemove<V>(t: Tree<V>, k: nat)
    requires k < |Inorder(t)|
    ensures k < |Inorder(Shape(t))| && (CanRemove(Shape(t), k) <==> CanRemove(t, k))
  {
    ShapeSpot(Top, t, k);
    var z := Spot(Top, t, k);
    ShapeStart(z.0, z.1);
    ShapeSafe(StartCtx(z.0, z.1));
  }

  // ------------------------------------------------------------------ a tree that faults

  /* In a red-black tree the removal of a node that lacks a child never faults. */
  lemma OneChildSafe<V>(c: Ctx<V>, t: Tree<V>)
    requires RedBlack(t) && t.Node? && (t.left.Leaf? || t.right.Leaf?)
    ensures SafeRemove(c, t)
  {
  }

  function Tip(color: Color): Tree<()> {
    Node(Leaf, (), color, Leaf)
  }

  function Three(): Tree<()> {
    Node(Tip(Red), (), Black, Tip(Red))
  }

  function Five(): Tree<()> {
    Node(Node(Leaf, (), Black, Tip(Red)), (), Black, Node(Tip(Red), (), Black, Leaf))
  }

  /* Inserting addresses 0, 2, 4, 1 and 3 in this order gives a red-black tree, and removing
     its middle node reads through a null pointer. */
  lemma FiveFaults()
    ensures InsertedAt(Leaf, 0, ()) == Tip(Black)
    ensures |Inorder(Tip(Black))| == 1 && |Inorder(Three())| == 3 && |Inorder(Five())| == 5
    ensures InsertedAt(InsertedAt(Tip(Black), 1, ()), 2, ()) == Three()
    ensures InsertedAt(InsertedAt(Three(), 1, ()), 3, ()) == Five()
    ensures RedBlack(Five()) && !CanRemove(Five(), 2)
  {
  }
}
