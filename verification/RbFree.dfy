/**
 Taking a red-black tree apart from its first node on, as free_vmas (kernel/vma/remove.c) does
 with rb_remove: exactly when it reads through a null pointer, and why trees that were built in
 ascending order are safe.
 */
module RbFree {
  import opened Common
  import opened RbTree
  import opened RbRepair

  // ------------------------------------------------------------------ the condition

  /* One node leaves, and the root stays black. */
  lemma RemovedAtSize<V>(t: Tree<V>, k: nat)
    requires IsBlack(t) && k < |Inorder(t)| && CanRemove(t, k)
    ensures IsBlack(RemovedAt(t, k)) && |Inorder(RemovedAt(t, k))| == |Inorder(t)| - 1
  {
    hide SafeRemove, AfterRemove, Inorder, Plug, Before, After, Spot;
    SpotPlug(Top, t, k);
    PlugTop(t);
    var z := Spot(Top, t, k);
    AfterRemoveOrder(z.0, z.1);
  }

  lemma PlugTop<V>(t: Tree<V>)
    ensures Plug(Top, t) == t
  {
  }

  /* Removing the first node until none is left reads through no null pointer. */
  predicate CanFree<V>(t: Tree<V>)
    requires IsBlack(t)
    decreases |Inorder(t)|
  {
    t.Leaf? || (CanRemove(t, 0) && (RemovedAtSize(t, 0); CanFree(RemovedAt(t, 0))))
  }

  // ------------------------------------------------------------------ it depends on the shape only

  lemma ShapeSettled<V>(c: Ctx<V>, t: Tree<V>)
    requires c.Up? && c.sibling.Node? && Far(c).Node?
    ensures Far(ShapeCtx(c)).Node? && Settled(ShapeCtx(c), Shape(t)) == Shape(Settled(c, t))
  {
    ShapeKin(c);
    ShapeBlackened(Far(c));
  }

  lemma ShapeRotate<V>(t: Tree<V>, d: Dir)
    requires t.Node? && t.Child(d.Flip()).Node?
    ensures Shape(t).Child(d.Flip()).Node? && Rotate(Shape(t), d) == Shape(Rotate(t, d))
  {
  }

  lemma ShapeSwung<V>(c: Ctx<V>, t: Tree<V>)
    requires c.Up? && c.sibling.Node? && Near(c).Node? && t.Node? && c.up.Up?
    ensures Near(ShapeCtx(c)).Node? && ShapeCtx(c).up.Up?
    ensures SwungCtx(ShapeCtx(c), Shape(t)) == ShapeCtx(SwungCtx(c, t))
    ensures SwungTree(ShapeCtx(c), Shape(t)) == Shape(SwungTree(c, t))
  {
    ShapeKin(c);
    assert ShapeCtx(c).up == ShapeCtx(c.up);
    var s := Mk(c.dir, Near(c).(color := Black), c.sibling.v, Red, Far(c));
    ShapeBlackened(Near(c));
    assert Shape(s) == Mk(c.dir, Near(ShapeCtx(c)).(color := Black), (), Red, Far(ShapeCtx(c)));
    ShapeRotate(Mk(c.dir, t, c.v, c.color, s), c.dir.Flip());
    assert Swung(ShapeCtx(c), Shape(t)) == Shape(Swung(c, t));
  }

  lemma ShapeConcluded<V>(c: Ctx<V>, t: Tree<V>)
    requires c.Up? && c.sibling.Node? && Far(c).Node?
    ensures Far(ShapeCtx(c)).Node? && Concluded(ShapeCtx(c), Shape(t)) == Shape(Concluded(c, t))
  {
    ShapeSettled(c, t);
    ShapePlug(c.up, Settled(c, t));
    hide Plug, Settled, Rotate;
  }

  lemma ShapeBlackened<V>(t: Tree<V>)
    ensures Blackened(Shape(t)) == Shape(Blackened(t))
  {
  }

  lemma {:induction false} ShapeRepaired<V>(c: Ctx<V>, t: Tree<V>)
    requires Safe(c) && t.Node?
    ensures Safe(ShapeCtx(c)) && Repaired(ShapeCtx(c), Shape(t)) == Shape(Repaired(c, t))
    decreases Around(c), 1
  {
    ShapeSafe(c);
    if c.Top? || c.sibling.Leaf? {
      ShapeBlackened(t);
      ShapePlug(c, Blackened(t));
    } else {
      LiftedAround(c);
      LiftedAround(ShapeCtx(c));
      ShapeKin(c);
      ShapeRepairedBelow(if c.sibling.color == Red then Lifted(c) else c, t);
    }
  }

  lemma {:induction false} ShapeRepairedBelow<V>(c: Ctx<V>, t: Tree<V>)
    requires c.Up? && c.sibling.Node? && SafeBelow(c) && t.Node?
    ensures SafeBelow(ShapeCtx(c)) && RepairedBelow(ShapeCtx(c), Shape(t)) == Shape(RepairedBelow(c, t))
    decreases Around(c), 0
  {
    ShapeSafeBelow(c);
    ShapeKin(c);
    if IsBlack(Near(c)) && IsBlack(Far(c)) {
      assert Darkened(ShapeCtx(c), Shape(t)) == Shape(Darkened(c, t));
      ShapeRepaired(c.up, Darkened(c, t));
    } else if IsBlack(Far(c)) {
      ShapeSwung(c, t);
      SwungView(c, t);
      ShapeConcluded(SwungCtx(c, t), SwungTree(c, t));
    } else {
      ShapeConcluded(c, t);
    }
  }

  lemma ShapeAfterRemove<V>(c: Ctx<V>, t: Tree<V>)
    requires t.Node? && SafeRemove(c, t)
    ensures SafeRemove(ShapeCtx(c), Shape(t)) && AfterRemove(ShapeCtx(c), Shape(t)) == Shape(AfterRemove(c, t))
  {
    hide Repaired, Safe, Plug, StartTree, StartCtx;
    ShapeStart(c, t);
    var cc, ct := StartCtx(c, t), StartTree(t);
    ShapeSafe(cc);
    if IsBlack(ct) && ct.Node? {
      ShapeRepaired(cc, ct);
    } else {
      ShapeBlackened(ct);
      ShapePlug(cc, Blackened(ct));
    }
  }

  lemma ShapeRemovedAt<V>(t: Tree<V>, k: nat)
    requires k < |Inorder(t)| && CanRemove(t, k)
    ensures k < |Inorder(Shape(t))| && CanRemove(Shape(t), k) && RemovedAt(Shape(t), k) == Shape(RemovedAt(t, k))
  {
    hide SafeRemove, AfterRemove, Spot;
    ShapeCanRemove(t, k);
    ShapeSpot(Top, t, k);
    var z := Spot(Top, t, k);
    ShapeAfterRemove(z.0, z.1);
  }

  lemma ShapeRedBlack<V>(t: Tree<V>)
    ensures BlackHeight(Shape(t)) == BlackHeight(t) && (IsBlack(Shape(t)) <==> IsBlack(t)) && (RedBlack(Shape(t)) <==> RedBlack(t))
  {
  }

  /* Whether a tree can be taken apart depends on its shape and colours only. */
  lemma {:induction false} ShapeCanFree<V>(t: Tree<V>)
    requires IsBlack(t)
    ensures IsBlack(Shape(t)) && (CanFree(Shape(t)) <==> CanFree(t))
    decreases |Inorder(t)|
  {
    if t.Node? {
      ShapeCanRemove(t, 0);
      if CanRemove(t, 0) {
        RemovedAtSize(t, 0);
        ShapeRemovedAt(t, 0);
        RemovedAtSize(Shape(t), 0);
        hide CanRemove, RemovedAt;
        ShapeCanFree(RemovedAt(t, 0));
      }
    }
  }

  // ------------------------------------------------------------------ rising trees

  /* Nowhere is only the left child red. */
  predicate Lean<V>(t: Tree<V>) {
    t.Leaf? || (Lean(t.left) && Lean(t.right) && (IsBlack(t.right) ==> IsBlack(t.left)))
  }

  /* The right subtrees along the left edge are red-black and lean, and their black heights do
     not fall on the way up to h. */
  predicate Rising<V>(t: Tree<V>, h: nat) {
    t.Leaf? || (Side(t.right, h) && Rising(t.left, BlackHeight(t.right)))
  }

  predicate Side<V>(t: Tree<V>, h: nat) {
    RedBlack(t) && Lean(t) && BlackHeight(t) <= h
  }

  /* Rising on from a hole on the left edge, from h. */
  predicate RisingCtx<V>(c: Ctx<V>, h: nat) {
    c.Top? || (c.dir == Left && h <= BlackHeight(c.sibling) && Side(c.sibling, BlackHeight(c.sibling)) && RisingCtx(c.up, BlackHeight(c.sibling)))
  }

  predicate Rises<V>(t: Tree<V>) {
    t.Leaf? || Rising(t, BlackHeight(t.right))
  }

  lemma RisesFrom<V>(t: Tree<V>, h: nat)
    requires Rising(t, h)
    ensures Rises(t) && Rises(Blackened(t))
  {
  }

  lemma {:induction false} RisingPlug<V>(c: Ctx<V>, t: Tree<V>, h: nat)
    requires Rising(t, h) && RisingCtx(c, h)
    ensures Rises(Plug(c, t)) && Rises(Blackened(Plug(c, t)))
    decreases c
  {
    if c.Top? {
      RisesFrom(t, h);
    } else {
      RisingPlug(c.up, Mk(c.dir, t, c.v, c.color, c.sibling), BlackHeight(c.sibling));
    }
  }

  /* A lean red-black tree rises to its own black height. */
  lemma {:induction false} RedBlackRising<V>(t: Tree<V>)
    requires RedBlack(t) && Lean(t)
    ensures Rising(t, BlackHeight(t)) && Rises(t)
    ensures t.Node? && t.color == Black ==> BlackHeight(t) > 0 && Rising(t, BlackHeight(t) - 1)
    ensures Rising(Blackened(t), BlackHeight(t))
  {
    if t.Node? {
      RedBlackRising(t.left);
    }
  }

  /* Started from a black node no higher than what is around it, the loop is safe, and what
     it makes is rising again. */
  lemma {:induction false} RepairedRises<V>(c: Ctx<V>, t: Tree<V>, h: nat)
    requires t.Node? && h > 0 && RisingCtx(c, h) && Rising(t, h - 1)
    ensures Safe(c) && Rises(Repaired(c, t))
    decreases Around(c), 1
  {
    if c.Top? {
      RisesFrom(t, h - 1);
    } else {
      LiftedAround(c);
      if c.sibling.color == Red {
        LiftedRising(c, h);
        RepairedBelowRises(Lifted(c), t, h);
      } else {
        RepairedBelowRises(c, t, h);
      }
    }
  }

  lemma LiftedRising<V>(c: Ctx<V>, h: nat)
    requires h > 0 && RisingCtx(c, h) && c.Up? && c.sibling.Node? && c.sibling.color == Red
    ensures Near(c).Node? && Near(c).color == Black && RisingCtx(Lifted(c), h)
  {
  }

  lemma {:induction false} RepairedBelowRises<V>(c: Ctx<V>, t: Tree<V>, h: nat)
    requires t.Node? && h > 0 && RisingCtx(c, h) && Rising(t, h - 1) && c.Up? && c.sibling.Node? && c.sibling.color == Black
    ensures SafeBelow(c) && Rises(RepairedBelow(c, t))
    decreases Around(c), 0
  {
    var b := BlackHeight(c.sibling);
    if IsBlack(Near(c)) && IsBlack(Far(c)) {
      RepairedRises(c.up, Darkened(c, t), b);
    } else {
      SettledRises(c, t, h);
      RisingPlug(c.up, Settled(c, t), b);
    }
  }

  lemma SettledRises<V>(c: Ctx<V>, t: Tree<V>, h: nat)
    requires h > 0 && RisingCtx(c, h) && Rising(t, h - 1) && c.Up? && c.sibling.Node? && c.sibling.color == Black && !IsBlack(Far(c))
    ensures Rising(Settled(c, t), BlackHeight(c.sibling))
  {
    var s, f := c.sibling, Blackened(Far(c));
    assert Near(c) == s.left && Far(c) == s.right && RedBlack(s.left) && RedBlack(s.right);
    assert BlackHeight(s.left) == BlackHeight(s.right) == BlackHeight(s) - 1 && Lean(s.left) && Lean(s.right);
    assert Settled(c, t) == Node(Node(t, c.v, Black, Near(c)), c.sibling.v, c.color, f);
    assert Side(f, BlackHeight(c.sibling)) && Side(Near(c), BlackHeight(f));
    RisingMore(t, h - 1, BlackHeight(Near(c)));
  }

  lemma RisingMore<V>(t: Tree<V>, h: nat, h': nat)
    requires Rising(t, h) && h <= h'
    ensures Rising(t, h')
  {
  }

  /* The first node hangs at the lower end of the left edge. */
  lemma {:induction false} FirstSpot<V>(c: Ctx<V>, t: Tree<V>, h: nat)
    requires RisingCtx(c, h) && Rising(t, h) && t.Node?
    ensures |Inorder(t)| > 0
    ensures var z := Spot(c, t, 0);
      z.1.left.Leaf? && Side(z.1.right, BlackHeight(z.1.right)) && RisingCtx(z.0, BlackHeight(z.1.right))
    decreases t
  {
    if t.left.Node? {
      FirstSpot(Down(c, t, Left), t.left, BlackHeight(t.right));
    }
  }

  lemma FirstRemoved<V>(c: Ctx<V>, t: Tree<V>)
    requires t.Node? && t.left.Leaf? && Side(t.right, BlackHeight(t.right)) && RisingCtx(c, BlackHeight(t.right))
    ensures SafeRemove(c, t) && Rises(AfterRemove(c, t))
  {
    var w, h := t.right, BlackHeight(t.right);
    RedBlackRising(w);
    if w.Node? && w.color == Black {
      RepairedRises(c, w, h);
    } else {
      RisingPlug(c, Blackened(w), h);
    }
  }

  /* A rising tree can be taken apart. */
  lemma {:induction false} RisesFree<V>(t: Tree<V>)
    requires IsBlack(t) && Rises(t)
    ensures CanFree(t)
    decreases |Inorder(t)|
  {
    if t.Node? {
      FirstSpot(Top, t, BlackHeight(t.right));
      var z := Spot(Top, t, 0);
      FirstRemoved(z.0, z.1);
      hide Spot, SafeRemove, AfterRemove, Rises;
      RemovedAtSize(t, 0);
      RisesFree(RemovedAt(t, 0));
    }
  }

  lemma LeanFree<V>(t: Tree<V>)
    requires RedBlack(t) && IsBlack(t) && Lean(t)
    ensures CanFree(t)
  {
    RedBlackRising(t);
    RisesFree(t);
  }

  // ------------------------------------------------------------------ ascending insertion

  /* A hole on the right edge of a lean tree, filled with a subtree whose root is red or not. */
  predicate LeanCtx<V>(c: Ctx<V>, red: bool) {
    c.Top? || (c.dir == Right && Lean(c.sibling) && (!IsBlack(c.sibling) ==> red) && LeanCtx(c.up, c.color == Red))
  }

  lemma {:induction false} LeanPlug<V>(c: Ctx<V>, t: Tree<V>)
    requires Lean(t) && LeanCtx(c, !IsBlack(t))
    ensures Lean(Plug(c, t)) && Lean(Blackened(Plug(c, t)))
    decreases c
  {
    if c.Up? {
      LeanPlug(c.up, Mk(c.dir, t, c.v, c.color, c.sibling));
    }
  }

  lemma {:induction false} LastGap<V>(c: Ctx<V>, t: Tree<V>)
    requires Lean(t) && LeanCtx(c, !IsBlack(t))
    ensures LeanCtx(Gap(c, t, |Inorder(t)|), false)
    decreases t
  {
    if t.Node? {
      LastGap(Down(c, t, Right), t.right);
    }
  }

  lemma {:induction false} BalancedLean<V>(c: Ctx<V>, t: Tree<V>)
    requires Repairing(c, t) && BlackTop(c) && Lean(t) && LeanCtx(c, true)
    ensures Lean(Balanced(c, t))
    decreases Depth(c)
  {
    if c.Top? || c.color == Black {
      LeanPlug(c, t);
      return;
    }
    StepsUp(c, t);
    if !IsBlack(c.up.sibling) {
      RecolorRedBlack(c, t);
      MoreRed(c.up.up, c.up.color == Red);
      BalancedLean(c.up.up, Recolored(c, t));
    } else {
      OuterFromRepairing(c, t);
      OuterStep(c, t);
      BalancedLean(OuterCtx(c), t);
    }
  }

  /* A node after all others keeps a red-black tree lean. */
  lemma AppendedLean<V>(t: Tree<V>, n: V)
    requires RedBlack(t) && IsBlack(t) && Lean(t)
    ensures var r := InsertedAt(t, |Inorder(t)|, n);
      RedBlack(r) && IsBlack(r) && Lean(r) && |Inorder(r)| == |Inorder(t)| + 1
  {
    var k := |Inorder(t)|;
    InsertedOrder(t, k, n);
    LastGap(Top, t);
    GapPlug(Top, t, k);
    var c := Gap(Top, t, k);
    PlugBlackTop(c, Leaf);
    UnplugRedBlack(c, Leaf);
    NewRedBlack(c, n);
    MoreRed(c, false);
    hide Gap, Plug, Inorder, RedBlack, Balanced, LeanCtx;
    assert Lean(Node(Leaf, n, Red, Leaf));
    BalancedLean(c, Node(Leaf, n, Red, Leaf));
  }

  lemma MoreRed<V>(c: Ctx<V>, red: bool)
    requires LeanCtx(c, red)
    ensures LeanCtx(c, true)
  {
  }

  /* The tree of n nodes inserted in ascending order. */
  function Ascending(n: nat): (t: Tree<()>)
    ensures RedBlack(t) && IsBlack(t) && Lean(t) && |Inorder(t)| == n
  {
    if n == 0 then Leaf
    else
      AppendedLean(Ascending(n - 1), ());
      InsertedAt(Ascending(n - 1), n - 1, ())
  }

  /* What was built in ascending order can be taken apart. */
  lemma AscendingFree(n: nat)
    ensures CanFree(Ascending(n))
  {
    LeanFree(Ascending(n));
  }

  // ------------------------------------------------------------------ a tree that cannot be taken apart

  function Two(color: Color): Tree<()> {
    Node(Tip(Red), (), color, Leaf)
  }

  function Four(): Tree<()> {
    Node(Two(Black), (), Black, Tip(Black))
  }

  function Six(): Tree<()> {
    Node(Node(Two(Black), (), Red, Tip(Black)), (), Black, Tip(Black))
  }

  function Seven(): Tree<()> {
    Node(Node(Two(Black), (), Red, Tip(Black)), (), Black, Two(Black))
  }

  lemma SevenBuilt()
    ensures InsertedAt(Leaf, 0, ()) == Tip(Black)
    ensures |Inorder(Tip(Black))| == 1 && |Inorder(Three())| == 3 && |Inorder(Four())| == 4 && |Inorder(Six())| == 6
    ensures InsertedAt(InsertedAt(Tip(Black), 1, ()), 0, ()) == Three()
    ensures InsertedAt(Three(), 0, ()) == Four()
    ensures InsertedAt(InsertedAt(Four(), 0, ()), 0, ()) == Six()
    ensures InsertedAt(Six(), 5, ()) == Seven()
  {
  }

  /* Inserting addresses 4, 6, 3, 2, 1, 0 and 5 in this order gives a red-black tree. Taking it
     apart reads through a null pointer at the third node. */
  lemma SevenFaults()
    ensures RedBlack(Seven()) && IsBlack(Seven()) && |Inorder(Seven())| == 7 && !CanFree(Seven())
  {
    var t1 := Node(Node(Tip(Black), (), Red, Tip(Black)), (), Black, Two(Black));
    var t2 := Node(Node(Leaf, (), Red, Tip(Black)), (), Black, Two(Black));
    assert CanRemove(Seven(), 0) && RemovedAt(Seven(), 0) == t1;
    assert CanRemove(t1, 0) && RemovedAt(t1, 0) == t2;
    assert !CanRemove(t2, 0);
  }
}
