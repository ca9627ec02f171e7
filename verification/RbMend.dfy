/**
 When rb_remove (lib/rbtree.c) leaves a red-black tree: exactly, for every tree and node. And
 when its repair loop mends a subtree that is one black node short, which is what it is for.
 */
module RbMend {
  import opened Common
  import opened RbTree
  import opened RbRepair

  // ------------------------------------------------------------------ damage that stays

  /* All that hangs off the path to the hole is red-black. */
  predicate Sides<V>(c: Ctx<V>) {
    c.Top? || (RedBlack(c.sibling) && Sides(c.up))
  }

  lemma {:induction false} CtxSides<V>(c: Ctx<V>, h: nat)
    requires RedBlackCtx(c, h)
    ensures Sides(c)
    decreases c
  {
    if c.Up? {
      CtxSides(c.up, h + if c.color == Black then 1 else 0);
    }
  }

  lemma {:induction false} PlugDamaged<V>(c: Ctx<V>, t: Tree<V>)
    requires !RedBlack(t)
    ensures !RedBlack(Plug(c, t))
    decreases c
  {
    if c.Up? {
      PlugDamaged(c.up, Mk(c.dir, t, c.v, c.color, c.sibling));
    }
  }

  /* A damaged subtree stays damaged when the root above it becomes black. */
  lemma PlugBlackened<V>(c: Ctx<V>, t: Tree<V>)
    requires !RedBlack(t) && (c.Top? ==> !RedBlack(Blackened(t)))
    ensures !RedBlack(Blackened(Plug(c, t)))
    decreases c
  {
    if c.Up? {
      var p := Mk(c.dir, t, c.v, c.color, c.sibling);
      assert !RedBlack(p) && !RedBlack(Blackened(p));
      PlugBlackened(c.up, p);
    }
  }

  /* The sibling after the wrong rotation: its near child is black and its far child one black
     node lower. */
  function Tilted<V>(c: Ctx<V>): Tree<V>
    requires c.Up? && c.sibling.Node? && Near(c).Node?
  {
    Mk(c.dir, Near(c).(color := Black), c.sibling.v, Red, Far(c))
  }

  lemma SwungDamaged<V>(c: Ctx<V>, t: Tree<V>)
    requires c.Up? && c.sibling.Node? && RedBlack(c.sibling) && t.Node?
    requires Near(c).Node? && Near(c).color == Red
    ensures !RedBlack(Tilted(c))
    ensures Swung(c, t) == Mk(c.dir.Flip(), Mk(c.dir, t.Child(c.dir.Flip()), c.v, c.color, Tilted(c)), t.v, t.color, t.Child(c.dir))
  {
  }

  /* The last step keeps what hangs below it. */
  lemma SettledKeeps<V>(c: Ctx<V>, t: Tree<V>)
    requires c.Up? && c.sibling.Node? && Far(c).Node?
    ensures Settled(c, t) ==
      Mk(c.dir, Mk(c.dir, t, c.v, Black, Near(c)), c.sibling.v, c.color, Far(c).(color := Black))
  {
  }

  lemma MkDamaged<V>(d: Dir, a: Tree<V>, v: V, color: Color, b: Tree<V>)
    requires !RedBlack(a) || !RedBlack(b)
    ensures !RedBlack(Mk(d, a, v, color, b)) && !RedBlack(Blackened(Mk(d, a, v, color, b)))
  {
  }

  lemma InnerDamaged<V>(c: Ctx<V>, t: Tree<V>)
    requires c.Up? && c.sibling.Node? && SafeBelow(c) && Sides(c) && t.Node? && !IsBlack(Near(c)) && IsBlack(Far(c))
    ensures !RedBlack(RepairedBelow(c, t))
  {
    SwungDamaged(c, t);
    var cc, ct := SwungCtx(c, t), SwungTree(c, t);
    var p := Mk(c.dir, t.Child(c.dir.Flip()), c.v, c.color, Tilted(c));
    MkDamaged(c.dir, t.Child(c.dir.Flip()), c.v, c.color, Tilted(c));
    MkDamaged(c.dir.Flip(), p, t.v, t.color, t.Child(c.dir));
    SettledKeeps(cc, ct);
    if c.up.dir == c.dir {
      MkDamaged(cc.dir, ct, cc.v, Black, Near(cc));
    } else {
      assert Far(cc) == p;
    }
    MkDamaged(cc.dir, Mk(cc.dir, ct, cc.v, Black, Near(cc)), cc.sibling.v, cc.color, Far(cc).(color := Black));
    PlugBlackened(cc.up, Settled(cc, ct));
  }

  /* Whatever the loop does, damage in the subtree it starts from stays, unless it is a red root
     over a red child that the loop ends at. */
  lemma {:induction false} DamageStays<V>(c: Ctx<V>, t: Tree<V>)
    requires Safe(c) && Sides(c) && t.Node? && !RedBlack(t)
    requires c.Top? || c.sibling.Leaf? ==> !RedBlack(Blackened(t))
    ensures !RedBlack(Repaired(c, t))
    decreases Around(c), 1
  {
    if c.Top? || c.sibling.Leaf? {
      PlugDamaged(c, Blackened(t));
    } else {
      LiftedAround(c);
      DamageBelow(if c.sibling.color == Red then Lifted(c) else c, t);
    }
  }

  lemma {:induction false} DamageBelow<V>(c: Ctx<V>, t: Tree<V>)
    requires c.Up? && c.sibling.Node? && SafeBelow(c) && Sides(c) && t.Node? && !RedBlack(t)
    ensures !RedBlack(RepairedBelow(c, t))
    decreases Around(c), 0
  {
    if IsBlack(Near(c)) && IsBlack(Far(c)) {
      MkDamaged(c.dir, t, c.v, c.color, c.sibling.(color := Red));
      DamageStays(c.up, Darkened(c, t));
    } else if IsBlack(Far(c)) {
      InnerDamaged(c, t);
    } else {
      OuterDamaged(c, t);
    }
  }

  lemma OuterDamaged<V>(c: Ctx<V>, t: Tree<V>)
    requires c.Up? && c.sibling.Node? && Far(c).Node? && !RedBlack(Mk(c.dir, t, c.v, Black, Near(c)))
    ensures !RedBlack(Concluded(c, t))
  {
    SettledKeeps(c, t);
    var p := Mk(c.dir, t, c.v, Black, Near(c));
    MkDamaged(c.dir, p, c.sibling.v, c.color, Far(c).(color := Black));
    PlugBlackened(c.up, Settled(c, t));
  }

  /* Started from a subtree that is not short of a black node, the loop does damage in its first
     iteration. */
  lemma EvenDamaged<V>(c: Ctx<V>, t: Tree<V>)
    requires Safe(c) && Sides(c) && t.Node? && c.Up? && c.sibling.Node? && BlackHeight(c.sibling) == BlackHeight(t)
    ensures !RedBlack(Repaired(c, t))
  {
    LiftedAround(c);
    EvenBelow(if c.sibling.color == Red then Lifted(c) else c, t);
  }

  lemma EvenBelow<V>(c: Ctx<V>, t: Tree<V>)
    requires c.Up? && c.sibling.Node? && c.sibling.color == Black && SafeBelow(c) && Sides(c) && t.Node?
    requires BlackHeight(c.sibling) == BlackHeight(t)
    ensures !RedBlack(RepairedBelow(c, t))
  {
    assert BlackHeight(Near(c)) < BlackHeight(t);
    if IsBlack(Near(c)) && IsBlack(Far(c)) {
      DamageStays(c.up, Darkened(c, t));
    } else if IsBlack(Far(c)) {
      InnerDamaged(c, t);
    } else {
      OuterDamaged(c, t);
    }
  }

  // ------------------------------------------------------------------ rb_remove

  /* The node lacks a child and is red, or has one, or is alone; or it is the root of a tree of
     three nodes whose children are red. */
  predicate Harmless<V>(c: Ctx<V>, t: Tree<V>)
    requires t.Node?
  {
    if t.left.Leaf? || t.right.Leaf? then t.color == Red || t.left.Node? || t.right.Node? || c.Top?
    else c.Top? && t.left.color == Red && t.left.right.Leaf?
  }

  lemma LackingChild<V>(c: Ctx<V>, t: Tree<V>)
    requires t.Node? && RedBlack(Plug(c, t)) && IsBlack(Plug(c, t)) && (t.left.Leaf? || t.right.Leaf?)
    ensures SafeRemove(c, t) && (RedBlack(AfterRemove(c, t)) <==> Harmless(c, t))
  {
    UnplugRedBlack(c, t);
    OneChildSafe(c, t);
    var s := Blackened(Spliced(t));
    assert AfterRemove(c, t) == Plug(c, s);
    if Harmless(c, t) {
      if c.Up? {
        assert BlackHeight(s) == BlackHeight(t);
      }
      PlugRedBlack(c, s);
    } else {
      PlugDamaged(c.up, Mk(c.dir, s, c.v, c.color, c.sibling));
    }
  }

  lemma BothChildren<V>(c: Ctx<V>, t: Tree<V>)
    requires t.Node? && RedBlack(Plug(c, t)) && IsBlack(Plug(c, t)) && t.left.Node? && t.right.Node? && SafeRemove(c, t)
    ensures RedBlack(AfterRemove(c, t)) <==> Harmless(c, t)
  {
    UnplugRedBlack(c, t);
    CtxSides(c, BlackHeight(t));
    var cc, ct := StartCtx(c, t), StartTree(t);
    if LowStart(t) {
      assert BlackHeight(ct) == BlackHeight(t.left);
      if ct.color == Red {
        PlugDamaged(c, Mk(Left, Blackened(ct), cc.v, Black, t.right));
      } else {
        EvenDamaged(cc, ct);
      }
    } else if t.left.color == Black {
      assert !RedBlack(ct);
      DamageStays(c, ct);
    } else if c.Up? {
      EvenDamaged(c, ct);
    }
  }

  /* rb_remove of the node at position k keeps a red-black tree red-black if and only if the node
     is harmless. */
  lemma RemovalKeeps<V>(t: Tree<V>, k: nat)
    requires RedBlack(t) && IsBlack(t) && k < |Inorder(t)| && CanRemove(t, k)
    ensures var z := Spot(Top, t, k);
      RedBlack(RemovedAt(t, k)) <==> Harmless(z.0, z.1)
  {
    hide AfterRemove, SafeRemove, Plug, RedBlack;
    var z := Spot(Top, t, k);
    SpotPlug(Top, t, k);
    assert Plug(Top, t) == t by { PlugTop(t); }
    if z.1.left.Leaf? || z.1.right.Leaf? {
      LackingChild(z.0, z.1);
    } else {
      BothChildren(z.0, z.1);
    }
  }

  lemma PlugTop<V>(t: Tree<V>)
    ensures Plug(Top, t) == t
  {
  }

  // ------------------------------------------------------------------ one black node short

  /* From this hole, the loop passes black parents of black siblings with black children, if any,
     and then ends at the root or at a sibling with a red far child. */
  predicate Mends<V>(c: Ctx<V>)
    requires Safe(c)
    decreases Around(c), 1
  {
    if c.Top? || c.sibling.Leaf? then true
    else
      LiftedAround(c);
      MendsBelow(if c.sibling.color == Red then Lifted(c) else c)
  }

  predicate MendsBelow<V>(c: Ctx<V>)
    requires c.Up? && c.sibling.Node? && SafeBelow(c)
    decreases Around(c), 0
  {
    if IsBlack(Near(c)) && IsBlack(Far(c)) then c.color == Black && Mends(c.up) else !IsBlack(Far(c))
  }

  /* A subtree in a hole that wants one more black node than it has. */
  predicate Short<V>(c: Ctx<V>, t: Tree<V>) {
    t.Node? && RedBlack(t) && IsBlack(t) && RedBlackCtx(c, BlackHeight(t) + 1)
  }

  /* The loop makes the tree red-black again if and only if it ends at the root or in the outer
     rotation, and passes no red parent on the way. */
  lemma {:induction false} LoopMends<V>(c: Ctx<V>, t: Tree<V>)
    requires Safe(c) && Short(c, t)
    ensures RedBlack(Repaired(c, t)) <==> Mends(c)
    decreases Around(c), 1
  {
    if c.Up? {
      assert c.sibling.Node?;
      LiftedAround(c);
      LoopMendsBelow(if c.sibling.color == Red then Lifted(c) else c, t);
    }
  }

  lemma RedBlackened<V>(t: Tree<V>)
    requires RedBlack(t) && !IsBlack(t)
    ensures RedBlack(t.(color := Black)) && BlackHeight(t.(color := Black)) == BlackHeight(t) + 1
  {
  }

  lemma OuterMends<V>(c: Ctx<V>, t: Tree<V>)
    requires c.Up? && c.sibling.Node? && c.sibling.color == Black && !IsBlack(Far(c)) && Short(c, t)
    ensures RedBlack(Settled(c, t)) && RedBlackCtx(c.up, BlackHeight(Settled(c, t)))
    ensures IsBlack(Settled(c, t)) || c.up.Top? || c.up.color == Black
  {
    SettledKeeps(c, t);
    var p, f := Mk(c.dir, t, c.v, Black, Near(c)), Far(c).(color := Black);
    assert BlackHeight(Near(c)) == BlackHeight(Far(c)) == BlackHeight(t);
    RedBlackened(Far(c));
    assert RedBlack(p) && RedBlack(f) && BlackHeight(p) == BlackHeight(f) == BlackHeight(t) + 1;
    assert RedBlackCtx(c.up, BlackHeight(t) + 1 + if c.color == Black then 1 else 0);
  }

  lemma {:induction false} LoopMendsBelow<V>(c: Ctx<V>, t: Tree<V>)
    requires c.Up? && c.sibling.Node? && c.sibling.color == Black && SafeBelow(c) && Short(c, t)
    ensures RedBlack(RepairedBelow(c, t)) <==> MendsBelow(c)
    decreases Around(c), 0
  {
    CtxSides(c, BlackHeight(t) + 1);
    if IsBlack(Near(c)) && IsBlack(Far(c)) {
      if c.color == Black {
        LoopMends(c.up, Darkened(c, t));
      } else {
        assert RedBlackCtx(c.up, BlackHeight(t) + 1);
        assert c.up.sibling.Node?;
        DamageStays(c.up, Darkened(c, t));
      }
    } else if IsBlack(Far(c)) {
      InnerDamaged(c, t);
    } else {
      OuterMends(c, t);
      PlugRedBlack(c.up, Settled(c, t));
      BlackenedOrder(Plug(c.up, Settled(c, t)));
    }
  }

  // ------------------------------------------------------------------ three removals

  /* A red node with two children: the node that takes its place is black, so the loop runs and
     takes a black node from the other side. */
  lemma RedNodeExample()
    ensures var t := Node(Node(Tip(Black), (), Red, Tip(Black)), (), Black, Tip(Black));
      && RedBlack(t) && |Inorder(t)| == 5 && CanRemove(t, 1)
      && RemovedAt(t, 1) == Node(Node(Leaf, (), Black, Tip(Black)), (), Black, Tip(Red))
      && !RedBlack(RemovedAt(t, 1))
  {
  }

  /* The inner rotation turns the parent the wrong way. What follows depends on which side of the
     grandparent the parent is. */
  lemma InnerExample()
    ensures var (s, turned) := (Node(Tip(Black), (), Black, Tip(Black)), Node(Tip(Black), (), Red, Leaf));
      var t := Node(s, (), Black, Five());
      && RedBlack(t) && |Inorder(t)| == 9 && CanRemove(t, 6)
      && RemovedAt(t, 6) == Node(Node(s, (), Black, Leaf), (), Black, Node(Leaf, (), Black, turned))
    ensures var (s, turned) := (Node(Tip(Black), (), Black, Tip(Black)), Node(Tip(Black), (), Red, Leaf));
      var t := Node(Five(), (), Black, s);
      && RedBlack(t) && |Inorder(t)| == 9 && CanRemove(t, 2)
      && RemovedAt(t, 2) == Node(Node(Node(Leaf, (), Black, Node(Leaf, (), Black, turned)), (), Black, Tip(Black)), (), Black, Tip(Black))
  {
    var s := Node(Tip(Black), (), Black, Tip(Black));
    var t := Node(s, (), Black, Five());
    assert Inorder(s) == [(), (), ()];
    assert |Inorder(Five())| == 5;
    var u := Node(Five(), (), Black, s);
    assert Spot(Top, u, 2) == (Up(Left, (), Black, s, Top), Five());
    assert Spot(Top, t, 6) == (Up(Right, (), Black, s, Top), Five());
  }
}
