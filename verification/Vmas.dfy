/**
 The address space of a task (kernel/vma): a red-black tree of VMAs kept in step with a
 linked list sorted by address.
 */
module Vmas {
  import opened Common
  import opened RbTree
  import opened RbRepair
  import opened RbFree
  import opened VmaTree
  import opened RbRemoval

  ghost function Payloads(s: seq<RbNode>): set<Vma> {
    set n | n in s :: n.vma
  }

  /* Sorted by address and disjoint. */
  ghost predicate Sorted(s: seq<RbNode>)
    reads Payloads(s)
  {
    && (forall i :: 0 <= i < |s| ==> s[i].vma.base <= s[i].vma.end)
    && (forall i, j :: 0 <= i < j < |s| ==> s[i].vma.end <= s[j].vma.base)
  }

  /* No two nodes share a struct vma, and no node occurs twice. */
  ghost predicate Separate(s: seq<RbNode>) {
    forall i, j :: 0 <= i < j < |s| ==> s[i].vma != s[j].vma
  }

  /* The ranges of the two VMAs intersect. */
  predicate Overlap(a: Vma, b: Vma)
    reads a, b
  {
    Intersect(a.base, a.end, b.base, b.end)
  }

  function IndexOf<T(==)>(s: seq<T>, x: T): (i: nat)
    requires x in s
    ensures i < |s| && s[i] == x
  {
    if s[0] == x then 0 else 1 + IndexOf(s[1..], x)
  }

  lemma {:induction false} FirstIndex<T>(s: seq<T>, x: T)
    requires x in s
    ensures forall j :: 0 <= j < IndexOf(s, x) ==> s[j] != x
  {
    if s[0] != x {
      FirstIndex(s[1..], x);
      assert forall j :: 1 <= j < |s| ==> s[j] == s[1..][j - 1];
    }
  }

  /* list_insert_after and list_insert_before on the sequence of a circular list. */
  function InsertAfter<T(==)>(s: seq<T>, x: T, n: T): seq<T>
    requires x in s
  {
    var i := IndexOf(s, x) + 1;
    s[..i] + [n] + s[i..]
  }

  function InsertBefore<T(==)>(s: seq<T>, x: T, n: T): seq<T>
    requires x in s
  {
    var i := IndexOf(s, x);
    s[..i] + [n] + s[i..]
  }

  lemma InsertAround<T>(a: seq<T>, x: T, b: seq<T>, n: T)
    requires x !in a
    ensures InsertAfter(a + [x] + b, x, n) == a + [x] + [n] + b
    ensures InsertBefore(a + [x] + b, x, n) == a + [n] + [x] + b
  {
    var s := a + [x] + b;
    assert s[|a|] == x;
    FirstIndex(s, x);
    assert IndexOf(s, x) == |a|;
  }

  /* r is the first VMA of the list that ends above addr, or null if there is none. */
  ghost predicate FirstAbove(s: seq<RbNode>, addr: nat, r: RbNode?)
    reads Payloads(s)
  {
    if r == null then
      forall n :: n in s ==> n.vma.end <= addr
    else
      r in s && addr < r.vma.end && forall j :: 0 <= j < IndexOf<RbNode>(s, r) ==> s[j].vma.end <= addr
  }

  lemma FirstAt(s: seq<RbNode>, l: seq<RbNode>, r: RbNode, g: seq<RbNode>, addr: nat)
    requires s == l + [r] + g && addr < r.vma.end && forall n :: n in l ==> n.vma.end <= addr
    ensures FirstAbove(s, addr, r)
  {
    assert s[|l|] == r;
    FirstIndex(s, r);
    forall j | 0 <= j < IndexOf(s, r)
      ensures s[j].vma.end <= addr
    {
      assert IndexOf(s, r) <= |l|;
      assert s[j] in l;
    }
  }

  lemma SortedAround(s: seq<RbNode>, l: seq<RbNode>, x: RbNode, g: seq<RbNode>)
    requires s == l + [x] + g && Sorted(s)
    ensures x.vma.base <= x.vma.end
    ensures forall n :: n in l ==> n.vma.end <= x.vma.base
    ensures forall n :: n in g ==> x.vma.end <= n.vma.base
  {
    assert s[|l|] == x;
    forall n | n in l
      ensures n.vma.end <= x.vma.base
    {
      var i :| 0 <= i < |l| && l[i] == n;
      assert s[i] == n;
    }
    forall n | n in g
      ensures x.vma.end <= n.vma.base
    {
      var i :| 0 <= i < |g| && g[i] == n;
      assert s[|l| + 1 + i] == n;
    }
  }

  /* During find_vma, everything before the subtree in focus ends at or below addr, and r is
     the VMA right after it. */
  ghost predicate Narrowed(c: Ctx<RbNode>, addr: nat, r: RbNode?)
    reads Payloads(Before(c)), if r == null then {} else {r.vma}
  {
    && (forall n :: n in Before(c) ==> n.vma.end <= addr)
    && (if r == null then After(c) == [] else After(c) != [] && r == After(c)[0] && addr < r.vma.end)
  }

  lemma NarrowedDown(c: Ctx<RbNode>, t: Tree<RbNode>, addr: nat, r: RbNode?, s: seq<RbNode>)
    requires Narrowed(c, addr, r) && t.Node? && s == Inorder(Plug(c, t)) && Sorted(s)
    ensures addr >= t.v.vma.end ==> Narrowed(Down(c, t, Right), addr, r)
    ensures addr < t.v.vma.end ==> Narrowed(Down(c, t, Left), addr, t.v)
  {
    PlugNode(c, t);
    SortedAround(s, Before(c) + Inorder(t.left), t.v, Inorder(t.right) + After(c));
    DownOrder(c, t, Left);
    DownOrder(c, t, Right);
  }

  lemma FoundExact(c: Ctx<RbNode>, t: Tree<RbNode>, addr: nat, r: RbNode, s: seq<RbNode>)
    requires t.Node? && Narrowed(Down(c, t, Left), addr, r) && r == t.v && s == Inorder(Plug(c, t)) && Sorted(s)
    requires r.vma.base <= addr < r.vma.end
    ensures FirstAbove(s, addr, r)
  {
    PlugNode(c, t);
    var l, g := Before(c) + Inorder(t.left), Inorder(t.right) + After(c);
    SortedAround(s, l, r, g);
    DownOrder(c, t, Left);
    FirstAt(s, l, r, g, addr);
  }

  lemma FoundBelow(c: Ctx<RbNode>, addr: nat, r: RbNode?, s: seq<RbNode>)
    requires Narrowed(c, addr, r) && s == Inorder(Plug(c, Leaf))
    ensures FirstAbove(s, addr, r)
  {
    PlugLeaf(c);
    if r != null {
      FirstAt(s, Before(c), r, After(c)[1..], addr);
    }
  }

  /* The range of v fits between the VMAs before and after the subtree in focus. */
  ghost predicate Fits(c: Ctx<RbNode>, v: Vma)
    reads Payloads(Before(c)), Payloads(After(c)), v
  {
    && (forall n :: n in Before(c) ==> n.vma.end <= v.base)
    && (forall n :: n in After(c) ==> v.end <= n.vma.base && v.base < n.vma.end)
  }

  lemma FitsDown(c: Ctx<RbNode>, t: Tree<RbNode>, v: Vma, s: seq<RbNode>)
    requires Fits(c, v) && t.Node? && s == Inorder(Plug(c, t)) && Sorted(s)
    ensures t.v in s
    ensures t.v.vma.end <= v.base ==> Fits(Down(c, t, Right), v)
    ensures v.end <= t.v.vma.base && v.base < t.v.vma.end ==> Fits(Down(c, t, Left), v)
  {
    PlugNode(c, t);
    SortedAround(s, Before(c) + Inorder(t.left), t.v, Inorder(t.right) + After(c));
    SortedEach(s);
    DownOrder(c, t, Left);
    DownOrder(c, t, Right);
  }

  lemma SortedEach(s: seq<RbNode>)
    requires Sorted(s)
    ensures forall n :: n in s ==> n.vma.base <= n.vma.end
  {
  }

  lemma SortedInsert(a: seq<RbNode>, n: RbNode, b: seq<RbNode>)
    requires Sorted(a + b) && Separate(a + b) && n.vma.base <= n.vma.end
    requires forall m :: m in a ==> m.vma.end <= n.vma.base
    requires forall m :: m in b ==> n.vma.end <= m.vma.base
    requires n.vma !in Payloads(a + b)
    ensures Sorted(a + [n] + b) && Separate(a + [n] + b)
  {
    var s, s' := a + b, a + [n] + b;
    forall i, j | 0 <= i < j < |s'|
      ensures s'[i].vma.end <= s'[j].vma.base && s'[i].vma != s'[j].vma
    {
      var i', j' := if i < |a| then i else i - 1, if j < |a| then j else j - 1;
      if i != |a| && j != |a| {
        assert s'[i] == s[i'] && s'[j] == s[j'];
      } else if i == |a| {
        assert s'[j] == b[j - |a| - 1] && s'[j] == s[j'];
      } else {
        assert s'[i] == a[i] && s'[i] == s[i'];
      }
    }
    forall i | 0 <= i < |s'|
      ensures s'[i].vma.base <= s'[i].vma.end
    {
      assert i == |a| || s'[i] == s[if i < |a| then i else i - 1];
    }
  }

  /* The place that was found is right behind the VMAs that end at or below the base. */
  lemma FitsPosition(c: Ctx<RbNode>, v: Vma)
    requires Fits(c, v)
    ensures var s := Before(c) + After(c);
      forall j :: 0 <= j < |s| ==> (j < |Before(c)| <==> s[j].vma.end <= v.base)
  {
    var s := Before(c) + After(c);
    forall j | 0 <= j < |s|
      ensures j < |Before(c)| <==> s[j].vma.end <= v.base
    {
      if j < |Before(c)| {
        assert s[j] in Before(c);
      } else {
        assert s[j] in After(c);
      }
    }
  }

  /* The list position next to the parent found by the descent is the in-order position of
     the new leaf. */
  lemma ListPosition(c: Ctx<RbNode>, s: seq<RbNode>, n: RbNode)
    requires c.Up? && s == Before(c) + After(c) && Separate(s)
    ensures c.v in s
    ensures c.dir == Right ==> InsertAfter(s, c.v, n) == Before(c) + [n] + After(c)
    ensures c.dir == Left ==> InsertBefore(s, c.v, n) == Before(c) + [n] + After(c)
  {
    var l, r := Before(c), After(c);
    if c.dir == Right {
      var a := Before(c.up) + Inorder(c.sibling);
      assert l == a + [c.v];
      hide Before, After, Inorder, Separate, InsertAfter, InsertBefore;
      NotBefore(a, c.v, r);
      InsertAround(a, c.v, r, n);
    } else {
      var b := Inorder(c.sibling) + After(c.up);
      assert r == [c.v] + b;
      hide Before, After, Inorder, Separate, InsertAfter, InsertBefore;
      assert l + r == l + [c.v] + b && l + [n] + [c.v] + b == l + [n] + r;
      NotBefore(l, c.v, b);
      InsertAround(l, c.v, b, n);
    }
  }

  lemma NotBefore(a: seq<RbNode>, x: RbNode, b: seq<RbNode>)
    requires Separate(a + [x] + b)
    ensures x !in a
  {
    var s := a + [x] + b;
    forall i | 0 <= i < |a|
      ensures a[i] != x
    {
      assert s[i] == a[i] && s[|a|] == x;
    }
  }

  /* What a red leaf in place of the empty subtree means for rb_balance. */
  lemma NewLeaf(c: Ctx<RbNode>, n: RbNode, color: Color)
    requires IsBlack(Plug(c, Leaf))
    ensures BlackTop(c)
    ensures RedBlack(Plug(c, Leaf)) ==> Repairing(c, Node(Leaf, n, Red, Leaf))
    ensures Inorder(Plug(c, Leaf)) == Before(c) + After(c)
    ensures Inorder(Plug(c, Node(Leaf, n, color, Leaf))) == Before(c) + [n] + After(c)
  {
    PlugBlackTop(c, Leaf);
    if RedBlack(Plug(c, Leaf)) {
      UnplugRedBlack(c, Leaf);
    }
    PlugLeaf(c);
    PlugNode(c, Node(Leaf, n, color, Leaf));
  }

  /* list_del. */
  function Without<T(==)>(s: seq<T>, x: T): seq<T>
    requires x in s
  {
    var i := IndexOf(s, x);
    s[..i] + s[i + 1..]
  }

  lemma WithoutAt<T>(a: seq<T>, x: T, b: seq<T>)
    requires x !in a
    ensures Without(a + [x] + b, x) == a + b
  {
    var s := a + [x] + b;
    assert s[|a|] == x;
    FirstIndex(s, x);
    assert IndexOf(s, x) == |a|;
  }

  /* Unlinking t.v from list and tree keeps them equal. */
  lemma WithoutPlug(c: Ctx<RbNode>, t: Tree<RbNode>, t': Tree<RbNode>, s: seq<RbNode>)
    requires t.Node? && s == Inorder(Plug(c, t)) && Separate(s)
    requires Inorder(t') == Before(c) + Inorder(t.left) + (Inorder(t.right) + After(c))
    ensures t.v in s && Without(s, t.v) == Inorder(t') && Separate(Without(s, t.v))
  {
    hide Inorder, Plug, Before, After, Separate, Without;
    PlugNode(c, t);
    var a, b := Before(c) + Inorder(t.left), Inorder(t.right) + After(c);
    NotBefore(a, t.v, b);
    WithoutAt(a, t.v, b);
    SeparateWithout(a, t.v, b);
  }

  lemma SeparateWithout(a: seq<RbNode>, x: RbNode, b: seq<RbNode>)
    requires Separate(a + [x] + b)
    ensures Separate(a + b)
  {
    var s, s' := a + [x] + b, a + b;
    forall i, j | 0 <= i < j < |s'|
      ensures s'[i].vma != s'[j].vma
    {
      assert s'[i] == s[if i < |a| then i else i + 1];
      assert s'[j] == s[if j < |a| then j else j + 1];
    }
  }

  lemma {:induction false} InNodes(t: Tree<RbNode>)
    ensures forall n :: n in Inorder(t) <==> n in Nodes(t)
  {
    if t.Node? {
      InNodes(t.left);
      InNodes(t.right);
    }
  }

  /* One step of free_vmas. */
  lemma FreeStep(t: Tree<RbNode>)
    requires IsBlack(t) && |Inorder(t)| > 0
    ensures CanFree(t) <==> CanRemove(t, 0) && IsBlack(RemovedAt(t, 0)) && CanFree(RemovedAt(t, 0))
  {
    if CanRemove(t, 0) {
      RemovedAtSize(t, 0);
    }
  }

  class Task {
    const rb: RbRoot
    /* task_mmap, the list of all VMAs. */
    var mmap: seq<RbNode>
    /* The tree that the nodes of rb form. */
    ghost var tree: Tree<RbNode>

    /* Tree and list hold the same VMAs in the same order. */
    ghost predicate Linked()
      reads this, rb, rb.nodes, Nodes(tree)
    {
      && rb.Realises(Top, tree)
      && mmap == Inorder(tree)
      && IsBlack(tree)
      && Separate(mmap)
    }

    ghost predicate Valid()
      reads this, rb, rb.nodes, Payloads(mmap), Nodes(tree)
    {
      Linked() && Sorted(mmap)
    }

    constructor ()
      ensures Valid() && fresh(rb) && mmap == [] && tree == Leaf && rb.nodes == {}
    {
      rb := new RbRoot();
      mmap, tree := [], Leaf;
    }

    lemma Descend(c: Ctx<RbNode>, t: Tree<RbNode>, d: Dir)
      requires rb.Realises(c, t) && t.Node?
      ensures rb.Realises(Down(c, t, d), t.Child(d)) && t.v.Child(d) == Root(t.Child(d))
    {
      rb.Zoom(Down(c, t, d), t.Child(d));
    }

    lemma StepBound(c: Ctx<RbNode>, t: Tree<RbNode>)
      requires mmap == Inorder(tree) && IsBlack(tree) && Plug(c, t) == tree
      ensures RedBlack(tree) ==> Pow2((Depth(c) + 1) / 2) <= |mmap| + 1
    {
      if RedBlack(tree) {
        DepthBound(c, t);
      }
    }

    lemma AtRoot(addr: nat)
      requires Valid()
      ensures Sorted(mmap) && mmap == Inorder(tree) && rb.root == Root(tree)
      ensures Plug(Top, tree) == tree && Depth<RbNode>(Top) == 0
      ensures Before<RbNode>(Top) == [] && After<RbNode>(Top) == [] && Narrowed(Top, addr, null)
    {
    }

    lemma FindStep(c: Ctx<RbNode>, t: Tree<RbNode>, dir: Dir, addr: nat, r: RbNode?)
      requires rb.Realises(c, t) && t.Node? && Plug(c, t) == tree && Narrowed(c, addr, r)
      requires mmap == Inorder(tree) && Sorted(mmap)
      requires dir == if addr >= t.v.vma.end then Right else Left
      ensures rb.Realises(Down(c, t, dir), t.Child(dir)) && t.v.Child(dir) == Root(t.Child(dir))
      ensures Plug(Down(c, t, dir), t.Child(dir)) == tree && Depth(Down(c, t, dir)) == Depth(c) + 1
      ensures Narrowed(Down(c, t, dir), addr, if dir == Left then t.v else r)
      ensures dir == Left && t.v.vma.base <= addr ==> FirstAbove(mmap, addr, t.v)
    {
      hide Links, CtxLinks, Tidy, TidyCtx, Nodes, CtxNodes, CtxRoot, RbRoot.Realises, Plug, Inorder;
      hide Depth, Sorted, FirstAbove, Narrowed;
      NarrowedDown(c, t, addr, r, mmap);
      DownOrder(c, t, dir);
      Descend(c, t, dir);
      if dir == Left && t.v.vma.base <= addr {
        FoundExact(c, t, addr, t.v, mmap);
      }
    }

    /* find_vma: the descent keeps the last VMA whose end lies above the address. */
    method FindVma(addr: nat) returns (r: RbNode?, ghost steps: nat)
      requires Valid()
      ensures FirstAbove(mmap, addr, r)
      ensures RedBlack(tree) ==> Pow2((steps + 1) / 2) <= |mmap| + 1
    {
      hide Links, CtxLinks, Tidy, TidyCtx, Nodes, CtxNodes, CtxRoot, RbRoot.Realises, Plug, Inorder;
      hide RedBlack, Depth, Pow2, Sorted, FirstAbove, Narrowed;
      AtRoot(addr);
      var node := rb.root;
      r := null;
      ghost var c, t := Top, tree;
      steps := 0;
      while node != null
        invariant node == Root(t) && rb.Realises(c, t) && Plug(c, t) == tree
        invariant steps == Depth(c) && Narrowed(c, addr, r) && Sorted(mmap)
        decreases t
      {
        var dir := if addr >= node.vma.end then Right else Left;
        FindStep(c, t, dir, addr, r);
        c, t := Down(c, t, dir), t.Child(dir);
        steps := steps + 1;
        if dir == Left {
          r := node;
          if node.vma.base <= addr {
            StepBound(c, t);
            return;
          }
        }
        node := node.Child(dir);
      }
      FoundBelow(c, addr, r, mmap);
      StepBound(c, t);
    }

    lemma InsertStep(c: Ctx<RbNode>, t: Tree<RbNode>, dir: Dir, v: Vma)
      requires rb.Realises(c, t) && t.Node? && Plug(c, t) == tree && Fits(c, v)
      requires mmap == Inorder(tree) && Sorted(mmap)
      requires if dir == Right then v.base >= t.v.vma.end else v.end <= t.v.vma.base && v.base < t.v.vma.end
      ensures rb.Realises(Down(c, t, dir), t.Child(dir)) && t.v.Child(dir) == Root(t.Child(dir))
      ensures Plug(Down(c, t, dir), t.Child(dir)) == tree && Fits(Down(c, t, dir), v)
    {
      hide Links, CtxLinks, Tidy, TidyCtx, Nodes, CtxNodes, CtxRoot, RbRoot.Realises, Plug, Inorder, Sorted, Fits;
      FitsDown(c, t, v, mmap);
      DownOrder(c, t, dir);
      Descend(c, t, dir);
    }

    /* The descent of insert_vma: where the new VMA hangs, unless it overlaps one on the way. */
    method InsertPoint(v: Vma) returns (ok: bool, parent: RbNode?, dir: Dir, ghost c: Ctx<RbNode>)
      requires Valid()
      ensures Valid()
      ensures !ok ==> exists n :: n in mmap && Overlap(v, n.vma)
      ensures ok ==> rb.Realises(c, Leaf) && Plug(c, Leaf) == tree && Fits(c, v)
      ensures ok ==> parent == CtxParent(c) && (c.Up? ==> c.dir == dir)
    {
      hide Links, CtxLinks, Tidy, TidyCtx, Nodes, CtxNodes, CtxRoot, RbRoot.Realises, Plug, Inorder, Sorted, Fits;
      AtRoot(0);
      FitsTop(v);
      var node := rb.root;
      parent, dir := null, Left;
      c := Top;
      ghost var t := tree;
      while node != null
        invariant node == Root(t) && rb.Realises(c, t) && Plug(c, t) == tree
        invariant Fits(c, v) && Sorted(mmap) && Valid()
        invariant parent == CtxParent(c) && (c.Up? ==> c.dir == dir)
        decreases t
      {
        var tmp := node.vma;
        parent := node;
        dir := if v.base >= tmp.end then Right else Left;
        FitsDown(c, t, v, mmap);
        if dir == Left {
          if v.end > tmp.base {
            return false, parent, dir, c;
          }
        }
        InsertStep(c, t, dir, v);
        c, t := Down(c, t, dir), t.Child(dir);
        node := node.Child(dir);
      }
      ok := true;
    }

    lemma FitsTop(v: Vma)
      ensures Fits(Top, v)
    {
    }

    /* insert_vma: links the VMA into the tree, rebalances, then links it into the list next
       to the node the descent ended at. */
    method InsertVma(n: RbNode) returns (ok: bool, ghost at: nat)
      requires Valid() && n !in rb.nodes && n.vma !in Payloads(mmap)
      requires n.parent == null && n.left == null && n.right == null && n.vma.base <= n.vma.end
      modifies this, rb, rb.nodes, n
      ensures Valid()
      ensures ok <==> forall m :: m in old(mmap) ==> !Overlap(n.vma, m.vma)
      ensures !ok ==> mmap == old(mmap) && tree == old(tree) && rb.nodes == old(rb.nodes)
      ensures ok ==> at <= |old(mmap)| && mmap == old(mmap)[..at] + [n] + old(mmap)[at..]
      ensures ok ==> forall j :: 0 <= j < |old(mmap)| ==> (j < at <==> old(mmap)[j].vma.end <= n.vma.base)
      ensures ok ==> rb.nodes == old(rb.nodes) + {n}
      ensures ok ==> tree == InsertedAt(old(tree), at, n)
      ensures ok && RedBlack(old(tree)) ==> RedBlack(tree)
    {
      hide Links, CtxLinks, Tidy, TidyCtx, Nodes, CtxNodes, CtxRoot, RbRoot.Realises, Plug, Inorder, Fits, RedBlack, Before, After;
      hide Linked, Valid;
      var parent, dir;
      ghost var c;
      ok, parent, dir, c := InsertPoint(n.vma);
      at := 0;
      if !ok {
        return;
      }
      at := |Before(c)|;
      Placement(c, n);
      ghost var s := mmap[..at] + [n] + mmap[at..];
      assert s == Before(c) + [n] + After(c);
      InsertedHere(c, n);
      LinkBoth(n, parent, dir, c, s);
    }

    /* insert_vma after the descent. */
    method LinkBoth(n: RbNode, parent: RbNode?, dir: Dir, ghost c: Ctx<RbNode>, ghost s: seq<RbNode>)
      requires n !in rb.nodes && n.parent == null && n.left == null && n.right == null
      requires rb.Realises(c, Leaf) && BlackTop(c) && parent == CtxParent(c) && (c.Up? ==> c.dir == dir)
      requires Inorder(Plug(c, Node(Leaf, n, n.color, Leaf))) == s && Sorted(s) && Separate(s)
      requires parent == null ==> [n] + mmap == s
      requires parent != null ==> parent in mmap
      requires parent != null ==> s == if dir == Right then InsertAfter<RbNode>(mmap, parent, n) else InsertBefore<RbNode>(mmap, parent, n)
      modifies this, rb, rb.nodes, n
      ensures Valid() && mmap == s && rb.nodes == old(rb.nodes) + {n}
      ensures tree == Balanced(c, Node(Leaf, n, Red, Leaf))
      ensures Repairing(c, Node(Leaf, n, Red, Leaf)) ==> RedBlack(tree)
    {
      hide RbRoot.Realises, BlackTop, Repairing, InsertAfter, InsertBefore, Sorted, Separate, Balanced, IndexOf, Inorder, Plug, RedBlack, Valid;
      LinkVma(n, parent, dir, c, s);
      LinkList(n, parent, dir, s);
    }

    /* The list half of insert_vma. */
    method LinkList(n: RbNode, parent: RbNode?, dir: Dir, ghost s: seq<RbNode>)
      requires rb.Realises(Top, tree) && IsBlack(tree) && Inorder(tree) == s
      requires Sorted(s) && Separate(s)
      requires parent == null ==> [n] + mmap == s
      requires parent != null ==> parent in mmap
      requires parent != null ==> s == if dir == Right then InsertAfter<RbNode>(mmap, parent, n) else InsertBefore<RbNode>(mmap, parent, n)
      modifies this`mmap
      ensures mmap == s && Valid()
    {
      hide RbRoot.Realises, Inorder, InsertAfter, InsertBefore;
      NotANode();
      if parent == null {
        mmap := [n] + mmap;
      } else {
        if dir == Right {
          mmap := InsertAfter<RbNode>(mmap, parent, n);
        } else {
          mmap := InsertBefore<RbNode>(mmap, parent, n);
        }
      }
    }

    lemma TreeNodes()
      requires Linked()
      ensures Nodes(tree) == rb.nodes && CtxNodes(Top) == {}
      ensures forall n :: n in mmap ==> n in rb.nodes
    {
      InNodes(tree);
    }

    /* Writing a field of the task touches no tree node. */
    lemma NotANode()
      ensures forall n :: n in rb.nodes ==> (n as object) != this
      ensures forall n :: n in Nodes(tree) ==> (n as object) != this
      ensures forall n :: n in CtxNodes(Top) ==> (n as object) != this
    {
    }

    /* The tree half of insert_vma. */
    method LinkVma(n: RbNode, parent: RbNode?, dir: Dir, ghost c: Ctx<RbNode>, ghost s: seq<RbNode>)
      requires n !in rb.nodes && n.parent == null && n.left == null && n.right == null
      requires rb.Realises(c, Leaf) && BlackTop(c)
      requires parent == CtxParent(c) && (c.Up? ==> c.dir == dir) && Sorted(s)
      modifies this`tree, rb, rb.nodes, n
      ensures Sorted(s)
      ensures rb.Realises(Top, tree) && IsBlack(tree) && rb.nodes == old(rb.nodes) + {n}
      ensures tree == Balanced(c, Node(Leaf, n, Red, Leaf))
      ensures Inorder(tree) == Inorder(Plug(c, Node(Leaf, n, old(n.color), Leaf)))
      ensures Repairing(c, Node(Leaf, n, Red, Leaf)) ==> RedBlack(tree)
    {
      assert c.Up? ==> c.v in rb.nodes;
      hide Links, CtxLinks, Tidy, TidyCtx, Nodes, CtxNodes, CtxRoot, RbRoot.Realises, Plug, Inorder, RedBlack, RedBlackCtx, BlackTop, Repairing;
      ghost var t := Node(Leaf, n, n.color, Leaf);
      rb.LinkLeaf(n, parent, dir, c);
      ghost var t' := rb.RbBalance(n, c, t);
      NotANode();
      tree := t';
    }

    lemma Placement(c: Ctx<RbNode>, n: RbNode)
      requires Valid() && Plug(c, Leaf) == tree && Fits(c, n.vma)
      requires n.vma !in Payloads(mmap) && n.vma.base <= n.vma.end
      ensures BlackTop(c) && IsBlack(tree) && mmap == Before(c) + After(c)
      ensures forall m :: m in mmap ==> !Overlap(n.vma, m.vma)
      ensures forall j :: 0 <= j < |mmap| ==> (j < |Before(c)| <==> mmap[j].vma.end <= n.vma.base)
      ensures RedBlack(tree) ==> Repairing(c, Node(Leaf, n, Red, Leaf))
      ensures Inorder(Plug(c, Node(Leaf, n, n.color, Leaf))) == Before(c) + [n] + After(c)
      ensures Sorted(Before(c) + [n] + After(c)) && Separate(Before(c) + [n] + After(c))
      ensures if c.Top? then mmap == [] && Before(c) == [] && After(c) == [] else c.v in mmap
      ensures c.Up? && c.dir == Right ==> InsertAfter(mmap, c.v, n) == Before(c) + [n] + After(c)
      ensures c.Up? && c.dir == Left ==> InsertBefore(mmap, c.v, n) == Before(c) + [n] + After(c)
    {
      NewLeaf(c, n, n.color);
      FitsPosition(c, n.vma);
      FitsNoOverlap(c, n.vma, mmap);
      SortedInsert(Before(c), n, After(c));
      if c.Up? {
        ListPosition(c, mmap, n);
      }
    }

    lemma FitsNoOverlap(c: Ctx<RbNode>, v: Vma, s: seq<RbNode>)
      requires Fits(c, v) && s == Inorder(Plug(c, Leaf))
      ensures forall m :: m in s ==> !Overlap(v, m.vma)
    {
      PlugLeaf(c);
    }

    /* remove_vma: out of the tree, unless rb_remove reads through a null pointer, then out of
       the list. */
    method RemoveVma(n: RbNode) returns (ok: bool)
      requires Linked() && n in mmap
      modifies this, rb, rb.nodes
      ensures ok <==> CanRemove(old(tree), IndexOf(old(mmap), n))
      ensures ok ==> Linked() && tree == RemovedAt(old(tree), IndexOf(old(mmap), n))
      ensures ok ==> mmap == Without(old(mmap), n) && rb.nodes == old(rb.nodes) - {n}
      ensures ok ==> n.parent == null && n.left == null && n.right == null
    {
      ghost var k := IndexOf(mmap, n);
      SpotPlug(Top, tree, k);
      assert Plug(Top, tree) == tree;
      ghost var (c, t) := Spot(Top, tree, k);
      rb.ZoomIn(c, t);
      hide Links, CtxLinks, Tidy, TidyCtx, Nodes, CtxNodes, CtxRoot, RbRoot.Realises, Plug, Inorder, Before, After, Without;
      hide Spot, SafeRemove, AfterRemove, Separate;
      ok := RbRemove(rb, n, c, t);
      if ok {
        WithoutPlug(c, t, AfterRemove(c, t), mmap);
        Unlink(n, AfterRemove(c, t));
      }
    }

    /* free_vmas: removes the first VMA until none is left. It returns if and only if the tree
       can be taken apart in this way. */
    method FreeVmas() returns (ok: bool)
      requires Linked()
      modifies this, rb, rb.nodes
      ensures ok <==> CanFree(old(tree))
      ensures ok ==> Linked() && mmap == [] && tree == Leaf && rb.nodes == {}
    {
      BlackRoot();
      hide Linked, CanFree, RemovedAt, CanRemove, Inorder;
      ok := true;
      var node: RbNode? := if mmap == [] then null else mmap[0];
      while node != null
        invariant Linked() && IsBlack(tree) && mmap == Inorder(tree) && rb.nodes <= old(rb.nodes)
        invariant CanFree(tree) <==> CanFree(old(tree))
        invariant node == if mmap == [] then null else mmap[0]
        decreases |mmap|
      {
        var vma := node;
        node := if |mmap| > 1 then mmap[1] else null;
        FreeStep(tree);
        FirstIndex(mmap, vma);
        ok := RemoveVma(vma);
        if !ok {
          return;
        }
        BlackRoot();
      }
      FreeEnd();
    }

    lemma BlackRoot()
      requires Linked()
      ensures IsBlack(tree) && mmap == Inorder(tree)
    {
    }

    lemma FreeEnd()
      requires Linked() && mmap == []
      ensures tree == Leaf && rb.nodes == {} && CanFree(tree)
    {
    }

    /* The list half of remove_vma. */
    method Unlink(n: RbNode, ghost t: Tree<RbNode>)
      requires n in mmap && rb.Realises(Top, t) && IsBlack(t) && Without(mmap, n) == Inorder(t) && Separate(Inorder(t))
      modifies this`mmap, this`tree
      ensures Linked() && mmap == Without(old(mmap), n) && tree == t
    {
      hide RbRoot.Realises, Inorder, Without, Separate;
      assert forall m :: m in Nodes(t) ==> (m as object) != this;
      NotANode();
      tree := t;
      mmap := Without(mmap, n);
    }
  }
}
