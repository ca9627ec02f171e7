/**
 Operations on the address space of a task (kernel/vma): creating, splitting, merging and
 removing VMAs, and what they do to the map from addresses to attributes.
 */
module VmaOps {
  import opened Common
  import opened RbTree
  import opened RbRepair
  import opened RbFree
  import opened VmaTree
  import opened Vmas

  const PAGE: nat := 4096
  const USER_LIM: nat := 0x800000000000

  predicate Aligned(a: nat) {
    a % PAGE == 0
  }

  lemma AlignedSum(a: nat, b: nat)
    requires Aligned(a) && Aligned(b)
    ensures Aligned(a + b)
  {
  }

  function RoundDown(a: nat): (r: nat)
    ensures r <= a < r + PAGE && Aligned(r)
  {
    a - a % PAGE
  }

  function RoundUp(a: nat): (r: nat)
    ensures a <= r < a + PAGE && Aligned(r)
  {
    RoundDown(a + PAGE - 1)
  }

  // ------------------------------------------------------------------ the address map

  datatype Region = Region(base: nat, end: nat, flags: nat, name: nat)

  ghost function Snap(v: Vma): Region
    reads v
  {
    Region(v.base, v.end, v.flags, v.name)
  }

  ghost function Regions(s: seq<RbNode>): (rs: seq<Region>)
    reads Payloads(s)
    ensures |rs| == |s|
  {
    if s == [] then [] else [Snap(s[0].vma)] + Regions(s[1..])
  }

  lemma {:induction false} RegionsAt(s: seq<RbNode>)
    ensures forall i :: 0 <= i < |s| ==> Regions(s)[i] == Snap(s[i].vma)
  {
    if s != [] {
      RegionsAt(s[1..]);
      assert forall i :: 1 <= i < |s| ==> Regions(s)[i] == Regions(s[1..])[i - 1] && s[i] == s[1..][i - 1];
    }
  }

  /* The flags and name at an address. */
  ghost function Attr(rs: seq<Region>, a: nat): Option<(nat, nat)> {
    if rs == [] then None
    else if rs[0].base <= a < rs[0].end then Some((rs[0].flags, rs[0].name))
    else Attr(rs[1..], a)
  }

  lemma {:induction false} AttrConcat(x: seq<Region>, y: seq<Region>, a: nat)
    ensures Attr(x + y, a) == if Attr(x, a).Some? then Attr(x, a) else Attr(y, a)
  {
    if x == [] {
      assert x + y == y;
    } else {
      assert (x + y)[1..] == x[1..] + y;
      AttrConcat(x[1..], y, a);
    }
  }

  /* Splitting region i at address m. */
  ghost function SplitAt(rs: seq<Region>, i: nat, m: nat): seq<Region>
    requires i < |rs|
  {
    rs[..i] + [rs[i].(end := m), rs[i].(base := m)] + rs[i + 1..]
  }

  /* Joining region i with its successor. */
  ghost function MergeAt(rs: seq<Region>, i: nat): seq<Region>
    requires i + 1 < |rs|
  {
    rs[..i] + [rs[i].(end := rs[i + 1].end)] + rs[i + 2..]
  }

  ghost predicate Mergeable(rs: seq<Region>, i: nat)
    requires i + 1 < |rs|
  {
    rs[i].flags == rs[i + 1].flags && rs[i].end == rs[i + 1].base && rs[i].name == rs[i + 1].name
  }

  lemma AttrOfThree(x: seq<Region>, y: seq<Region>, z: seq<Region>, a: nat)
    ensures Attr(x + y + z, a) ==
      if Attr(x, a).Some? then Attr(x, a) else if Attr(y, a).Some? then Attr(y, a) else Attr(z, a)
  {
    AttrConcat(x + y, z, a);
    AttrConcat(x, y, a);
  }

  lemma AttrOfOneAndTwo(r: Region, q: Region, a: nat)
    ensures Attr([r], a) == if r.base <= a < r.end then Some((r.flags, r.name)) else None
    ensures Attr([r, q], a) == if r.base <= a < r.end then Some((r.flags, r.name)) else Attr([q], a)
  {
    assert [r][1..] == [] && [r, q][1..] == [q];
  }

  lemma SplitKeepsMap(rs: seq<Region>, i: nat, m: nat, a: nat)
    requires i < |rs| && rs[i].base <= m <= rs[i].end
    ensures Attr(SplitAt(rs, i, m), a) == Attr(rs, a)
  {
    assert rs == rs[..i] + [rs[i]] + rs[i + 1..];
    AttrOfThree(rs[..i], [rs[i]], rs[i + 1..], a);
    AttrOfThree(rs[..i], [rs[i].(end := m), rs[i].(base := m)], rs[i + 1..], a);
    AttrOfOneAndTwo(rs[i], rs[i], a);
    AttrOfOneAndTwo(rs[i].(end := m), rs[i].(base := m), a);
    AttrOfOneAndTwo(rs[i].(base := m), rs[i], a);
  }

  lemma MergeUndoesSplit(rs: seq<Region>, i: nat, m: nat)
    requires i < |rs|
    ensures i + 1 < |SplitAt(rs, i, m)| && Mergeable(SplitAt(rs, i, m), i)
    ensures MergeAt(SplitAt(rs, i, m), i) == rs
  {
    var s := SplitAt(rs, i, m);
    assert s[i] == rs[i].(end := m) && s[i + 1] == rs[i].(base := m);
    assert s[..i] == rs[..i] && s[i + 2..] == rs[i + 1..];
    assert rs == rs[..i] + [rs[i]] + rs[i + 1..];
  }

  lemma MergeKeepsMap(rs: seq<Region>, i: nat, a: nat)
    requires i + 1 < |rs| && Mergeable(rs, i)
    requires rs[i].base <= rs[i].end <= rs[i + 1].end
    ensures Attr(MergeAt(rs, i), a) == Attr(rs, a)
  {
    var r := MergeAt(rs, i);
    assert r[i] == rs[i].(end := rs[i + 1].end);
    assert SplitAt(r, i, rs[i].end) == rs by {
      assert r[..i] == rs[..i] && r[i + 1..] == rs[i + 2..];
      assert rs == rs[..i] + [rs[i], rs[i + 1]] + rs[i + 2..];
    }
    SplitKeepsMap(r, i, rs[i].end, a);
  }

  // ------------------------------------------------------------------ sorted regions

  ghost predicate SortedRegions(rs: seq<Region>) {
    && (forall i :: 0 <= i < |rs| ==> rs[i].base <= rs[i].end)
    && (forall i, j :: 0 <= i < j < |rs| ==> rs[i].end <= rs[j].base)
  }

  lemma SortedAsRegions(s: seq<RbNode>)
    ensures Sorted(s) <==> SortedRegions(Regions(s))
  {
    RegionsAt(s);
    hide Regions;
  }

  predicate Meets(r: Region, base: nat, end: nat) {
    Intersect(r.base, r.end, base, end)
  }

  predicate Holds(r: Region, a: nat) {
    r.base <= a < r.end
  }

  ghost function Inserted<T>(s: seq<T>, at: nat, x: T): (t: seq<T>)
    requires at <= |s|
    ensures |t| == |s| + 1
    ensures forall j :: 0 <= j < |t| ==> t[j] == if j < at then s[j] else if j == at then x else s[j - 1]
  {
    s[..at] + [x] + s[at..]
  }

  lemma RegionsInserted(s: seq<RbNode>, at: nat, n: RbNode)
    requires at <= |s|
    ensures Regions(Inserted(s, at, n)) == Inserted(Regions(s), at, Snap(n.vma))
  {
    var rs := Regions(s);
    var t, q := Inserted(s, at, n), Inserted(rs, at, Snap(n.vma));
    assert |t| == |q| && |rs| == |s|;
    RegionsAt(s);
    RegionsAt(t);
    hide Regions, Inserted;
    forall j | 0 <= j < |t|
      ensures Regions(t)[j] == q[j]
    {
      InsertedIndex(s, at, n, j);
      InsertedIndex(rs, at, Snap(n.vma), j);
    }
  }

  lemma InsertedIndex<T>(s: seq<T>, at: nat, x: T, j: nat)
    requires at <= |s| && j <= |s|
    ensures Inserted(s, at, x)[j] == if j < at then s[j] else if j == at then x else s[j - 1]
  {
  }

  /* After truncating region i at addr, [addr, end) is free, and the only place for a region
     over it is right after region i. */
  lemma RightHalf(rs: seq<Region>, i: nat, addr: nat, at: nat, r: Region)
    requires SortedRegions(rs) && i < |rs| && rs[i].base < addr < rs[i].end && at <= |rs|
    requires r == rs[i].(base := addr)
    ensures var ts := rs[i := rs[i].(end := addr)];
      && (forall j :: 0 <= j < |ts| ==> !Meets(ts[j], addr, rs[i].end) && !Holds(ts[j], addr))
      && (SortedRegions(Inserted(ts, at, r)) ==> at == i + 1 && Inserted(ts, at, r) == SplitAt(rs, i, addr))
  {
    var ts := rs[i := rs[i].(end := addr)];
    var q := Inserted(ts, at, r);
    assert q[at] == r;
    assert at <= i ==> q[i + 1] == ts[i];
    assert at > i ==> q[i] == ts[i];
    assert at > i + 1 ==> q[i + 1] == ts[i + 1];
    if at == i + 1 {
      assert q == SplitAt(rs, i, addr);
    }
  }

  // ------------------------------------------------------------------ operations

  /* create_vma: a new VMA over the pages of [addr, addr + size); NULL if they are taken. */
  method CreateVma(task: Task, name: nat, addr: nat, size: nat, flags: nat) returns (r: RbNode?, ghost at: nat)
    requires task.Valid()
    modifies task, task.rb, task.rb.nodes
    ensures task.Valid() && fresh(task.rb.nodes - old(task.rb.nodes))
    ensures r == null <==>
      exists j :: 0 <= j < |old(task.mmap)| && Meets(old(Regions(task.mmap))[j], RoundDown(addr), RoundUp(addr + size))
    ensures r == null ==> task.mmap == old(task.mmap) && task.tree == old(task.tree) && Regions(task.mmap) == old(Regions(task.mmap))
    ensures r != null ==> Grown(Shape(task.tree), Shape(old(task.tree)), at)
    ensures r != null ==> fresh(r) && fresh(r.vma) && at <= |old(task.mmap)| && task.mmap == Inserted<RbNode>(old(task.mmap), at, r)
    ensures r != null ==>
      Regions(task.mmap) == Inserted(old(Regions(task.mmap)), at, Region(RoundDown(addr), RoundUp(addr + size), flags, name))
  {
    hide RoundDown, RoundUp, Inserted, Regions, IndexOf;
    hide Task.Linked, Links, CtxLinks, Tidy, TidyCtx, Nodes, CtxNodes, CtxRoot, RbRoot.Realises, RedBlack;
    assert RoundDown(addr) <= RoundUp(addr + size);
    task.TreeNodes();
    ghost var s, rs := task.mmap, Regions(task.mmap);
    var v := new Vma(name, RoundDown(addr), RoundUp(addr + size), flags);
    var n := new RbNode(v);
    var ok;
    ok, at := InsertKeeping(task, n, rs);
    r := if ok then n else null;
  }

  /* Tree t' is t after a node was inserted at position `at`. */
  ghost predicate Grown(t': Tree<()>, t: Tree<()>, at: nat) {
    IsBlack(t) && at <= |Inorder(t)| && t' == InsertedAt(t, at, ())
  }

  lemma GrownShape(t: Tree<RbNode>, at: nat, n: RbNode)
    requires IsBlack(t) && at <= |Inorder(t)|
    ensures Grown(Shape(InsertedAt(t, at, n)), Shape(t), at)
  {
    ShapeInserted(t, at, n);
  }

  lemma BlackTree(task: Task)
    requires task.Valid()
    ensures IsBlack(task.tree) && task.mmap == Inorder(task.tree)
    ensures IsBlack(Shape(task.tree)) && |Inorder(Shape(task.tree))| == |task.mmap|
  {
    ShapeSize(task.tree);
  }

  /* insert_vma, in terms of regions. */
  method InsertKeeping(task: Task, n: RbNode, ghost rs: seq<Region>) returns (ok: bool, ghost at: nat)
    requires task.Valid() && n !in task.rb.nodes && n.vma !in Payloads(task.mmap) && rs == Regions(task.mmap)
    requires n.parent == null && n.left == null && n.right == null && n.vma.base <= n.vma.end
    modifies task, task.rb, task.rb.nodes, n
    ensures task.Valid() && task.rb.nodes <= old(task.rb.nodes) + {n}
    ensures ok <==> forall j :: 0 <= j < |rs| ==> !Meets(rs[j], n.vma.base, n.vma.end)
    ensures !ok ==> task.mmap == old(task.mmap) && task.tree == old(task.tree) && Regions(task.mmap) == rs
    ensures ok ==> Grown(Shape(task.tree), Shape(old(task.tree)), at)
    ensures ok ==> at <= |rs| && task.mmap == Inserted(old(task.mmap), at, n) && Regions(task.mmap) == Inserted(rs, at, Snap(n.vma))
    ensures ok ==> forall j :: 0 <= j < |rs| ==> (j < at <==> rs[j].end <= n.vma.base)
  {
    hide Task.Valid, Task.Linked, RbRoot.Realises, RedBlack, Regions;
    ghost var s, t := task.mmap, task.tree;
    RegionsAt(s);
    BlackTree(task);
    ok, at := task.InsertVma(n);
    assert Regions(s) == rs;
    if ok {
      GrownShape(t, at, n);
      RegionsInserted(s, at, n);
      assert task.mmap == Inserted(s, at, n);
    }
  }

  /* Lowering the end of one VMA. */
  method Truncate(task: Task, lhs: RbNode, addr: nat, ghost i: nat)
    requires task.Valid() && i < |task.mmap| && task.mmap[i] == lhs
    requires lhs.vma.base <= addr <= lhs.vma.end
    modifies lhs.vma
    ensures task.Valid() && Regions(task.mmap) == old(Regions(task.mmap))[i := old(Snap(lhs.vma)).(end := addr)]
  {
    hide Regions, SortedRegions, RbRoot.Realises;
    ghost var rs := Regions(task.mmap);
    RegionsAt(task.mmap);
    ValidSorted(task);
    TruncateSorted(rs, i, addr);
    SetEnd(task, lhs, addr, i);
    SortedAsRegions(task.mmap);
  }

  lemma TruncateSorted(rs: seq<Region>, i: nat, addr: nat)
    requires SortedRegions(rs) && i < |rs| && rs[i].base <= addr <= rs[i].end
    ensures SortedRegions(rs[i := rs[i].(end := addr)])
  {
  }

  /* What find_free_vma reports for an address below USER_LIM: whether no VMA holds it. */
  method FindFree(task: Task, addr: nat) returns (free: bool)
    requires task.Valid() && addr < USER_LIM
    ensures task.Valid() && Regions(task.mmap) == old(Regions(task.mmap))
    ensures free <==> forall j :: 0 <= j < |task.mmap| ==> !Holds(Regions(task.mmap)[j], addr)
  {
    hide Task.Linked, RbRoot.Realises, RedBlack, Pow2, Regions;
    task.TreeNodes();
    ghost var s, rs := task.mmap, Regions(task.mmap);
    RegionsAt(s);
    var v, _ := task.FindVma(addr);
    RegionsAt(s);
    assert Regions(s) == rs;
    free := v == null || addr < v.vma.base;
    if v != null {
      HoldsFirst(s, addr, v);
      assert Holds(Regions(s)[IndexOf(s, v)], addr) <==> v.vma.base <= addr;
    }
  }

  /* In a sorted list, only the first VMA that ends above an address can hold it. */
  lemma HoldsFirst(s: seq<RbNode>, addr: nat, v: RbNode)
    requires Sorted(s) && FirstAbove(s, addr, v)
    ensures forall j :: 0 <= j < |s| && j != IndexOf(s, v) ==> !Holds(Regions(s)[j], addr)
  {
    RegionsAt(s);
    hide Regions;
  }

  predicate WholePages(r: Region) {
    Aligned(r.base) && Aligned(r.end)
  }

  ghost predicate PageAligned(v: Vma)
    reads v
  {
    Aligned(v.base) && Aligned(v.end)
  }

  /* split_vma: the VMA keeps the part below addr, a new VMA takes the part above. At an
     address inside a page the new VMA would overlap the old one, so the part above is lost. */
  method SplitVma(task: Task, lhs: RbNode, addr: nat, ghost i: nat) returns (r: RbNode?)
    requires task.Valid() && i < |task.mmap| && task.mmap[i] == lhs && PageAligned(lhs.vma)
    requires lhs.vma.base <= addr <= lhs.vma.end <= USER_LIM
    modifies task, task.rb, task.rb.nodes, lhs.vma
    ensures task.Valid() && fresh(task.rb.nodes - old(task.rb.nodes))
    ensures addr == old(lhs.vma.base) ==> r == lhs
    ensures old(lhs.vma.base) < addr == old(lhs.vma.end) ==> r == null
    ensures !(old(lhs.vma.base) < addr < old(lhs.vma.end)) ==>
      task.mmap == old(task.mmap) && task.tree == old(task.tree) && Regions(task.mmap) == old(Regions(task.mmap))
    ensures old(lhs.vma.base) < addr < old(lhs.vma.end) ==> (r != null <==> Aligned(addr))
    ensures old(lhs.vma.base) < addr < old(lhs.vma.end) && r != null ==>
      && task.mmap == Inserted<RbNode>(old(task.mmap), i + 1, r) && fresh(r) && fresh(r.vma)
      && Grown(Shape(task.tree), Shape(old(task.tree)), i + 1)
      && Regions(task.mmap) == SplitAt(old(Regions(task.mmap)), i, addr)
    ensures old(lhs.vma.base) < addr < old(lhs.vma.end) && r == null ==>
      && task.mmap == old(task.mmap) && task.tree == old(task.tree)
      && Regions(task.mmap) == old(Regions(task.mmap))[i := old(Snap(lhs.vma)).(end := addr)]
  {
    var size := lhs.vma.end - addr;
    if lhs.vma.base == addr {
      return lhs;
    }
    if lhs.vma.end == addr {
      return null;
    }
    r := SplitInside(task, lhs, addr, size, i);
  }

  /* split_vma at an address strictly inside the VMA. */
  method SplitInside(task: Task, lhs: RbNode, addr: nat, size: nat, ghost i: nat) returns (r: RbNode?)
    requires task.Valid() && i < |task.mmap| && task.mmap[i] == lhs && PageAligned(lhs.vma)
    requires lhs.vma.base < addr < lhs.vma.end <= USER_LIM && size == lhs.vma.end - addr
    modifies task, task.rb, task.rb.nodes, lhs.vma
    ensures task.Valid() && fresh(task.rb.nodes - old(task.rb.nodes))
    ensures r != null <==> Aligned(addr)
    ensures r != null ==>
      && task.mmap == Inserted<RbNode>(old(task.mmap), i + 1, r) && fresh(r) && fresh(r.vma)
      && Grown(Shape(task.tree), Shape(old(task.tree)), i + 1)
      && Regions(task.mmap) == SplitAt(old(Regions(task.mmap)), i, addr)
    ensures r == null ==>
      && task.mmap == old(task.mmap) && task.tree == old(task.tree)
      && Regions(task.mmap) == old(Regions(task.mmap))[i := old(Snap(lhs.vma)).(end := addr)]
  {
    hide Task.Valid, SplitAt, Regions, Inserted, SortedRegions, RoundUp, RoundDown, Aligned;
    ghost var rs := Regions(task.mmap);
    RegionsAt(task.mmap);
    ValidSorted(task);
    RightHalf(rs, i, addr, 0, rs[i].(base := addr));
    RoundedHalf(addr, rs[i]);
    Truncate(task, lhs, addr, i);
    ghost var ts := Regions(task.mmap);
    RegionsAt(task.mmap);
    var free := FindFree(task, addr);
    assert free;
    assert Meets(ts[i], RoundDown(addr), rs[i].end) <==> !Aligned(addr);
    ghost var at;
    r, at := CreateVma(task, lhs.vma.name, addr, size, lhs.vma.flags);
    if r != null {
      ValidSorted(task);
      RightHalf(rs, i, addr, at, rs[i].(base := addr));
    }
  }

  lemma ValidSorted(task: Task)
    requires task.Valid()
    ensures SortedRegions(Regions(task.mmap))
  {
    SortedAsRegions(task.mmap);
  }

  lemma RoundedHalf(addr: nat, r: Region)
    requires Aligned(r.base) && Aligned(r.end) && r.base < addr < r.end
    ensures RoundUp(addr + (r.end - addr)) == r.end
    ensures if Aligned(addr) then RoundDown(addr) == addr else r.base <= RoundDown(addr) < addr
  {
    hide RoundUp, RoundDown, Aligned;
    assert addr + (r.end - addr) == r.end;
    SamePage(r.end, RoundUp(r.end));
    if Aligned(addr) {
      SamePage(RoundDown(addr), addr);
    } else if RoundDown(addr) < r.base {
      SamePage(RoundDown(addr), r.base);
    }
  }

  lemma SamePage(a: nat, b: nat)
    requires Aligned(a) && Aligned(b) && a <= b < a + PAGE
    ensures a == b
  {
  }

  // ------------------------------------------------------------------ merging

  ghost function Removed<T>(s: seq<T>, i: nat): (t: seq<T>)
    requires i < |s|
    ensures |t| == |s| - 1
    ensures forall j :: 0 <= j < |t| ==> t[j] == if j < i then s[j] else s[j + 1]
  {
    s[..i] + s[i + 1..]
  }

  lemma RegionsRemoved(s: seq<RbNode>, i: nat)
    requires i < |s|
    ensures Regions(Removed(s, i)) == Removed(Regions(s), i)
  {
    var rs := Regions(s);
    var t, q := Removed(s, i), Removed(rs, i);
    assert |t| == |q| && |rs| == |s|;
    RegionsAt(s);
    RegionsAt(t);
    hide Regions, Removed;
    forall j | 0 <= j < |t|
      ensures Regions(t)[j] == q[j]
    {
      RemovedIndex(s, i, j);
      RemovedIndex(rs, i, j);
    }
  }

  lemma RemovedIndex<T>(s: seq<T>, i: nat, j: nat)
    requires i < |s| && j < |s| - 1
    ensures Removed(s, i)[j] == if j < i then s[j] else s[j + 1]
  {
  }

  lemma WithoutIsRemoved(s: seq<RbNode>, i: nat)
    requires i < |s| && Separate(s)
    ensures s[i] in s && IndexOf(s, s[i]) == i && Without(s, s[i]) == Removed(s, i)
  {
    assert IndexOf(s, s[i]) == i;
  }

  /* Writing the end of a VMA keeps list and tree linked, though not always sorted. */
  method SetEnd(task: Task, lhs: RbNode, end: nat, ghost i: nat)
    requires task.Linked() && i < |task.mmap| && task.mmap[i] == lhs
    modifies lhs.vma
    ensures task.Linked() && Regions(task.mmap) == old(Regions(task.mmap))[i := old(Snap(lhs.vma)).(end := end)]
  {
    hide RbRoot.Realises, Regions, Inorder;
    task.TreeNodes();
    assert forall n :: n in task.rb.nodes ==> (n as object) != lhs.vma;
    assert task.rb.Realises(Top, task.tree);
    RegionsAt(task.mmap);
    ghost var s, rs := task.mmap, Regions(task.mmap);
    lhs.vma.end := end;
    assert task.rb.Realises(Top, task.tree);
    RegionsAt(task.mmap);
    assert forall j :: 0 <= j < |s| && j != i ==> s[j].vma != lhs.vma;
    assert Regions(task.mmap) == rs[i := rs[i].(end := end)];
  }

  /* remove_vma, in terms of regions. */
  method RemoveKeeping(task: Task, n: RbNode, ghost i: nat, ghost rs: seq<Region>) returns (ok: bool)
    requires task.Linked() && i < |task.mmap| && task.mmap[i] == n && rs == Regions(task.mmap)
    modifies task, task.rb, task.rb.nodes
    ensures ok <==> CanRemove(old(task.tree), i)
    ensures ok ==> task.Linked() && task.rb.nodes <= old(task.rb.nodes) && task.tree == RemovedAt(old(task.tree), i)
    ensures ok ==> task.mmap == Removed(old(task.mmap), i) && Regions(task.mmap) == Removed(rs, i)
  {
    hide Regions, Removed, Without, RbRoot.Realises, Inorder, CanRemove, RemovedAt;
    ghost var s := task.mmap;
    WithoutIsRemoved(s, i);
    hide Task.Linked, Separate;
    RegionsAt(s);
    ok := task.RemoveVma(n);
    RegionsAt(s);
    assert Regions(s) == rs;
    RegionsRemoved(s, i);
  }

  lemma MergeSorted(rs: seq<Region>, i: nat)
    requires SortedRegions(rs) && i + 1 < |rs| && Mergeable(rs, i)
    ensures SortedRegions(MergeAt(rs, i))
    ensures Removed(rs[i := rs[i].(end := rs[i + 1].end)], i + 1) == MergeAt(rs, i)
  {
    var q := MergeAt(rs, i);
    forall j | 0 <= j < |q|
      ensures q[j] == if j < i then rs[j] else if j == i then rs[i].(end := rs[i + 1].end) else rs[j + 1]
    {
    }
  }

  /* merge_vma on neighbours in the list: the left one takes over the range of the right one,
     which is removed. */
  method MergeVma(task: Task, lhs: RbNode, rhs: RbNode, ghost i: nat) returns (ok: bool, r: RbNode?)
    requires task.Valid() && i + 1 < |task.mmap| && task.mmap[i] == lhs && task.mmap[i + 1] == rhs
    modifies task, task.rb, task.rb.nodes, lhs.vma
    ensures ok <==> (Mergeable(old(Regions(task.mmap)), i) ==> CanRemove(old(task.tree), i + 1))
    ensures ok ==> task.Valid() && task.rb.nodes <= old(task.rb.nodes)
    ensures ok ==> (r != null <==> Mergeable(old(Regions(task.mmap)), i))
    ensures ok && r == null ==> task.mmap == old(task.mmap) && Regions(task.mmap) == old(Regions(task.mmap))
    ensures ok && r == null ==> task.tree == old(task.tree)
    ensures ok && r != null ==> r == lhs && task.mmap == Removed(old(task.mmap), i + 1)
    ensures ok && r != null ==> task.tree == RemovedAt(old(task.tree), i + 1)
    ensures ok && r != null ==> Regions(task.mmap) == MergeAt(old(Regions(task.mmap)), i)
  {
    ghost var rs := Regions(task.mmap);
    RegionsAt(task.mmap);
    if !(lhs.vma.flags == rhs.vma.flags && lhs.vma.end == rhs.vma.base && lhs.vma.name == rhs.vma.name) {
      return true, null;
    }
    ValidSorted(task);
    MergeSorted(rs, i);
    hide Task.Linked, RbRoot.Realises, Regions, Removed, MergeAt, SortedRegions, CanRemove, RemovedAt;
    SetEnd(task, lhs, rhs.vma.end, i);
    ok := RemoveKeeping(task, rhs, i + 1, Regions(task.mmap));
    r := lhs;
    if ok {
      SortedAsRegions(task.mmap);
    }
  }

  // ------------------------------------------------------------------ removing a range

  lemma {:induction false} AttrRemoved(rs: seq<Region>, i: nat, a: nat)
    requires SortedRegions(rs) && i < |rs|
    ensures Attr(Removed(rs, i), a) == if Holds(rs[i], a) then None else Attr(rs, a)
  {
    var x, z := rs[..i], rs[i + 1..];
    assert rs == x + [rs[i]] + z && Removed(rs, i) == x + z;
    AttrOfThree(x, [rs[i]], z, a);
    AttrConcat(x, z, a);
    AttrOfOneAndTwo(rs[i], rs[i], a);
    if Holds(rs[i], a) {
      NoAttr(x, a);
      NoAttr(z, a);
    }
  }

  lemma {:induction false} NoAttr(rs: seq<Region>, a: nat)
    requires forall j :: 0 <= j < |rs| ==> !Holds(rs[j], a)
    ensures Attr(rs, a) == None
  {
    if rs != [] {
      NoAttr(rs[1..], a);
    }
  }

  ghost predicate SameMap(rs: seq<Region>, qs: seq<Region>) {
    forall a: nat :: Attr(rs, a) == Attr(qs, a)
  }

  /* What merge_vmas makes of region i and its neighbours, and where the result is. */
  ghost function MergedLeft(rs: seq<Region>, i: nat): (r: (seq<Region>, nat))
    requires i < |rs|
    ensures r.1 < |r.0|
  {
    if i > 0 && Mergeable(rs, i - 1) then (MergeAt(rs, i - 1), i - 1) else (rs, i)
  }

  ghost function MergedRight(rs: seq<Region>, k: nat): seq<Region>
    requires k < |rs|
  {
    if k + 1 < |rs| && Mergeable(rs, k) then MergeAt(rs, k) else rs
  }

  /* Where no neighbours can merge but the VMA at i with one or both of its own, none can
     afterwards. */
  lemma MergedFully(rs: seq<Region>, i: nat)
    requires i < |rs| && forall j: nat :: j + 1 < |rs| && Mergeable(rs, j) ==> j == i - 1 || j == i
    ensures var (qs, k) := MergedLeft(rs, i);
      var ts := MergedRight(qs, k);
      forall j: nat :: j + 1 < |ts| ==> !Mergeable(ts, j)
  {
    var (qs, k) := MergedLeft(rs, i);
    if k != i {
      MergeAtPairs(rs, k);
    }
    hide MergeAt, MergedLeft;
    if k + 1 < |qs| && Mergeable(qs, k) {
      MergeAtPairs(qs, k);
    }
  }

  /* Which neighbours can merge after a merge at k. */
  lemma MergeAtPairs(rs: seq<Region>, k: nat)
    requires k + 1 < |rs|
    ensures var qs := MergeAt(rs, k);
      && |qs| == |rs| - 1
      && (forall j: nat :: j < k ==> (Mergeable(qs, j) <==> Mergeable(rs, j)))
      && (Mergeable(rs, k) ==> forall j: nat :: k <= j && j + 1 < |qs| ==> (Mergeable(qs, j) <==> Mergeable(rs, j + 1)))
  {
  }

  lemma MergeSameMap(rs: seq<Region>, i: nat)
    requires SortedRegions(rs) && i + 1 < |rs| && Mergeable(rs, i)
    ensures SameMap(MergeAt(rs, i), rs)
  {
    forall a: nat
      ensures Attr(MergeAt(rs, i), a) == Attr(rs, a)
    {
      MergeKeepsMap(rs, i, a);
    }
  }

  /* The removals that merge_vmas asks for read through no null pointer. */
  ghost predicate CanMerge(t: Tree<RbNode>, rs: seq<Region>, i: nat)
    requires i < |rs| == |Inorder(t)|
  {
    && CanMergeLeft(t, rs, i)
    && var t' := TreeLeft(t, rs, i);
       (i + 1 < |rs| && Mergeable(rs, i) ==>
          var next := if i > 0 && Mergeable(rs, i - 1) then i else i + 1;
          next < |Inorder(t')| && CanRemove(t', next))
  }

  ghost predicate CanMergeLeft(t: Tree<RbNode>, rs: seq<Region>, i: nat)
    requires i < |rs| == |Inorder(t)|
  {
    i > 0 && Mergeable(rs, i - 1) ==> CanRemove(t, i)
  }

  ghost predicate CanMergeRight(t: Tree<RbNode>, rs: seq<Region>, k: nat)
    requires k < |rs| == |Inorder(t)|
  {
    k + 1 < |rs| && Mergeable(rs, k) ==> CanRemove(t, k + 1)
  }

  /* The tree after the VMA was merged into the one before it, if it was. */
  ghost function TreeLeft(t: Tree<RbNode>, rs: seq<Region>, i: nat): Tree<RbNode>
    requires i < |rs| == |Inorder(t)| && CanMergeLeft(t, rs, i)
  {
    if i > 0 && Mergeable(rs, i - 1) then RemovedAt(t, i) else t
  }

  /* Merging to the left does not change whether the VMA and the next one can be merged. */
  lemma MergeRightAfterLeft(t: Tree<RbNode>, rs: seq<Region>, i: nat)
    requires i < |rs| == |Inorder(t)| && CanMergeLeft(t, rs, i)
    requires |Inorder(TreeLeft(t, rs, i))| == |MergedLeft(rs, i).0|
    ensures CanMerge(t, rs, i) <==> CanMergeRight(TreeLeft(t, rs, i), MergedLeft(rs, i).0, MergedLeft(rs, i).1)
  {
    hide CanRemove, RemovedAt, Inorder;
  }

  /* merge_vmas: tries the VMA with its neighbours in the list; the address map is kept. */
  method MergeVmas(task: Task, vma0: RbNode, ghost i: nat) returns (ok: bool, vma: RbNode, ghost k: nat)
    requires task.Valid() && i < |task.mmap| && task.mmap[i] == vma0
    modifies task, task.rb, task.rb.nodes, Payloads(task.mmap)
    ensures ok <==> CanMerge(old(task.tree), old(Regions(task.mmap)), i)
    ensures ok ==> task.Valid() && k < |task.mmap| && task.mmap[k] == vma
    ensures ok ==> SameMap(Regions(task.mmap), old(Regions(task.mmap)))
    ensures ok ==> var (qs, j) := MergedLeft(old(Regions(task.mmap)), i);
      k == j && Regions(task.mmap) == MergedRight(qs, j)
  {
    BlackTree(task);
    hide Task.Valid, Regions, MergedLeft, MergedRight, SameMap, Payloads, CanMergeLeft, CanMergeRight, TreeLeft, Inorder;
    ghost var rs, t := Regions(task.mmap), task.tree;
    ok, vma, k := MergePrev(task, vma0, i);
    if !ok {
      return;
    }
    BlackTree(task);
    ghost var qs := Regions(task.mmap);
    MergeRightAfterLeft(t, rs, i);
    ok, vma := MergeNext(task, vma, k);
    if ok {
      SameMapTrans(Regions(task.mmap), qs, old(Regions(task.mmap)));
    }
  }

  method MergePrev(task: Task, vma0: RbNode, ghost i: nat) returns (ok: bool, vma: RbNode, ghost k: nat)
    requires task.Valid() && i < |task.mmap| && task.mmap[i] == vma0
    modifies task, task.rb, task.rb.nodes, Payloads(task.mmap)
    ensures ok <==> CanMergeLeft(old(task.tree), old(Regions(task.mmap)), i)
    ensures ok ==> task.Valid() && k < |task.mmap| && task.mmap[k] == vma && task.rb.nodes <= old(task.rb.nodes)
    ensures ok ==> Payloads(task.mmap) <= old(Payloads(task.mmap))
    ensures ok ==> SameMap(Regions(task.mmap), old(Regions(task.mmap)))
    ensures ok ==> (Regions(task.mmap), k) == MergedLeft(old(Regions(task.mmap)), i)
    ensures ok ==> task.tree == TreeLeft(old(task.tree), old(Regions(task.mmap)), i)
  {
    ghost var rs, s := Regions(task.mmap), task.mmap;
    SameMapRefl(rs);
    ok, vma, k := true, vma0, i;
    ListIndex(task, i);
    ValidSorted(task);
    hide Task.Linked, RbRoot.Realises, MergeAt, SortedRegions, SameMap, Attr, Separate, Sorted, IndexOf, Removed, CanRemove, RemovedAt, Inorder;
    var at := IndexOf(task.mmap, vma);
    if at > 0 {
      var merged;
      ok, merged := MergeVma(task, task.mmap[at - 1], vma, i - 1);
      if ok && merged != null {
        MergeSameMap(rs, i - 1);
        RemovedIndex(s, i, i - 1);
        RemovedPayloads(s, i);
        vma, k := merged, i - 1;
      }
    }
  }

  method MergeNext(task: Task, vma0: RbNode, ghost k: nat) returns (ok: bool, vma: RbNode)
    requires task.Valid() && k < |task.mmap| && task.mmap[k] == vma0
    modifies task, task.rb, task.rb.nodes, Payloads(task.mmap)
    ensures ok <==> CanMergeRight(old(task.tree), old(Regions(task.mmap)), k)
    ensures ok ==> task.Valid() && k < |task.mmap| && task.mmap[k] == vma
    ensures ok ==> SameMap(Regions(task.mmap), old(Regions(task.mmap)))
    ensures ok ==> Regions(task.mmap) == MergedRight(old(Regions(task.mmap)), k)
  {
    ghost var rs, s := Regions(task.mmap), task.mmap;
    SameMapRefl(rs);
    ok, vma := true, vma0;
    ListIndex(task, k);
    ValidSorted(task);
    hide Task.Linked, RbRoot.Realises, MergeAt, SortedRegions, SameMap, Attr, Separate, Sorted, IndexOf, Removed, CanRemove, RemovedAt, Inorder;
    var at := IndexOf(task.mmap, vma);
    if at + 1 < |task.mmap| {
      var merged;
      ok, merged := MergeVma(task, vma, task.mmap[at + 1], k);
      if ok && merged != null {
        MergeSameMap(rs, k);
        RemovedIndex(s, k + 1, k);
        vma := merged;
      }
    }
  }

  lemma RemovedPayloads(s: seq<RbNode>, i: nat)
    requires i < |s|
    ensures Payloads(Removed(s, i)) <= Payloads(s)
  {
    var t := Removed(s, i);
    forall n | n in t
      ensures n in s
    {
      var j :| 0 <= j < |t| && t[j] == n;
      assert t[j] == if j < i then s[j] else s[j + 1];
    }
  }

  /* A node of the list is found where it is. */
  lemma ListIndex(task: Task, i: nat)
    requires task.Valid() && i < |task.mmap|
    ensures task.mmap[i] in task.mmap && IndexOf(task.mmap, task.mmap[i]) == i
  {
    hide RbRoot.Realises, Inorder;
  }

  lemma SplitSameMap(rs: seq<Region>, i: nat, m: nat)
    requires i < |rs| && rs[i].base <= m <= rs[i].end
    ensures SameMap(SplitAt(rs, i, m), rs)
  {
    forall a: nat
      ensures Attr(SplitAt(rs, i, m), a) == Attr(rs, a)
    {
      SplitKeepsMap(rs, i, m, a);
    }
  }

  /* split_vma at a page boundary: the address map is kept. */
  method SplitAligned(task: Task, lhs: RbNode, addr: nat, ghost i: nat, ghost was: Region) returns (r: RbNode?, ghost k: nat)
    requires task.Valid() && i < |task.mmap| && task.mmap[i] == lhs && was == Snap(lhs.vma) && WholePages(was)
    requires was.base <= addr <= was.end <= USER_LIM && Aligned(addr)
    modifies task, task.rb, task.rb.nodes, lhs.vma
    ensures task.Valid() && fresh(task.rb.nodes - old(task.rb.nodes))
    ensures SameMap(Regions(task.mmap), old(Regions(task.mmap)))
    ensures r == null <==> was.base < addr == was.end
    ensures r != null ==> k < |task.mmap| && task.mmap[k] == r && Snap(r.vma) == was.(base := addr)
    ensures r != null ==> if addr == was.base then r == lhs && k == i else fresh(r) && fresh(r.vma) && k == i + 1
    ensures if was.base < addr < was.end then Grown(Shape(task.tree), Shape(old(task.tree)), i + 1)
      else task.tree == old(task.tree)
    ensures i < |task.mmap| && task.mmap[i] == lhs && Snap(lhs.vma) == if was.base < addr then was.(end := addr) else was
  {
    hide Task.Valid, Regions, SameMap, Attr, Grown, Shape;
    ghost var rs := Regions(task.mmap);
    RegionsAt(task.mmap);
    SplitSameMap(rs, i, addr);
    SameMapRefl(rs);
    r := SplitVma(task, lhs, addr, i);
    k := if r == lhs then i else i + 1;
    RegionsAt(task.mmap);
    assert Regions(task.mmap)[i] == Snap(lhs.vma);
    assert r != null ==> Regions(task.mmap)[k] == Snap(r.vma);
  }

  lemma SameMapRefl(rs: seq<Region>)
    ensures SameMap(rs, rs)
  {
  }

  /* The tree after the VMA at position i was cut below and above a range, where needed. */
  ghost function CutShape(t: Tree<()>, i: nat, below: bool, above: bool): (r: Tree<()>)
    requires IsBlack(t) && i < |Inorder(t)|
    ensures IsBlack(r) && |Inorder(r)| == |Inorder(t)| + (if below then 1 else 0) + if above then 1 else 0
  {
    InsertedOrder(t, i + 1, ());
    var m := if below then InsertedAt(t, i + 1, ()) else t;
    var k := if below then i + 1 else i;
    InsertedOrder(m, k + 1, ());
    if above then InsertedAt(m, k + 1, ()) else m
  }

  ghost predicate WasCut(t': Tree<()>, t: Tree<()>, i: nat, below: bool, above: bool) {
    IsBlack(t) && i < |Inorder(t)| && t' == CutShape(t, i, below, above)
  }

  lemma TwoCuts(t': Tree<()>, m: Tree<()>, t: Tree<()>, i: nat, below: bool, above: bool)
    requires IsBlack(t) && i < |Inorder(t)|
    requires if below then Grown(m, t, i + 1) else m == t
    requires if above then Grown(t', m, if below then i + 2 else i + 1) else t' == m
    ensures WasCut(t', t, i, below, above)
  {
    hide Inorder, InsertedAt;
  }

  /* The second cut of split_vmas, whose result is not used, after a first one below or none. */
  method SplitAbove(task: Task, mid: RbNode, addr: nat, ghost k: nat, ghost was: Region,
                    ghost rs: seq<Region>, ghost t: Tree<()>, ghost i: nat, ghost below: bool)
    requires task.Valid() && k < |task.mmap| && task.mmap[k] == mid && was == Snap(mid.vma) && WholePages(was)
    requires was.base <= addr <= was.end <= USER_LIM && Aligned(addr)
    requires SameMap(Regions(task.mmap), rs) && IsBlack(t) && i < |Inorder(t)| && k == if below then i + 1 else i
    requires if below then Grown(Shape(task.tree), t, i + 1) else Shape(task.tree) == t
    modifies task, task.rb, task.rb.nodes, mid.vma
    ensures task.Valid() && SameMap(Regions(task.mmap), rs)
    ensures forall n :: n in task.rb.nodes ==> n in old(task.rb.nodes) || fresh(n)
    ensures k < |task.mmap| && task.mmap[k] == mid && Snap(mid.vma) == if was.base < addr then was.(end := addr) else was
    ensures WasCut(Shape(task.tree), t, i, below, was.base < addr < was.end)
  {
    hide Task.Valid, Task.Linked, Regions, SameMap, WasCut, Grown, Shape, Inorder, Aligned, WholePages;
    ghost var qs, m := Regions(task.mmap), Shape(task.tree);
    var _, _ := SplitAligned(task, mid, addr, k, was);
    TwoCuts(Shape(task.tree), m, t, i, below, was.base < addr < was.end);
    SameMapTrans(Regions(task.mmap), qs, rs);
  }

  /* The first cut of split_vmas. */
  method SplitBelow(task: Task, vma: RbNode, addr: nat, ghost i: nat, ghost was: Region, ghost rs: seq<Region>, ghost t: Tree<()>)
    returns (mid: RbNode?, ghost k: nat)
    requires task.Valid() && i < |task.mmap| && task.mmap[i] == vma && was == Snap(vma.vma) && WholePages(was)
    requires was.base <= addr <= was.end <= USER_LIM && Aligned(addr) && rs == Regions(task.mmap) && t == Shape(task.tree)
    modifies task, task.rb, task.rb.nodes, vma.vma
    ensures task.Valid() && SameMap(Regions(task.mmap), rs)
    ensures forall n :: n in task.rb.nodes ==> n in old(task.rb.nodes) || fresh(n)
    ensures mid == null <==> was.base < addr == was.end
    ensures mid != null ==> k < |task.mmap| && task.mmap[k] == mid && k == if was.base < addr then i + 1 else i
    ensures mid != null ==> Snap(mid.vma) == was.(base := addr) && (mid.vma == vma.vma || fresh(mid.vma))
    ensures mid != null ==> if was.base < addr then Grown(Shape(task.tree), t, i + 1) else Shape(task.tree) == t
  {
    mid, k := SplitAligned(task, vma, addr, i, was);
  }

  /* split_vmas: cuts [base, base + size) out of a VMA and returns it. With size 0 the second
     cut does nothing, and the part from base to the end is returned. */
  method SplitVmas(task: Task, vma: RbNode, base: nat, size: nat, ghost i: nat, ghost was: Region, ghost rs: seq<Region>, ghost t: Tree<()>)
    returns (mid: RbNode?, ghost k: nat)
    requires task.Valid() && i < |task.mmap| && task.mmap[i] == vma && was == Snap(vma.vma) && WholePages(was)
    requires Aligned(base) && Aligned(size) && was.base <= base && base + size <= was.end <= USER_LIM
    requires rs == Regions(task.mmap) && t == Shape(task.tree) && IsBlack(t) && i < |Inorder(t)|
    modifies task, task.rb, task.rb.nodes, vma.vma
    ensures task.Valid() && SameMap(Regions(task.mmap), rs)
    ensures forall n :: n in task.rb.nodes ==> n in old(task.rb.nodes) || fresh(n)
    ensures mid == null <==> was.base < base == was.end
    ensures mid != null ==> k < |task.mmap| && task.mmap[k] == mid && k == if was.base < base then i + 1 else i
    ensures mid != null ==> WasCut(Shape(task.tree), t, i, was.base < base, 0 < size && base + size < was.end)
    ensures mid != null ==> Snap(mid.vma) == was.(base := base, end := if size == 0 then was.end else base + size)
  {
    AlignedSum(base, size);
    assert WholePages(was.(base := base));
    hide Task.Valid, Task.Linked, Regions, SameMap, WasCut, Grown, Shape, Inorder, Aligned, WholePages;
    mid, k := SplitBelow(task, vma, base, i, was, rs, t);
    if mid == null {
      return;
    }
    SplitAbove(task, mid, base + size, k, was.(base := base), rs, t, i, was.base < base);
  }

  lemma SameMapTrans(rs: seq<Region>, qs: seq<Region>, ts: seq<Region>)
    requires SameMap(rs, qs) && SameMap(qs, ts)
    ensures SameMap(rs, ts)
  {
  }

  /* Taking a range out of the VMA at position i reads through no null pointer: the tree,
     after the cuts the range asks for, lets go of the part between them. */
  ghost predicate CanTake(t: Tree<RbNode>, i: nat, below: bool, above: bool)
    requires IsBlack(t) && i < |Inorder(t)|
  {
    ShapeSize(t);
    CanRemove(CutShape(Shape(t), i, below, above), if below then i + 1 else i)
  }

  /* do_remove_vma: removes the pages of [base, base + size) from one VMA. With size 0 it
     removes everything from base to the end of the VMA. */
  method DoRemoveVma(task: Task, vma: RbNode, base: nat, size: nat, ghost i: nat) returns (ok: bool, found: bool)
    requires task.Valid() && i < |task.mmap| && task.mmap[i] == vma && PageAligned(vma.vma)
    requires vma.vma.base <= RoundDown(base) && RoundDown(base) + RoundUp(size) <= vma.vma.end <= USER_LIM
    modifies task, task.rb, task.rb.nodes, vma.vma
    ensures !found <==> old(vma.vma.base) < RoundDown(base) == old(vma.vma.end)
    ensures ok <==> (found ==> CanTake(old(task.tree), i, old(vma.vma.base) < RoundDown(base),
                                       0 < size && RoundDown(base) + RoundUp(size) < old(vma.vma.end)))
    ensures ok ==> task.Valid()
    ensures !found ==> SameMap(Regions(task.mmap), old(Regions(task.mmap)))
    ensures ok && found ==>
      Cleared(Regions(task.mmap), old(Regions(task.mmap)), RoundDown(base),
              if size == 0 then old(vma.vma.end) else RoundDown(base) + RoundUp(size))
  {
    BlackTree(task);
    hide Task.Valid, Regions, SameMap, Cleared, RoundDown, RoundUp, Aligned, CanTake, Inorder;
    var base' := RoundDown(base);
    var size' := RoundUp(size);
    RoundUpZero(size);
    ghost var was, rs, t := Snap(vma.vma), Regions(task.mmap), task.tree;
    var mid;
    ghost var k;
    mid, k := SplitVmas(task, vma, base', size', i, was, rs, Shape(t));
    found := mid != null;
    if !found {
      return true, false;
    }
    ok := TakeOut(task, mid, k, rs, t, i, was.base < base', 0 < size && base' + size' < was.end);
  }

  lemma RoundUpZero(size: nat)
    ensures RoundUp(size) == 0 <==> size == 0
  {
  }

  /* The removal of what split_vmas has cut out. */
  method TakeOut(task: Task, mid: RbNode, ghost k: nat, ghost rs: seq<Region>, ghost t: Tree<RbNode>,
                 ghost i: nat, ghost below: bool, ghost above: bool) returns (ok: bool)
    requires task.Valid() && k < |task.mmap| && task.mmap[k] == mid && SameMap(Regions(task.mmap), rs)
    requires IsBlack(t) && i < |Inorder(t)| && k == i + if below then 1 else 0
    requires WasCut(Shape(task.tree), Shape(t), i, below, above)
    modifies task, task.rb, task.rb.nodes
    ensures ok <==> CanTake(t, i, below, above)
    ensures ok ==> task.Valid() && Cleared(Regions(task.mmap), rs, old(mid.vma.base), old(mid.vma.end))
  {
    hide Regions, Attr, SameMap, Cleared, SortedRegions, Removed, Task.Linked, CutShape, Inorder, CanRemove, Shape;
    ghost var qs := Regions(task.mmap);
    ValidSorted(task);
    RegionsAt(task.mmap);
    assert Snap(mid.vma) == qs[k];
    BlackTree(task);
    ShapeCanRemove(task.tree, k);
    hide CanTake, WasCut;
    ok := RemoveKeeping(task, mid, k, qs);
    if ok {
      RemovedStaysSorted(qs, k);
      SortedAsRegions(task.mmap);
      RemovedCleared(qs, k, rs);
    }
  }

  /* The map qs is rs with the addresses from lo up to hi taken out. */
  ghost predicate Cleared(qs: seq<Region>, rs: seq<Region>, lo: nat, hi: nat) {
    forall a: nat :: Attr(qs, a) == if lo <= a < hi then None else Attr(rs, a)
  }

  lemma RemovedCleared(rs: seq<Region>, k: nat, ts: seq<Region>)
    requires SortedRegions(rs) && k < |rs| && SameMap(rs, ts)
    ensures Cleared(Removed(rs, k), ts, rs[k].base, rs[k].end)
  {
    forall a: nat
      ensures Attr(Removed(rs, k), a) == if Holds(rs[k], a) then None else Attr(ts, a)
    {
      AttrRemoved(rs, k, a);
    }
  }

  lemma RemovedStaysSorted(rs: seq<Region>, k: nat)
    requires SortedRegions(rs) && k < |rs|
    ensures SortedRegions(Removed(rs, k))
  {
  }

  // ------------------------------------------------------------------ copying an address space

  lemma Appended(rs: seq<Region>, i: nat, at: nat)
    requires i < |rs| && at <= i && SortedRegions(rs)
    requires forall j :: 0 <= j < i ==> (j < at <==> rs[..i][j].end <= rs[i].base)
    ensures at == i && Inserted(rs[..i], at, rs[i]) == rs[..i + 1]
  {
    if i > 0 {
      assert rs[..i][i - 1] == rs[i - 1];
    }
    assert rs[..i][..i] == rs[..i] && rs[..i][i..] == [];
  }

  lemma NoneMeets(rs: seq<Region>, i: nat)
    requires i < |rs| && SortedRegions(rs)
    ensures forall j :: 0 <= j < i ==> !Meets(rs[..i][j], rs[i].base, rs[i].end)
  {
  }

  /* The copy of one VMA in task_clone: it goes to the end of the list and of the tree. */
  method CopyVma(child: Task, v: Vma, ghost rs: seq<Region>, ghost i: nat)
    requires child.Valid() && i < |rs| && SortedRegions(rs) && Snap(v) == rs[i]
    requires Regions(child.mmap) == rs[..i] && Shape(child.tree) == Ascending(i)
    modifies child, child.rb, child.rb.nodes
    ensures child.Valid() && Regions(child.mmap) == rs[..i + 1] && Shape(child.tree) == Ascending(i + 1)
    ensures forall n :: n in child.rb.nodes ==> n in old(child.rb.nodes) || fresh(n)
  {
    hide Inserted, Regions, Meets, Task.Linked, RbRoot.Realises, RedBlack, Lean, Shape, InsertedAt, SortedRegions;
    NoneMeets(rs, i);
    BaseEnd(rs, i);
    child.TreeNodes();
    var copy := new Vma(v.name, v.base, v.end, v.flags);
    var n := new RbNode(copy);
    var ok;
    ghost var at;
    ok, at := InsertKeeping(child, n, rs[..i]);
    assert Snap(n.vma) == rs[i];
    Appended(rs, i, at);
  }

  lemma BaseEnd(rs: seq<Region>, i: nat)
    requires i < |rs| && SortedRegions(rs)
    ensures rs[i].base <= rs[i].end
  {
  }

  /* The VMA loop of task_clone: the child has the same regions, in a tree that was built in
     ascending order and can be taken apart. */
  method CloneVmas(parent: Task) returns (child: Task)
    requires parent.Valid()
    ensures parent.Valid() && Regions(parent.mmap) == old(Regions(parent.mmap))
    ensures fresh(child) && fresh(child.rb) && fresh(child.rb.nodes) && child.Valid()
    ensures Regions(child.mmap) == Regions(parent.mmap) && Shape(child.tree) == Ascending(|parent.mmap|)
    ensures RedBlack(child.tree) && CanFree(child.tree)
  {
    hide Regions, SortedRegions, Shape, Ascending, CanFree, RedBlack, Task.Linked;
    ghost var s, rs := parent.mmap, Regions(parent.mmap);
    ValidSorted(parent);
    RegionsAt(s);
    parent.TreeNodes();
    child := new Task();
    NothingYet(child);
    assert parent.Linked();
    var i := 0;
    while i < |parent.mmap|
      invariant i <= |s| && parent.mmap == s && parent.Valid() && forall j :: 0 <= j < |s| ==> rs[j] == Snap(s[j].vma)
      invariant fresh(child) && fresh(child.rb) && (forall n :: n in child.rb.nodes ==> fresh(n)) && child.Valid()
      invariant Regions(child.mmap) == rs[..i] && Shape(child.tree) == Ascending(i)
    {
      CopyVma(child, parent.mmap[i].vma, rs, i);
      i := i + 1;
    }
    RegionsAt(s);
    assert Regions(s) == rs && rs[..i] == rs;
    BlackTree(child);
    AscendingFree(i);
    ShapeCanFree(child.tree);
    ShapeRedBlack(child.tree);
  }

  // ------------------------------------------------------------------ a removal that faults

  /* One region of one page at each of the addresses. */
  ghost predicate OnPages(rs: seq<Region>, addrs: seq<nat>) {
    |rs| == |addrs| && forall j :: 0 <= j < |addrs| ==> rs[j].base == addrs[j] && rs[j].end == addrs[j] + PAGE
  }

  /* The page at addr lies apart from the others, after `at` of them. */
  ghost predicate Between(addrs: seq<nat>, at: nat, addr: nat) {
    at <= |addrs| && forall j :: 0 <= j < |addrs| ==> if j < at then addrs[j] + PAGE <= addr else addr + PAGE <= addrs[j]
  }

  lemma PageRounds(addr: nat)
    requires Aligned(addr)
    ensures RoundDown(addr) == addr && RoundUp(addr + PAGE) == addr + PAGE
  {
    hide RoundDown, RoundUp, Aligned;
    assert Aligned(addr + PAGE) by {
      AlignedNext(addr);
    }
    SamePage(RoundDown(addr), addr);
    SamePage(addr + PAGE, RoundUp(addr + PAGE));
  }

  lemma AlignedNext(addr: nat)
    requires Aligned(addr)
    ensures Aligned(addr + PAGE)
  {
  }

  /* A page that is not taken has one place in the list. */
  lemma PagePlace(rs: seq<Region>, addrs: seq<nat>, addr: nat, at: nat, at': nat, r: Region)
    requires OnPages(rs, addrs) && Between(addrs, at, addr) && at' <= |addrs|
    requires r.base == addr && r.end == addr + PAGE
    ensures forall j :: 0 <= j < |rs| ==> !Meets(rs[j], r.base, r.end)
    ensures SortedRegions(Inserted(rs, at', r)) ==> at' == at && OnPages(Inserted(rs, at, r), Inserted(addrs, at, addr))
  {
    var q := Inserted(rs, at', r);
    if at' < at {
      assert q[at'] == r && q[at] == rs[at - 1];
    } else if at < at' {
      assert q[at'] == r && q[at] == rs[at];
    }
  }

  method CreatePage(task: Task, addr: nat, ghost at: nat, ghost addrs: seq<nat>)
    requires task.Valid() && OnPages(Regions(task.mmap), addrs) && Between(addrs, at, addr) && Aligned(addr)
    modifies task, task.rb, task.rb.nodes
    ensures task.Valid() && fresh(task.rb.nodes - old(task.rb.nodes))
    ensures OnPages(Regions(task.mmap), Inserted(addrs, at, addr))
    ensures Grown(Shape(task.tree), Shape(old(task.tree)), at)
  {
    ghost var rs, r := Regions(task.mmap), Region(addr, addr + PAGE, 0, 0);
    PageRounds(addr);
    PagePlace(rs, addrs, addr, at, at, r);
    assert |task.mmap| == |addrs|;
    hide Task.Valid, Regions, Inserted, Grown, Shape, OnPages, Between, SortedRegions, RoundDown, RoundUp;
    var n;
    ghost var at';
    n, at' := CreateVma(task, 0, addr, PAGE, 0);
    PagePlace(rs, addrs, addr, at, at', r);
    ValidSorted(task);
  }

  /* Five VMAs that do not touch are created on pages 0, 4, 8, 2 and 6; removing the middle one
     does not return. */
  method FaultExample() returns (ok: bool)
    ensures !ok
  {
    FivePages();
    hide Task.Valid, Task.Linked, Shape, Inserted, InsertedAt, CanRemove, Grown, Regions, OnPages, IndexOf, Inorder;
    var task := new Task();
    NothingYet(task);
    CreatePage(task, 0x0000, 0, []);
    CreatePage(task, 0x4000, 1, [0x0000]);
    CreatePage(task, 0x8000, 2, [0x0000, 0x4000]);
    CreatePage(task, 0x2000, 1, [0x0000, 0x4000, 0x8000]);
    CreatePage(task, 0x6000, 3, [0x0000, 0x2000, 0x4000, 0x8000]);
    ok := RemoveMiddle(task);
  }

  lemma FivePages()
    ensures Inserted<nat>([], 0, 0x0000) == [0x0000]
    ensures Inserted<nat>([0x0000], 1, 0x4000) == [0x0000, 0x4000]
    ensures Inserted<nat>([0x0000, 0x4000], 2, 0x8000) == [0x0000, 0x4000, 0x8000]
    ensures Inserted<nat>([0x0000, 0x4000, 0x8000], 1, 0x2000) == [0x0000, 0x2000, 0x4000, 0x8000]
    ensures forall a, b, c, d, e ::
      Grown(a, Leaf, 0) && Grown(b, a, 1) && Grown(c, b, 2) && Grown(d, c, 1) && Grown(e, d, 3) ==> e == Five()
  {
    FiveFaults();
    hide InsertedAt;
  }

  method RemoveMiddle(task: Task) returns (ok: bool)
    requires task.Valid() && Shape(task.tree) == Five()
    modifies task, task.rb, task.rb.nodes
    ensures !ok
  {
    FiveFaults();
    BlackTree(task);
    hide Task.Valid, Shape, CanRemove, Inorder, Five;
    ShapeCanRemove(task.tree, 2);
    ListIndex(task, 2);
    ok := task.RemoveVma(task.mmap[2]);
  }

  /* Seven VMAs that do not touch are created on pages 8, 12, 6, 4, 2, 0 and 10; free_vmas does
     not return, so that the task cannot end. */
  method FreeFaultExample() returns (ok: bool)
    ensures !ok
  {
    hide Task.Valid, Task.Linked, Shape, Inserted, InsertedAt, CanFree, Grown, Regions, OnPages, Inorder;
    var task := SevenVmas();
    SevenFaults();
    BlackTree(task);
    ShapeCanFree(task.tree);
    LinkedTask(task);
    ok := task.FreeVmas();
  }

  lemma LinkedTask(task: Task)
    requires task.Valid()
    ensures task.Linked()
  {
  }

  method SevenVmas() returns (task: Task)
    ensures fresh(task) && fresh(task.rb) && (forall n :: n in task.rb.nodes ==> fresh(n))
    ensures task.Valid() && Shape(task.tree) == Seven()
  {
    SevenPages();
    hide Task.Valid, Task.Linked, Shape, Inserted, InsertedAt, Grown, Regions, OnPages, Inorder, Seven;
    task := new Task();
    NothingYet(task);
    CreatePage(task, 0x8000, 0, []);
    CreatePage(task, 0xc000, 1, [0x8000]);
    CreatePage(task, 0x6000, 0, [0x8000, 0xc000]);
    CreatePage(task, 0x4000, 0, [0x6000, 0x8000, 0xc000]);
    CreatePage(task, 0x2000, 0, [0x4000, 0x6000, 0x8000, 0xc000]);
    CreatePage(task, 0x0000, 0, [0x2000, 0x4000, 0x6000, 0x8000, 0xc000]);
    CreatePage(task, 0xa000, 5, [0x0000, 0x2000, 0x4000, 0x6000, 0x8000, 0xc000]);
  }

  lemma SevenPages()
    ensures Inserted<nat>([], 0, 0x8000) == [0x8000]
    ensures Inserted<nat>([0x8000], 1, 0xc000) == [0x8000, 0xc000]
    ensures Inserted<nat>([0x8000, 0xc000], 0, 0x6000) == [0x6000, 0x8000, 0xc000]
    ensures Inserted<nat>([0x6000, 0x8000, 0xc000], 0, 0x4000) == [0x4000, 0x6000, 0x8000, 0xc000]
    ensures Inserted<nat>([0x4000, 0x6000, 0x8000, 0xc000], 0, 0x2000) == [0x2000, 0x4000, 0x6000, 0x8000, 0xc000]
    ensures Inserted<nat>([0x2000, 0x4000, 0x6000, 0x8000, 0xc000], 0, 0x0000) == [0x0000, 0x2000, 0x4000, 0x6000, 0x8000, 0xc000]
    ensures forall a, b, c :: Grown(a, Leaf, 0) && Grown(b, a, 1) && Grown(c, b, 0) ==> c == Three()
    ensures forall a, b, c, d :: Grown(a, Three(), 0) && Grown(b, a, 0) && Grown(c, b, 0) && Grown(d, c, 5) ==> d == Seven()
  {
    SevenBuilt();
    hide InsertedAt;
  }

  lemma NothingYet(task: Task)
    requires task.mmap == [] && task.tree == Leaf
    ensures Shape(task.tree) == Leaf && OnPages(Regions(task.mmap), [])
  {
  }
}
