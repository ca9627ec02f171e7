/**
 Page tables in memory as values: a forest of tables over four levels, the flat map they
 implement, and what one insertion and one removal do to them.
 */
module MmuSpec {
  import opened Paging

  /* An entry is zero or present. */
  datatype Pte = Clear | To(frame: nat, flags: nat)

  type Table = seq<Pte>
  type Tables = map<nat, Table>

  /* The level of each table: 4 for a PML4, 1 for a page table. */
  type Levels = map<nat, nat>

  /* A zeroed table. */
  function Blank(n: nat): (s: Table)
    ensures |s| == n && forall i :: 0 <= i < n ==> s[i] == Clear
  {
    if n == 0 then [] else Blank(n - 1) + [Clear]
  }

  predicate Empty(s: Table) {
    forall i :: 0 <= i < |s| ==> s[i] == Clear
  }

  /* Entry i of table t points to a table or a page. */
  predicate Points(tables: Tables, t: nat, i: nat) {
    t in tables && i < |tables[t]| && tables[t][i].To?
  }

  ghost predicate Levelled(tables: Tables, lev: Levels) {
    && tables.Keys == lev.Keys
    && (forall t :: t in tables ==> 1 <= lev[t] <= 4 && |tables[t]| == 512)
  }

  /* Entries above the last level point to tables of the next level, entries of the last level
     to frames that are not tables. */
  ghost predicate Linked(tables: Tables, lev: Levels)
    requires Levelled(tables, lev)
  {
    forall t: nat, i: nat :: Points(tables, t, i) ==>
      if lev[t] > 1 then tables[t][i].frame in tables && lev[tables[t][i].frame] == lev[t] - 1
      else tables[t][i].frame !in tables
  }

  predicate SameChild(tables: Tables, t: nat, i: nat, u: nat, j: nat) {
    Points(tables, t, i) && Points(tables, u, j) && tables[t][i].frame == tables[u][j].frame
  }

  /* A table has one parent entry at most. */
  ghost predicate OneParent(tables: Tables, lev: Levels)
    requires Levelled(tables, lev)
  {
    forall t: nat, i: nat, u: nat, j: nat :: SameChild(tables, t, i, u, j) && lev[t] > 1 && lev[u] > 1 ==> t == u && i == j
  }

  ghost predicate Tree(tables: Tables, lev: Levels) {
    Levelled(tables, lev) && Linked(tables, lev) && OneParent(tables, lev)
  }

  // ------------------------------------------------------------------ the flat map

  /* The leaf entry of page k under table t, Clear if a table is missing. */
  function Find(tables: Tables, level: nat, t: nat, k: nat): Pte
    requires 1 <= level <= 4
  {
    if t !in tables || |tables[t]| != 512 then Clear
    else
      var e := tables[t][Slot(level, k)];
      if level == 1 then e else if e == Clear then Clear else Find(tables, level - 1, e.frame, k)
  }

  /* Pages k and l have the same indices from `level` down. */
  predicate SameBelow(level: nat, k: nat, l: nat)
    requires 1 <= level <= 4
  {
    Slot(level, k) == Slot(level, l) && (level > 1 ==> SameBelow(level - 1, k, l))
  }

  /* How many tables are missing on the way to page k. */
  function Missing(tables: Tables, level: nat, t: nat, k: nat): nat
    requires 1 <= level <= 4
  {
    if level == 1 then 0
    else if Points(tables, t, Slot(level, k)) then Missing(tables, level - 1, tables[t][Slot(level, k)].frame, k)
    else level - 1
  }

  // ------------------------------------------------------------------ one insertion

  /* The tables after an insertion that takes its new tables from `frames`. */
  function Inserted(tables: Tables, level: nat, t: nat, k: nat, pte: Pte, frames: seq<nat>): Tables
    requires 1 <= level <= 4
    decreases level
  {
    if t !in tables || |tables[t]| != 512 then tables
    else
      var i := Slot(level, k);
      if level == 1 then tables[t := tables[t][i := pte]]
      else if tables[t][i].To? then Inserted(tables, level - 1, tables[t][i].frame, k, pte, frames)
      else if frames == [] then tables
      else Inserted(NewTable(tables, t, i, frames[0]), level - 1, frames[0], k, pte, frames[1..])
  }

  /* ptbl_alloc on a clear entry. */
  function NewTable(tables: Tables, t: nat, i: nat, f: nat): Tables
    requires t in tables && i < |tables[t]|
  {
    tables[f := Blank(512)][t := tables[t][i := To(f, TABLE_FLAGS)]]
  }

  /* PAGE_PRESENT | PAGE_WRITE | PAGE_USER */
  const TABLE_FLAGS := 7

  /* Frame f is in no table and is no table. */
  ghost predicate Unused(tables: Tables, f: nat) {
    f !in tables && forall t: nat, i: nat :: Points(tables, t, i) ==> tables[t][i].frame != f
  }

  /* Frames for new tables: distinct, unused, and none of them the page to be mapped. */
  ghost predicate Fresh(tables: Tables, frames: seq<nat>) {
    && (forall f :: f in frames ==> Unused(tables, f))
    && (forall i, j :: 0 <= i < j < |frames| ==> frames[i] != frames[j])
  }

  lemma NewTableTree(tables: Tables, lev: Levels, t: nat, i: nat, f: nat)
    requires Tree(tables, lev) && t in tables && lev[t] > 1 && i < 512 && tables[t][i] == Clear && Unused(tables, f)
    ensures Tree(NewTable(tables, t, i, f), lev[f := lev[t] - 1])
    ensures forall u: nat, j: nat :: Points(NewTable(tables, t, i, f), u, j) ==> Points(tables, u, j) || (u == t && j == i)
  {
    var tables', lev' := NewTable(tables, t, i, f), lev[f := lev[t] - 1];
    assert tables'[f] == Blank(512);
    forall u: nat, j: nat | Points(tables', u, j)
      ensures u in tables && (if u == t && j == i then tables'[u][j].frame == f else Points(tables, u, j) && tables'[u][j] == tables[u][j])
    {
    }
    assert Levelled(tables', lev');
    forall u: nat, j: nat, v: nat, m: nat | SameChild(tables', u, j, v, m) && lev'[u] > 1 && lev'[v] > 1
      ensures u == v && j == m
    {
      assert Points(tables', u, j) && Points(tables', v, m);
      if (u == t && j == i) || (v == t && m == i) {
      } else {
        assert SameChild(tables, u, j, v, m);
      }
    }
  }

  lemma NewTableFresh(tables: Tables, t: nat, i: nat, frames: seq<nat>)
    requires t in tables && i < |tables[t]| && Fresh(tables, frames) && frames != []
    ensures Fresh(NewTable(tables, t, i, frames[0]), frames[1..])
  {
    var f, rest, tables' := frames[0], frames[1..], NewTable(tables, t, i, frames[0]);
    forall g | g in rest
      ensures Unused(tables', g)
    {
      assert g in frames && g != f;
      forall u: nat, j: nat | Points(tables', u, j)
        ensures tables'[u][j].frame != g
      {
        assert (u == t && j == i) || u == f || Points(tables, u, j);
      }
    }
  }

  /* A subtree is not changed by what happens to its ancestors. */
  lemma {:induction false} FindNewTable(tables: Tables, lev: Levels, t: nat, i: nat, f: nat, level: nat, u: nat, k: nat)
    requires Tree(tables, lev) && t in tables && i < 512 && f !in tables && u in tables && lev[u] == level < lev[t]
    ensures Find(NewTable(tables, t, i, f), level, u, k) == Find(tables, level, u, k)
    decreases level
  {
    hide Slot;
    var e := tables[u][Slot(level, k)];
    if level > 1 && e.To? {
      assert Points(tables, u, Slot(level, k));
      FindNewTable(tables, lev, t, i, f, level - 1, e.frame, k);
    }
  }

  lemma BlankFind(tables: Tables, level: nat, t: nat, k: nat)
    requires 1 <= level <= 4 && t in tables && tables[t] == Blank(512)
    ensures Find(tables, level, t, k) == Clear
  {
    hide Slot;
  }

  /* Tables at or above the level of an insertion keep their entries, but for its own. */
  lemma {:induction false} InsertedAbove(tables: Tables, lev: Levels, level: nat, t: nat, k: nat, pte: Pte, frames: seq<nat>, u: nat)
    requires Tree(tables, lev) && 1 <= level <= 4 && t in tables && lev[t] == level && Fresh(tables, frames)
    requires u in tables && lev[u] >= level && u != t
    ensures u in Inserted(tables, level, t, k, pte, frames) && Inserted(tables, level, t, k, pte, frames)[u] == tables[u]
    decreases level
  {
    hide Slot, OneParent;
    var i := Slot(level, k);
    if level > 1 {
      if tables[t][i].To? {
        assert Points(tables, t, i);
        InsertedAbove(tables, lev, level - 1, tables[t][i].frame, k, pte, frames, u);
      } else if frames != [] {
        NewTableTree(tables, lev, t, i, frames[0]);
        NewTableFresh(tables, t, i, frames);
        InsertedAbove(NewTable(tables, t, i, frames[0]), lev[frames[0] := level - 1], level - 1, frames[0], k, pte, frames[1..], u);
      }
    }
  }

  /* An insertion changes the leaf of its own page and no other. */
  lemma {:induction false} FindInserted(tables: Tables, lev: Levels, level: nat, t: nat, k: nat, pte: Pte, frames: seq<nat>, u: nat, l: nat)
    requires Tree(tables, lev) && 1 <= level <= 4 && t in tables && lev[t] == level && Fresh(tables, frames)
    requires |frames| == Missing(tables, level, t, k) && u in tables && lev[u] == level
    ensures Find(Inserted(tables, level, t, k, pte, frames), level, u, l)
         == if u == t && SameBelow(level, k, l) then pte else Find(tables, level, u, l)
    decreases level
  {
    hide Slot;
    if level > 1 {
      var i := Slot(level, k);
      if tables[t][i].To? {
        FindInsertedOld(tables, lev, level, t, k, pte, frames, u, l);
      } else {
        FindInsertedNew(tables, lev, level, t, k, pte, frames, u, l);
      }
    }
  }

  lemma FindInsertedOld(tables: Tables, lev: Levels, level: nat, t: nat, k: nat, pte: Pte, frames: seq<nat>, u: nat, l: nat)
    requires Tree(tables, lev) && 1 < level <= 4 && t in tables && lev[t] == level && Fresh(tables, frames)
    requires |frames| == Missing(tables, level, t, k) && u in tables && lev[u] == level && tables[t][Slot(level, k)].To?
    ensures Find(Inserted(tables, level, t, k, pte, frames), level, u, l)
         == if u == t && SameBelow(level, k, l) then pte else Find(tables, level, u, l)
    decreases level, 0
  {
    hide Slot, Fresh;
    var i, j := Slot(level, k), Slot(level, l);
    var f := tables[t][i].frame;
    assert Points(tables, t, i);
    InsertedAbove(tables, lev, level - 1, f, k, pte, frames, u);
    if tables[u][j].To? {
      assert Points(tables, u, j);
      var g := tables[u][j].frame;
      assert f == g ==> SameChild(tables, t, i, u, j);
      FindInserted(tables, lev, level - 1, f, k, pte, frames, g, l);
    }
  }

  lemma FindInsertedNew(tables: Tables, lev: Levels, level: nat, t: nat, k: nat, pte: Pte, frames: seq<nat>, u: nat, l: nat)
    requires Tree(tables, lev) && 1 < level <= 4 && t in tables && lev[t] == level && Fresh(tables, frames)
    requires |frames| == Missing(tables, level, t, k) && u in tables && lev[u] == level && tables[t][Slot(level, k)] == Clear
    ensures Find(Inserted(tables, level, t, k, pte, frames), level, u, l)
         == if u == t && SameBelow(level, k, l) then pte else Find(tables, level, u, l)
    decreases level, 0
  {
    hide Slot;
    var i, j := Slot(level, k), Slot(level, l);
    var f := frames[0];
    var tables1, lev1 := NewTable(tables, t, i, f), lev[f := level - 1];
    NewTableTree(tables, lev, t, i, f);
    NewTableFresh(tables, t, i, frames);
    MissingBlank(tables1, level - 1, f, k);
    hide Fresh;
    InsertedAbove(tables1, lev1, level - 1, f, k, pte, frames[1..], u);
    if tables1[u][j].To? {
      var g := tables1[u][j].frame;
      if u == t && j == i {
        FindInserted(tables1, lev1, level - 1, f, k, pte, frames[1..], f, l);
        BlankFind(tables1, level - 1, f, l);
      } else {
        assert Points(tables, u, j);
        FindInserted(tables1, lev1, level - 1, f, k, pte, frames[1..], g, l);
        FindNewTable(tables, lev, t, i, f, level - 1, g, l);
      }
    }
  }

  /* An empty table below a clear entry changes no leaf. */
  lemma {:induction false} FindKept(tables: Tables, lev: Levels, t: nat, i: nat, f: nat, level: nat, u: nat, k: nat)
    requires Tree(tables, lev) && t in tables && lev[t] > 1 && i < 512 && tables[t][i] == Clear && f !in tables
    requires u in tables && lev[u] == level
    ensures Find(NewTable(tables, t, i, f), level, u, k) == Find(tables, level, u, k)
    decreases level
  {
    hide Slot, OneParent;
    var tables', s := NewTable(tables, t, i, f), Slot(level, k);
    var e := tables[u][s];
    if u == t && s == i {
      BlankFind(tables', level - 1, f, k);
    } else if level > 1 && e.To? {
      assert Points(tables, u, s);
      FindKept(tables, lev, t, i, f, level - 1, e.frame, k);
    }
  }

  lemma {:induction false} MissingBound(tables: Tables, level: nat, t: nat, k: nat)
    requires 1 <= level <= 4
    ensures Missing(tables, level, t, k) < level
    ensures Find(tables, level, t, k).To? ==> Missing(tables, level, t, k) == 0
    decreases level
  {
    hide Slot;
    if level > 1 && Points(tables, t, Slot(level, k)) {
      MissingBound(tables, level - 1, tables[t][Slot(level, k)].frame, k);
    }
  }

  lemma MissingBlank(tables: Tables, level: nat, t: nat, k: nat)
    requires 1 <= level <= 4 && t in tables && tables[t] == Blank(512)
    ensures Missing(tables, level, t, k) == level - 1
  {
    hide Slot;
  }

  // ------------------------------------------------------------------ access rights

  const PRESENT := 1
  const WRITE := 2
  const USER := 4

  predicate Bit(flags: nat, b: nat)
    requires b > 0
  {
    flags / b % 2 == 1
  }

  /* Flags that restrict nothing below. */
  predicate OpenFlags(flags: nat) {
    Bit(flags, PRESENT) && Bit(flags, WRITE) && Bit(flags, USER)
  }

  /* Entries that point to tables never restrict a leaf. */
  ghost predicate Open(tables: Tables, lev: Levels) {
    forall t: nat, i: nat :: Points(tables, t, i) && t in lev && lev[t] > 1 ==> OpenFlags(tables[t][i].flags)
  }

  /* The right b that the processor grants at page k under table t: every entry of the path must
     have the bit, and those that point to tables must be present. A leaf that is not Clear is
     present. */
  predicate Grants(tables: Tables, level: nat, t: nat, k: nat, b: nat)
    requires 1 <= level <= 4 && b > 0
  {
    var i := Slot(level, k);
    && Points(tables, t, i) && Bit(tables[t][i].flags, b)
    && (level > 1 ==> Bit(tables[t][i].flags, PRESENT) && Grants(tables, level - 1, tables[t][i].frame, k, b))
  }

  /* The processor grants what the leaf says. */
  lemma {:induction false} GrantsLeaf(tables: Tables, lev: Levels, level: nat, t: nat, k: nat, b: nat)
    requires Tree(tables, lev) && Open(tables, lev) && 1 <= level <= 4 && t in tables && lev[t] == level
    requires b == WRITE || b == USER
    ensures Grants(tables, level, t, k, b) <==> Find(tables, level, t, k).To? && Bit(Find(tables, level, t, k).flags, b)
    decreases level
  {
    hide Slot, OneParent, Bit;
    TableSize(tables, lev, t);
    var i := Slot(level, k);
    if level > 1 && tables[t][i].To? {
      assert Points(tables, t, i);
      ChildTable(tables, lev, t, i);
      GrantsLeaf(tables, lev, level - 1, tables[t][i].frame, k, b);
    }
  }

  lemma OpenNew(tables: Tables, lev: Levels, t: nat, i: nat, f: nat)
    requires Open(tables, lev) && t in tables && i < |tables[t]| && f !in tables
    ensures Open(NewTable(tables, t, i, f), lev[f := if t in lev && lev[t] > 0 then lev[t] - 1 else 0])
  {
    var tables' := NewTable(tables, t, i, f);
    assert OpenFlags(TABLE_FLAGS);
    forall u: nat, j: nat | Points(tables', u, j) && !(u == t && j == i)
      ensures u != f && Points(tables, u, j) && tables'[u][j] == tables[u][j]
    {
    }
  }

  lemma OpenLeaf(tables: Tables, lev: Levels, t: nat, i: nat, pte: Pte)
    requires Open(tables, lev) && t in tables && i < |tables[t]| && t in lev && lev[t] == 1
    ensures Open(tables[t := tables[t][i := pte]], lev)
  {
    hide OpenFlags;
    var tables' := tables[t := tables[t][i := pte]];
    forall u: nat, j: nat | Points(tables', u, j) && u != t
      ensures Points(tables, u, j) && tables'[u][j] == tables[u][j]
    {
    }
  }

  /* Fewer entries restrict no more. */
  lemma OpenFewer(tables: Tables, lev: Levels, tables': Tables, lev': Levels)
    requires Open(tables, lev)
    requires forall u: nat, j: nat :: Points(tables', u, j) ==> Points(tables, u, j) && tables'[u][j] == tables[u][j]
    requires forall u :: u in lev' && u in tables ==> u in lev && lev'[u] == lev[u]
    ensures Open(tables', lev')
  {
    hide OpenFlags;
  }

  // ------------------------------------------------------------------ one removal

  /* The tables after the removal of page k: the leaf is cleared, and tables that have become
     empty are taken out on the way up. */
  function Removed(tables: Tables, level: nat, t: nat, k: nat): Tables
    requires 1 <= level <= 4
    decreases level
  {
    if t !in tables || |tables[t]| != 512 then tables
    else
      var i := Slot(level, k);
      if level == 1 then tables[t := tables[t][i := Clear]]
      else if tables[t][i] == Clear then tables
      else Pruned(Removed(tables, level - 1, tables[t][i].frame, k), t, i)
  }

  /* ptbl_free on entry i of table t. */
  function Pruned(tables: Tables, t: nat, i: nat): Tables {
    if !Points(tables, t, i) || tables[t][i].frame !in tables || !Empty(tables[tables[t][i].frame]) then tables
    else (tables - {tables[t][i].frame})[t := tables[t][i := Clear]]
  }

  lemma SetLeafTree(tables: Tables, lev: Levels, t: nat, i: nat, pte: Pte)
    requires Tree(tables, lev) && t in tables && lev[t] == 1 && i < 512 && (pte.To? ==> pte.frame !in tables)
    ensures Tree(tables[t := tables[t][i := pte]], lev)
  {
    var tables' := tables[t := tables[t][i := pte]];
    forall u: nat, j: nat | Points(tables', u, j) && !(u == t && j == i)
      ensures Points(tables, u, j) && tables'[u][j] == tables[u][j]
    {
    }
    assert Levelled(tables', lev);
    forall u: nat, j: nat, v: nat, m: nat | SameChild(tables', u, j, v, m) && lev[u] > 1 && lev[v] > 1
      ensures u == v && j == m
    {
      assert Points(tables', u, j) && Points(tables', v, m);
      assert SameChild(tables, u, j, v, m);
    }
  }

  lemma PrunedTree(tables: Tables, lev: Levels, t: nat, i: nat)
    requires Tree(tables, lev) && Points(tables, t, i) && lev[t] > 1 && Empty(tables[tables[t][i].frame])
    ensures var f := tables[t][i].frame;
      Tree(Pruned(tables, t, i), lev - {f}) && f in tables && f != t && lev[f] == lev[t] - 1
  {
    var f := tables[t][i].frame;
    var tables', lev' := Pruned(tables, t, i), lev - {f};
    forall u: nat, j: nat | Points(tables', u, j)
      ensures u != f && Points(tables, u, j) && tables'[u][j] == tables[u][j] && !(u == t && j == i)
    {
    }
    assert Levelled(tables', lev');
    forall u: nat, j: nat | Points(tables', u, j) && lev[u] > 1
      ensures tables'[u][j].frame != f
    {
      assert !SameChild(tables, u, j, t, i);
    }
    forall u: nat, j: nat, v: nat, m: nat | SameChild(tables', u, j, v, m) && lev'[u] > 1 && lev'[v] > 1
      ensures u == v && j == m
    {
      assert Points(tables', u, j) && Points(tables', v, m);
      assert SameChild(tables, u, j, v, m);
    }
  }

  /* The levels of the tables that are left. */
  ghost function Keep(lev: Levels, tables: Tables): Levels {
    map t | t in lev && t in tables :: lev[t]
  }

  lemma KeepPruned(lev: Levels, tables: Tables, f: nat)
    requires tables.Keys == lev.Keys
    ensures Keep(lev, tables) == lev && Keep(lev, tables - {f}) == lev - {f}
  {
  }

  /* Tables at or above the level of a removal stay, and but for its own they keep their
     entries; the result is a forest again. */
  lemma {:induction false} RemovedTree(tables: Tables, lev: Levels, level: nat, t: nat, k: nat)
    requires Tree(tables, lev) && 1 <= level <= 4 && t in tables && lev[t] == level
    ensures var r := Removed(tables, level, t, k);
      && r.Keys <= tables.Keys && t in r && Tree(r, Keep(lev, r))
      && (forall u :: u in tables && lev[u] >= level && u != t ==> u in r && r[u] == tables[u])
    decreases level
  {
    hide Slot, Linked, OneParent;
    var i := Slot(level, k);
    KeepPruned(lev, tables, 0);
    if level == 1 {
      SetLeafTree(tables, lev, t, i, Clear);
      KeepPruned(lev, tables[t := tables[t][i := Clear]], 0);
    } else if tables[t][i].To? {
      ChildTable(tables, lev, t, i);
      var f := tables[t][i].frame;
      RemovedTree(tables, lev, level - 1, f, k);
      var r := Removed(tables, level - 1, f, k);
      assert Removed(tables, level, t, k) == Pruned(r, t, i);
      hide Removed, Tree;
      PruneStep(tables, lev, r, level, t, i);
    }
  }

  lemma PruneStep(tables: Tables, lev: Levels, r: Tables, level: nat, t: nat, i: nat)
    requires Tree(tables, lev) && Points(tables, t, i) && lev[t] == level > 1 && r.Keys <= tables.Keys
    requires Tree(r, Keep(lev, r)) && t in r && r[t] == tables[t] && tables[t][i].frame in r
    requires forall u :: u in tables && lev[u] >= level && u != t ==> u in r && r[u] == tables[u]
    ensures var r' := Pruned(r, t, i);
      && r'.Keys <= tables.Keys && t in r' && Tree(r', Keep(lev, r'))
      && (forall u :: u in tables && lev[u] >= level && u != t ==> u in r' && r'[u] == tables[u])
  {
    hide Tree;
    var f := tables[t][i].frame;
    ChildTable(tables, lev, t, i);
    if Empty(r[f]) {
      PrunedTree(r, Keep(lev, r), t, i);
      assert Keep(lev, Pruned(r, t, i)) == Keep(lev, r) - {f};
    } else {
      assert Pruned(r, t, i) == r;
    }
  }

  lemma ChildTable(tables: Tables, lev: Levels, t: nat, i: nat)
    requires Tree(tables, lev) && Points(tables, t, i) && lev[t] > 1
    ensures tables[t][i].frame in tables && lev[tables[t][i].frame] == lev[t] - 1 && tables[t][i].frame != t
  {
  }

  lemma {:induction false} FindPruned(tables: Tables, lev: Levels, t: nat, i: nat, level: nat, u: nat, k: nat)
    requires Tree(tables, lev) && Points(tables, t, i) && lev[t] > 1 && Empty(tables[tables[t][i].frame])
    requires u in tables && lev[u] == level < lev[t] && u != tables[t][i].frame
    ensures Find(Pruned(tables, t, i), level, u, k) == Find(tables, level, u, k)
    decreases level
  {
    hide Slot;
    var j := Slot(level, k);
    ChildTable(tables, lev, t, i);
    var r := Pruned(tables, t, i);
    assert u in r && r[u] == tables[u];
    if level > 1 && tables[u][j].To? {
      ChildTable(tables, lev, u, j);
      assert !SameChild(tables, u, j, t, i);
      FindPruned(tables, lev, t, i, level - 1, tables[u][j].frame, k);
    }
  }

  /* A removal clears the leaf of its own page and no other. */
  lemma {:induction false} FindRemoved(tables: Tables, lev: Levels, level: nat, t: nat, k: nat, u: nat, l: nat)
    requires Tree(tables, lev) && 1 <= level <= 4 && t in tables && lev[t] == level && u in tables && lev[u] == level
    ensures Find(Removed(tables, level, t, k), level, u, l)
         == if u == t && SameBelow(level, k, l) then Clear else Find(tables, level, u, l)
    decreases level
  {
    hide Slot, Linked, OneParent, Levelled;
    assert |tables[t]| == 512 && |tables[u]| == 512 by { TableSize(tables, lev, t); TableSize(tables, lev, u); }
    var i, j := Slot(level, k), Slot(level, l);
    if level > 1 && tables[t][i].To? {
      ChildTable(tables, lev, t, i);
      var f := tables[t][i].frame;
      RemovedTree(tables, lev, level - 1, f, k);
      var r := Removed(tables, level - 1, f, k);
      assert r[u] == tables[u] && r[t] == tables[t];
      if tables[u][j].To? {
        ChildTable(tables, lev, u, j);
        var g := tables[u][j].frame;
        FindRemoved(tables, lev, level - 1, f, k, g, l);
        if Empty(r[f]) {
          if g == f {
            OneChild(tables, lev, t, i, u, j);
            EmptyFind(r, level - 1, f, l);
          } else {
            StillThere(tables, lev, level, f, k, g);
            FindPruned(r, Keep(lev, r), t, i, level - 1, g, l);
          }
        } else if g == f {
          OneChild(tables, lev, t, i, u, j);
        }
      }
    }
  }

  lemma TableSize(tables: Tables, lev: Levels, t: nat)
    requires Tree(tables, lev) && t in tables
    ensures |tables[t]| == 512 && t in lev
  {
  }

  lemma OneChild(tables: Tables, lev: Levels, t: nat, i: nat, u: nat, j: nat)
    requires Tree(tables, lev) && SameChild(tables, t, i, u, j) && lev[t] > 1 && lev[u] > 1
    ensures t == u && i == j
  {
  }

  lemma EmptyFind(tables: Tables, level: nat, t: nat, k: nat)
    requires 1 <= level <= 4 && t in tables && Empty(tables[t])
    ensures Find(tables, level, t, k) == Clear
  {
    hide Slot;
  }

  lemma StillThere(tables: Tables, lev: Levels, level: nat, f: nat, k: nat, g: nat)
    requires Tree(tables, lev) && 1 < level <= 4 && f in tables && lev[f] == level - 1 && g in tables && lev[g] == level - 1 && g != f
    ensures g in Removed(tables, level - 1, f, k) && g in Keep(lev, Removed(tables, level - 1, f, k))
  {
    hide Removed, Tree;
    RemovedTree(tables, lev, level - 1, f, k);
    TableSize(tables, lev, g);
  }

  // ------------------------------------------------------------------ removal undoes insertion

  /* Tables on the way to page k have entries. */
  predicate PathFull(tables: Tables, level: nat, t: nat, k: nat)
    requires 1 <= level <= 4
  {
    level > 1 && Points(tables, t, Slot(level, k)) ==>
      var f := tables[t][Slot(level, k)].frame;
      f in tables && !Empty(tables[f]) && PathFull(tables, level - 1, f, k)
  }

  lemma {:induction false} RemovedInserted(tables: Tables, lev: Levels, level: nat, t: nat, k: nat, pte: Pte, frames: seq<nat>)
    requires Tree(tables, lev) && 1 <= level <= 4 && t in tables && lev[t] == level && Fresh(tables, frames)
    requires |frames| == Missing(tables, level, t, k) && PathFull(tables, level, t, k) && Find(tables, level, t, k) == Clear
    ensures Removed(Inserted(tables, level, t, k, pte, frames), level, t, k) == tables
    decreases level
  {
    hide Slot, Linked, OneParent, Fresh;
    var i := Slot(level, k);
    if level == 1 {
      assert tables[t][i := pte][i := Clear] == tables[t];
    } else if tables[t][i].To? {
      ChildTable(tables, lev, t, i);
      var f := tables[t][i].frame;
      InsertedAbove(tables, lev, level - 1, f, k, pte, frames, t);
      RemovedInserted(tables, lev, level - 1, f, k, pte, frames);
      assert Pruned(tables, t, i) == tables;
    } else {
      RemovedInsertedNew(tables, lev, level, t, k, pte, frames);
    }
  }

  lemma RemovedInsertedNew(tables: Tables, lev: Levels, level: nat, t: nat, k: nat, pte: Pte, frames: seq<nat>)
    requires Tree(tables, lev) && 1 < level <= 4 && t in tables && lev[t] == level && Fresh(tables, frames)
    requires |frames| == Missing(tables, level, t, k) && tables[t][Slot(level, k)] == Clear
    ensures Removed(Inserted(tables, level, t, k, pte, frames), level, t, k) == tables
    decreases level, 0
  {
    hide Slot, Linked, OneParent;
    var i, f := Slot(level, k), frames[0];
    assert Unused(tables, f);
    var tables1, lev1 := NewTable(tables, t, i, f), lev[f := level - 1];
    NewTableTree(tables, lev, t, i, f);
    NewTableFresh(tables, t, i, frames);
    hide Fresh, Tree;
    MissingBlank(tables1, level - 1, f, k);
    BlankFind(tables1, level - 1, f, k);
    BlankPath(tables1, level - 1, f, k);
    InsertedAbove(tables1, lev1, level - 1, f, k, pte, frames[1..], t);
    RemovedInserted(tables1, lev1, level - 1, f, k, pte, frames[1..]);
    PrunedNew(tables, t, i, f);
  }

  lemma BlankPath(tables: Tables, level: nat, t: nat, k: nat)
    requires 1 <= level <= 4 && t in tables && tables[t] == Blank(512)
    ensures PathFull(tables, level, t, k)
  {
    hide Slot;
  }

  lemma PrunedNew(tables: Tables, t: nat, i: nat, f: nat)
    requires t in tables && i < |tables[t]| && tables[t][i] == Clear && f !in tables
    ensures Pruned(NewTable(tables, t, i, f), t, i) == tables
  {
    var tables1 := NewTable(tables, t, i, f);
    assert Empty(tables1[f]);
    assert tables1[t][i := Clear] == tables[t];
    var r := Pruned(tables1, t, i);
    assert r.Keys == tables.Keys && forall u :: u in tables ==> r[u] == tables[u];
  }

  // ------------------------------------------------------------------ no empty table

  ghost predicate Full(tables: Tables, roots: set<nat>) {
    forall t :: t in tables && t !in roots ==> !Empty(tables[t])
  }

  lemma {:induction false} FullPath(tables: Tables, lev: Levels, roots: set<nat>, level: nat, t: nat, k: nat)
    requires Tree(tables, lev) && Full(tables, roots) && 1 <= level <= 4 && t in tables && lev[t] == level
    requires forall r :: r in roots && r in tables ==> lev[r] == 4
    ensures PathFull(tables, level, t, k)
    decreases level
  {
    hide Slot;
    var i := Slot(level, k);
    if level > 1 && tables[t][i].To? {
      ChildTable(tables, lev, t, i);
      FullPath(tables, lev, roots, level - 1, tables[t][i].frame, k);
    }
  }

  lemma {:induction false} InsertedFull(tables: Tables, lev: Levels, roots: set<nat>, level: nat, t: nat, k: nat, pte: Pte, frames: seq<nat>)
    requires Tree(tables, lev) && 1 <= level <= 4 && t in tables && lev[t] == level && Fresh(tables, frames)
    requires |frames| == Missing(tables, level, t, k) && Full(tables, roots + {t}) && pte.To?
    ensures Full(Inserted(tables, level, t, k, pte, frames), roots)
    decreases level
  {
    hide Slot, Linked, OneParent;
    var i := Slot(level, k);
    if level == 1 {
      assert tables[t][i := pte][i] == pte;
    } else if tables[t][i].To? {
      ChildTable(tables, lev, t, i);
      InsertedFull(tables, lev, roots, level - 1, tables[t][i].frame, k, pte, frames);
    } else {
      var f := frames[0];
      var tables1, lev1 := NewTable(tables, t, i, f), lev[f := level - 1];
      NewTableTree(tables, lev, t, i, f);
      NewTableFresh(tables, t, i, frames);
      MissingBlank(tables1, level - 1, f, k);
      assert tables1[t][i].To?;
      InsertedFull(tables1, lev1, roots, level - 1, f, k, pte, frames[1..]);
    }
  }

  lemma {:induction false} RemovedFull(tables: Tables, lev: Levels, roots: set<nat>, level: nat, t: nat, k: nat)
    requires Tree(tables, lev) && 1 <= level <= 4 && t in tables && lev[t] == level && Full(tables, roots)
    ensures Full(Removed(tables, level, t, k), roots + {t})
    decreases level
  {
    hide Slot, Linked, OneParent;
    var i := Slot(level, k);
    if level > 1 && tables[t][i].To? {
      ChildTable(tables, lev, t, i);
      var f := tables[t][i].frame;
      RemovedTree(tables, lev, level - 1, f, k);
      RemovedFull(tables, lev, roots, level - 1, f, k);
      var r := Removed(tables, level - 1, f, k);
      assert Removed(tables, level, t, k) == Pruned(r, t, i);
      hide Tree, Removed;
      PrunedFull(r, roots, t, i);
    }
  }

  lemma PrunedFull(r: Tables, roots: set<nat>, t: nat, i: nat)
    requires Points(r, t, i) && r[t][i].frame in r && Full(r, roots + {r[t][i].frame})
    ensures Full(Pruned(r, t, i), roots + {t})
  {
    var r' := Pruned(r, t, i);
    forall u | u in r' && u !in roots + {t}
      ensures !Empty(r'[u])
    {
    }
  }

  // ------------------------------------------------------------------ a range of pages

  /* Removing pages i up to j one by one. */
  function RemovedAll(tables: Tables, level: nat, t: nat, i: nat, j: nat): Tables
    requires 1 <= level <= 4
    decreases j - i
  {
    if i >= j then tables else RemovedAll(Removed(tables, level, t, i), level, t, i + 1, j)
  }

  lemma {:induction false} RemovedAllSplit(tables: Tables, level: nat, t: nat, i: nat, m: nat, j: nat)
    requires 1 <= level <= 4 && i <= m <= j
    ensures RemovedAll(tables, level, t, i, j) == RemovedAll(RemovedAll(tables, level, t, i, m), level, t, m, j)
    decreases m - i
  {
    hide Removed;
    if i < m {
      RemovedAllSplit(Removed(tables, level, t, i), level, t, i + 1, m, j);
    }
  }

  /* The result is a forest again, in which tables at or above the level keep their entries, but
     for t itself. */
  lemma {:induction false} RemovedAllTree(tables: Tables, lev: Levels, level: nat, t: nat, i: nat, j: nat)
    requires Tree(tables, lev) && 1 <= level <= 4 && t in tables && lev[t] == level
    ensures var r := RemovedAll(tables, level, t, i, j);
      && r.Keys <= tables.Keys && t in r && Tree(r, Keep(lev, r))
      && (forall u :: u in tables && lev[u] >= level && u != t ==> u in r && r[u] == tables[u])
    decreases j - i
  {
    hide Removed, Tree;
    KeepTree(tables, lev);
    if i < j {
      RemovedTree(tables, lev, level, t, i);
      var r := Removed(tables, level, t, i);
      TableSize(tables, lev, t);
      RemovedAllTree(r, Keep(lev, r), level, t, i + 1, j);
      var q := RemovedAll(r, level, t, i + 1, j);
      assert Keep(Keep(lev, r), q) == Keep(lev, q);
    }
  }

  lemma KeepTree(tables: Tables, lev: Levels)
    requires Tree(tables, lev)
    ensures Keep(lev, tables) == lev
  {
    KeepPruned(lev, tables, 0);
  }

  /* Nothing happens in an empty table. */
  lemma {:induction false} RemovedNone(tables: Tables, level: nat, t: nat, i: nat, j: nat)
    requires 1 <= level <= 4 && t in tables && Empty(tables[t])
    ensures RemovedAll(tables, level, t, i, j) == tables
    decreases j - i
  {
    hide Slot;
    if i < j {
      var s := Slot(level, i);
      if |tables[t]| == 512 && level == 1 {
        assert tables[t][s := Clear] == tables[t] && tables[t := tables[t]] == tables;
      }
      RemovedNone(tables, level, t, i + 1, j);
    }
  }

  /* Nothing happens below a clear entry. */
  lemma {:induction false} ChunkClear(tables: Tables, level: nat, t: nat, i: nat, c: nat)
    requires 1 < level <= 4 && t in tables && |tables[t]| == 512 && i <= c <= NextChunk(level, i)
    requires tables[t][Slot(level, i)] == Clear
    ensures RemovedAll(tables, level, t, i, c) == tables
    decreases c - i
  {
    hide Slot, NextChunk;
    if i < c {
      if i + 1 < c {
        SameSlot(level, i, i + 1);
        ChunkClear(tables, level, t, i + 1, c);
      }
    }
  }

  /* The pages of one chunk: the table below does the work, and goes if it is left empty. */
  lemma {:induction false} ChunkRemoved(tables: Tables, lev: Levels, level: nat, t: nat, i: nat, c: nat)
    requires Tree(tables, lev) && 1 < level <= 4 && t in tables && lev[t] == level && i < c <= NextChunk(level, i)
    requires Points(tables, t, Slot(level, i))
    ensures var s := Slot(level, i);
      RemovedAll(tables, level, t, i, c) == Pruned(RemovedAll(tables, level - 1, tables[t][s].frame, i, c), t, s)
    decreases c - i
  {
    hide Slot, NextChunk, Linked, OneParent, Levelled;
    var s := Slot(level, i);
    TableSize(tables, lev, t);
    ChildTable(tables, lev, t, s);
    var f := tables[t][s].frame;
    RemovedTree(tables, lev, level - 1, f, i);
    var y := Removed(tables, level - 1, f, i);
    assert Removed(tables, level, t, i) == Pruned(y, t, s) && y[t] == tables[t];
    hide Removed, Tree;
    if i + 1 == c {
      assert RemovedAll(y, level - 1, f, c, c) == y;
      assert RemovedAll(Pruned(y, t, s), level, t, c, c) == Pruned(y, t, s);
    } else {
      SameSlot(level, i, i + 1);
      if Empty(y[f]) {
        RemovedNone(y, level - 1, f, i + 1, c);
        ChunkClear(Pruned(y, t, s), level, t, i + 1, c);
      } else {
        ChunkRemoved(y, Keep(lev, y), level, t, i + 1, c);
      }
    }
  }

  lemma {:induction false} RemovedAllFull(tables: Tables, lev: Levels, roots: set<nat>, t: nat, i: nat, j: nat)
    requires Tree(tables, lev) && t in tables && lev[t] == 4 && t in roots && Full(tables, roots)
    ensures Full(RemovedAll(tables, 4, t, i, j), roots)
    decreases j - i
  {
    hide Removed, Tree;
    if i < j {
      RemovedTree(tables, lev, 4, t, i);
      RemovedFull(tables, lev, roots, 4, t, i);
      assert roots + {t} == roots;
      var r := Removed(tables, 4, t, i);
      TableSize(tables, lev, t);
      RemovedAllFull(r, Keep(lev, r), roots, t, i + 1, j);
    }
  }

  /* Exactly the leaves of the pages are cleared. */
  lemma {:induction false} FindRemovedAll(tables: Tables, lev: Levels, t: nat, i: nat, j: nat, u: nat, l: nat)
    requires Tree(tables, lev) && t in tables && lev[t] == 4 && u in tables && lev[u] == 4 && j <= CANONICAL && l < CANONICAL
    ensures Find(RemovedAll(tables, 4, t, i, j), 4, u, l) == if u == t && i <= l < j then Clear else Find(tables, 4, u, l)
    decreases j - i
  {
    hide Removed, Tree, Find, SameBelow;
    if i < j {
      RemovedTree(tables, lev, 4, t, i);
      FindRemoved(tables, lev, 4, t, i, u, l);
      SameIsSame(4, i);
      if SameBelow(4, i, l) { SlotsDetermine(i, l); }
      var r := Removed(tables, 4, t, i);
      TableSize(tables, lev, t);
      TableSize(tables, lev, u);
      FindRemovedAll(r, Keep(lev, r), t, i + 1, j, u, l);
    }
  }

  /* The four indices determine the page. */
  lemma SlotsDetermine(k: nat, l: nat)
    requires k < CANONICAL && l < CANONICAL && SameBelow(4, k, l)
    ensures k == l
  {
    assert SameBelow(3, k, l) && SameBelow(2, k, l) && SameBelow(1, k, l);
    Digits(k);
    Digits(l);
  }

  lemma Digits(k: nat)
    requires k < CANONICAL
    ensures k == Slot(4, k) * 0x800_0000 + Slot(3, k) * 0x4_0000 + Slot(2, k) * 512 + Slot(1, k)
  {
    var a := k / 512;
    var b := a / 512;
    assert k / 0x4_0000 == b && k / 0x800_0000 == b / 512;
  }

  lemma SameIsSame(level: nat, k: nat)
    requires 1 <= level <= 4
    ensures SameBelow(level, k, k)
  {
    hide Slot;
    if level > 1 {
      SameIsSame(level - 1, k);
    }
  }
}
