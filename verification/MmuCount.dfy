/**
 Reference counts of page tables: how many entries point to a frame, and how the number moves
 with each entry that is written.
 */
module MmuCount {
  import opened Paging
  import opened MmuSpec
  import BuddySpec

  datatype Place = Place(table: nat, index: nat)

  /* The entries that point to frame f. */
  ghost function Users(tables: Tables, f: nat): set<Place> {
    set t, i | t in tables && 0 <= i < |tables[t]| && tables[t][i].To? && tables[t][i].frame == f :: Place(t, i)
  }

  lemma UsersMember(tables: Tables, f: nat, t: nat, i: nat)
    ensures Place(t, i) in Users(tables, f) <==> Points(tables, t, i) && tables[t][i].frame == f
  {
  }

  /* pp_ref of every frame in use is the number of entries that point to it, and one for a
     PML4. */
  ghost predicate Counted(pages: BuddySpec.Pages, tables: Tables, roots: set<nat>, held: set<int>) {
    forall f: nat :: f in held && f < |pages| ==> pages[f].ref == |Users(tables, f)| + if f in roots then 1 else 0
  }

  lemma UsersSet(tables: Tables, t: nat, i: nat, pte: Pte, f: nat)
    requires t in tables && i < |tables[t]|
    ensures Users(tables[t := tables[t][i := pte]], f)
         == (Users(tables, f) - {Place(t, i)}) + if pte.To? && pte.frame == f then {Place(t, i)} else {}
  {
    var tables' := tables[t := tables[t][i := pte]];
    var a, b := Users(tables', f), (Users(tables, f) - {Place(t, i)}) + if pte.To? && pte.frame == f then {Place(t, i)} else {};
    forall x: Place
      ensures x in a <==> x in b
    {
      UsersMember(tables', f, x.table, x.index);
      UsersMember(tables, f, x.table, x.index);
    }
  }

  lemma UsersNew(tables: Tables, t: nat, i: nat, g: nat, f: nat)
    requires t in tables && i < |tables[t]| && tables[t][i] == Clear && g !in tables
    ensures Users(NewTable(tables, t, i, g), f) == Users(tables, f) + if f == g then {Place(t, i)} else {}
    ensures Place(t, i) !in Users(tables, f)
  {
    var tables' := NewTable(tables, t, i, g);
    var a, b := Users(tables', f), Users(tables, f) + if f == g then {Place(t, i)} else {};
    UsersMember(tables, f, t, i);
    forall x: Place
      ensures x in a <==> x in b
    {
      UsersMember(tables', f, x.table, x.index);
      UsersMember(tables, f, x.table, x.index);
    }
  }

  lemma UsersPruned(tables: Tables, t: nat, i: nat, f: nat)
    requires Points(tables, t, i) && tables[t][i].frame in tables && Empty(tables[tables[t][i].frame]) && tables[t][i].frame != t
    ensures Users(Pruned(tables, t, i), f) == Users(tables, f) - {Place(t, i)}
    ensures Place(t, i) in Users(tables, f) <==> f == tables[t][i].frame
  {
    var tables' := Pruned(tables, t, i);
    var a, b := Users(tables', f), Users(tables, f) - {Place(t, i)};
    UsersMember(tables, f, t, i);
    forall x: Place
      ensures x in a <==> x in b
    {
      UsersMember(tables', f, x.table, x.index);
      UsersMember(tables, f, x.table, x.index);
    }
  }
}
