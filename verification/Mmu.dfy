/**
 page_insert, page_lookup and unmap_page_range of kernel/mem over tables in physical memory,
 with tables allocated on demand from the buddy allocator and freed when they become empty. The
 loops are those of the page walker: on a single page for insertions, on any range for removals.
 */
module Mmu {
  import opened Common
  import opened Paging
  import opened MmuSpec
  import opened MmuCount
  import BuddySpec
  import Buddy
  import FrameOwner

  /* The state as a value: the tables with their levels, the PML4s, the frames held by the
     kernel, the page array and the free frames. */
  datatype Snap = Snap(tables: Tables, lev: Levels, roots: set<nat>, held: set<int>, pages: BuddySpec.Pages, free: set<int>)

  ghost predicate Forest(tables: Tables, lev: Levels, roots: set<nat>) {
    && Tree(tables, lev)
    && (forall r :: r in roots ==> r in tables && lev[r] == 4)
    && (forall t :: t in tables && lev[t] == 4 ==> t in roots)
  }

  /* Tables and mapped pages are frames in use. */
  ghost predicate Backed(tables: Tables, held: set<int>, n: nat) {
    && (forall t :: t in tables ==> t in held)
    && (forall t: nat, i: nat :: Points(tables, t, i) ==> tables[t][i].frame in held)
    && (forall x :: x in held ==> 0 <= x < n)
  }

  /* pp_ref has 16 bits. */
  ghost predicate Small(pages: BuddySpec.Pages) {
    forall x :: 0 <= x < |pages| ==> pages[x].ref < 0x10000
  }

  ghost predicate Sound(s: Snap) {
    && Forest(s.tables, s.lev, s.roots) && Backed(s.tables, s.held, |s.pages|)
    && Counted(s.pages, s.tables, s.roots, s.held) && Small(s.pages)
  }

  class Mmu {
    const buddy: Buddy.Allocator
    var tables: Tables
    ghost var lev: Levels
    /* The PML4s, and the frames handed out. */
    var roots: set<nat>
    var held: set<int>

    ghost function State(): Snap
      reads this, buddy
    {
      Snap(tables, lev, roots, held, buddy.pages, buddy.Free())
    }

    ghost predicate Core()
      reads this, buddy
    {
      Sound(State()) && FrameOwner.Owns(buddy, held) && Open(tables, lev)
    }

    /* The tables are a forest with exact reference counts and no empty table. */
    ghost predicate Valid()
      reads this, buddy
    {
      Core() && Full(tables, roots)
    }

    constructor (buddy: Buddy.Allocator)
      requires FrameOwner.Owns(buddy, {}) && Small(buddy.pages)
      ensures Valid() && this.buddy == buddy && tables == map[] && held == {}
    {
      this.buddy := buddy;
      tables, lev, roots, held := map[], map[], {}, {};
    }

    /* ptbl_alloc */
    method PtblAlloc(t: nat, i: nat) returns (ok: bool, ghost frames: seq<nat>)
      requires Core() && t in tables && lev[t] > 1 && i < 512
      modifies this, buddy
      ensures !ok <==> old(buddy.Free()) == {} && old(tables)[t][i] == Clear
      ensures !ok ==> Core() && State() == old(State()).(pages := buddy.pages)
      ensures ok ==> Core() && TableDone(old(State()), State(), t, i, frames)
    {
      hide Sound, Open, Walkable, FrameOwner.Owns, Buddy.Allocator.Free, Buddy.Allocator.Valid;
      ghost var s := State();
      frames := [];
      TableIn(s, t);
      if tables[t][i].To? {
        return true, [];
      }
      var r := FrameOwner.Take(buddy, held);
      if r.None? {
        NoPageSound(s, State());
        return false, [];
      }
      var f := r.value;
      FrameOwner.IncRef(buddy, f, held + {f}) ;
      NewTableSound(s, t, i, f, buddy.pages);
      OpenNew(tables, lev, t, i, f);
      held := held + {f};
      lev := lev[f := lev[t] - 1];
      tables := NewTable(tables, t, i, f);
      ok, frames := true, [f];
    }

    /* insert_pte: the page that was there loses a reference, the new one gains one. */
    method InsertPte(t: nat, i: nat, p: nat, flags: nat)
      requires Core() && t in tables && lev[t] == 1 && i < 512 && p in held && p !in tables
      modifies this, buddy
      ensures LeafDone(old(State()), State(), t, i, To(p, flags)) && Walkable(tables, lev, roots)
      ensures if Clean(old(State()), old(tables[t][i]), p) then Core() else Ruined(State(), p)
    {
      hide Sound, Open, Walkable, FrameOwner.Owns, Buddy.Allocator.Free, Buddy.Allocator.Valid, LeafDone;
      ghost var s := State();
      TableIn(s, t);
      HeldPage(s, p);
      if tables[t][i].To? {
        var g := tables[t][i].frame;
        EntryPage(s, t, i);
        var last := buddy.pages[g].ref == 1;
        FrameOwner.Decref(buddy, g, held);
        if last {
          held := held - {g};
        }
      } else {
        FrameOwner.OwnsValid(buddy, held);
      }
      ghost var s1 := State();
      FrameOwner.IncRef(buddy, p, held);
      WalkableLeaf(s, t, i, To(p, flags));
      tables := tables[t := tables[t][i := To(p, flags)]];
      LeafSteps(s, s1, State(), t, i, p, flags);
    }

    /* The body of a walk loop on an insertion: at the last level insert_pte, above it
       ptbl_alloc and the walk of the table below. */
    method InsertEntry(level: nat, t: nat, i: nat, addr: u64, next: u64, p: nat, flags: nat, ghost hi: bool, ghost k: nat)
      returns (ok: bool, ghost frames: seq<nat>)
      requires 1 <= level <= 4 && k < CANONICAL && addr == Page(hi, k) && i == Slot(level, k) && next > 0
      requires level > 1 ==> EndsAt(hi, next - 1, k + 1, level - 1)
      requires Core() && t in tables && lev[t] == level && p in held && p !in tables
      modifies this, buddy
      ensures ok ==> InsertDone(old(State()), State(), level, t, k, To(p, flags), frames)
      ensures !ok ==> Core() && NoRoom(old(State()), State(), level, t, k)
      ensures ok ==> Walkable(tables, lev, roots)
      ensures ok ==> if CleanAt(old(State()), level, t, k, p) then Core() else Ruined(State(), p)
      decreases level, 0
    {
      hide Sound, Open, Walkable, FrameOwner.Owns, Buddy.Allocator.Free, Buddy.Allocator.Valid, LeafDone, InsertDone, TableDone, NoRoom, Slot, Page, EndsAt, CleanAt;
      ghost var s := State();
      frames := [];
      if level == 1 {
        InsertPte(t, i, p, flags);
        InsertLeaf(s, State(), t, k, p, flags);
        return true, [];
      }
      ghost var f1, f2;
      ok, f1 := PtblAlloc(t, i);
      if !ok {
        TableIn(s, t);
        NoRoomHere(s, State(), level, t, k);
        return;
      }
      ghost var s1 := State();
      TableBelow(s, s1, level, t, k, f1, p);
      ok, f2 := InsertRange(level - 1, tables[t][i].frame, addr, next - 1, p, flags, hi, k);
      if !ok {
        NoRoomBelow(s, s1, State(), level, t, k, f1);
        return;
      }
      InsertCompose(s, s1, State(), level, t, k, p, flags, f1, f2);
      frames := f1 + f2;
    }

    /* A walk loop on the range of a single page: it runs once. */
    method InsertRange(level: nat, t: nat, base: u64, end: u64, p: nat, flags: nat, ghost hi: bool, ghost k: nat)
      returns (ok: bool, ghost frames: seq<nat>)
      requires 1 <= level <= 4 && k < CANONICAL && base == Page(hi, k) && EndsAt(hi, end, k + 1, level)
      requires Core() && t in tables && lev[t] == level && p in held && p !in tables
      modifies this, buddy
      ensures ok ==> InsertDone(old(State()), State(), level, t, k, To(p, flags), frames)
      ensures !ok ==> Core() && NoRoom(old(State()), State(), level, t, k)
      ensures ok ==> Walkable(tables, lev, roots)
      ensures ok ==> if CleanAt(old(State()), level, t, k, p) then Core() else Ruined(State(), p)
      decreases level, 1
    {
      hide Sound, Open, Walkable, FrameOwner.Owns, Buddy.Allocator.Free, Buddy.Allocator.Valid, InsertDone, NoRoom, Slot, Page, EndsAt, CleanAt, Next, SignExtend, Index, NextChunk;
      ok, frames := true, [];
      SinglePage(hi, level, k, end);
      var next: u64 := base;
      var addr: u64 := SignExtend(base);
      ghost var done := false;
      while next < end
        invariant ok && (if done then next == end else next == base < end && addr == base)
        invariant !done ==> State() == old(State()) && Core() && buddy.lists == old(buddy.lists)
        invariant done ==> InsertDone(old(State()), State(), level, t, k, To(p, flags), frames) && Walkable(tables, lev, roots)
        invariant done ==> if CleanAt(old(State()), level, t, k, p) then Core() else Ruined(State(), p)
        decreases end - next
      {
        next := Next(level, addr, end);
        var i := Index(level, addr);
        ok, frames := InsertEntry(level, t, i, addr, next, p, flags, hi, k);
        if !ok {
          return;
        }
        done := true;
        addr := next;
      }
    }

    /* page_insert at the k-th canonical page: the flat map of all address spaces changes at
       that page and nowhere else. It fails if and only if there are fewer free frames than
       tables missing, and then no lookup changes. The counts stay exact if and only if the page
       is not mapped over its own only mapping and its count is not at its maximum. */
    method PageInsert(root: nat, va: u64, p: nat, flags: nat, ghost k: nat) returns (ok: bool, ghost frames: seq<nat>)
      requires Valid() && root in roots && k < CANONICAL && va == Page(false, k) && p in held && p !in tables
      modifies this, buddy
      ensures ok <==> |old(buddy.Free())| >= Missing(old(tables), 4, root, k)
      ensures !ok ==> Core() && buddy.Free() == {} && SameLookups(old(State()), State())
      ensures ok ==> InsertDone(old(State()), State(), 4, root, k, To(p, flags), frames) && roots == old(roots)
      ensures ok ==> forall r, l: nat :: r in roots && l < CANONICAL ==>
        Find(tables, 4, r, l) == if r == root && l == k then To(p, flags) else Find(old(tables), 4, r, l)
      ensures ok ==> RightsSet(old(tables), tables, roots, root, k, flags)
      ensures ok ==> (Valid() <==> CleanAt(old(State()), 4, root, k, p))
      ensures ok && !CleanAt(old(State()), 4, root, k, p) ==> Ruined(State(), p)
    {
      hide Sound, Open, Walkable, FrameOwner.Owns, Buddy.Allocator.Free, Buddy.Allocator.Valid, InsertDone, SameLookups, Missing, Slot, Page, EndsAt, CleanAt, RoundUp, RoundDown, Full;
      ghost var s := State();
      RootIn(s, root);
      OnePageRange(k);
      ok, frames := InsertRange(4, root, RoundDown(va), (RoundUp((va + 4096) % WORD) - 1) % WORD, p, flags, false, k);
      if ok {
        EnoughRoom(s, State(), 4, root, k, To(p, flags), frames);
        InsertFlat(s, State(), root, k, To(p, flags), frames);
        SoundWalkable(s);
        InsertRights(s, State(), root, k, flags);
        if !CleanAt(s, 4, root, k, p) {
          RuinedInvalid(s, State(), root, k, p, flags, frames, buddy);
        }
      }
    }

    /* remove_pte. Its test multiplies the entry with PAGE_PRESENT, so that it asks whether the
       entry is zero. */
    method RemovePte(t: nat, i: nat)
      requires Core() && t in tables && lev[t] == 1 && i < 512
      modifies this, buddy
      ensures Core() && t in old(tables) && i < |old(tables)[t]|
      ensures tables == old(tables)[t := old(tables)[t][i := Clear]] && lev == old(lev) && roots == old(roots)
      ensures LostPages(old(State()), State(), Last(old(State()), old(tables)[t][i]))
    {
      hide Sound, Open, Walkable, FrameOwner.Owns, Buddy.Allocator.Free, Buddy.Allocator.Valid, LostPages, Last;
      ghost var s := State();
      TableIn(s, t);
      if tables[t][i] == Clear {
        assert tables[t][i := Clear] == tables[t] && tables[t := tables[t]] == tables;
        assert LostPages(s, State(), Last(s, tables[t][i])) by { NothingLost(s); }
        return;
      }
      EntryPage(s, t, i);
      var g := tables[t][i].frame;
      var last := buddy.pages[g].ref == 1;
      FrameOwner.Decref(buddy, g, held);
      if last {
        held := held - {g};
      }
      OpenLeaf(tables, lev, t, i, Clear);
      tables := tables[t := tables[t][i := Clear]];
      ClearSound(s, State(), t, i);
    }

    /* ptbl_free: an entry whose table has no present entry is cleared and the table freed. */
    method PtblFree(t: nat, i: nat)
      requires Core() && t in tables && lev[t] > 1 && i < 512
      modifies this, buddy
      ensures Core() && tables == Pruned(old(tables), t, i) && lev == Keep(old(lev), tables) && roots == old(roots)
      ensures LostPages(old(State()), State(), old(tables).Keys - tables.Keys)
    {
      hide Sound, Open, Walkable, FrameOwner.Owns, Buddy.Allocator.Free, Buddy.Allocator.Valid, LostPages;
      ghost var s := State();
      TableIn(s, t);
      KeepAll(s);
      NothingLost(s);
      assert tables.Keys - tables.Keys == {};
      if tables[t][i] == Clear {
        return;
      }
      ChildIn(s, t, i);
      var f := tables[t][i].frame;
      var j := 0;
      while j < 512
        invariant 0 <= j <= 512 && forall n :: 0 <= n < j ==> tables[f][n] == Clear
        invariant State() == old(State()) && Core()
      {
        if tables[f][j].To? {
          return;
        }
        j := j + 1;
      }
      assert Empty(tables[f]);
      TableRef(s, t, i);
      FrameOwner.Decref(buddy, f, held);
      PruneSound(s, buddy.pages, t, i);
      OpenPruned(s, t, i);
      held := held - {f};
      tables := (tables - {f})[t := tables[t][i := Clear]];
      lev := lev - {f};
    }

    /* The body of a walk loop on a removal, for the pages i up to c of one entry: at the last
       level remove_pte, above it the walk of the table below and then ptbl_free. If there are no
       such pages, the table below must not be empty. */
    method RemoveEntry(level: nat, t: nat, idx: nat, addr: u64, next: u64, ghost hi: bool, ghost i: nat, ghost c: nat)
      requires 1 <= level <= 4 && i < CANONICAL && addr == Page(hi, i) && idx == Slot(level, i) && next > 0
      requires c <= NextChunk(level, i) && (level > 1 ==> EndsAt(hi, next - 1, c, level - 1))
      requires Core() && t in tables && lev[t] == level
      requires i < c || (level > 1 && PathFull(tables, level, t, i))
      modifies this, buddy
      ensures Core() && RemoveDone(old(State()), State(), level, t, i, c)
      decreases level, 0
    {
      hide Sound, Open, Walkable, FrameOwner.Owns, Buddy.Allocator.Free, Buddy.Allocator.Valid, LostPages, Last, RemoveDone, Slot, Page, EndsAt, Removed, Pruned, NextChunk, PathFull, Number, SignExtend;
      ghost var s := State();
      TableIn(s, t);
      if level == 1 {
        RemovePte(t, idx);
        RemoveLeaf(s, State(), t, i, c);
        return;
      }
      if tables[t][idx].To? {
        ChildIn(s, t, idx);
        PageExtends(hi, i);
        RangeStart(hi, addr, next - 1, c, level - 1);
        RemoveRange(level - 1, tables[t][idx].frame, addr, next - 1, hi, i, c);
        ghost var s1 := State();
        RemoveBelow(s, s1, level, t, i, c);
        PtblFree(t, idx);
        if i < c {
          RemoveCompose(s, s1, State(), level, t, i, c);
        } else {
          RemoveKeeps(s, s1, State(), level, t, i, c);
        }
      } else {
        if i <= c {
          RemoveNothing(s, level, t, i, c);
        } else {
          RemoveNone(s, level, t, i, c);
        }
      }
    }

    /* A walk loop on a removal, for the pages i up to j. */
    method RemoveRange(level: nat, t: nat, base: u64, end: u64, ghost hi: bool, ghost i: nat, ghost j: nat)
      requires 1 <= level <= 4 && i == Number(base) && base <= SignExtend(base) == Page(hi, i) && EndsAt(hi, end, j, level)
      requires Core() && t in tables && lev[t] == level
      requires base < end ==> i < j || (level > 1 && PathFull(tables, level, t, i))
      modifies this, buddy
      ensures Core() && RemoveDone(old(State()), State(), level, t, i, j)
      decreases level, 1
    {
      hide Sound, Open, Walkable, FrameOwner.Owns, Buddy.Allocator.Free, Buddy.Allocator.Valid, RemoveDone, Slot, Page, EndsAt, Next, SignExtend, Index, NextChunk, Number, PathFull;
      RangeStart(hi, base, end, j, level);
      ghost var s, k := State(), i;
      RemoveNone(s, level, t, i, j);
      TableIn(s, t);
      var next: u64 := base;
      var addr: u64 := SignExtend(base);
      while next < end
        invariant Core() && t in tables && t in lev && lev[t] == level && i <= k
        invariant if next < end then k < CANONICAL && next <= addr == Page(hi, k) else k >= j
        invariant next < end && k >= j ==> k == i && level > 1 && PathFull(tables, level, t, k) && State() == s
        invariant RemoveDone(s, State(), level, t, i, if next < end then k else j)
        decreases end - next
      {
        NextStep(hi, level, k, end, j);
        ghost var c := if NextChunk(level, k) < j then NextChunk(level, k) else j;
        next := Next(level, addr, end);
        var idx := Index(level, addr);
        ghost var s1 := State();
        RemoveEntry(level, t, idx, addr, next, hi, k, c);
        if k < j {
          RemoveThen(s, s1, State(), level, t, i, k, c);
          k := c;
        } else {
          RemoveStays(s, State(), level, t, i, j);
        }
        addr := next;
      }
    }

    /* unmap_page_range: exactly the walked pages are unmapped, whatever the start. From a start in
       a canonical page these are the canonical pages that the range meets. */
    method UnmapPageRange(root: nat, va: u64, size: u64)
      requires Valid() && root in roots
      modifies this, buddy
      ensures Valid() && roots == old(roots)
      ensures RemoveDone(old(State()), State(), 4, root, StartPage(va), EndPage(va, RangeEnd(va, size)))
      ensures Cut(old(tables), tables, roots, root, StartPage(va), EndPage(va, RangeEnd(va, size)))
      ensures Canonical(va) ==> Unmapped(old(tables), tables, roots, root, va, RangeEnd(va, size))
    {
      hide Sound, Open, Walkable, FrameOwner.Owns, Buddy.Allocator.Free, Buddy.Allocator.Valid, RemoveDone, Slot, Page, EndsAt, Full, Wanted, Below, Limit, Find, RoundUp, RoundDown, Unmapped, Cut, RangeEnd, StartPage, EndPage, PathFull, SignExtend, Number, Canonical;
      ghost var s := State();
      var end := RangeEnd(va, size);
      ghost var i, j := StartPage(va), EndPage(va, end);
      RootIn(s, root);
      PageRange(va, end);
      RootPath(s, root, i);
      RemoveRange(4, root, RoundDown(va), (RoundUp(end) - 1) % WORD, va >= USER_LIM, i, j);
      UnmapFlat(s, State(), root, va, end);
    }

    /* page_remove of an address: the pages that the 4096 bytes from there meet, which is one page
       if the address is page-aligned. */
    method PageRemove(root: nat, va: u64, ghost k: nat)
      requires Valid() && root in roots
      modifies this, buddy
      ensures Valid() && roots == old(roots)
      ensures Cut(old(tables), tables, roots, root, StartPage(va), EndPage(va, RangeEnd(va, 4096)))
      ensures Canonical(va) ==> Unmapped(old(tables), tables, roots, root, va, RangeEnd(va, 4096))
      ensures k < CANONICAL && va == Page(false, k) ==> RemoveDone(old(State()), State(), 4, root, k, k + 1)
      ensures k < CANONICAL && va == Page(false, k) ==> forall r, l: nat :: r in roots && l < CANONICAL ==>
        Find(tables, 4, r, l) == if r == root && l == k then Clear else Find(old(tables), 4, r, l)
    {
      hide Sound, Open, Walkable, FrameOwner.Owns, Buddy.Allocator.Free, Buddy.Allocator.Valid, RemoveDone, Slot, Page, Full, Wanted, Below, Limit, Find, RangeEnd, RoundDown, Canonical, Cut, StartPage, EndPage;
      UnmapPageRange(root, va, 4096);
      if k < CANONICAL && va == Page(false, k) {
        OnePageRange(k);
        CanonicalPage(va, k);
        OnePage(k);
        forall l: nat | l < CANONICAL
          ensures Wanted(va, RangeEnd(va, 4096), Page(false, l)) <==> l == k
        {
          WantedPages(va, RangeEnd(va, 4096), l);
        }
      }
    }

    /* page_lookup: the last present entry of the pages that the 4096 bytes from the address meet.
       A page-aligned address gives the entry of its page; for any other address of a canonical
       page, see LookedUp. */
    method PageLookup(root: nat, va: u64) returns (e: Pte)
      requires Valid() && root in roots
      ensures e == LastFound(tables, root, StartPage(va), EndPage(va, RangeEnd(va, 4096)))
      ensures forall k: nat :: k < CANONICAL && va == Page(false, k) ==> e == Find(tables, 4, root, k)
      ensures forall k: nat :: k < CANONICAL && RoundDown(va) == Page(false, k) ==> e == LookedUp(tables, root, va, k)
    {
      hide Sound, Open, Walkable, FrameOwner.Owns, Buddy.Allocator.Free, Buddy.Allocator.Valid, Slot, Page, RoundDown, Walked, Translate, Ascending, Find, Full, MemoryOf, StartPage, EndPage, LastFound, Visited;
      var visits := WalkPageRange(MemoryOf(tables), root, va, RangeEnd(va, 4096));
      LookupVisits(State(), root, va, visits);
      e := Clear;
      var j := 0;
      while j < |visits|
        invariant 0 <= j <= |visits|
        invariant e == LastPresent(tables, visits[..j])
      {
        assert visits[..j + 1][..j] == visits[..j];
        VisitedAt(tables, visits, j);
        var entry := tables[visits[j].table][visits[j].index];
        if entry.To? {
          e := entry;
        }
        j := j + 1;
      }
      assert visits[..j] == visits;
      forall k: nat | k < CANONICAL && RoundDown(va) == Page(false, k)
        ensures e == LookedUp(tables, root, va, k) && (va == Page(false, k) ==> e == Find(tables, 4, root, k))
      {
        LookedUpPages(tables, root, va, k);
      }
      forall k: nat | k < CANONICAL && va == Page(false, k)
        ensures RoundDown(va) == va
      {
        OnePageRange(k);
      }
    }

    /* unmap_user_pages: the whole user half of an address space is unmapped. */
    method UnmapUserPages(root: nat)
      requires Valid() && root in roots
      modifies this, buddy
      ensures Valid() && roots == old(roots)
      ensures forall r, l: nat :: r in roots && l < CANONICAL ==>
        Find(tables, 4, r, l) == if r == root && l < HALF then Clear else Find(old(tables), 4, r, l)
    {
      hide Sound, Open, Walkable, FrameOwner.Owns, Buddy.Allocator.Free, Buddy.Allocator.Valid, RemoveDone, Slot, Full, Wanted, Below, Limit, Page, Find;
      UserRange(0);
      UnmapPageRange(root, 0, USER_LIM);
      forall l: nat | l < CANONICAL
        ensures Wanted(0, RangeEnd(0, USER_LIM), Page(false, l)) <==> l < HALF
      {
        UserRange(l);
      }
    }

    /* Mapping a page at an address where nothing is mapped and unmapping it again restores
       every table; the free frames are the same, and the page itself if it had no other
       reference. */
    method InsertThenRemove(root: nat, va: u64, p: nat, flags: nat, ghost k: nat) returns (ok: bool)
      requires Valid() && root in roots && k < CANONICAL && va == Page(false, k) && p in held && p !in tables
      requires Find(tables, 4, root, k) == Clear && p < |buddy.pages| && buddy.pages[p].ref < 0xffff
      modifies this, buddy
      ensures ok <==> |old(buddy.Free())| >= Missing(old(tables), 4, root, k)
      ensures !ok ==> Core() && buddy.Free() == {} && SameLookups(old(State()), State())
      ensures ok ==> Valid() && tables == old(tables)
      ensures ok ==> buddy.Free() == old(buddy.Free()) + if old(buddy.pages[p].ref) == 0 then {p} else {}
    {
      hide Sound, Open, Walkable, FrameOwner.Owns, Buddy.Allocator.Free, Buddy.Allocator.Valid, InsertDone, RemoveDone, Slot, Page, Full, SameLookups, Missing;
      ghost var s := State();
      ghost var frames;
      ok, frames := PageInsert(root, va, p, flags, k);
      if ok {
        ghost var s1 := State();
        PageRemove(root, va, k);
        RoundTrip(s, s1, State(), root, k, p, flags, frames);
      }
    }

    /* page_alloc by a client: a page with no references. */
    method AllocPage() returns (r: Option<nat>)
      requires Valid()
      modifies this, buddy
      ensures tables == old(tables) && roots == old(roots) && (r.None? <==> old(buddy.Free()) == {})
      ensures r.None? ==> Valid() && held == old(held) && buddy.Free() == {}
      ensures r.Some? ==> r.value in old(buddy.Free()) && buddy.Free() == old(buddy.Free()) - {r.value}
      ensures r.Some? ==> Valid() && held == old(held) + {r.value} && r.value !in tables
      ensures r.Some? ==> r.value < |buddy.pages| && buddy.pages[r.value].ref == 0
    {
      hide Sound, Open, Walkable, FrameOwner.Owns, Buddy.Allocator.Free, Buddy.Allocator.Valid, Full;
      ghost var s := State();
      r := FrameOwner.Take(buddy, held);
      if r.None? {
        NoPageSound(s, State());
        return;
      }
      PageSound(s, r.value, buddy.pages, buddy.Free());
      held := held + {r.value};
    }

    /* create_pml4, without the entries that all address spaces share for the kernel. */
    method CreatePml4() returns (r: Option<nat>)
      requires Valid()
      modifies this, buddy
      ensures r.None? <==> old(buddy.Free()) == {}
      ensures r.None? ==> Valid() && tables == old(tables) && roots == old(roots) && held == old(held) && buddy.Free() == {}
      ensures r.Some? ==> r.value in old(buddy.Free()) && buddy.Free() == old(buddy.Free()) - {r.value}
      ensures r.Some? ==> Valid() && r.value !in old(tables) && roots == old(roots) + {r.value} && held == old(held) + {r.value}
      ensures r.Some? ==> SpaceAdded(old(tables), tables, roots, r.value)
    {
      hide Sound, Open, Walkable, FrameOwner.Owns, Buddy.Allocator.Free, Buddy.Allocator.Valid, Full, Find;
      r := AllocPage();
      if r.None? {
        return;
      }
      ghost var s := State();
      var f := r.value;
      FrameOwner.OwnsValid(buddy, held);
      FrameOwner.IncRef(buddy, f, held);
      RootSound(s, f, buddy.pages);
      OpenRoot(tables, lev, f);
      tables := tables[f := Blank(512)];
      lev := lev[f := 4];
      roots := roots + {f};
    }

    /* Any run of these operations, up to the point where memory is exhausted: every step does to
       the lookups what the flat map does, so that a lookup gives what was last inserted there.
       The run stops early exactly at an operation that needs more frames than are free. */
    method Run(ops: seq<Op>) returns (n: nat, ghost snaps: seq<Snap>)
      requires Valid() && roots == {}
      modifies this, buddy
      ensures n <= |ops| && |snaps| == n + 1 && snaps[0] == old(State()) && Trace(snaps, ops)
      ensures n == |ops| ==> Valid() && State() == snaps[n]
      ensures n < |ops| ==> Stuck(snaps[n], ops[n]) && Core() && buddy.Free() == {} && SameLookups(snaps[n], State())
      ensures forall r, l: nat :: r in roots && l < CANONICAL ==> Find(tables, 4, r, l) == Latest(snaps, ops, n, r, l)
    {
      hide Sound, Open, Walkable, FrameOwner.Owns, Buddy.Allocator.Free, Buddy.Allocator.Valid, Full, Step, Stuck, Find, Latest, SameLookups, Trace;
      n, snaps := 0, [State()];
      FirstTrace(snaps, ops);
      while n < |ops|
        invariant n <= |ops| && |snaps| == n + 1 && snaps[0] == old(State()) && Trace(snaps, ops)
        invariant Valid() && State() == snaps[n]
      {
        var ok := Do(ops[n]);
        if !ok {
          LatestFound(snaps, ops, n);
          LatestSame(snaps, ops, n, State());
          return;
        }
        NextTrace(snaps, ops, State());
        snaps := snaps + [State()];
        n := n + 1;
      }
      LatestFound(snaps, ops, n);
    }

    /* One operation of a run. Insertions that the counts would not survive are left out, as is
       what names no page or address space. */
    method Do(op: Op) returns (ok: bool)
      requires Valid()
      modifies this, buddy
      ensures ok ==> Valid() && Step(old(State()), op, State())
      ensures !ok ==> Stuck(old(State()), op) && Core() && buddy.Free() == {} && SameLookups(old(State()), State())
    {
      hide Sound, Open, Walkable, FrameOwner.Owns, Buddy.Allocator.Free, Buddy.Allocator.Valid, Full, Find, InsertDone, RemoveDone, CleanAt, Page, SpaceAdded, Missing;
      ghost var s := State();
      ok := true;
      match op {
        case NewSpace =>
          var r := CreatePml4();
          ok := r.Some?;
          if ok && r.value in s.roots {
            RootIn(s, r.value);
          }
        case NewPage =>
          var r := AllocPage();
          ok := r.Some?;
        case Insert(root, k, p, flags) =>
          if root in roots && k < CANONICAL && p in held && p !in tables {
            ok := InsertIfClean(root, k, p, flags);
          }
        case Remove(root, k) =>
          if root in roots && k < CANONICAL {
            PageRemove(root, Page(false, k), k);
          }
      }
    }

    /* An insertion, unless the page would be mapped over its own only mapping or its count is
       at its maximum. */
    method InsertIfClean(root: nat, k: nat, p: nat, flags: nat) returns (ok: bool)
      requires Valid() && root in roots && k < CANONICAL && p in held && p !in tables
      modifies this, buddy
      ensures ok ==> Valid() && Step(old(State()), Insert(root, k, p, flags), State())
      ensures !ok ==> Stuck(old(State()), Insert(root, k, p, flags))
      ensures !ok ==> Core() && buddy.Free() == {} && SameLookups(old(State()), State())
    {
      hide Sound, Open, Walkable, FrameOwner.Owns, Buddy.Allocator.Free, Buddy.Allocator.Valid, Full, Find, InsertDone, Page, Missing, SameLookups;
      HeldPage(State(), p);
      OnePageRange(k);
      var e := PageLookup(root, Page(false, k));
      ok := true;
      if if e.To? && e.frame == p then buddy.pages[p].ref != 1 else buddy.pages[p].ref < 0xffff {
        ghost var frames;
        ok, frames := PageInsert(root, Page(false, k), p, flags, k);
      }
    }

    /* Inserting a page over its own only mapping: the page is mapped and free. */
    method ReinsertExample() returns (ghost root: nat, ghost p: nat)
      requires Valid() && |buddy.Free()| >= 5
      modifies this, buddy
      ensures root in roots && Find(tables, 4, root, 0) == To(p, 7) && Ruined(State(), p) && !Valid()
    {
      hide Sound, Open, Walkable, FrameOwner.Owns, Buddy.Allocator.Free, Buddy.Allocator.Valid, Full, Find, Page, Ruined, InsertDone, Missing;
      var r := CreatePml4();
      root := r.value;
      assert |buddy.Free()| >= 4;
      var q := AllocPage();
      p := q.value;
      assert |buddy.Free()| >= 3;
      InsertOnce(r.value, q.value);
      MappedPage(State(), root, 0, p, 7);
      MissingBound(tables, 4, root, 0);
      var ok, frames := PageInsert(r.value, Page(false, 0), q.value, 7, 0);
    }

    method InsertOnce(root: nat, p: nat)
      requires Valid() && root in roots && p in held && p !in tables && p < |buddy.pages| && buddy.pages[p].ref == 0
      requires Find(tables, 4, root, 0) == Clear && |buddy.Free()| >= 3
      modifies this, buddy
      ensures Valid() && roots == old(roots) && Find(tables, 4, root, 0) == To(p, 7)
      ensures p < |buddy.pages| && buddy.pages[p].ref == 1
    {
      hide Sound, Open, Walkable, FrameOwner.Owns, Buddy.Allocator.Free, Buddy.Allocator.Valid, Full, Find, Page, Missing;
      MissingBound(tables, 4, root, 0);
      var ok, frames := PageInsert(root, Page(false, 0), p, 7, 0);
    }
  }

  datatype Op = NewSpace | NewPage | Insert(root: nat, k: nat, p: nat, flags: nat) | Remove(root: nat, k: nat)

  /* An insertion that names a page and an address space, and that the counts survive. */
  ghost predicate Insertable(s: Snap, root: nat, k: nat, p: nat) {
    root in s.roots && k < CANONICAL && p in s.held && p !in s.tables && CleanAt(s, 4, root, k, p)
  }

  /* Page k of one address space becomes e; every other page of every address space stays. */
  ghost predicate Written(s: Snap, s': Snap, root: nat, k: nat, e: Pte) {
    s'.roots == s.roots && forall r, l: nat :: r in s.roots && l < CANONICAL ==>
      Find(s'.tables, 4, r, l) == if r == root && l == k then e else Find(s.tables, 4, r, l)
  }

  /* What an operation does, seen through lookups and free frames. */
  ghost predicate Step(s: Snap, op: Op, s': Snap) {
    match op
    case NewSpace =>
      exists r: nat :: r in s.free && r !in s.roots && s'.roots == s.roots + {r} && s'.held == s.held + {r}
                       && s'.free == s.free - {r} && SpaceAdded(s.tables, s'.tables, s'.roots, r)
    case NewPage =>
      exists p: nat :: p in s.free && s'.held == s.held + {p} && s'.free == s.free - {p} && SameLookups(s, s')
    case Insert(root, k, p, flags) =>
      if Insertable(s, root, k, p) then
        |s.free| >= Missing(s.tables, 4, root, k) && Written(s, s', root, k, To(p, flags))
        && exists frames :: InsertDone(s, s', 4, root, k, To(p, flags), frames)
      else s' == s
    case Remove(root, k) =>
      if root in s.roots && k < CANONICAL then Written(s, s', root, k, Clear) && RemoveDone(s, s', 4, root, k, k + 1)
      else s' == s
  }

  /* The operation needs more frames than are free. */
  ghost predicate Stuck(s: Snap, op: Op) {
    match op
    case NewSpace => s.free == {}
    case NewPage => s.free == {}
    case Insert(root, k, p, _) => Insertable(s, root, k, p) && |s.free| < Missing(s.tables, 4, root, k)
    case Remove(_, _) => false
  }

  /* A run without address spaces at its start: each state follows from the one before it, and
     in each the counts are exact and no table is empty. */
  ghost predicate Trace(snaps: seq<Snap>, ops: seq<Op>) {
    && 0 < |snaps| <= |ops| + 1 && snaps[0].roots == {}
    && (forall i :: 0 <= i < |snaps| ==> Sound(snaps[i]) && Full(snaps[i].tables, snaps[i].roots))
    && (forall i :: 0 <= i < |snaps| - 1 ==> Step(snaps[i], ops[i], snaps[i + 1]))
  }

  /* What was last inserted at page l of address space r, in the first n operations. */
  ghost function Latest(snaps: seq<Snap>, ops: seq<Op>, n: nat, r: nat, l: nat): Pte
    requires n < |snaps| && n <= |ops|
  {
    if n == 0 then Clear
    else match ops[n - 1]
      case NewSpace => if r in snaps[n - 1].roots then Latest(snaps, ops, n - 1, r, l) else Clear
      case NewPage => Latest(snaps, ops, n - 1, r, l)
      case Insert(root, k, p, flags) =>
        if r == root && l == k && Insertable(snaps[n - 1], root, k, p) then To(p, flags) else Latest(snaps, ops, n - 1, r, l)
      case Remove(root, k) => if r == root && l == k then Clear else Latest(snaps, ops, n - 1, r, l)
  }

  lemma FirstTrace(snaps: seq<Snap>, ops: seq<Op>)
    requires |snaps| == 1 && snaps[0].roots == {} && Sound(snaps[0]) && Full(snaps[0].tables, snaps[0].roots)
    ensures Trace(snaps, ops)
  {
  }

  lemma NextTrace(snaps: seq<Snap>, ops: seq<Op>, s: Snap)
    requires Trace(snaps, ops) && |snaps| <= |ops| && Step(snaps[|snaps| - 1], ops[|snaps| - 1], s)
    requires Sound(s) && Full(s.tables, s.roots)
    ensures Trace(snaps + [s], ops)
  {
    hide Sound, Full, Step;
  }

  /* Tables implement the flat map: a lookup gives what was last inserted. */
  lemma {:induction false} LatestFound(snaps: seq<Snap>, ops: seq<Op>, n: nat)
    requires Trace(snaps, ops) && n < |snaps|
    ensures forall r, l: nat :: r in snaps[n].roots && l < CANONICAL ==>
      Find(snaps[n].tables, 4, r, l) == Latest(snaps, ops, n, r, l)
  {
    hide Sound, Full, Find, InsertDone, RemoveDone, Insertable, Missing;
    if n > 0 {
      LatestFound(snaps, ops, n - 1);
      assert Step(snaps[n - 1], ops[n - 1], snaps[n]);
    }
  }

  lemma LatestSame(snaps: seq<Snap>, ops: seq<Op>, n: nat, s: Snap)
    requires n < |snaps| && n <= |ops| && SameLookups(snaps[n], s)
    requires forall r, l: nat :: r in snaps[n].roots && l < CANONICAL ==>
      Find(snaps[n].tables, 4, r, l) == Latest(snaps, ops, n, r, l)
    ensures forall r, l: nat :: r in s.roots && l < CANONICAL ==> Find(s.tables, 4, r, l) == Latest(snaps, ops, n, r, l)
  {
    hide Find, Latest;
  }

  /* A new address space with nothing mapped; the others are as they were. */
  ghost predicate SpaceAdded(tables: Tables, tables': Tables, roots: set<nat>, root: nat) {
    forall u: nat, l: nat :: u in roots && l < CANONICAL ==>
      Find(tables', 4, u, l) == if u == root then Clear else Find(tables, 4, u, l)
  }

  /* What ptbl_alloc has done: nothing, or one new table in a frame that was free. */
  ghost predicate TableDone(s: Snap, s': Snap, t: nat, i: nat, frames: seq<nat>) {
    t in s.tables && i < |s.tables[t]| && t in s.lev && s.lev[t] > 0 &&
    if s.tables[t][i].To? then frames == [] && s' == s
    else
      && |frames| == 1 && Unused(s.tables, frames[0]) && frames[0] in s.free && frames[0] !in s.held
      && s'.tables == NewTable(s.tables, t, i, frames[0]) && s'.lev == s.lev[frames[0] := s.lev[t] - 1]
      && s'.roots == s.roots && s'.held == s.held + {frames[0]} && s'.free == s.free - {frames[0]}
      && FrameOwner.RefSet(s.pages, s'.pages, frames[0], 1)
  }

  /* The same address spaces with the same pages. */
  ghost predicate SameLookups(s: Snap, s': Snap) {
    s'.roots == s.roots && forall r, l: nat :: r in s.roots ==> Find(s'.tables, 4, r, l) == Find(s.tables, 4, r, l)
  }

  /* There were fewer free frames than tables missing on the way to page k. They have all become
     tables, which has changed no lookup. */
  ghost predicate NoRoom(s: Snap, s': Snap, level: nat, t: nat, k: nat)
    requires 1 <= level <= 4
  {
    |s.free| < Missing(s.tables, level, t, k) && s'.free == {} && SameLookups(s, s')
  }

  lemma NoRoomHere(s: Snap, s': Snap, level: nat, t: nat, k: nat)
    requires 1 < level <= 4 && s.free == {} && s' == s.(pages := s'.pages)
    requires t in s.tables && Slot(level, k) < |s.tables[t]| && s.tables[t][Slot(level, k)] == Clear
    ensures NoRoom(s, s', level, t, k)
  {
    hide Slot;
  }

  lemma NoRoomBelow(s: Snap, s1: Snap, s2: Snap, level: nat, t: nat, k: nat, f1: seq<nat>)
    requires Sound(s) && 1 < level <= 4 && t in s.tables && s.lev[t] == level && TableDone(s, s1, t, Slot(level, k), f1)
    requires Points(s1.tables, t, Slot(level, k)) && NoRoom(s1, s2, level - 1, s1.tables[t][Slot(level, k)].frame, k)
    ensures NoRoom(s, s2, level, t, k)
  {
    hide Slot, Sound, Find;
    var i := Slot(level, k);
    TableIn(s, t);
    if s.tables[t][i] == Clear {
      var f := f1[0];
      MissingBlank(s1.tables, level - 1, f, k);
      assert |s1.free| == |s.free| - 1;
      SoundTree(s);
      forall r, l: nat | r in s.roots
        ensures Find(s1.tables, 4, r, l) == Find(s.tables, 4, r, l)
      {
        RootIn(s, r);
        FindKept(s.tables, s.lev, t, i, f, 4, r, l);
      }
    }
  }

  /* An insertion that succeeds has had the frames it needed. */
  lemma EnoughRoom(s: Snap, s': Snap, level: nat, t: nat, k: nat, pte: Pte, frames: seq<nat>)
    requires 1 <= level <= 4 && InsertDone(s, s', level, t, k, pte, frames)
    ensures |s.free| >= Missing(s.tables, level, t, k)
  {
    hide Missing, Inserted, Find;
    DistinctCount(frames);
    SubsetSize(AsSet(frames), s.free);
  }

  lemma {:induction false} DistinctCount(frames: seq<nat>)
    requires forall i, j :: 0 <= i < j < |frames| ==> frames[i] != frames[j]
    ensures |AsSet(frames)| == |frames|
  {
    if frames != [] {
      var rest := frames[1..];
      DistinctCount(rest);
      assert AsSet(frames) == {frames[0]} + AsSet(rest);
    }
  }

  lemma TableIn(s: Snap, t: nat)
    requires Sound(s) && t in s.tables
    ensures t in s.lev && |s.tables[t]| == 512 && t in s.held
  {
  }

  /* A frame without references is not used by the tables. */
  lemma FreeUnused(s: Snap, f: nat)
    requires Sound(s) && f !in s.held
    ensures Unused(s.tables, f) && f !in s.roots && Users(s.tables, f) == {}
  {
    hide Tree;
    forall t: nat, i: nat | Points(s.tables, t, i)
      ensures s.tables[t][i].frame != f
    {
      assert s.tables[t][i].frame in s.held;
    }
    if x: Place :| x in Users(s.tables, f) {
      UsersMember(s.tables, f, x.table, x.index);
    }
  }

  lemma NewTableSound(s: Snap, t: nat, i: nat, f: nat, pages: BuddySpec.Pages)
    requires Sound(s) && t in s.tables && s.lev[t] > 1 && i < 512 && s.tables[t][i] == Clear
    requires f !in s.held && f < |s.pages| && s.pages[f].ref == 0 && FrameOwner.RefSet(s.pages, pages, f, 1)
    ensures Unused(s.tables, f)
    ensures Sound(Snap(NewTable(s.tables, t, i, f), s.lev[f := s.lev[t] - 1], s.roots, s.held + {f}, pages, s.free - {f}))
  {
    hide Tree, Forest, Backed, Counted, Small, NewTable, Users;
    TableIn(s, t);
    FreeUnused(s, f);
    ForestNew(s.tables, s.lev, s.roots, t, i, f);
    BackedNew(s.tables, s.lev, s.roots, s.held, |s.pages|, t, i, f);
    CountNew(s.pages, pages, s.tables, s.roots, s.held, t, i, f);
    SmallSet(s.pages, pages, f, 1);
  }

  lemma ForestNew(tables: Tables, lev: Levels, roots: set<nat>, t: nat, i: nat, f: nat)
    requires Forest(tables, lev, roots) && t in tables && lev[t] > 1 && i < 512 && tables[t][i] == Clear && Unused(tables, f)
    ensures Forest(NewTable(tables, t, i, f), lev[f := lev[t] - 1], roots)
  {
    hide Linked, OneParent;
    NewTableTree(tables, lev, t, i, f);
  }

  lemma BackedNew(tables: Tables, lev: Levels, roots: set<nat>, held: set<int>, n: nat, t: nat, i: nat, f: nat)
    requires Forest(tables, lev, roots) && Backed(tables, held, n) && f < n
    requires t in tables && lev[t] > 1 && i < 512 && tables[t][i] == Clear && Unused(tables, f)
    ensures Backed(NewTable(tables, t, i, f), held + {f}, n)
  {
    hide Tree;
    assert |tables[t]| == 512 by { TableSize(tables, lev, t); }
    var tables' := NewTable(tables, t, i, f);
    forall u: nat, j: nat | Points(tables', u, j)
      ensures tables'[u][j].frame in held + {f}
    {
      if !(u == t && j == i) { assert u != f && Points(tables, u, j); }
    }
  }

  lemma CountNew(pages: BuddySpec.Pages, pages': BuddySpec.Pages, tables: Tables, roots: set<nat>, held: set<int>, t: nat, i: nat, f: nat)
    requires Counted(pages, tables, roots, held) && FrameOwner.RefSet(pages, pages', f, 1)
    requires t in tables && i < |tables[t]| && tables[t][i] == Clear && f !in tables && f !in roots && Users(tables, f) == {}
    ensures Counted(pages', NewTable(tables, t, i, f), roots, held + {f})
  {
    hide Users, NewTable;
    forall g: nat | g in held + {f} && g < |pages'|
      ensures pages'[g].ref == |Users(NewTable(tables, t, i, f), g)| + if g in roots then 1 else 0
    {
      UsersNew(tables, t, i, f, g);
      if g == f {
        assert Users(NewTable(tables, t, i, f), g) == {Place(t, i)};
      } else {
        assert Users(tables, g) + {} == Users(tables, g);
      }
    }
  }

  lemma SmallSet(pages: BuddySpec.Pages, pages': BuddySpec.Pages, f: nat, n: nat)
    requires Small(pages) && FrameOwner.RefSet(pages, pages', f, n) && n < 0x10000
    ensures Small(pages')
  {
  }

  // ------------------------------------------------------------------ a leaf is written

  /* The page that loses its last reference when its entry e is overwritten with a page other
     than itself. */
  ghost function Freed(s: Snap, e: Pte, p: nat): set<int> {
    if e.To? && e.frame != p && e.frame < |s.pages| && s.pages[e.frame].ref == 1 then {e.frame} else {}
  }

  /* A page may be mapped over entry e unless that is its own only mapping, or its count is at
     its maximum. */
  ghost predicate Clean(s: Snap, e: Pte, p: nat) {
    p < |s.pages| && if e.To? && e.frame == p then s.pages[p].ref != 1 else s.pages[p].ref < 0xffff
  }

  /* A mapped page that is free, or has count 0. */
  ghost predicate Ruined(s: Snap, p: nat) {
    p in s.free || (p < |s.pages| && s.pages[p].ref == 0)
  }

  ghost predicate LeafDone(s: Snap, s': Snap, t: nat, i: nat, pte: Pte) {
    && t in s.tables && i < |s.tables[t]| && pte.To?
    && s'.tables == s.tables[t := s.tables[t][i := pte]] && s'.lev == s.lev && s'.roots == s.roots
    && |s'.pages| == |s.pages|
    && (Clean(s, s.tables[t][i], pte.frame) ==>
          var gone := Freed(s, s.tables[t][i], pte.frame);
          s'.held == s.held - gone && s'.free == s.free + gone && Gained(s, s', s.tables[t][i], pte.frame))
  }

  /* Page p has one reference more, unless entry e was already its own. */
  ghost predicate Gained(s: Snap, s': Snap, e: Pte, p: nat) {
    p < |s.pages| && p < |s'.pages| && s'.pages[p].ref == s.pages[p].ref + if e.To? && e.frame == p then 0 else 1
  }

  lemma HeldPage(s: Snap, p: nat)
    requires Sound(s) && p in s.held
    ensures p < |s.pages|
  {
    hide Tree;
  }

  lemma EntryPage(s: Snap, t: nat, i: nat)
    requires Sound(s) && Points(s.tables, t, i)
    ensures var g := s.tables[t][i].frame;
      g in s.held && g < |s.pages| && 0 < s.pages[g].ref < 0x10000 && s.pages[g].ref >= |Users(s.tables, g)| > 0
  {
    hide Tree;
    var g := s.tables[t][i].frame;
    UsersMember(s.tables, g, t, i);
    assert |Users(s.tables, g)| > 0;
  }

  /* The counts move as entry e is replaced by e'. */
  ghost predicate RefsMoved(pages: BuddySpec.Pages, pages': BuddySpec.Pages, e: Pte, e': Pte) {
    && |pages'| == |pages|
    && forall g: nat :: g < |pages| ==>
         pages'[g].ref + (if e.To? && e.frame == g then 1 else 0) == pages[g].ref + if e'.To? && e'.frame == g then 1 else 0
  }

  /* Letting go of the page behind entry e. */
  ghost predicate LetGo(s: Snap, s1: Snap, e: Pte) {
    && s1.tables == s.tables && s1.lev == s.lev && s1.roots == s.roots
    && if e.To? then
         && e.frame < |s.pages| && s.pages[e.frame].ref > 0
         && FrameOwner.RefSet(s.pages, s1.pages, e.frame, s.pages[e.frame].ref - 1)
         && (if s.pages[e.frame].ref == 1 then s1.held == s.held - {e.frame} && s1.free == s.free + {e.frame}
             else s1.held == s.held && s1.free == s.free)
       else s1 == s
  }

  /* From s the old page is let go, giving s1; then p gains a reference and the entry is
     written, giving s2. */
  lemma LeafSteps(s: Snap, s1: Snap, s2: Snap, t: nat, i: nat, p: nat, flags: nat)
    requires Sound(s) && t in s.tables && s.lev[t] == 1 && i < 512 && p in s.held && p !in s.tables && p < |s.pages|
    requires |s.tables[t]| == 512 && LetGo(s, s1, s.tables[t][i])
    requires p < |s1.pages| && FrameOwner.RefSet(s1.pages, s2.pages, p, (s1.pages[p].ref + 1) % 0x10000)
    requires s2.tables == s.tables[t := s.tables[t][i := To(p, flags)]] && s2.lev == s.lev && s2.roots == s.roots
    requires s2.held == s1.held && s2.free == s1.free
    ensures LeafDone(s, s2, t, i, To(p, flags))
    ensures if Clean(s, s.tables[t][i], p) then Sound(s2) && p in s2.held else Ruined(s2, p)
  {
    SmallAt(s, p);
    hide Sound, FrameOwner.RefSet, Ruined, LetGo;
    var e := s.tables[t][i];
    if Clean(s, e, p) {
      LeafHeld(s, s1, s2, e, p, flags);
      hide Clean, Freed, RefsMoved, Small, Gained;
      LeafSound(s, s2, t, i, To(p, flags));
    } else {
      LeafRuined(s, s1, s2, e, p);
    }
  }

  lemma LeafHeld(s: Snap, s1: Snap, s2: Snap, e: Pte, p: nat, flags: nat)
    requires Sound(s) && p in s.held && p < |s.pages| && s.pages[p].ref < 0x10000 && LetGo(s, s1, e) && Clean(s, e, p)
    requires p < |s1.pages| && FrameOwner.RefSet(s1.pages, s2.pages, p, (s1.pages[p].ref + 1) % 0x10000)
    requires s2.held == s1.held && s2.free == s1.free
    ensures RefsMoved(s.pages, s2.pages, e, To(p, flags)) && Small(s2.pages) && p in s2.held && |s2.pages| == |s.pages|
    ensures s2.held == s.held - Freed(s, e, p) && s2.free == s.free + Freed(s, e, p)
    ensures forall g: nat :: g in s.held && g !in s2.held ==> e.To? && g == e.frame && g < |s2.pages| && s2.pages[g].ref == 0
    ensures Gained(s, s2, e, p)
  {
    hide Sound;
    LeafRefs(s.pages, s1.pages, s2.pages, e, p, flags);
    SmallMoved(s, s2.pages, e, p);
  }

  lemma LeafRuined(s: Snap, s1: Snap, s2: Snap, e: Pte, p: nat)
    requires p < |s.pages| && s.pages[p].ref < 0x10000 && LetGo(s, s1, e) && !Clean(s, e, p)
    requires p < |s1.pages| && FrameOwner.RefSet(s1.pages, s2.pages, p, (s1.pages[p].ref + 1) % 0x10000) && s2.free == s1.free
    ensures Ruined(s2, p) && |s2.pages| == |s.pages|
  {
  }

  lemma SmallAt(s: Snap, p: nat)
    requires Sound(s) && p < |s.pages|
    ensures s.pages[p].ref < 0x10000
  {
    hide Tree;
  }

  lemma SmallMoved(s: Snap, pages: BuddySpec.Pages, e: Pte, p: nat)
    requires Sound(s) && |pages| == |s.pages| && Clean(s, e, p)
    requires forall g: nat :: g < |pages| && g != p ==> pages[g].ref <= s.pages[g].ref
    requires pages[p].ref <= s.pages[p].ref + if e.To? && e.frame == p then 0 else 1
    ensures Small(pages)
  {
    hide Tree;
  }

  lemma LeafRefs(pages: BuddySpec.Pages, pages1: BuddySpec.Pages, pages2: BuddySpec.Pages, e: Pte, p: nat, flags: nat)
    requires p < |pages| && |pages1| == |pages| && pages[p].ref < 0x10000
    requires if e.To? then e.frame < |pages| && pages[e.frame].ref > 0 && FrameOwner.RefSet(pages, pages1, e.frame, pages[e.frame].ref - 1)
             else pages1 == pages
    requires FrameOwner.RefSet(pages1, pages2, p, (pages1[p].ref + 1) % 0x10000)
    requires !(e.To? && e.frame == p) ==> pages[p].ref < 0xffff
    ensures RefsMoved(pages, pages2, e, To(p, flags))
    ensures forall g: nat :: g < |pages2| && g != p ==> pages2[g].ref <= pages[g].ref
    ensures pages2[p].ref == pages[p].ref + if e.To? && e.frame == p then 0 else 1
  {
    if !(e.To? && e.frame == p) {
      assert pages1[p].ref == pages[p].ref && (pages1[p].ref + 1) % 0x10000 == pages[p].ref + 1;
    }
  }

  /* Writing entry i of the last-level table t, with the counts moved and the pages that have
     lost their last reference let go. */
  lemma LeafSound(s: Snap, s': Snap, t: nat, i: nat, pte: Pte)
    requires Sound(s) && t in s.tables && s.lev[t] == 1 && i < 512 && |s.tables[t]| == 512
    requires s'.tables == s.tables[t := s.tables[t][i := pte]] && s'.lev == s.lev && s'.roots == s.roots
    requires RefsMoved(s.pages, s'.pages, s.tables[t][i], pte) && Small(s'.pages)
    requires pte.To? ==> pte.frame in s.held && pte.frame !in s.tables
    requires s'.held <= s.held
    requires forall g: nat :: g in s.held && g !in s'.held ==>
      s.tables[t][i].To? && g == s.tables[t][i].frame && g < |s'.pages| && s'.pages[g].ref == 0
    ensures Sound(s')
  {
    hide Users, Tree, RefsMoved, Small;
    assert Forest(s'.tables, s'.lev, s'.roots) by { SetLeafTree(s.tables, s.lev, t, i, pte); LeafForest(s, s'.tables, t, i, pte); }
    assert Counted(s'.pages, s'.tables, s'.roots, s.held) by { LeafCount(s.pages, s'.pages, s.tables, s.roots, s.held, t, i, pte); }
    RefsMovedSize(s.pages, s'.pages, s.tables[t][i], pte);
    if s.tables[t][i].To? {
      LeafNotTable(s, t, i);
    }
    forall u: nat, j: nat | Points(s'.tables, u, j)
      ensures s'.tables[u][j].frame in s'.held
    {
      var g := s'.tables[u][j].frame;
      assert g in s.held by { if !(u == t && j == i) { assert Points(s.tables, u, j); } }
      UsersMember(s'.tables, g, u, j);
      assert |Users(s'.tables, g)| > 0;
    }
  }

  lemma LeafForest(s: Snap, tables': Tables, t: nat, i: nat, pte: Pte)
    requires Forest(s.tables, s.lev, s.roots) && t in s.tables && i < |s.tables[t]|
    requires tables' == s.tables[t := s.tables[t][i := pte]] && Tree(tables', s.lev)
    ensures Forest(tables', s.lev, s.roots)
  {
    hide Tree;
  }

  lemma RefsMovedSize(pages: BuddySpec.Pages, pages': BuddySpec.Pages, e: Pte, e': Pte)
    requires RefsMoved(pages, pages', e, e')
    ensures |pages'| == |pages|
  {
  }

  lemma LeafNotTable(s: Snap, t: nat, i: nat)
    requires Sound(s) && Points(s.tables, t, i) && s.lev[t] == 1
    ensures s.tables[t][i].frame !in s.tables
  {
  }

  lemma LeafCount(pages: BuddySpec.Pages, pages': BuddySpec.Pages, tables: Tables, roots: set<nat>, held: set<int>, t: nat, i: nat, pte: Pte)
    requires Counted(pages, tables, roots, held) && t in tables && i < |tables[t]| && RefsMoved(pages, pages', tables[t][i], pte)
    ensures Counted(pages', tables[t := tables[t][i := pte]], roots, held)
  {
    hide Users;
    var e := tables[t][i];
    forall g: nat | g in held && g < |pages'|
      ensures pages'[g].ref == |Users(tables[t := tables[t][i := pte]], g)| + if g in roots then 1 else 0
    {
      UsersSet(tables, t, i, pte, g);
      UsersMember(tables, g, t, i);
      Swap(Users(tables, g), Place(t, i), pte.To? && pte.frame == g);
    }
  }

  lemma Swap(u: set<Place>, x: Place, add: bool)
    ensures |(u - {x}) + if add then {x} else {}| + (if x in u then 1 else 0) == |u| + if add then 1 else 0
  {
    if x !in u {
      assert u - {x} == u;
    }
    if !add {
      assert (u - {x}) + {} == u - {x};
    }
  }

  // ------------------------------------------------------------------ a page is inserted

  /* On the range of a single page a walk loop runs exactly once, from the page to the end. */
  lemma SinglePage(hi: bool, level: nat, k: nat, end: u64)
    requires 1 <= level <= 4 && k < CANONICAL && EndsAt(hi, end, k + 1, level)
    ensures 0 < end && Page(hi, k) < end && SignExtend(Page(hi, k)) == Page(hi, k)
    ensures Next(level, Page(hi, k), end) == end && Index(level, Page(hi, k)) == Slot(level, k)
    ensures level > 1 ==> EndsAt(hi, end - 1, k + 1, level - 1)
  {
    hide Next, Index, Slot, NextChunk, SignExtend;
    PageExtends(hi, k);
    NextStep(hi, level, k, end, k + 1);
  }

  ghost function AsSet(frames: seq<nat>): set<int> {
    set f | f in frames
  }

  ghost predicate CleanAt(s: Snap, level: nat, t: nat, k: nat, p: nat)
    requires 1 <= level <= 4
  {
    Clean(s, Find(s.tables, level, t, k), p)
  }

  ghost predicate InsertDone(s: Snap, s': Snap, level: nat, t: nat, k: nat, pte: Pte, frames: seq<nat>)
    requires 1 <= level <= 4
  {
    && pte.To? && s'.tables == Inserted(s.tables, level, t, k, pte, frames)
    && |frames| == Missing(s.tables, level, t, k) && Fresh(s.tables, frames) && AsSet(frames) <= s.free - s.held
    && s'.roots == s.roots && |s'.pages| == |s.pages|
    && (CleanAt(s, level, t, k, pte.frame) ==>
          var e := Find(s.tables, level, t, k);
          var gone := Freed(s, e, pte.frame);
          s'.held == s.held + AsSet(frames) - gone && s'.free == s.free - AsSet(frames) + gone && Gained(s, s', e, pte.frame))
  }

  lemma InsertLeaf(s: Snap, s': Snap, t: nat, k: nat, p: nat, flags: nat)
    requires Sound(s) && t in s.tables && s.lev[t] == 1 && LeafDone(s, s', t, Slot(1, k), To(p, flags))
    ensures InsertDone(s, s', 1, t, k, To(p, flags), [])
    ensures CleanAt(s, 1, t, k, p) <==> Clean(s, s.tables[t][Slot(1, k)], p)
  {
    hide Slot, Sound, Clean, Freed;
    TableIn(s, t);
  }

  lemma TableBelow(s: Snap, s1: Snap, level: nat, t: nat, k: nat, f1: seq<nat>, p: nat)
    requires Sound(s) && Sound(s1) && 1 < level <= 4 && t in s.tables && s.lev[t] == level && TableDone(s, s1, t, Slot(level, k), f1)
    requires p in s.held && p !in s.tables
    ensures Points(s1.tables, t, Slot(level, k))
    ensures var f := s1.tables[t][Slot(level, k)].frame;
      && f in s1.tables && s1.lev[f] == level - 1 && p in s1.held && p !in s1.tables
  {
    hide Slot;
    TableIn(s, t);
    ChildTable(s1.tables, s1.lev, t, Slot(level, k));
  }

  lemma InsertCompose(s: Snap, s1: Snap, s2: Snap, level: nat, t: nat, k: nat, p: nat, flags: nat, f1: seq<nat>, f2: seq<nat>)
    requires Sound(s) && 1 < level <= 4 && t in s.tables && s.lev[t] == level && TableDone(s, s1, t, Slot(level, k), f1)
    requires p in s.held && Points(s1.tables, t, Slot(level, k))
    requires InsertDone(s1, s2, level - 1, s1.tables[t][Slot(level, k)].frame, k, To(p, flags), f2)
    ensures InsertDone(s, s2, level, t, k, To(p, flags), f1 + f2)
    ensures CleanAt(s, level, t, k, p) <==> CleanAt(s1, level - 1, s1.tables[t][Slot(level, k)].frame, k, p)
  {
    hide Slot, Sound;
    TableIn(s, t);
    if s.tables[t][Slot(level, k)].To? {
      assert f1 + f2 == f2;
    } else {
      ComposeNew(s, s1, s2, level, t, k, p, flags, f1[0], f2);
      assert f1 + f2 == [f1[0]] + f2;
    }
  }

  lemma ComposeNew(s: Snap, s1: Snap, s2: Snap, level: nat, t: nat, k: nat, p: nat, flags: nat, f: nat, f2: seq<nat>)
    requires Sound(s) && 1 < level <= 4 && t in s.tables && s.lev[t] == level && |s.tables[t]| == 512
    requires s.tables[t][Slot(level, k)] == Clear && TableDone(s, s1, t, Slot(level, k), [f]) && p in s.held
    requires InsertDone(s1, s2, level - 1, f, k, To(p, flags), f2)
    ensures InsertDone(s, s2, level, t, k, To(p, flags), [f] + f2)
    ensures CleanAt(s, level, t, k, p) <==> CleanAt(s1, level - 1, f, k, p)
  {
    hide Slot, Sound;
    BlankFind(s1.tables, level - 1, f, k);
    MissingBlank(s1.tables, level - 1, f, k);
    assert ([f] + f2)[1..] == f2;
    FreshBoth(s.tables, t, Slot(level, k), f, f2);
    HeldPage(s, p);
    assert AsSet([f] + f2) == {f} + AsSet(f2);
  }

  lemma FreshBoth(tables: Tables, t: nat, i: nat, f: nat, rest: seq<nat>)
    requires t in tables && i < |tables[t]| && tables[t][i] == Clear && Unused(tables, f) && Fresh(NewTable(tables, t, i, f), rest)
    ensures Fresh(tables, [f] + rest)
  {
    var tables1, all := NewTable(tables, t, i, f), [f] + rest;
    forall g | g in all
      ensures Unused(tables, g)
    {
      if g != f {
        assert Unused(tables1, g);
        forall u: nat, j: nat | Points(tables, u, j)
          ensures tables[u][j].frame != g
        {
          assert Points(tables1, u, j) && tables1[u][j] == tables[u][j];
        }
      }
    }
    assert f !in rest;
  }

  lemma RootIn(s: Snap, root: nat)
    requires Sound(s) && root in s.roots
    ensures root in s.tables && s.lev[root] == 4 && root in s.held
  {
    hide Tree;
  }

  /* The range of one page, rounded and made inclusive. */
  lemma OnePageRange(k: nat)
    requires k < CANONICAL
    ensures RoundDown(Page(false, k)) == Page(false, k)
    ensures EndsAt(false, (RoundUp((Page(false, k) + 4096) % WORD) - 1) % WORD, k + 1, 4)
  {
    var a := Page(false, k);
    assert a % 4096 == 0 by { PageExtends(false, k); }
    assert (a + 4096) % WORD % 4096 == 0;
    assert RoundUp((a + 4096) % WORD) == (a + 4096) % WORD;
    if k + 1 < CANONICAL {
      PageOrder(false, k, k + 1);
    }
  }

  lemma InsertFlat(s: Snap, s': Snap, root: nat, k: nat, pte: Pte, frames: seq<nat>)
    requires Sound(s) && root in s.roots && k < CANONICAL && InsertDone(s, s', 4, root, k, pte, frames) && Full(s.tables, s.roots)
    ensures forall r, l: nat :: r in s.roots && l < CANONICAL ==>
      Find(s'.tables, 4, r, l) == if r == root && l == k then pte else Find(s.tables, 4, r, l)
    ensures Full(s'.tables, s.roots) && s'.roots == s.roots
  {
    hide Slot, Fresh, Full, Find, SameBelow;
    RootIn(s, root);
    forall r, l: nat | r in s.roots && l < CANONICAL
      ensures Find(s'.tables, 4, r, l) == if r == root && l == k then pte else Find(s.tables, 4, r, l)
    {
      RootIn(s, r);
      FindInserted(s.tables, s.lev, 4, root, k, pte, frames, r, l);
      SameIsSame(4, k);
      if SameBelow(4, k, l) { SlotsDetermine(k, l); }
    }
    assert s.roots + {root} == s.roots;
    InsertedFull(s.tables, s.lev, s.roots, 4, root, k, pte, frames);
  }

  /* A mapped page that is free or has count 0 contradicts the invariant. */
  lemma RuinedInvalid(s: Snap, s': Snap, root: nat, k: nat, p: nat, flags: nat, frames: seq<nat>, buddy: Buddy.Allocator)
    requires Sound(s) && root in s.roots && InsertDone(s, s', 4, root, k, To(p, flags), frames) && Ruined(s', p)
    requires s'.pages == buddy.pages && s'.free == buddy.Free()
    ensures !(Sound(s') && FrameOwner.Owns(buddy, s'.held))
  {
    hide Slot, Fresh, Full, Find, SameBelow, Tree, FrameOwner.Owns;
    RootIn(s, root);
    SameIsSame(4, k);
    FindInserted(s.tables, s.lev, 4, root, k, To(p, flags), frames, root, k);
    var u, j := FindPoints(s'.tables, 4, root, k);
    if Sound(s') && FrameOwner.Owns(buddy, s'.held) {
      EntryPage(s', u, j);
      FrameOwner.HeldNotFree(buddy, s'.held, p);
      assert false;
    }
  }

  /* A leaf that is found is an entry of some table. */
  lemma {:induction false} FindPoints(tables: Tables, level: nat, t: nat, k: nat) returns (u: nat, j: nat)
    requires 1 <= level <= 4 && Find(tables, level, t, k).To?
    ensures Points(tables, u, j) && tables[u][j] == Find(tables, level, t, k)
    ensures forall lev: Levels :: Tree(tables, lev) && t in lev && lev[t] == level ==> u in lev && lev[u] == 1
    decreases level
  {
    hide Slot, Tree;
    u, j := t, Slot(level, k);
    if level > 1 {
      var f := tables[t][Slot(level, k)].frame;
      u, j := FindPoints(tables, level - 1, f, k);
      forall lev: Levels | Tree(tables, lev) && t in lev && lev[t] == level
        ensures u in lev && lev[u] == 1
      {
        ChildTable(tables, lev, t, Slot(level, k));
        TableSize(tables, lev, f);
      }
    } else {
      forall lev: Levels | Tree(tables, lev) && t in lev && lev[t] == level
        ensures u in lev && lev[u] == 1
      {
      }
    }
  }

  /* A mapped page is in use, has references and is not a table. */
  lemma MappedPage(s: Snap, root: nat, k: nat, p: nat, flags: nat)
    requires Sound(s) && root in s.roots && Find(s.tables, 4, root, k) == To(p, flags)
    ensures p in s.held && p !in s.tables && p < |s.pages| && s.pages[p].ref > 0
  {
    RootIn(s, root);
    var u, j := FindPoints(s.tables, 4, root, k);
    assert s.lev[u] == 1 by { TableIn(s, root); }
    LeafNotTable(s, u, j);
    EntryPage(s, u, j);
  }

  // ------------------------------------------------------------------ a page is removed

  /* The frames `gone` have gone back to the allocator. */
  ghost predicate LostPages(s: Snap, s': Snap, gone: set<int>) {
    gone <= s.held && s'.held == s.held - gone && s'.free == s.free + gone && |s'.pages| == |s.pages|
  }

  /* The page behind entry e, if this is its last reference. */
  ghost function Last(s: Snap, e: Pte): set<nat> {
    if e.To? && e.frame < |s.pages| && s.pages[e.frame].ref == 1 then {e.frame} else {}
  }

  lemma NothingLost(s: Snap)
    ensures LostPages(s, s, {}) && Last(s, Clear) == {}
  {
  }

  lemma ClearSound(s: Snap, s': Snap, t: nat, i: nat)
    requires Sound(s) && t in s.tables && s.lev[t] == 1 && i < 512 && |s.tables[t]| == 512 && s.tables[t][i].To?
    requires s'.tables == s.tables[t := s.tables[t][i := Clear]] && s'.lev == s.lev && s'.roots == s.roots
    requires var g := s.tables[t][i].frame;
      && g in s.held && g < |s.pages| && s.pages[g].ref > 0 && FrameOwner.RefSet(s.pages, s'.pages, g, s.pages[g].ref - 1)
      && (if s.pages[g].ref == 1 then s'.held == s.held - {g} && s'.free == s.free + {g}
          else s'.held == s.held && s'.free == s.free)
    ensures Sound(s') && LostPages(s, s', Last(s, s.tables[t][i]))
  {
    hide Sound, Small, RefsMoved;
    ClearRefs(s.pages, s'.pages, s.tables[t][i]);
    SmallLess(s, s'.pages);
    hide FrameOwner.RefSet;
    LeafSound(s, s', t, i, Clear);
  }

  lemma ClearRefs(pages: BuddySpec.Pages, pages': BuddySpec.Pages, e: Pte)
    requires e.To? && e.frame < |pages| && pages[e.frame].ref > 0 && FrameOwner.RefSet(pages, pages', e.frame, pages[e.frame].ref - 1)
    ensures RefsMoved(pages, pages', e, Clear)
    ensures |pages'| == |pages| && forall g :: 0 <= g < |pages'| ==> pages'[g].ref <= pages[g].ref
  {
  }

  lemma SmallLess(s: Snap, pages: BuddySpec.Pages)
    requires Sound(s) && |pages| == |s.pages| && forall g :: 0 <= g < |pages| ==> pages[g].ref <= s.pages[g].ref
    ensures Small(pages)
  {
    hide Tree;
  }

  lemma KeepAll(s: Snap)
    requires Sound(s)
    ensures Keep(s.lev, s.tables) == s.lev
  {
    KeepPruned(s.lev, s.tables, 0);
  }

  lemma ChildIn(s: Snap, t: nat, i: nat)
    requires Sound(s) && Points(s.tables, t, i) && s.lev[t] > 1
    ensures var f := s.tables[t][i].frame;
      f in s.tables && s.lev[f] == s.lev[t] - 1 && f != t && |s.tables[f]| == 512 && f in s.held
  {
    hide Linked, OneParent;
    ChildTable(s.tables, s.lev, t, i);
  }

  /* A table below the root has exactly one reference. */
  lemma TableRef(s: Snap, t: nat, i: nat)
    requires Sound(s) && Points(s.tables, t, i) && s.lev[t] > 1
    ensures var f := s.tables[t][i].frame; f < |s.pages| && s.pages[f].ref == 1 && f !in s.roots
  {
    var f := s.tables[t][i].frame;
    ChildIn(s, t, i);
    var u := Users(s.tables, f);
    forall x: Place
      ensures x in u <==> x == Place(t, i)
    {
      UsersMember(s.tables, f, x.table, x.index);
      if x in u {
        assert s.lev[x.table] > 1;
        assert SameChild(s.tables, x.table, x.index, t, i);
      }
    }
    assert u == {Place(t, i)};
  }

  lemma PruneSound(s: Snap, pages: BuddySpec.Pages, t: nat, i: nat)
    requires Sound(s) && Points(s.tables, t, i) && s.lev[t] > 1 && s.tables[t][i].frame in s.tables && Empty(s.tables[s.tables[t][i].frame])
    requires FrameOwner.RefSet(s.pages, pages, s.tables[t][i].frame, 0) && s.tables[t][i].frame in s.held
    ensures var (f, r) := (s.tables[t][i].frame, Pruned(s.tables, t, i));
      && Sound(Snap(r, s.lev - {f}, s.roots, s.held - {f}, pages, s.free + {f}))
      && r == (s.tables - {f})[t := s.tables[t][i := Clear]] && s.lev - {f} == Keep(s.lev, r) && s.tables.Keys - r.Keys == {f}
      && LostPages(s, Snap(r, s.lev - {f}, s.roots, s.held - {f}, pages, s.free + {f}), {f})
  {
    hide Tree, Counted, Backed, Small, Users, Empty;
    TableRef(s, t, i);
    PruneForest(s, t, i);
    SmallLess(s, pages);
    PruneCount(s, pages, t, i);
    PruneBacked(s, t, i);
  }

  lemma OpenPruned(s: Snap, t: nat, i: nat)
    requires Sound(s) && Open(s.tables, s.lev) && Points(s.tables, t, i) && s.lev[t] > 1
    requires s.tables[t][i].frame in s.tables && Empty(s.tables[s.tables[t][i].frame]) && s.tables[t][i].frame != t
    ensures var f := s.tables[t][i].frame; Open((s.tables - {f})[t := s.tables[t][i := Clear]], s.lev - {f})
  {
    hide Sound, Open;
    var f := s.tables[t][i].frame;
    var tables' := (s.tables - {f})[t := s.tables[t][i := Clear]];
    forall u: nat, j: nat | Points(tables', u, j)
      ensures Points(s.tables, u, j) && tables'[u][j] == s.tables[u][j]
    {
    }
    OpenFewer(s.tables, s.lev, tables', s.lev - {f});
  }

  lemma OpenRoot(tables: Tables, lev: Levels, f: nat)
    requires Open(tables, lev) && f !in tables
    ensures Open(tables[f := Blank(512)], lev[f := 4])
  {
    hide Open;
    var tables' := tables[f := Blank(512)];
    forall u: nat, j: nat | Points(tables', u, j)
      ensures u != f && Points(tables, u, j) && tables'[u][j] == tables[u][j]
    {
    }
    OpenFewer(tables, lev, tables', lev[f := 4]);
  }

  /* The rights that are granted at a page become those of the flags; elsewhere they stay. */
  ghost predicate RightsSet(tables: Tables, tables': Tables, roots: set<nat>, root: nat, k: nat, flags: nat) {
    forall r: nat, l: nat, b: nat :: r in roots && l < CANONICAL && (b == WRITE || b == USER) ==>
      (Grants(tables', 4, r, l, b) <==> if r == root && l == k then Bit(flags, b) else Grants(tables, 4, r, l, b))
  }

  /* A forest whose table entries restrict nothing. */
  ghost predicate Walkable(tables: Tables, lev: Levels, roots: set<nat>) {
    Forest(tables, lev, roots) && Open(tables, lev)
  }

  lemma SoundWalkable(s: Snap)
    requires Sound(s) && Open(s.tables, s.lev)
    ensures Walkable(s.tables, s.lev, s.roots)
  {
  }

  lemma WalkableLeaf(s: Snap, t: nat, i: nat, pte: Pte)
    requires Sound(s) && Open(s.tables, s.lev) && t in s.tables && s.lev[t] == 1 && i < 512 && |s.tables[t]| == 512
    requires pte.To? ==> pte.frame !in s.tables
    ensures Walkable(s.tables[t := s.tables[t][i := pte]], s.lev, s.roots)
  {
    SetLeafTree(s.tables, s.lev, t, i, pte);
    LeafForest(s, s.tables[t := s.tables[t][i := pte]], t, i, pte);
    OpenLeaf(s.tables, s.lev, t, i, pte);
  }

  lemma {:induction false} RightsOf(tables: Tables, lev: Levels, roots: set<nat>, r: nat, l: nat, b: nat)
    requires Walkable(tables, lev, roots) && r in roots && (b == WRITE || b == USER)
    ensures Grants(tables, 4, r, l, b) <==> Find(tables, 4, r, l).To? && Bit(Find(tables, 4, r, l).flags, b)
  {
    hide Linked, OneParent, Levelled, Open, Grants, Find;
    GrantsLeaf(tables, lev, 4, r, l, b);
  }

  lemma InsertRights(s: Snap, s': Snap, root: nat, k: nat, flags: nat)
    requires Walkable(s.tables, s.lev, s.roots) && Walkable(s'.tables, s'.lev, s'.roots) && s'.roots == s.roots
    requires forall r, l: nat :: r in s.roots && l < CANONICAL ==>
      Find(s'.tables, 4, r, l).To? == (if r == root && l == k then true else Find(s.tables, 4, r, l).To?)
    requires forall r, l: nat :: r in s.roots && l < CANONICAL && Find(s'.tables, 4, r, l).To? ==>
      Find(s'.tables, 4, r, l).flags == if r == root && l == k then flags else Find(s.tables, 4, r, l).flags
    ensures RightsSet(s.tables, s'.tables, s.roots, root, k, flags)
  {
    hide Walkable, Grants, Find, Bit;
    forall r: nat, l: nat, b: nat | r in s.roots && l < CANONICAL && (b == WRITE || b == USER)
      ensures Grants(s'.tables, 4, r, l, b) <==> if r == root && l == k then Bit(flags, b) else Grants(s.tables, 4, r, l, b)
    {
      RightsOf(s.tables, s.lev, s.roots, r, l, b);
      RightsOf(s'.tables, s'.lev, s'.roots, r, l, b);
    }
  }

  lemma PruneForest(s: Snap, t: nat, i: nat)
    requires Sound(s) && Points(s.tables, t, i) && s.lev[t] > 1 && s.tables[t][i].frame in s.tables && Empty(s.tables[s.tables[t][i].frame])
    requires s.tables[t][i].frame !in s.roots
    ensures var (f, r) := (s.tables[t][i].frame, Pruned(s.tables, t, i));
      && Forest(r, s.lev - {f}, s.roots) && r == (s.tables - {f})[t := s.tables[t][i := Clear]]
      && s.lev - {f} == Keep(s.lev, r) && s.tables.Keys - r.Keys == {f}
  {
    hide Linked, OneParent, Backed, Counted, Small;
    var f, r := s.tables[t][i].frame, Pruned(s.tables, t, i);
    PrunedTree(s.tables, s.lev, t, i);
    assert r.Keys == s.tables.Keys - {f};
    assert s.lev - {f} == Keep(s.lev, r);
  }

  lemma PruneCount(s: Snap, pages: BuddySpec.Pages, t: nat, i: nat)
    requires Sound(s) && Points(s.tables, t, i) && s.lev[t] > 1 && s.tables[t][i].frame in s.tables && Empty(s.tables[s.tables[t][i].frame])
    requires FrameOwner.RefSet(s.pages, pages, s.tables[t][i].frame, 0)
    ensures Counted(pages, Pruned(s.tables, t, i), s.roots, s.held - {s.tables[t][i].frame})
  {
    hide Users, Tree;
    var f, r := s.tables[t][i].frame, Pruned(s.tables, t, i);
    ChildTable(s.tables, s.lev, t, i);
    forall g: nat | g in s.held - {f} && g < |pages|
      ensures pages[g].ref == |Users(r, g)| + if g in s.roots then 1 else 0
    {
      UsersPruned(s.tables, t, i, g);
      assert Users(s.tables, g) - {Place(t, i)} == Users(s.tables, g);
    }
  }

  lemma PruneBacked(s: Snap, t: nat, i: nat)
    requires Sound(s) && Points(s.tables, t, i) && s.lev[t] > 1 && s.tables[t][i].frame in s.tables && Empty(s.tables[s.tables[t][i].frame])
    ensures Backed(Pruned(s.tables, t, i), s.held - {s.tables[t][i].frame}, |s.pages|)
  {
    var f, r := s.tables[t][i].frame, Pruned(s.tables, t, i);
    ChildTable(s.tables, s.lev, t, i);
    forall u: nat, j: nat | Points(r, u, j)
      ensures r[u][j].frame in s.held - {f}
    {
      assert Points(s.tables, u, j) && r[u][j] == s.tables[u][j] && !(u == t && j == i);
      if s.lev[u] > 1 {
        assert !SameChild(s.tables, u, j, t, i);
      }
    }
  }

  /* Frames that are no longer tables, and frames that have lost their last reference. */
  ghost function Gone(tables: Tables, tables': Tables, held: set<int>): set<int> {
    (tables.Keys - tables'.Keys) + set x | x in held && x >= 0 && Users(tables, x) != {} && Users(tables', x) == {}
  }

  /* Entries have only been cleared, and exactly the frames that are gone have been freed. */
  ghost predicate Shrunk(s: Snap, s': Snap) {
    && s'.tables.Keys <= s.tables.Keys
    && (forall u: nat, j: nat :: Points(s'.tables, u, j) ==> Points(s.tables, u, j) && s'.tables[u][j] == s.tables[u][j])
    && LostPages(s, s', Gone(s.tables, s'.tables, s.held))
  }

  lemma FewerUsers(s: Snap, s': Snap, x: nat)
    requires forall u: nat, j: nat :: Points(s'.tables, u, j) ==> Points(s.tables, u, j) && s'.tables[u][j] == s.tables[u][j]
    ensures Users(s'.tables, x) <= Users(s.tables, x)
  {
    forall y | y in Users(s'.tables, x)
      ensures y in Users(s.tables, x)
    {
      UsersMember(s'.tables, x, y.table, y.index);
      UsersMember(s.tables, x, y.table, y.index);
    }
  }

  lemma ShrunkTrans(s: Snap, s1: Snap, s2: Snap)
    requires Shrunk(s, s1) && Shrunk(s1, s2)
    ensures Shrunk(s, s2)
  {
    hide Users;
    var a, b, c := Gone(s.tables, s1.tables, s.held), Gone(s1.tables, s2.tables, s1.held), Gone(s.tables, s2.tables, s.held);
    forall x: nat
      ensures x in a + b <==> x in c
    {
      FewerUsers(s, s1, x);
      FewerUsers(s1, s2, x);
    }
    assert a + b == c;
  }

  lemma NothingGone(s: Snap)
    ensures Shrunk(s, s)
  {
    hide Users;
    assert Gone(s.tables, s.tables, s.held) == {};
  }

  ghost predicate RemoveDone(s: Snap, s': Snap, level: nat, t: nat, i: nat, j: nat)
    requires 1 <= level <= 4
  {
    && s'.tables == RemovedAll(s.tables, level, t, i, j) && s'.lev == Keep(s.lev, s'.tables) && s'.roots == s.roots
    && Shrunk(s, s')
  }

  lemma RemoveNone(s: Snap, level: nat, t: nat, i: nat, j: nat)
    requires Sound(s) && 1 <= level <= 4
    ensures RemoveDone(s, s, level, t, i, i) && (i >= j ==> RemoveDone(s, s, level, t, i, j))
  {
    hide Sound, Shrunk;
    KeepAll(s);
    NothingGone(s);
  }

  lemma RemoveThen(s: Snap, s1: Snap, s2: Snap, level: nat, t: nat, i: nat, k: nat, c: nat)
    requires 1 <= level <= 4 && i <= k <= c && t in s.tables && Sound(s) && s.lev[t] == level
    requires RemoveDone(s, s1, level, t, i, k) && RemoveDone(s1, s2, level, t, k, c)
    ensures RemoveDone(s, s2, level, t, i, c)
    ensures t in s2.tables && t in s2.lev && s2.lev[t] == level
  {
    hide Slot, Removed, Sound;
    ShrunkTrans(s, s1, s2);
    RemovedAllSplit(s.tables, level, t, i, k, c);
    assert s2.tables.Keys <= s1.tables.Keys;
    assert Keep(Keep(s.lev, s1.tables), s2.tables) == Keep(s.lev, s2.tables);
    TableIn(s, t);
    SoundTree(s);
    RemovedAllTree(s.tables, s.lev, level, t, i, c);
  }

  lemma SoundTree(s: Snap)
    requires Sound(s)
    ensures Tree(s.tables, s.lev)
  {
    hide Tree;
  }

  /* Clearing a leaf frees its page exactly when no other entry has it. */
  lemma LeafGone(s: Snap, s': Snap, t: nat, i: nat)
    requires Sound(s) && t in s.tables && s.lev[t] == 1 && |s.tables[t]| == 512 && i < 512
    requires s'.tables == s.tables[t := s.tables[t][i := Clear]] && LostPages(s, s', Last(s, s.tables[t][i]))
    ensures Shrunk(s, s')
  {
    hide Sound, Users, Last;
    var e, gone := s.tables[t][i], Gone(s.tables, s'.tables, s.held);
    assert gone == Last(s, e) by {
      hide LostPages, Gone;
      forall x: int
        ensures x in gone <==> x in Last(s, e)
      {
        if x >= 0 {
          LeafGoneAt(s, s'.tables, t, i, x);
        } else {
          GoneNat(s.tables, s'.tables, s.held, x);
        }
      }
    }
  }

  lemma GoneNat(tables: Tables, tables': Tables, held: set<int>, x: int)
    requires x < 0
    ensures x !in Gone(tables, tables', held)
  {
  }

  lemma LeafGoneAt(s: Snap, tables': Tables, t: nat, i: nat, x: nat)
    requires Sound(s) && t in s.tables && s.lev[t] == 1 && |s.tables[t]| == 512 && i < 512
    requires tables' == s.tables[t := s.tables[t][i := Clear]]
    ensures x in Gone(s.tables, tables', s.held) <==> x in Last(s, s.tables[t][i])
  {
    hide Sound, Users;
    var e := s.tables[t][i];
    UsersSet(s.tables, t, i, Clear, x);
    UsersMember(s.tables, x, t, i);
    assert tables'.Keys == s.tables.Keys;
    if e.To? && x == e.frame {
      EntryPage(s, t, i);
      LeafCounted(s, t, i);
      OnlyOne(Users(s.tables, x), Place(t, i));
    } else {
      assert Users(s.tables, x) - {Place(t, i)} == Users(s.tables, x);
    }
  }

  lemma OnlyOne(u: set<Place>, x: Place)
    requires x in u
    ensures u - {x} == {} <==> |u| == 1
  {
    assert |u - {x}| == |u| - 1;
  }

  lemma LeafCounted(s: Snap, t: nat, i: nat)
    requires Sound(s) && Points(s.tables, t, i) && s.lev[t] == 1
    ensures var g := s.tables[t][i].frame; g < |s.pages| && s.pages[g].ref == |Users(s.tables, g)|
  {
    EntryPage(s, t, i);
    LeafNotTable(s, t, i);
    hide Tree;
  }

  /* Freeing a table frees nothing else. */
  lemma PruneGone(s: Snap, s': Snap, t: nat, i: nat)
    requires Sound(s) && t in s.tables && s.lev[t] > 1 && |s.tables[t]| == 512 && i < 512
    requires s'.tables == Pruned(s.tables, t, i) && LostPages(s, s', s.tables.Keys - s'.tables.Keys)
    ensures Shrunk(s, s')
  {
    hide Sound, Users;
    if Points(s.tables, t, i) {
      ChildIn(s, t, i);
    }
    var gone, diff := Gone(s.tables, s'.tables, s.held), s.tables.Keys - s'.tables.Keys;
    assert gone == diff by {
      hide LostPages, Gone;
      forall x: int
        ensures x in gone <==> x in diff
      {
        if x >= 0 {
          PruneGoneAt(s, t, i, x);
        } else {
          GoneNat(s.tables, s'.tables, s.held, x);
        }
      }
    }
  }

  lemma PruneGoneAt(s: Snap, t: nat, i: nat, x: nat)
    requires Sound(s) && t in s.tables && s.lev[t] > 1 && |s.tables[t]| == 512 && i < 512
    ensures var tables' := Pruned(s.tables, t, i);
      x in Gone(s.tables, tables', s.held) <==> x in s.tables.Keys - tables'.Keys
  {
    hide Sound, Users;
    if Points(s.tables, t, i) {
      ChildIn(s, t, i);
      if Empty(s.tables[s.tables[t][i].frame]) {
        UsersPruned(s.tables, t, i, x);
        if x != s.tables[t][i].frame {
          assert Users(s.tables, x) - {Place(t, i)} == Users(s.tables, x);
        }
      }
    }
  }

  lemma ChunkOne(i: nat)
    ensures NextChunk(1, i) == i + 1
  {
  }

  lemma RemoveLeaf(s: Snap, s': Snap, t: nat, i: nat, c: nat)
    requires Sound(s) && Sound(s') && t in s.tables && s.lev[t] == 1 && |s.tables[t]| == 512 && i < c <= NextChunk(1, i)
    requires s'.tables == s.tables[t := s.tables[t][Slot(1, i) := Clear]] && s'.lev == s.lev && s'.roots == s.roots
    requires LostPages(s, s', Last(s, s.tables[t][Slot(1, i)]))
    ensures RemoveDone(s, s', 1, t, i, c)
  {
    hide Slot, Sound, LostPages, Last, NextChunk, Shrunk;
    ChunkOne(i);
    KeepAll(s');
    LeafGone(s, s', t, Slot(1, i));
    assert RemovedAll(Removed(s.tables, 1, t, i), 1, t, i + 1, c) == Removed(s.tables, 1, t, i);
  }

  lemma RemoveNothing(s: Snap, level: nat, t: nat, i: nat, c: nat)
    requires Sound(s) && 1 < level <= 4 && t in s.tables && |s.tables[t]| == 512 && s.tables[t][Slot(level, i)] == Clear
    requires i <= c <= NextChunk(level, i)
    ensures RemoveDone(s, s, level, t, i, c)
  {
    hide Slot, Sound, NextChunk;
    KeepAll(s);
    NothingGone(s);
    ChunkClear(s.tables, level, t, i, c);
  }

  lemma RemoveBelow(s: Snap, s1: Snap, level: nat, t: nat, i: nat, c: nat)
    requires Sound(s) && 1 < level <= 4 && t in s.tables && s.lev[t] == level && Points(s.tables, t, Slot(level, i))
    requires s.tables[t][Slot(level, i)].frame in s.tables && s.lev[s.tables[t][Slot(level, i)].frame] == level - 1
    requires RemoveDone(s, s1, level - 1, s.tables[t][Slot(level, i)].frame, i, c)
    ensures t in s1.tables && s1.tables[t] == s.tables[t] && t in s1.lev && s1.lev[t] == level
  {
    hide Slot, Shrunk, Removed, Tree, RemovedAll;
    RemovedAllTree(s.tables, s.lev, level - 1, s.tables[t][Slot(level, i)].frame, i, c);
    TableIn(s, t);
  }

  lemma RemoveCompose(s: Snap, s1: Snap, s2: Snap, level: nat, t: nat, i: nat, c: nat)
    requires Sound(s) && Sound(s1) && 1 < level <= 4 && t in s.tables && s.lev[t] == level && |s.tables[t]| == 512
    requires Points(s.tables, t, Slot(level, i)) && i < c <= NextChunk(level, i)
    requires RemoveDone(s, s1, level - 1, s.tables[t][Slot(level, i)].frame, i, c)
    requires t in s1.tables && s1.tables[t] == s.tables[t] && t in s1.lev && s1.lev[t] == level
    requires s2.tables == Pruned(s1.tables, t, Slot(level, i)) && s2.lev == Keep(s1.lev, s2.tables) && s2.roots == s1.roots
    requires LostPages(s1, s2, s1.tables.Keys - s2.tables.Keys)
    ensures RemoveDone(s, s2, level, t, i, c)
  {
    hide Slot, Sound, NextChunk, LostPages, RemovedAll;
    SoundTree(s);
    ChunkRemoved(s.tables, s.lev, level, t, i, c);
    PruneGone(s1, s2, t, Slot(level, i));
    ShrunkTrans(s, s1, s2);
    assert s2.tables.Keys <= s1.tables.Keys;
    assert Keep(Keep(s.lev, s1.tables), s2.tables) == Keep(s.lev, s2.tables);
  }

  /* No page at all in a table that is not empty: nothing is removed, and nothing freed. */
  lemma RemoveKeeps(s: Snap, s1: Snap, s2: Snap, level: nat, t: nat, i: nat, c: nat)
    requires Sound(s) && Sound(s1) && 1 < level <= 4 && t in s.tables && s.lev[t] == level && |s.tables[t]| == 512
    requires Points(s.tables, t, Slot(level, i)) && i >= c && PathFull(s.tables, level, t, i)
    requires RemoveDone(s, s1, level - 1, s.tables[t][Slot(level, i)].frame, i, c)
    requires t in s1.tables && s1.tables[t] == s.tables[t] && t in s1.lev && s1.lev[t] == level
    requires s2.tables == Pruned(s1.tables, t, Slot(level, i)) && s2.lev == Keep(s1.lev, s2.tables) && s2.roots == s1.roots
    requires LostPages(s1, s2, s1.tables.Keys - s2.tables.Keys)
    ensures RemoveDone(s, s2, level, t, i, c)
  {
    hide Slot, Sound, LostPages, Shrunk;
    assert s1.tables == s.tables && RemovedAll(s.tables, level, t, i, c) == s.tables;
    assert !Empty(s.tables[s.tables[t][Slot(level, i)].frame]) && s2.tables == s.tables;
    hide RemovedAll, PathFull, Pruned;
    PruneGone(s1, s2, t, Slot(level, i));
    ShrunkTrans(s, s1, s2);
    assert Keep(Keep(s.lev, s1.tables), s2.tables) == Keep(s.lev, s2.tables);
  }

  lemma RemoveStays(s: Snap, s': Snap, level: nat, t: nat, i: nat, j: nat)
    requires Sound(s) && 1 <= level <= 4 && i >= j && RemoveDone(s, s', level, t, i, j) && t in s.tables && s.lev[t] == level
    ensures t in s'.tables && t in s'.lev && s'.lev[t] == level
  {
    TableIn(s, t);
    hide Sound, Shrunk;
    KeepAll(s);
    assert s'.tables == s.tables;
  }

  lemma RootPath(s: Snap, root: nat, i: nat)
    requires Sound(s) && root in s.roots && Full(s.tables, s.roots)
    ensures PathFull(s.tables, 4, root, i)
  {
    RootIn(s, root);
    RootLevels(s);
    SoundTree(s);
    hide Sound, Tree, Full, PathFull;
    FullPath(s.tables, s.lev, s.roots, 4, root, i);
  }

  lemma RemoveFlat(s: Snap, s': Snap, root: nat, i: nat, j: nat)
    requires Sound(s) && root in s.roots && j <= CANONICAL && RemoveDone(s, s', 4, root, i, j) && Full(s.tables, s.roots)
    ensures Cut(s.tables, s'.tables, s.roots, root, i, j) && Full(s'.tables, s.roots) && s'.roots == s.roots
  {
    hide Slot, Full, Find, Shrunk, RemovedAll, Tree;
    RootIn(s, root);
    forall r, l: nat | r in s.roots && l < CANONICAL
      ensures Find(s'.tables, 4, r, l) == if r == root && i <= l < j then Clear else Find(s.tables, 4, r, l)
    {
      RootIn(s, r);
      FindRemovedAll(s.tables, s.lev, root, i, j, r, l);
    }
    RemovedAllFull(s.tables, s.lev, s.roots, root, i, j);
  }

  /* Where a range of bytes ends, in 64 bits. */
  function RangeEnd(va: u64, size: u64): u64 {
    (va + size) % WORD
  }

  /* Exactly the canonical pages of the range are unmapped in one address space. */
  ghost predicate Unmapped(tables: Tables, tables': Tables, roots: set<nat>, root: nat, va: u64, end: u64) {
    forall r: nat, l: nat :: r in roots && l < CANONICAL ==>
      Find(tables', 4, r, l) == if r == root && Wanted(va, end, Page(false, l)) then Clear else Find(tables, 4, r, l)
  }

  /* Pages i up to j are unmapped in one address space. */
  ghost predicate Cut(tables: Tables, tables': Tables, roots: set<nat>, root: nat, i: nat, j: nat) {
    forall r: nat, l: nat :: r in roots && l < CANONICAL ==>
      Find(tables', 4, r, l) == if r == root && i <= l < j then Clear else Find(tables, 4, r, l)
  }

  /* The pages that walk_page_range walks, by their number, which is what the four indices of an
     address make up. */
  function StartPage(va: u64): nat {
    Number(RoundDown(va))
  }

  function EndPage(va: u64, end: u64): nat {
    LimitAligned(end);
    Below(va >= USER_LIM, Limit(end))
  }

  lemma UnmapFlat(s: Snap, s': Snap, root: nat, va: u64, end: u64)
    requires Sound(s) && root in s.roots && Full(s.tables, s.roots)
    requires RemoveDone(s, s', 4, root, StartPage(va), EndPage(va, end))
    ensures Cut(s.tables, s'.tables, s.roots, root, StartPage(va), EndPage(va, end))
    ensures Canonical(va) ==> Unmapped(s.tables, s'.tables, s.roots, root, va, end)
    ensures Full(s'.tables, s.roots) && s'.roots == s.roots
  {
    PageRange(va, end);
    hide Sound, RemoveDone, Page, Full, Wanted, Below, Limit, Find, RoundDown, StartPage, EndPage, Canonical;
    RemoveFlat(s, s', root, StartPage(va), EndPage(va, end));
    if Canonical(va) {
      forall r: nat, l: nat | r in s.roots && l < CANONICAL
        ensures Find(s'.tables, 4, r, l) == if r == root && Wanted(va, end, Page(false, l)) then Clear else Find(s.tables, 4, r, l)
      {
        WantedPages(va, end, l);
      }
    }
  }

  lemma WantedPages(va: u64, end: u64, l: nat)
    requires Canonical(va) && l < CANONICAL
    ensures Wanted(va, end, Page(false, l)) <==> StartPage(va) <= l < EndPage(va, end)
  {
    var i := StartPage(va);
    StartInPage(va);
    LimitAligned(end);
    BelowSame(va >= USER_LIM, Limit(end), i, l);
    PageInRange(i, end, l);
    OnePageRange(i);
    SameStart(va, Page(false, i), end, Page(false, l));
  }

  lemma StartInPage(va: u64)
    requires Canonical(va)
    ensures RoundDown(va) == Page(false, StartPage(va)) && (va >= USER_LIM ==> StartPage(va) >= HALF)
  {
    RoundingFacts(va);
    ExtendIsPage(RoundDown(va));
    OnLine(false, RoundDown(va));
  }

  lemma BelowSame(hi: bool, limit: int, i: nat, l: nat)
    requires 0 < limit <= WORD && (hi ==> i >= HALF)
    ensures i <= l < Below(hi, limit) <==> i <= l < Below(false, limit)
  {
  }

  lemma CanonicalPage(va: u64, k: nat)
    requires k < CANONICAL && RoundDown(va) == Page(false, k)
    ensures Canonical(va) && StartPage(va) == k
  {
    PageExtends(false, k);
    LimitOne(k);
    RoundingFacts(va);
  }

  lemma OnePage(k: nat)
    requires k < CANONICAL
    ensures var va := Page(false, k); StartPage(va) == k && EndPage(va, RangeEnd(va, 4096)) == k + 1
  {
    OnePageRange(k);
    CanonicalPage(Page(false, k), k);
    LimitOne(k);
    PageExtends(false, k);
    hide Limit, RoundDown, RoundUp, Number, SignExtend;
  }

  lemma SameStart(va: u64, va': u64, end: u64, a: u64)
    requires RoundDown(va) == RoundDown(va')
    ensures Wanted(va, end, a) <==> Wanted(va', end, a)
  {
  }

  /* The start and the end of a range, rounded and made inclusive. */
  lemma PageRange(va: u64, end: u64)
    ensures var i := StartPage(va);
      && i == Number(RoundDown(va)) && i < CANONICAL
      && RoundDown(va) <= SignExtend(RoundDown(va)) == Page(va >= USER_LIM, i)
    ensures EndPage(va, end) <= CANONICAL && EndsAt(va >= USER_LIM, (RoundUp(end) - 1) % WORD, EndPage(va, end), 4)
  {
    RoundingFacts(va);
    ExtendIsPage(RoundDown(va));
    assert (RoundDown(va) >= USER_LIM) == (va >= USER_LIM);
    LimitAligned(end);
    LimitEnds(va >= USER_LIM, Limit(end));
    assert (RoundUp(end) - 1) % WORD == Limit(end) - 1;
  }

  lemma PageInRange(i: nat, end: u64, l: nat)
    requires i < CANONICAL && l < CANONICAL
    ensures Wanted(Page(false, i), end, Page(false, l)) <==> i <= l < Below(false, Limit(end))
  {
    LimitAligned(end);
    LimitEnds(false, Limit(end));
    OnePageRange(i);
    PageExtends(false, l);
    LimitOne(l);
    var j := Below(false, Limit(end));
    hide Below, Limit, RoundDown, RoundUp, Page, Canonical, Number, SignExtend;
    if l < i { PageOrder(false, l, i); }
    if i < l { PageOrder(false, i, l); }
    if l + 1 < j { PageOrder(false, l, j - 1); }
    if j < l { PageOrder(false, j, l); }
    Aligned(Page(false, l), Limit(end));
  }

  lemma Aligned(a: int, limit: int)
    requires a % 4096 == 0 && limit % 4096 == 0
    ensures a != limit - 1
  {
  }

  lemma UserRange(l: nat)
    requires l < CANONICAL
    ensures Page(false, 0) == 0 && (Wanted(0, RangeEnd(0, USER_LIM), Page(false, l)) <==> l < HALF)
  {
    assert RangeEnd(0, USER_LIM) == USER_LIM;
    assert Limit(USER_LIM) == USER_LIM && RoundDown(0) == 0;
    PageExtends(false, l);
    OnLine(false, Page(false, l));
    hide Limit, RoundDown, Number, Canonical;
  }

  // ------------------------------------------------------------------ a page is looked up

  /* The tables as the walker reads them. */
  function MemoryOf(tables: Tables): Memory {
    (t: nat, i: nat) =>
      if t in tables && i < |tables[t]| && tables[t][i].To? then Entry(true, false, tables[t][i].frame)
      else Entry(false, false, 0)
  }

  /* The visited slot holds entry e. */
  predicate LeafAt(tables: Tables, v: Visit, e: Pte) {
    v.table in tables && v.index < |tables[v.table]| && tables[v.table][v.index] == e
  }

  lemma LimitOne(k: nat)
    requires k < CANONICAL
    ensures Limit((Page(false, k) + 4096) % WORD) == Page(false, k) + 4096 && Canonical(Page(false, k))
  {
    var a := Page(false, k);
    assert a % 4096 == 0 && a + 4096 <= WORD by { PageExtends(false, k); }
    hide Page;
    if a + 4096 < WORD {
      Rounded(a + 4096);
    } else {
      Rounded(0);
    }
    assert Canonical(a) by { OnLine(false, a); PageExtends(false, k); }
  }

  lemma Rounded(a: u64)
    requires a % 4096 == 0
    ensures RoundUp(a) == a
  {
  }

  lemma TranslateFind(tables: Tables, lev: Levels, root: nat, hi: bool, k: nat)
    requires Tree(tables, lev) && root in tables && lev[root] == 4 && k < CANONICAL
    ensures Agrees(tables, root, hi, k)
  {
    hide Slot, Index, Page, Linked, OneParent, Levelled;
    IndexIsSlot(hi, 4, k);
    IndexIsSlot(hi, 3, k);
    IndexIsSlot(hi, 2, k);
    IndexIsSlot(hi, 1, k);
    TableSize(tables, lev, root);
    var e4 := tables[root][Slot(4, k)];
    if e4.To? {
      ChildTable(tables, lev, root, Slot(4, k));
      TableSize(tables, lev, e4.frame);
      var e3 := tables[e4.frame][Slot(3, k)];
      assert Find(tables, 4, root, k) == Find(tables, 3, e4.frame, k);
      if e3.To? {
        ChildTable(tables, lev, e4.frame, Slot(3, k));
        TableSize(tables, lev, e3.frame);
        var e2 := tables[e3.frame][Slot(2, k)];
        assert Find(tables, 3, e4.frame, k) == Find(tables, 2, e3.frame, k);
        if e2.To? {
          ChildTable(tables, lev, e3.frame, Slot(2, k));
          TableSize(tables, lev, e2.frame);
          assert Find(tables, 2, e3.frame, k) == Find(tables, 1, e2.frame, k) == tables[e2.frame][Slot(1, k)];
        }
      }
    }
  }

  /* The last present entry among those visited. */
  function LastPresent(tables: Tables, visits: seq<Visit>): Pte {
    if visits == [] then Clear
    else Present(tables, visits[|visits| - 1], LastPresent(tables, visits[..|visits| - 1]))
  }

  /* What page_lookup finds for an address in page k. A page-aligned address gives that page.
     Any other address makes the walk go on to the next page, unless that lies beyond the hole;
     in the last page of all the end of the range wraps and nothing is walked. */
  function LookedUp(tables: Tables, root: nat, va: u64, k: nat): Pte
    requires k < CANONICAL
  {
    if va == Page(false, k) || k + 1 == HALF then Find(tables, 4, root, k)
    else if k + 1 == CANONICAL then Clear
    else if Find(tables, 4, root, k + 1).To? then Find(tables, 4, root, k + 1)
    else Find(tables, 4, root, k)
  }

  /* The last present leaf of pages i up to j. */
  function LastFound(tables: Tables, root: nat, i: nat, j: nat): Pte
    decreases j
  {
    if i >= j then Clear
    else if Find(tables, 4, root, j - 1).To? then Find(tables, 4, root, j - 1)
    else LastFound(tables, root, i, j - 1)
  }

  lemma LookedUpPages(tables: Tables, root: nat, va: u64, k: nat)
    requires k < CANONICAL && RoundDown(va) == Page(false, k)
    ensures LastFound(tables, root, StartPage(va), EndPage(va, RangeEnd(va, 4096))) == LookedUp(tables, root, va, k)
  {
    CanonicalPage(va, k);
    EndInside(va, k);
    hide Page, RoundDown, StartPage, EndPage, Find;
    var j := EndPage(va, RangeEnd(va, 4096));
    FewFound(tables, root, k, j);
  }

  lemma FewFound(tables: Tables, root: nat, k: nat, j: nat)
    requires j <= k + 2
    ensures j <= k ==> LastFound(tables, root, k, j) == Clear
    ensures j == k + 1 ==> LastFound(tables, root, k, j) == Find(tables, 4, root, k)
    ensures j == k + 2 ==>
      var e := Find(tables, 4, root, k + 1);
      LastFound(tables, root, k, j) == if e.To? then e else Find(tables, 4, root, k)
  {
    hide Find;
    assert LastFound(tables, root, k, k) == Clear;
    assert LastFound(tables, root, k, k + 1) == Find(tables, 4, root, k);
  }

  /* Where the walk of 4096 bytes from an address of page k ends. */
  lemma EndInside(va: u64, k: nat)
    requires k < CANONICAL && RoundDown(va) == Page(false, k)
    ensures EndPage(va, RangeEnd(va, 4096)) ==
      if va == Page(false, k) || k + 1 == HALF then k + 1 else if k + 1 == CANONICAL then 0 else k + 2
  {
    var b := Page(false, k);
    if va == b {
      OnePage(k);
    } else {
      PageExtends(false, k);
      LimitOne(k);
      RoundingFacts(va);
      LimitInside(va, b);
      hide Limit, RoundDown, RoundUp, Number, SignExtend;
    }
  }

  lemma LimitInside(va: u64, b: u64)
    requires b < va < b + 4096 && b % 4096 == 0
    ensures Limit((va + 4096) % WORD) == if b + 4096 == WORD then 4096 else b + 8192
  {
    var end := (va + 4096) % WORD;
    if b + 4096 == WORD {
      assert end == va + 4096 - WORD && 0 < end < 4096;
      assert RoundUp(end) == 4096;
    } else {
      assert b + 8192 <= WORD && b + 4096 < end == va + 4096 < b + 8192;
      UpTo(end, b + 8192);
    }
  }

  lemma UpTo(a: u64, b: int)
    requires b % 4096 == 0 && b - 4096 < a <= b <= WORD
    ensures RoundUp(a) == b % WORD
  {
  }

  /* The slots of pages i up to j of a line whose tables are present, in order. */
  ghost predicate PagesVisited(tables: Tables, root: nat, hi: bool, i: nat, j: nat, visits: seq<Visit>) {
    && Ascending(visits)
    && forall v :: v in visits <==>
         i <= Number(v.addr) < j && Page(hi, Number(v.addr)) == v.addr && Translate(MemoryOf(tables), root, v.addr) == Some(v)
  }

  /* The hardware's path to page l and the flat map agree. */
  ghost predicate Agrees(tables: Tables, root: nat, hi: bool, l: nat)
    requires l < CANONICAL
  {
    var r := Translate(MemoryOf(tables), root, Page(hi, l));
    (r.None? ==> Find(tables, 4, root, l) == Clear) && (r.Some? ==> LeafAt(tables, r.value, Find(tables, 4, root, l)))
  }

  /* Every visit is to an entry. */
  ghost predicate Visited(tables: Tables, visits: seq<Visit>) {
    forall j :: 0 <= j < |visits| ==> visits[j].table in tables && visits[j].index < |tables[visits[j].table]|
  }

  lemma VisitedAt(tables: Tables, visits: seq<Visit>, j: nat)
    requires Visited(tables, visits) && j < |visits|
    ensures visits[j].table in tables && visits[j].index < |tables[visits[j].table]|
  {
  }

  lemma LookupVisits(s: Snap, root: nat, va: u64, visits: seq<Visit>)
    requires Sound(s) && root in s.roots && Ascending(visits)
    requires forall v :: v in visits <==> Walked(va, RangeEnd(va, 4096), v.addr) && Translate(MemoryOf(s.tables), root, v.addr) == Some(v)
    ensures Visited(s.tables, visits)
    ensures LastPresent(s.tables, visits) == LastFound(s.tables, root, StartPage(va), EndPage(va, RangeEnd(va, 4096)))
  {
    RootIn(s, root);
    SoundTree(s);
    hide Sound, Tree, Page, Number, Walked, Translate, MemoryOf, Find, LastPresent, LastFound, Visited, Ascending, RangeEnd, Limit, Below, RoundDown;
    var hi, end := va >= USER_LIM, RangeEnd(va, 4096);
    var i, j := StartPage(va), EndPage(va, end);
    PageRange(va, end);
    forall v: Visit
      ensures Walked(va, end, v.addr) <==> i <= Number(v.addr) < j && Page(hi, Number(v.addr)) == v.addr
    {
      WalkedPages(va, end, v.addr);
    }
    forall l: nat | l < j
      ensures Agrees(s.tables, root, hi, l)
    {
      TranslateFind(s.tables, s.lev, root, hi, l);
    }
    hide StartPage, EndPage, Agrees;
    assert PagesVisited(s.tables, root, hi, i, j, visits);
    LastVisits(s.tables, root, hi, i, j, visits);
  }

  /* The last present entry of an ascending walk is the last present leaf of its pages. */
  lemma {:induction false} LastVisits(tables: Tables, root: nat, hi: bool, i: nat, j: nat, visits: seq<Visit>)
    requires j <= CANONICAL && PagesVisited(tables, root, hi, i, j, visits)
    requires forall l: nat :: l < j ==> Agrees(tables, root, hi, l)
    ensures Visited(tables, visits) && LastPresent(tables, visits) == LastFound(tables, root, i, j)
    decreases j
  {
    hide Page, Number, Translate, MemoryOf, Find;
    if i >= j {
      NoneVisited(tables, root, hi, i, j, visits);
      return;
    }
    var x := Page(hi, j - 1);
    var r := Translate(MemoryOf(tables), root, x);
    assert Agrees(tables, root, hi, j - 1);
    if r.None? {
      FewerPages(tables, root, hi, i, j, visits);
      LastVisits(tables, root, hi, i, j - 1, visits);
    } else {
      var n := |visits| - 1;
      LastPage(tables, root, hi, i, j, visits, r.value);
      LastVisits(tables, root, hi, i, j - 1, visits[..n]);
    }
  }

  lemma NoneVisited(tables: Tables, root: nat, hi: bool, i: nat, j: nat, visits: seq<Visit>)
    requires i >= j && PagesVisited(tables, root, hi, i, j, visits)
    ensures visits == []
  {
    hide Number, Page, Translate, MemoryOf;
    FirstIn(visits);
  }

  lemma FirstIn(visits: seq<Visit>)
    ensures visits == [] || visits[0] in visits
  {
  }

  lemma FewerPages(tables: Tables, root: nat, hi: bool, i: nat, j: nat, visits: seq<Visit>)
    requires i < j <= CANONICAL && PagesVisited(tables, root, hi, i, j, visits)
    requires Translate(MemoryOf(tables), root, Page(hi, j - 1)).None?
    ensures PagesVisited(tables, root, hi, i, j - 1, visits)
  {
    hide Number, Page, Translate, MemoryOf, Ascending;
  }

  lemma InOrder(hi: bool, k: nat, l: nat)
    requires k < CANONICAL && l < CANONICAL
    ensures k < l ==> Page(hi, k) < Page(hi, l)
  {
  }

  lemma LastPage(tables: Tables, root: nat, hi: bool, i: nat, j: nat, visits: seq<Visit>, v: Visit)
    requires i < j <= CANONICAL && PagesVisited(tables, root, hi, i, j, visits)
    requires Translate(MemoryOf(tables), root, Page(hi, j - 1)) == Some(v)
    ensures visits != [] && visits[|visits| - 1] == v
    ensures PagesVisited(tables, root, hi, i, j - 1, visits[..|visits| - 1])
  {
    PageExtends(hi, j - 1);
    hide Number, Page, Translate, MemoryOf;
    assert v in visits;
    var n := |visits| - 1;
    var last, rest := visits[n], visits[..n];
    assert last in visits;
    InOrder(hi, Number(last.addr), j - 1);
    assert last == v;
    forall u: Visit
      ensures u in rest <==> u in visits && u != v
    {
      assert visits == rest + [v];
    }
    forall u: Visit | u in visits && Number(u.addr) == j - 1
      ensures u == v
    {
    }
  }

  function Present(tables: Tables, v: Visit, otherwise: Pte): Pte {
    if Points(tables, v.table, v.index) then tables[v.table][v.index] else otherwise
  }

  // ------------------------------------------------------------------ insertion and removal

  lemma {:induction false} InsertedKeys(tables: Tables, lev: Levels, level: nat, t: nat, k: nat, pte: Pte, frames: seq<nat>)
    requires Tree(tables, lev) && 1 <= level <= 4 && t in tables && lev[t] == level && Fresh(tables, frames)
    requires |frames| == Missing(tables, level, t, k)
    ensures Inserted(tables, level, t, k, pte, frames).Keys == tables.Keys + AsSet(frames)
    decreases level
  {
    hide Slot, Linked, OneParent;
    var i := Slot(level, k);
    if level > 1 {
      if tables[t][i].To? {
        ChildTable(tables, lev, t, i);
        InsertedKeys(tables, lev, level - 1, tables[t][i].frame, k, pte, frames);
      } else {
        var f, tables1 := frames[0], NewTable(tables, t, i, frames[0]);
        NewTableTree(tables, lev, t, i, f);
        NewTableFresh(tables, t, i, frames);
        MissingBlank(tables1, level - 1, f, k);
        InsertedKeys(tables1, lev[f := level - 1], level - 1, f, k, pte, frames[1..]);
        assert frames == [f] + frames[1..];
        assert AsSet(frames) == {f} + AsSet(frames[1..]);
      }
    }
  }

  /* An insertion writes entries that point to the page or to its new tables. */
  lemma {:induction false} InsertedEntries(tables: Tables, lev: Levels, level: nat, t: nat, k: nat, pte: Pte, frames: seq<nat>, u: nat, j: nat)
    requires Tree(tables, lev) && 1 <= level <= 4 && t in tables && lev[t] == level && Fresh(tables, frames)
    requires |frames| == Missing(tables, level, t, k) && Points(Inserted(tables, level, t, k, pte, frames), u, j)
    ensures var e := Inserted(tables, level, t, k, pte, frames)[u][j];
      (Points(tables, u, j) && tables[u][j] == e) || e == pte || e.frame in frames
    decreases level
  {
    hide Slot, Linked, OneParent;
    var i := Slot(level, k);
    if level > 1 {
      if tables[t][i].To? {
        ChildTable(tables, lev, t, i);
        InsertedEntries(tables, lev, level - 1, tables[t][i].frame, k, pte, frames, u, j);
      } else {
        var f, tables1 := frames[0], NewTable(tables, t, i, frames[0]);
        NewTableTree(tables, lev, t, i, f);
        NewTableFresh(tables, t, i, frames);
        MissingBlank(tables1, level - 1, f, k);
        InsertedEntries(tables1, lev[f := level - 1], level - 1, f, k, pte, frames[1..], u, j);
        assert frames == [f] + frames[1..];
      }
    }
  }

  lemma RoundTrip(s: Snap, s1: Snap, s2: Snap, root: nat, k: nat, p: nat, flags: nat, frames: seq<nat>)
    requires Sound(s) && Full(s.tables, s.roots) && root in s.roots && k < CANONICAL && Find(s.tables, 4, root, k) == Clear
    requires p in s.held && p !in s.tables && p < |s.pages| && s.pages[p].ref < 0xffff
    requires InsertDone(s, s1, 4, root, k, To(p, flags), frames) && RemoveDone(s1, s2, 4, root, k, k + 1)
    ensures s2.tables == s.tables && s2.free == s.free + if s.pages[p].ref == 0 then {p} else {}
  {
    hide Slot, Find, Full, Missing, Inserted, Removed, PathFull, Users, Gone;
    RootIn(s, root);
    RootLevels(s);
    FullPath(s.tables, s.lev, s.roots, 4, root, k);
    RemovedInserted(s.tables, s.lev, 4, root, k, To(p, flags), frames);
    assert RemovedAll(Removed(s1.tables, 4, root, k), 4, root, k + 1, k + 1) == Removed(s1.tables, 4, root, k);
    GoneAgain(s, s1, root, k, p, flags, frames);
  }

  lemma GoneAgain(s: Snap, s1: Snap, root: nat, k: nat, p: nat, flags: nat, frames: seq<nat>)
    requires Sound(s) && root in s.roots && k < CANONICAL && Find(s.tables, 4, root, k) == Clear
    requires p in s.held && p !in s.tables && p < |s.pages| && s.pages[p].ref < 0xffff
    requires InsertDone(s, s1, 4, root, k, To(p, flags), frames)
    ensures Gone(s1.tables, s.tables, s1.held) == AsSet(frames) + if s.pages[p].ref == 0 then {p} else {}
  {
    hide Slot, Find, Full, Missing, Inserted, Users, Sound, Fresh;
    RootIn(s, root);
    SoundTree(s);
    hide Tree;
    InsertedKeys(s.tables, s.lev, 4, root, k, To(p, flags), frames);
    FreshApart(s.tables, frames);
    assert s1.tables.Keys - s.tables.Keys == AsSet(frames);
    PageCounted(s, p);
    PageUsed(s, s1, root, k, p, flags, frames);
    var gone := Gone(s1.tables, s.tables, s1.held);
    forall x: int
      ensures x in gone <==> x in AsSet(frames) + if s.pages[p].ref == 0 then {p} else {}
    {
      if x >= 0 && x !in frames && x != p && Users(s1.tables, x) != {} {
        OthersUsed(s, s1, root, k, p, flags, frames, x);
      }
    }
  }

  lemma PageUsed(s: Snap, s1: Snap, root: nat, k: nat, p: nat, flags: nat, frames: seq<nat>)
    requires Sound(s) && root in s.roots && InsertDone(s, s1, 4, root, k, To(p, flags), frames)
    ensures Users(s1.tables, p) != {}
  {
    hide Slot, Find, Missing, Inserted, Users, Fresh;
    RootIn(s, root);
    SameIsSame(4, k);
    FindInserted(s.tables, s.lev, 4, root, k, To(p, flags), frames, root, k);
    var u, j := FindPoints(s1.tables, 4, root, k);
    UsersMember(s1.tables, p, u, j);
  }

  lemma OthersUsed(s: Snap, s1: Snap, root: nat, k: nat, p: nat, flags: nat, frames: seq<nat>, x: nat)
    requires Sound(s) && root in s.roots && InsertDone(s, s1, 4, root, k, To(p, flags), frames)
    requires x !in frames && x != p && Users(s1.tables, x) != {}
    ensures Users(s.tables, x) != {}
  {
    hide Slot, Find, Missing, Inserted, Users, Fresh;
    RootIn(s, root);
    var y :| y in Users(s1.tables, x);
    UsersMember(s1.tables, x, y.table, y.index);
    UsersMember(s.tables, x, y.table, y.index);
    InsertedEntries(s.tables, s.lev, 4, root, k, To(p, flags), frames, y.table, y.index);
  }

  lemma PageCounted(s: Snap, p: nat)
    requires Sound(s) && p in s.held && p !in s.tables && p < |s.pages|
    ensures s.pages[p].ref == |Users(s.tables, p)|
  {
    hide Tree;
  }

  lemma RootLevels(s: Snap)
    requires Sound(s)
    ensures forall r :: r in s.roots && r in s.tables ==> s.lev[r] == 4
  {
    hide Tree;
  }

  lemma FreshApart(tables: Tables, frames: seq<nat>)
    requires Fresh(tables, frames)
    ensures forall f :: f in frames ==> f !in tables
  {
  }

  // ------------------------------------------------------------------ new pages and address spaces

  lemma NoPageSound(s: Snap, s': Snap)
    requires Sound(s) && s' == s.(pages := s'.pages) && FrameOwner.SameRefs(s.pages, s'.pages)
    ensures Sound(s')
  {
    hide Tree;
  }

  lemma PageSound(s: Snap, f: nat, pages: BuddySpec.Pages, free: set<int>)
    requires Sound(s) && f !in s.held && FrameOwner.SameRefs(s.pages, pages) && f < |pages| && pages[f].ref == 0
    ensures Sound(Snap(s.tables, s.lev, s.roots, s.held + {f}, pages, free)) && f !in s.tables
  {
    FreeUnused(s, f);
    hide Tree;
  }

  lemma RootSound(s: Snap, f: nat, pages: BuddySpec.Pages)
    requires Sound(s) && f in s.held && f !in s.tables && f < |s.pages| && s.pages[f].ref == 0 && FrameOwner.RefSet(s.pages, pages, f, 1)
    ensures Sound(Snap(s.tables[f := Blank(512)], s.lev[f := 4], s.roots + {f}, s.held, pages, s.free))
    ensures Full(s.tables, s.roots) ==> Full(s.tables[f := Blank(512)], s.roots + {f})
    ensures SpaceAdded(s.tables, s.tables[f := Blank(512)], s.roots + {f}, f)
  {
    hide Tree, Backed, Counted, Small, Users, Full, Find;
    NoUsers(s, f);
    RootForest(s.tables, s.lev, s.roots, f);
    RootCount(s.pages, pages, s.tables, s.roots, s.held, f);
    SmallSet(s.pages, pages, f, 1);
    BackedBlank(s.tables, s.held, |s.pages|, f);
    FullBlank(s.tables, s.roots, f);
    var tables', roots' := s.tables[f := Blank(512)], s.roots + {f};
    forall u: nat, l: nat | u in roots' && l < CANONICAL
      ensures Find(tables', 4, u, l) == if u == f then Clear else Find(s.tables, 4, u, l)
    {
      if u == f {
        BlankFind(tables', 4, f, l);
      } else {
        RootIn(s, u);
        FindExtra(s.tables, s.lev, f, 4, u, l);
      }
    }
  }

  lemma NoUsers(s: Snap, f: nat)
    requires Sound(s) && f in s.held && f !in s.tables && f < |s.pages| && s.pages[f].ref == 0
    ensures Unused(s.tables, f) && f !in s.roots && Users(s.tables, f) == {}
  {
    hide Tree;
    assert |Users(s.tables, f)| == 0;
    forall t: nat, i: nat | Points(s.tables, t, i)
      ensures s.tables[t][i].frame != f
    {
      UsersMember(s.tables, f, t, i);
    }
  }

  lemma RootForest(tables: Tables, lev: Levels, roots: set<nat>, f: nat)
    requires Forest(tables, lev, roots) && Unused(tables, f)
    ensures Forest(tables[f := Blank(512)], lev[f := 4], roots + {f})
  {
    var tables', lev' := tables[f := Blank(512)], lev[f := 4];
    assert forall u: nat, j: nat :: Points(tables', u, j) ==> u != f && Points(tables, u, j) && tables'[u][j] == tables[u][j];
    assert Levelled(tables', lev');
    forall u: nat, j: nat, v: nat, m: nat | SameChild(tables', u, j, v, m) && lev'[u] > 1 && lev'[v] > 1
      ensures u == v && j == m
    {
      assert Points(tables', u, j) && Points(tables', v, m);
      assert SameChild(tables, u, j, v, m);
    }
  }

  lemma RootCount(pages: BuddySpec.Pages, pages': BuddySpec.Pages, tables: Tables, roots: set<nat>, held: set<int>, f: nat)
    requires Counted(pages, tables, roots, held) && FrameOwner.RefSet(pages, pages', f, 1) && f !in tables
    requires Users(tables, f) == {}
    ensures Counted(pages', tables[f := Blank(512)], roots + {f}, held)
  {
    hide Users;
    forall g: nat | g in held && g < |pages'|
      ensures pages'[g].ref == |Users(tables[f := Blank(512)], g)| + if g in roots + {f} then 1 else 0
    {
      UsersBlank(tables, f, g);
    }
  }

  lemma UsersBlank(tables: Tables, f: nat, g: nat)
    requires f !in tables
    ensures Users(tables[f := Blank(512)], g) == Users(tables, g)
  {
    var tables' := tables[f := Blank(512)];
    var a, b := Users(tables', g), Users(tables, g);
    forall x: Place
      ensures x in a <==> x in b
    {
      UsersMember(tables', g, x.table, x.index);
      UsersMember(tables, g, x.table, x.index);
    }
  }

  lemma BackedBlank(tables: Tables, held: set<int>, n: nat, f: nat)
    requires Backed(tables, held, n) && f in held && f !in tables
    ensures Backed(tables[f := Blank(512)], held, n)
  {
    var tables' := tables[f := Blank(512)];
    assert forall u: nat, j: nat :: Points(tables', u, j) ==> Points(tables, u, j) && tables'[u][j] == tables[u][j];
  }

  lemma FullBlank(tables: Tables, roots: set<nat>, f: nat)
    requires f !in tables
    ensures Full(tables, roots) ==> Full(tables[f := Blank(512)], roots + {f})
  {
  }

  /* A new table that nothing points to is not seen. */
  lemma {:induction false} FindExtra(tables: Tables, lev: Levels, f: nat, level: nat, u: nat, k: nat)
    requires Tree(tables, lev) && f !in tables && u in tables && lev[u] == level
    ensures Find(tables[f := Blank(512)], level, u, k) == Find(tables, level, u, k)
    decreases level
  {
    hide Slot, Linked, OneParent;
    var e := tables[u][Slot(level, k)];
    if level > 1 && e.To? {
      ChildTable(tables, lev, u, Slot(level, k));
      FindExtra(tables, lev, f, level - 1, e.frame, k);
    }
  }
}
