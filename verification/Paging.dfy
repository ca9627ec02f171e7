/**
 The page walker of kernel/mem/walk.c: the four nested loops over a range of 64-bit
 addresses, with wrap-around, canonical sign extension and an inclusive end that shrinks by
 one byte per level.
 */
module Paging {
  import opened Common

  const WORD := 0x1_0000_0000_0000_0000
  const USER_LIM := 0x8000_0000_0000
  /* The first canonical address of the upper half. */
  const UPPER := 0xffff_8000_0000_0000
  /* The number of canonical pages: 2^36. */
  const CANONICAL := 0x10_0000_0000
  const HALF := 0x8_0000_0000

  type u64 = x: int | 0 <= x < WORD

  /* The walker's present test, its huge-page test and the frame an entry points to. */
  datatype Entry = Entry(present: bool, huge: bool, frame: nat)

  /* Physical memory read as page tables: the entry at an index of the table in a frame. */
  type Memory = (nat, nat) -> Entry

  /* A call of the leaf callback: the slot it is given and the address. */
  datatype Visit = Visit(table: nat, index: nat, addr: u64)

  /* Or-ing the sixteen top bits into an address that is not in the user half. */
  function SignExtend(a: u64): u64 {
    if a < USER_LIM then a else 0xffff_0000_0000_0000 + a % 0x1_0000_0000_0000
  }

  predicate Canonical(a: u64) {
    a < USER_LIM || a >= UPPER
  }

  /* The bytes one entry of a table spans: level 1 is a page table, level 4 the PML4. */
  function Span(level: nat): u64
    requires 1 <= level <= 4
  {
    if level == 1 then 0x1000 else if level == 2 then 0x20_0000 else if level == 3 then 0x4000_0000 else 0x80_0000_0000
  }

  /* ptbl_end, pdir_end, pdpt_end, pml4_end */
  function ChunkEnd(level: nat, a: u64): u64
    requires 1 <= level <= 4
  {
    if level == 1 then a - a % Span(1) + Span(1) - 1
    else if level == 2 then a - a % Span(2) + Span(2) - 1
    else if level == 3 then a - a % Span(3) + Span(3) - 1
    else a - a % Span(4) + Span(4) - 1
  }

  /* PAGE_TABLE_INDEX, PAGE_DIR_INDEX, PDPT_INDEX, PML4_INDEX */
  function Index(level: nat, a: u64): nat
    requires 1 <= level <= 4
  {
    a / Span(level) % 512
  }

  function RoundDown(a: u64): u64 {
    a - a % 4096
  }

  function RoundUp(a: u64): u64 {
    RoundDown((a + 4095) % WORD)
  }

  /* The addresses the body of a walk loop works on: from addr up to the returned value. */
  function Next(level: nat, addr: u64, end: u64): u64
    requires 1 <= level <= 4
  {
    var next := SignExtend((ChunkEnd(level, addr) + 1) % WORD);
    if next > end || next < addr then end else next
  }

  /* An entry the walker goes through; only page directories and PDPTs are tested for huge
     pages. */
  predicate Descends(level: nat, e: Entry) {
    e.present && !(e.huge && level < 4)
  }

  // ------------------------------------------------------------------ the canonical pages

  /* The k-th page of the walk's address line. Below the middle the line of a walk that starts
     in the user half has the user pages; a walk that starts above it has the addresses with
     all top bits set, which are not canonical there. Above the middle both are the kernel's
     canonical pages. */
  function Page(hi: bool, k: nat): u64
    requires k < CANONICAL
  {
    if k < HALF && !hi then k * 4096 else 0xffff_0000_0000_0000 + k * 4096
  }

  /* Which page of the line an address extends to. */
  function Number(a: u64): (k: nat)
    ensures k < CANONICAL
  {
    a % 0x1_0000_0000_0000 / 4096
  }

  /* The pages one entry of a table spans. */
  function Pages(level: nat): (n: nat)
    requires 1 <= level <= 4
    ensures n > 0
  {
    if level == 1 then 1 else if level == 2 then 512 else if level == 3 then 0x4_0000 else 0x800_0000
  }

  function NextChunk(level: nat, k: nat): nat
    requires 1 <= level <= 4
  {
    (k / Pages(level) + 1) * Pages(level)
  }

  function Slot(level: nat, k: nat): (i: nat)
    requires 1 <= level <= 4
    ensures i < 512
  {
    k / Pages(level) % 512
  }

  lemma PageOrder(hi: bool, a: nat, b: nat)
    requires a < b < CANONICAL
    ensures Page(hi, a) + 4096 <= Page(hi, b)
  {
  }

  lemma ExtendIsPage(a: u64)
    requires a % 4096 == 0
    ensures SignExtend(a) == Page(a >= USER_LIM, Number(a)) >= a
    ensures Canonical(a) ==> SignExtend(a) == a
  {
    LowBits(a);
    if a < USER_LIM {
      assert a % 0x1_0000_0000_0000 == a;
    } else if a < UPPER {
      assert a / 0x1_0000_0000_0000 <= 0xffff;
    } else {
      assert a / 0x1_0000_0000_0000 == 0xffff;
    }
  }

  lemma LowBits(a: u64)
    requires a % 4096 == 0
    ensures a % 0x1_0000_0000_0000 % 4096 == 0
  {
  }

  lemma PageExtends(hi: bool, k: nat)
    requires k < CANONICAL
    ensures Page(hi, k) % 4096 == 0 && Number(Page(hi, k)) == k && SignExtend(Page(hi, k)) == Page(hi, k)
  {
  }

  lemma Division(level: nat, a: nat, q: nat, r: nat)
    requires 1 <= level <= 4 && a == q * Span(level) + r && r < Span(level)
    ensures a / Span(level) == q && a % Span(level) == r
  {
    if level == 1 {
    } else if level == 2 {
    } else if level == 3 {
    } else {
    }
  }

  /* Where the chunk of page k ends, per level: the address arithmetic in terms of pages. */
  lemma ChunkArith(level: nat, k: nat, q: nat, r: nat)
    requires 1 <= level <= 4 && k == q * Pages(level) + r && r < Pages(level) && k < CANONICAL
    ensures (4096 * k) / Span(level) == q && (4096 * k) % Span(level) == 4096 * r
    ensures var a := 0xffff_0000_0000_0000 + 4096 * k;
      a / Span(level) % 512 == q % 512 && a % Span(level) == 4096 * r
    ensures (q + 1) * Pages(level) <= CANONICAL
    ensures k < HALF ==> (q + 1) * Pages(level) <= HALF
  {
    var c := if level == 1 then 0xf_fff0_0000_0000 else if level == 2 then 0x7ff_f800_0000
             else if level == 3 then 0x3_fffc_0000 else 0x1ff_fe00;
    assert c * Span(level) == 0xffff_0000_0000_0000 && 4096 * Pages(level) == Span(level);
    Division(level, 4096 * k, q, 4096 * r);
    Division(level, 0xffff_0000_0000_0000 + 4096 * k, c + q, 4096 * r);
    assert (c + q) % 512 == q % 512;
  }

  lemma NextOfPage(hi: bool, level: nat, k: nat)
    requires 1 <= level <= 4 && k < CANONICAL
    ensures k < NextChunk(level, k) <= CANONICAL
    ensures SignExtend((ChunkEnd(level, Page(hi, k)) + 1) % WORD)
         == if NextChunk(level, k) < CANONICAL then Page(hi, NextChunk(level, k)) else 0
    ensures Index(level, Page(hi, k)) == Slot(level, k)
  {
    hide ChunkEnd, SignExtend, Span, Pages;
    var q, r := k / Pages(level), k % Pages(level);
    Euclid(level, k);
    ChunkArith(level, k, q, r);
    NextAddress(hi, level, k, q, r);
  }

  lemma NextAddress(hi: bool, level: nat, k: nat, q: nat, r: nat)
    requires 1 <= level <= 4 && k == q * Pages(level) + r && r < Pages(level) && k < CANONICAL
    requires Page(hi, k) % Span(level) == 4096 * r && (q + 1) * Pages(level) <= CANONICAL
    requires k < HALF ==> (q + 1) * Pages(level) <= HALF
    ensures var c := (q + 1) * Pages(level);
      SignExtend((ChunkEnd(level, Page(hi, k)) + 1) % WORD) == if c < CANONICAL then Page(hi, c) else 0
  {
    hide ChunkEnd;
    SpanIsPages(level);
    hide Pages;
    assert ChunkEnd(level, Page(hi, k)) == Page(hi, k) - 4096 * r + Span(level) - 1 by { ChunkEndIs(level, Page(hi, k)); }
    hide Span, SignExtend;
    var c := (q + 1) * Pages(level);
    assert c == k - r + Pages(level);
    ExtendBoundary(hi, k, c);
  }

  lemma ExtendBoundary(hi: bool, k: nat, c: nat)
    requires k < c <= CANONICAL && (k < HALF ==> c <= HALF)
    ensures SignExtend((Page(hi, k) + 4096 * (c - k)) % WORD) == if c < CANONICAL then Page(hi, c) else 0
  {
    if k < HALF && !hi {
      assert Page(hi, k) + 4096 * (c - k) == 4096 * c;
    } else {
      assert Page(hi, k) + 4096 * (c - k) == 0xffff_0000_0000_0000 + 4096 * c;
    }
  }

  lemma SpanIsPages(level: nat)
    requires 1 <= level <= 4
    ensures 4096 * Pages(level) == Span(level)
  {
  }

  lemma ChunkEndIs(level: nat, a: u64)
    requires 1 <= level <= 4
    ensures ChunkEnd(level, a) == a - a % Span(level) + Span(level) - 1
  {
  }

  lemma Euclid(level: nat, k: nat)
    requires 1 <= level <= 4
    ensures k == k / Pages(level) * Pages(level) + k % Pages(level) < (k / Pages(level) + 1) * Pages(level)
    ensures k % Pages(level) < Pages(level)
  {
  }

  lemma SameSlot(level: nat, c: nat, k: nat)
    requires 1 <= level <= 4 && c <= k < NextChunk(level, c)
    ensures Slot(level, k) == Slot(level, c) && NextChunk(level, k) == NextChunk(level, c)
  {
    if level == 1 {
    } else if level == 2 {
    } else if level == 3 {
    } else {
    }
  }

  // ------------------------------------------------------------------ what a walk should visit

  /* The leaf slot of page k under `table`, reached by the page's 9-bit indices: no visit if a
     table on the way is missing. */
  ghost function VisitOf(mem: Memory, hi: bool, level: nat, table: nat, k: nat): seq<Visit>
    requires 1 <= level <= 4 && k < CANONICAL
  {
    var e := mem(table, Slot(level, k));
    if level == 1 then [Visit(table, Slot(1, k), Page(hi, k))]
    else if Descends(level, e) then VisitOf(mem, hi, level - 1, e.frame, k)
    else []
  }

  /* The visits of pages i up to j, page by page. */
  ghost function Visits(mem: Memory, hi: bool, level: nat, table: nat, i: nat, j: nat): seq<Visit>
    requires 1 <= level <= 4 && j <= CANONICAL
    decreases j - i
  {
    if i >= j then [] else VisitOf(mem, hi, level, table, i) + Visits(mem, hi, level, table, i + 1, j)
  }

  lemma {:induction false} VisitsSplit(mem: Memory, hi: bool, level: nat, table: nat, i: nat, m: nat, j: nat)
    requires 1 <= level <= 4 && i <= m <= j <= CANONICAL
    ensures Visits(mem, hi, level, table, i, j) == Visits(mem, hi, level, table, i, m) + Visits(mem, hi, level, table, m, j)
    decreases m - i
  {
    hide VisitOf;
    if i < m {
      VisitsSplit(mem, hi, level, table, i + 1, m, j);
    }
  }

  /* The visits inside one chunk are those of the table below. */
  lemma {:induction false} ChunkVisits(mem: Memory, hi: bool, level: nat, table: nat, c: nat, m: nat)
    requires 1 < level <= 4 && c <= m <= NextChunk(level, c) && m <= CANONICAL
    ensures var e := mem(table, Slot(level, c));
      Visits(mem, hi, level, table, c, m) == if Descends(level, e) then Visits(mem, hi, level - 1, e.frame, c, m) else []
    decreases m - c
  {
    hide Slot, NextChunk;
    if c < m {
      if c + 1 < m {
        SameSlot(level, c, c + 1);
        ChunkVisits(mem, hi, level, table, c + 1, m);
      }
    }
  }

  /* The visits from page k on are those of k's chunk and those from the next chunk on. */
  lemma StepVisits(mem: Memory, hi: bool, level: nat, table: nat, k: nat, j: nat)
    requires 1 <= level <= 4 && k < CANONICAL && j <= CANONICAL && k < NextChunk(level, k)
    requires level == 1 ==> k < j
    ensures var e, low := mem(table, Slot(level, k)), if NextChunk(level, k) < j then NextChunk(level, k) else j;
      Visits(mem, hi, level, table, k, j)
        == (if level == 1 then [Visit(table, Slot(1, k), Page(hi, k))]
            else if Descends(level, e) then Visits(mem, hi, level - 1, e.frame, k, low) else [])
        + Visits(mem, hi, level, table, if k < low then low else k, j)
  {
    hide Slot, Page;
    var low := if NextChunk(level, k) < j then NextChunk(level, k) else j;
    if k < low {
      VisitsSplit(mem, hi, level, table, k, low, j);
      if level > 1 {
        ChunkVisits(mem, hi, level, table, k, low);
      } else {
        assert low == k + 1 && Visits(mem, hi, level, table, k + 1, low) == [];
      }
    }
  }

  // ------------------------------------------------------------------ the walk

  /* The end of a range stands for "up to page j" with at least `level` bytes to spare. */
  ghost predicate EndsAt(hi: bool, end: u64, j: nat, level: nat) {
    && j <= CANONICAL
    && (j > 0 ==> Page(hi, j - 1) + level <= end)
    && (j < CANONICAL ==> end <= Page(hi, j))
  }

  /* One iteration: where the next one starts, and that the byte it loses is there to lose. */
  lemma NextStep(hi: bool, level: nat, k: nat, end: u64, j: nat)
    requires 1 <= level <= 4 && k < CANONICAL && EndsAt(hi, end, j, level) && end > 0
    ensures k < NextChunk(level, k) <= CANONICAL && Index(level, Page(hi, k)) == Slot(level, k)
    ensures var (c, next) := (NextChunk(level, k), Next(level, Page(hi, k), end));
      && (if c < j then Page(hi, k) < next == Page(hi, c) < end else next == end)
      && (level > 1 ==> EndsAt(hi, next - 1, if c < j then c else j, level - 1))
  {
    hide ChunkEnd, SignExtend, NextChunk, Index, Slot, Page;
    NextOfPage(hi, level, k);
    var c := NextChunk(level, k);
    if c < CANONICAL {
      PageOrder(hi, k, c);
      if c < j {
        PageOrder(hi, c - 1, c);
        if c < j - 1 { PageOrder(hi, c, j - 1); }
      } else if j < c {
        PageOrder(hi, j, c);
      }
    } else {
      PagePositive(hi, level, k);
    }
  }

  lemma RangeStart(hi: bool, base: u64, end: u64, j: nat, level: nat)
    requires 1 <= level <= 4 && EndsAt(hi, end, j, level) && base <= Page(hi, Number(base))
    ensures j <= CANONICAL && (base >= end ==> Number(base) >= j)
    ensures base == Page(hi, Number(base)) && base < end ==> Number(base) < j
  {
    hide Page, Number;
    var i := Number(base);
    if i < j - 1 { PageOrder(hi, i, j - 1); }
    if j < i { PageOrder(hi, j, i); }
  }

  /* pml4_walk_range, pdpt_walk_range, pdir_walk_range and ptbl_walk_range on a walker with a
     leaf callback: they visit the pages of the line from that of base up to j, one by one. */
  method WalkRange(mem: Memory, level: nat, table: nat, base: u64, end: u64, ghost hi: bool, ghost j: nat)
    returns (visits: seq<Visit>)
    requires 1 <= level <= 4 && EndsAt(hi, end, j, level)
    requires base <= SignExtend(base) == Page(hi, Number(base)) && (level == 1 ==> SignExtend(base) == base)
    ensures visits == Visits(mem, hi, level, table, Number(base), j)
    decreases level
  {
    hide SignExtend, Next, Index, NextChunk, Slot, Visits, Number, Page, EndsAt, Descends;
    visits := [];
    var next: u64 := base;
    var addr: u64 := SignExtend(base);
    ghost var k: nat := Number(base);
    RangeStart(hi, base, end, j, level);
    while next < end
      invariant k <= CANONICAL && j <= CANONICAL
      invariant visits + Visits(mem, hi, level, table, k, j) == Visits(mem, hi, level, table, Number(base), j)
      invariant if next < end then k < CANONICAL && next <= addr == Page(hi, k) && (level == 1 ==> k < j) else k >= j
      decreases end - next
    {
      NextStep(hi, level, k, end, j);
      StepVisits(mem, hi, level, table, k, j);
      ghost var low := if NextChunk(level, k) < j then NextChunk(level, k) else j;
      ghost var m := if k < low then low else k;
      next := Next(level, addr, end);
      var idx := Index(level, addr);
      var entry := mem(table, idx);
      var below: seq<Visit> := [];
      if level == 1 {
        below := [Visit(table, idx, addr)];
      } else if Descends(level, entry) {
        PageExtends(hi, k);
        below := WalkRange(mem, level - 1, entry.frame, addr, next - 1, hi, low);
      }
      assert Visits(mem, hi, level, table, k, j) == below + Visits(mem, hi, level, table, m, j);
      Assoc(visits, below, Visits(mem, hi, level, table, m, j));
      visits := visits + below;
      addr := next;
      k := m;
    }
    NoVisits(mem, hi, level, table, k, j);
  }

  lemma Assoc(a: seq<Visit>, b: seq<Visit>, c: seq<Visit>)
    ensures (a + b) + c == a + (b + c)
  {
  }

  lemma NoVisits(mem: Memory, hi: bool, level: nat, table: nat, k: nat, j: nat)
    requires 1 <= level <= 4 && j <= k && j <= CANONICAL
    ensures Visits(mem, hi, level, table, k, j) == []
  {
  }

  lemma PagePositive(hi: bool, level: nat, k: nat)
    requires 1 <= level <= 4 && k < CANONICAL && NextChunk(level, k) >= CANONICAL
    ensures Page(hi, k) > 0
  {
  }

  // ------------------------------------------------------------------ what a walk means

  /* Where the hardware looks for the leaf entry of address a: section 4.5 of the Intel SDM,
     volume 3A, without huge pages. */
  function Translate(mem: Memory, pml4: nat, a: u64): (r: Option<Visit>)
    ensures r.Some? ==> r.value.addr == a
  {
    var e4 := mem(pml4, Index(4, a));
    if !Descends(4, e4) then None else
    var e3 := mem(e4.frame, Index(3, a));
    if !Descends(3, e3) then None else
    var e2 := mem(e3.frame, Index(2, a));
    if !Descends(2, e2) then None else
    Some(Visit(e2.frame, Index(1, a), a))
  }

  lemma VisitIsTranslate(mem: Memory, hi: bool, pml4: nat, k: nat)
    requires k < CANONICAL
    ensures var r := Translate(mem, pml4, Page(hi, k));
      VisitOf(mem, hi, 4, pml4, k) == if r.Some? then [r.value] else []
  {
    hide Index, Slot, Page, Descends;
    IndexIsSlot(hi, 4, k);
    IndexIsSlot(hi, 3, k);
    IndexIsSlot(hi, 2, k);
    IndexIsSlot(hi, 1, k);
    var e4 := mem(pml4, Slot(4, k));
    if Descends(4, e4) {
      var e3 := mem(e4.frame, Slot(3, k));
      assert VisitOf(mem, hi, 4, pml4, k) == VisitOf(mem, hi, 3, e4.frame, k);
      if Descends(3, e3) {
        var e2 := mem(e3.frame, Slot(2, k));
        assert VisitOf(mem, hi, 3, e4.frame, k) == VisitOf(mem, hi, 2, e3.frame, k);
        if Descends(2, e2) {
          assert VisitOf(mem, hi, 1, e2.frame, k) == [Visit(e2.frame, Slot(1, k), Page(hi, k))];
        }
      }
    }
  }

  /* The four indices and the offset in the page are the low 48 bits of the address, nine bits
     each and the highest first, and give back a canonical address. */
  lemma IndicesAreBits(a: u64)
    ensures var low := Index(4, a) * 0x80_0000_0000 + Index(3, a) * 0x4000_0000 + Index(2, a) * 0x20_0000 + Index(1, a) * 0x1000 + a % 0x1000;
      low == a % 0x1_0000_0000_0000 && (Canonical(a) ==> SignExtend(low) == a)
  {
    IndexBits(a);
    if Canonical(a) {
      ExtendsBack(a);
    }
    hide Index, SignExtend, Canonical;
    PageBits(a);
    TableBits(a);
    DirectoryBits(a);
    PointerBits(a);
  }

  lemma IndexBits(a: u64)
    ensures Index(4, a) == a / 0x80_0000_0000 % 512 && Index(3, a) == a / 0x4000_0000 % 512
    ensures Index(2, a) == a / 0x20_0000 % 512 && Index(1, a) == a / 0x1000 % 512
  {
  }

  lemma ExtendsBack(a: u64)
    requires Canonical(a)
    ensures SignExtend(a % 0x1_0000_0000_0000) == a
  {
  }

  lemma PageBits(a: nat)
    ensures a % 0x20_0000 == a / 0x1000 % 512 * 0x1000 + a % 0x1000
  {
  }

  lemma TableBits(a: nat)
    ensures a % 0x4000_0000 == a / 0x20_0000 % 512 * 0x20_0000 + a % 0x20_0000
  {
  }

  lemma DirectoryBits(a: nat)
    ensures a % 0x80_0000_0000 == a / 0x4000_0000 % 512 * 0x4000_0000 + a % 0x4000_0000
  {
  }

  lemma PointerBits(a: nat)
    ensures a % 0x1_0000_0000_0000 == a / 0x80_0000_0000 % 512 * 0x80_0000_0000 + a % 0x80_0000_0000
  {
  }

  lemma IndexIsSlot(hi: bool, level: nat, k: nat)
    requires 1 <= level <= 4 && k < CANONICAL
    ensures Index(level, Page(hi, k)) == Slot(level, k)
  {
    hide Index, Slot, Page;
    NextOfPage(hi, level, k);
  }

  lemma {:induction false} VisitMembers(mem: Memory, hi: bool, pml4: nat, i: nat, j: nat, v: Visit)
    requires j <= CANONICAL
    ensures v in Visits(mem, hi, 4, pml4, i, j)
       <==> var k := Number(v.addr);
            i <= k < j && Page(hi, k) == v.addr && Translate(mem, pml4, v.addr) == Some(v)
    decreases j - i
  {
    hide VisitOf, Number, Page, Translate;
    if i < j {
      VisitMembers(mem, hi, pml4, i + 1, j, v);
      VisitIsTranslate(mem, hi, pml4, i);
      PageExtends(hi, i);
    }
  }

  ghost predicate Ascending(s: seq<Visit>) {
    forall p, q :: 0 <= p < q < |s| ==> s[p].addr < s[q].addr
  }

  lemma {:induction false} VisitsAscend(mem: Memory, hi: bool, pml4: nat, i: nat, j: nat)
    requires j <= CANONICAL
    ensures Ascending(Visits(mem, hi, 4, pml4, i, j))
    ensures forall v :: v in Visits(mem, hi, 4, pml4, i, j) ==> i < CANONICAL && Page(hi, i) <= v.addr
    decreases j - i
  {
    hide VisitOf, Number, Page, Translate;
    if i < j {
      VisitsAscend(mem, hi, pml4, i + 1, j);
      VisitIsTranslate(mem, hi, pml4, i);
      if i + 1 < CANONICAL { PageOrder(hi, i, i + 1); }
    }
  }

  /* The end of a range, exclusive: rounding up may wrap to 0, which stands for 2^64. */
  function Limit(end: u64): (r: int)
    ensures 0 < r <= WORD
  {
    if RoundUp(end) == 0 then WORD else RoundUp(end)
  }

  /* The pages a range is meant to have: the canonical ones from base, rounded down, to end,
     rounded up. */
  predicate Wanted(base: u64, end: u64, a: u64) {
    Canonical(a) && a % 4096 == 0 && RoundDown(base) <= a < Limit(end)
  }

  /* The pages that are walked. */
  predicate Walked(base: u64, end: u64, a: u64) {
    && a % 4096 == 0 && SignExtend(RoundDown(base)) <= a < Limit(end)
    && (base < USER_LIM ==> Canonical(a))
  }

  /* The number of pages of the line below a page-aligned limit. */
  function Below(hi: bool, limit: int): (j: nat)
    requires 0 < limit <= WORD
    ensures j <= CANONICAL
  {
    if !hi && limit <= USER_LIM then limit / 4096
    else if !hi && limit <= UPPER then HALF
    else if limit <= 0xffff_0000_0000_0000 then 0
    else (limit - 0xffff_0000_0000_0000) / 4096
  }

  lemma LimitEnds(hi: bool, limit: int)
    requires 0 < limit <= WORD && limit % 4096 == 0
    ensures EndsAt(hi, limit - 1, Below(hi, limit), 4)
  {
  }

  lemma WalkedPages(base: u64, end: u64, a: u64)
    ensures var (hi, k) := (base >= USER_LIM, Number(a));
      Walked(base, end, a) <==> Number(RoundDown(base)) <= k < Below(hi, Limit(end)) && Page(hi, k) == a
  {
    hide Below, RoundUp, SignExtend, RoundDown, Page, Number, Canonical;
    var hi, k, i, j := base >= USER_LIM, Number(a), Number(RoundDown(base)), Below(base >= USER_LIM, Limit(end));
    RoundingFacts(base);
    ExtendIsPage(RoundDown(base));
    LimitAligned(end);
    LimitEnds(hi, Limit(end));
    OnLine(hi, a);
    hide Limit;
    if Page(hi, k) == a {
      if k < i { PageOrder(hi, k, i); }
      if i < k { PageOrder(hi, i, k); }
      if k + 1 < j { PageOrder(hi, k, j - 1); }
      if j < k { PageOrder(hi, j, k); }
    }
  }

  lemma OnLine(hi: bool, a: u64)
    ensures Page(hi, Number(a)) == a <==> a % 4096 == 0 && if hi then a >= 0xffff_0000_0000_0000 else Canonical(a)
  {
    var x, y := HighLow(a);
    var k := Number(a);
    Chop(y);
    assert k * 4096 == y - y % 4096;
    hide Number;
  }

  /* The upper 16 bits and the lower 48. */
  lemma HighLow(a: u64) returns (x: nat, y: nat)
    ensures a == 0x1_0000_0000_0000 * x + y && x <= 0xffff && y < 0x1_0000_0000_0000
    ensures y == a % 0x1_0000_0000_0000 && y % 4096 == a % 4096
  {
    x, y := a / 0x1_0000_0000_0000, a % 0x1_0000_0000_0000;
    assert a == 4096 * (0x10_0000_0000 * x) + y;
  }

  lemma Chop(y: nat)
    ensures y / 4096 * 4096 == y - y % 4096
  {
  }

  /* walk_page_range: the leaf callback is called once for each walked page whose tables are
     present, in ascending order, at the slot the hardware would use. */
  method WalkPageRange(mem: Memory, pml4: nat, base: u64, end: u64) returns (visits: seq<Visit>)
    ensures Ascending(visits)
    ensures forall v :: v in visits <==> Walked(base, end, v.addr) && Translate(mem, pml4, v.addr) == Some(v)
  {
    ghost var hi, i, j := base >= USER_LIM, Number(RoundDown(base)), Below(base >= USER_LIM, Limit(end));
    ExtendIsPage(RoundDown(base));
    LimitEnds(hi, Limit(end));
    assert (RoundDown(base) >= USER_LIM) == hi;
    assert (RoundUp(end) - 1) % WORD == Limit(end) - 1;
    hide SignExtend, Number, Page, Below, RoundDown, Walked, Translate, Visits, EndsAt;
    visits := WalkRange(mem, 4, pml4, RoundDown(base), (RoundUp(end) - 1) % WORD, hi, j);
    VisitsAscend(mem, hi, pml4, i, j);
    forall v: Visit
      ensures v in visits <==> Walked(base, end, v.addr) && Translate(mem, pml4, v.addr) == Some(v)
    {
      VisitMembers(mem, hi, pml4, i, j, v);
      WalkedPages(base, end, v.addr);
    }
  }

  /* walk_all_pages: every canonical page. KERNEL_LIM is the last address. */
  method WalkAllPages(mem: Memory, pml4: nat) returns (visits: seq<Visit>)
    ensures Ascending(visits)
    ensures forall v :: v in visits <==> v.addr % 4096 == 0 && Canonical(v.addr) && Translate(mem, pml4, v.addr) == Some(v)
  {
    assert EndsAt(false, WORD - 1, CANONICAL, 4);
    FirstPage();
    hide SignExtend, Number, Page, Canonical, Translate, Visits, EndsAt;
    visits := WalkRange(mem, 4, pml4, 0, WORD - 1, false, CANONICAL);
    VisitsAscend(mem, false, pml4, 0, CANONICAL);
    forall v: Visit
      ensures v in visits <==> v.addr % 4096 == 0 && Canonical(v.addr) && Translate(mem, pml4, v.addr) == Some(v)
    {
      VisitMembers(mem, false, pml4, 0, CANONICAL, v);
      OnLine(false, v.addr);
    }
  }

  /* walk_user_pages: every page below USER_LIM. */
  method WalkUserPages(mem: Memory, pml4: nat) returns (visits: seq<Visit>)
    ensures Ascending(visits)
    ensures forall v :: v in visits <==> v.addr % 4096 == 0 && v.addr < USER_LIM && Translate(mem, pml4, v.addr) == Some(v)
  {
    assert EndsAt(false, USER_LIM, HALF, 4);
    FirstPage();
    hide SignExtend, Number, Page, Translate, Visits, EndsAt;
    visits := WalkRange(mem, 4, pml4, 0, USER_LIM, false, HALF);
    VisitsAscend(mem, false, pml4, 0, HALF);
    forall v: Visit
      ensures v in visits <==> v.addr % 4096 == 0 && v.addr < USER_LIM && Translate(mem, pml4, v.addr) == Some(v)
    {
      VisitMembers(mem, false, pml4, 0, HALF, v);
      UserPage(v.addr);
    }
  }

  lemma FirstPage()
    ensures Page(false, 0) == 0 && Number(0) == 0 && SignExtend(0) == 0
  {
  }

  lemma UserPage(a: u64)
    ensures a % 4096 == 0 && a < USER_LIM <==> Number(a) < HALF && Page(false, Number(a)) == a
  {
  }

  /* The pages walked are those wanted exactly when the range starts at a canonical address, or
     its start extends to the first page of the upper half, or it ends before both. */
  lemma WalkIsExact(base: u64, end: u64)
    ensures (forall a: u64 :: Walked(base, end, a) <==> Wanted(base, end, a))
       <==> var start := SignExtend(RoundDown(base));
            || Canonical(base)
            || start == UPPER
            || (Limit(end) <= start && Limit(end) <= UPPER)
  {
    hide RoundDown, SignExtend, Limit, Page, Number, Canonical, Walked, Wanted;
    var start := SignExtend(RoundDown(base));
    if Canonical(base) {
      CanonicalStart(base, end);
    } else {
      HoleStart(base, end);
      if (Limit(end) <= start && Limit(end) <= UPPER) || start == UPPER {
      } else if start > UPPER {
        assert Wanted(base, end, UPPER) && !Walked(base, end, UPPER);
      } else {
        assert Walked(base, end, start) && !Wanted(base, end, start);
      }
    }
  }

  lemma CanonicalStart(base: u64, end: u64)
    requires Canonical(base)
    ensures forall a: u64 :: Walked(base, end, a) <==> Wanted(base, end, a)
  {
    RoundingFacts(base);
    ExtendIsPage(RoundDown(base));
    hide Limit, RoundDown, SignExtend;
  }

  lemma HoleStart(base: u64, end: u64)
    requires !Canonical(base)
    ensures var start := SignExtend(RoundDown(base));
      && (forall a: u64 :: Walked(base, end, a) <==> a % 4096 == 0 && start <= a < Limit(end))
      && (forall a: u64 :: Wanted(base, end, a) <==> a % 4096 == 0 && UPPER <= a < Limit(end))
      && start % 4096 == 0
  {
    RoundingFacts(base);
    ExtendIsPage(RoundDown(base));
    PageExtends(true, Number(RoundDown(base)));
    hide Limit, RoundDown, SignExtend, Page, Number;
  }

  lemma RoundingFacts(a: u64)
    ensures RoundDown(a) <= a < RoundDown(a) + 4096 && RoundDown(a) % 4096 == 0
    ensures Canonical(RoundDown(a)) <==> Canonical(a)
    ensures RoundDown(a) < USER_LIM <==> a < USER_LIM
    ensures SignExtend(RoundDown(a)) >= 0xffff_0000_0000_0000 || a < USER_LIM
  {
  }

  lemma LimitAligned(end: u64)
    ensures Limit(end) % 4096 == 0 && 0 < Limit(end) <= WORD
  {
  }

  /* A range that starts in the hole at 2^48 walks addresses that are not canonical, through
     the tables of the user half. */
  lemma HoleExample()
    ensures !Canonical(0x1_0000_0000_0000)
    ensures Walked(0x1_0000_0000_0000, 0, 0xffff_0000_0000_0000) && !Canonical(0xffff_0000_0000_0000)
    ensures !Wanted(0x1_0000_0000_0000, 0, 0xffff_0000_0000_0000)
    ensures Index(4, 0xffff_0000_0000_0000) == Index(4, 0)
  {
  }
}
