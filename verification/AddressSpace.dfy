/** One user process: the pools and the map of its pages (`PageAlloc`) on one side, its page
    tables in memory (`Paging`) on the other. What is allocated is what the hardware walk
    finds (kernel/memory.c). */
module AddressSpaces {
  import opened Options
  import opened Paging
  import PA = PageAlloc

  const KERNEL_BASE: bv32 := 0xc0000000

  // ---------------------------------------------------------------- numbers and addresses

  /** The number of the page or frame of an address. */
  function PageNo(a: bv32): nat {
    (a >> 12) as nat
  }

  function TableNo(a: bv32): nat {
    DirIdx(a) as nat
  }

  lemma NoInjective(x: bv32, y: bv32)
    requires x as nat == y as nat
    ensures x == y
  {
    assert (x as nat) as bv32 == x;
  }

  lemma TableOfPage(a: bv32)
    ensures PageNo(a) / PA.PAGES_PER_TABLE == TableNo(a)
  {
    ShiftTen(a >> 12);
    assert (a >> 12) >> 10 == a >> 22;
  }

  lemma ShiftTen(x: bv32)
    requires x < 0x100000
    ensures x as nat == 1024 * ((x >> 10) as nat) + ((x & 0x3ff) as nat) && (x & 0x3ff) as nat < 1024
  {
  }

  lemma SamePageNo(a: bv32, b: bv32)
    ensures PageNo(a) == PageNo(b) <==> SamePage(a, b)
  {
    if PageNo(a) == PageNo(b) { NoInjective(a >> 12, b >> 12); }
    PageBits(a, b);
  }

  lemma PageBits(a: bv32, b: bv32)
    ensures a >> 12 == b >> 12 <==> a >> 22 == b >> 22 && (a >> 12) & 0x3ff == (b >> 12) & 0x3ff
  {
  }

  lemma SameTableNo(a: bv32, b: bv32)
    ensures TableNo(a) == TableNo(b) <==> DirIdx(a) == DirIdx(b)
  {
    hide DirIdx;
    if TableNo(a) == TableNo(b) { NoInjective(DirIdx(a), DirIdx(b)); }
  }

  lemma UserHalf(a: bv32)
    requires a < KERNEL_BASE
    ensures DirIdx(a) != 1023
  {
  }

  lemma SameHalf(a: bv32, b: bv32)
    requires DirIdx(a) == DirIdx(b)
    ensures a < KERNEL_BASE <==> b < KERNEL_BASE
  {
  }

  lemma Doubled(x: bv32)
    requires x as nat < 0x80000
    ensures (x << 1) as nat == 2 * (x as nat) && ((x << 1) | 1) as nat == 2 * (x as nat) + 1
  {
  }

  function Bits(f: nat): (x: bv32)
    requires f < 0x100000
    ensures x as nat == f
  {
    if f == 0 then 0 else
      var y := Bits(f / 2);
      Doubled(y);
      if f % 2 == 0 then y << 1 else (y << 1) | 1
  }

  lemma ShiftedUp(x: bv32)
    requires x as nat < 0x100000
    ensures PageNo(x << 12) == x as nat && Aligned(x << 12)
  {
    BelowPages(x);
    UpAndDown(x);
  }

  lemma BelowPages(x: bv32)
    requires x as nat < 0x100000
    ensures x < 0x100000
  {
  }

  lemma UpAndDown(x: bv32)
    requires x < 0x100000
    ensures (x << 12) >> 12 == x && (x << 12) & 0xfff == 0
  {
  }

  /** The address of a frame. */
  function FrameAddr(f: nat): (a: bv32)
    requires f < 0x100000
    ensures PageNo(a) == f && Aligned(a)
  {
    var x := Bits(f);
    ShiftedUp(x);
    x << 12
  }

  // ---------------------------------------------------------------- what the tables show

  /** The directory entry of a is there iff its table is allocated, and names it. */
  ghost predicate TableShown(m: Phys, dir: bv32, proc: nat, pages: map<PA.Use, nat>, a: bv32) {
    var t := PA.Table(proc, TableNo(a));
    && (Present(Pde(m, dir, a)) <==> t in pages)
    && (t in pages ==> pages[t] == PageNo(Frame(Pde(m, dir, a))))
  }

  /** The walk finds a frame for a iff its page is allocated, and finds that one. */
  ghost predicate PageShown(m: Phys, dir: bv32, proc: nat, pages: map<PA.Use, nat>, a: bv32) {
    var u := PA.Page(proc, PageNo(a));
    match FrameOf(m, dir, a)
    case None => u !in pages
    case Some(f) => u in pages && pages[u] == PageNo(f)
  }

  ghost predicate Shows(m: Phys, dir: bv32, proc: nat, pages: map<PA.Use, nat>) {
    forall a :: a < KERNEL_BASE ==> TableShown(m, dir, proc, pages, a) && PageShown(m, dir, proc, pages, a)
  }

  /** The directory is in a page of the kernel, and the tables of the kernel half lie below
      the pools (boot/loader.S). */
  ghost predicate Apart(m: Phys, dir: bv32, kbase: nat, own: map<nat, PA.Use>) {
    && SelfMapped(m, dir)
    && PageNo(dir) in own && own[PageNo(dir)].Page? && own[PageNo(dir)].proc == 0
    && forall a :: a >= KERNEL_BASE && DirIdx(a) != 1023 && Present(Pde(m, dir, a)) ==>
         PageNo(Frame(Pde(m, dir, a))) < kbase
  }

  lemma ShownAt(m: Phys, dir: bv32, proc: nat, pages: map<PA.Use, nat>, a: bv32)
    requires Shows(m, dir, proc, pages) && a < KERNEL_BASE
    ensures TableShown(m, dir, proc, pages, a) && PageShown(m, dir, proc, pages, a)
  {
  }

  /** A user table is not the directory. */
  lemma UserMappable(m: Phys, dir: bv32, proc: nat, pages: map<PA.Use, nat>, kbase: nat, own: map<nat, PA.Use>, a: bv32)
    requires TableShown(m, dir, proc, pages, a) && Apart(m, dir, kbase, own) && PA.Paired(pages, own) && a < KERNEL_BASE
    ensures Mappable(m, dir, a)
  {
    hide DirIdx; hide Frame; hide Present; hide Pde; hide SelfMapped; hide TableNo; hide PageNo;
    UserHalf(a);
  }

  /** Two user tables with one frame are one table. */
  lemma TablesApart(m: Phys, dir: bv32, proc: nat, pages: map<PA.Use, nat>, own: map<nat, PA.Use>, a: bv32, b: bv32)
    requires TableShown(m, dir, proc, pages, a) && TableShown(m, dir, proc, pages, b) && PA.Paired(pages, own)
    requires !SamePage(a, b)
    ensures !SharesEntry(m, dir, a, b)
  {
    hide DirIdx; hide TblIdx; hide Frame; hide Present; hide Pde; hide TableNo; hide PageNo;
    SameTableNo(a, b);
  }

  /** A frame that is not in use is no table of this directory. */
  lemma FreeIsUnused(m: Phys, dir: bv32, proc: nat, pages: map<PA.Use, nat>, kbase: nat, own: map<nat, PA.Use>,
                     table: bv32)
    requires Shows(m, dir, proc, pages) && Apart(m, dir, kbase, own) && PA.Paired(pages, own)
    requires Aligned(table) && PageNo(table) !in own && kbase <= PageNo(table)
    ensures Unused(m, dir, table)
  {
    hide DirIdx; hide Frame; hide Present; hide Pde; hide Aligned; hide TableNo; hide PageNo; hide Slot;
    hide PageShown;
    forall w | Present(Pde(m, dir, w)) ensures Frame(Pde(m, dir, w)) != table {
      if w < KERNEL_BASE {
        ShownAt(m, dir, proc, pages, w);
      } else if DirIdx(w) == 1023 {
        LastPde(m, dir, w);
      }
    }
  }

  lemma LastPde(m: Phys, dir: bv32, w: bv32)
    requires DirIdx(w) == 1023
    ensures Pde(m, dir, w) == m(Slot(dir, 1023))
  {
    hide DirIdx; hide Slot;
  }

  /** What only the directory decides. */
  lemma ApartKept(m: Phys, m': Phys, dir: bv32, kbase: nat, own: map<nat, PA.Use>, own': map<nat, PA.Use>)
    requires Apart(m, dir, kbase, own) && forall a :: Pde(m', dir, a) == Pde(m, dir, a)
    requires PageNo(dir) in own' && own'[PageNo(dir)] == own[PageNo(dir)]
    ensures Apart(m', dir, kbase, own')
  {
    hide DirIdx; hide Frame; hide Present; hide Pde; hide PageNo; hide Aligned; hide Slot;
    LastEntry();
    LastPde(m, dir, 0xffc00000);
    LastPde(m', dir, 0xffc00000);
  }

  // ---------------------------------------------------------------- one page more

  /** What a page table add with a frame and, if there is none, a table does. */
  ghost predicate Step(m: Phys, m': Phys, dir: bv32, proc: nat, pages: map<PA.Use, nat>, kbase: nat,
                       own: map<nat, PA.Use>, v: bv32, frame: bv32, table: bv32) {
    && Shows(m, dir, proc, pages) && Apart(m, dir, kbase, own) && PA.Paired(pages, own)
    && proc != 0 && v < KERNEL_BASE && PA.Page(proc, PageNo(v)) !in pages && Aligned(frame)
    && (PA.NeedsTable(pages, proc, PageNo(v)) ==> Aligned(table) && PageNo(table) !in own && kbase <= PageNo(table))
    && Added(m, m', dir, v, frame, table)
  }

  lemma StepReady(m: Phys, dir: bv32, proc: nat, pages: map<PA.Use, nat>, kbase: nat, own: map<nat, PA.Use>, v: bv32,
                  table: bv32)
    requires Shows(m, dir, proc, pages) && Apart(m, dir, kbase, own) && PA.Paired(pages, own)
    requires proc != 0 && v < KERNEL_BASE && PA.Page(proc, PageNo(v)) !in pages
    requires PA.NeedsTable(pages, proc, PageNo(v)) ==> Aligned(table) && PageNo(table) !in own && kbase <= PageNo(table)
    ensures SelfMapped(m, dir) && Mappable(m, dir, v) && FrameOf(m, dir, v) == None
    ensures Present(Pde(m, dir, v)) <==> !PA.NeedsTable(pages, proc, PageNo(v))
    ensures !Present(Pde(m, dir, v)) ==> Unused(m, dir, table)
  {
    hide DirIdx; hide TblIdx; hide Frame; hide Present; hide Pde; hide Pte; hide Aligned; hide PageNo; hide Slot;
    hide SelfMapped; hide FrameOf; hide Unused; hide Mappable;
    ShownAt(m, dir, proc, pages, v);
    TableOfPage(v);
    UserMappable(m, dir, proc, pages, kbase, own, v);
    if !Present(Pde(m, dir, v)) { FreeIsUnused(m, dir, proc, pages, kbase, own, table); }
  }

  lemma SamePageFrame(m: Phys, dir: bv32, a: bv32, b: bv32)
    requires SamePage(a, b)
    ensures FrameOf(m, dir, a) == FrameOf(m, dir, b)
  {
    hide DirIdx; hide TblIdx; hide Frame; hide Present; hide Slot;
  }

  /** The walk afterwards: v has its frame, every other user page the one it had. */
  lemma WalkAfter(m: Phys, m': Phys, dir: bv32, proc: nat, pages: map<PA.Use, nat>, kbase: nat,
                  own: map<nat, PA.Use>, v: bv32, frame: bv32, table: bv32, a: bv32)
    requires Step(m, m', dir, proc, pages, kbase, own, v, frame, table) && a < KERNEL_BASE
    ensures FrameOf(m', dir, a) == if PageNo(a) == PageNo(v) then Some(frame) else FrameOf(m, dir, a)
  {
    hide DirIdx; hide TblIdx; hide Frame; hide Present; hide Pde; hide Pte; hide Aligned; hide PageNo; hide Slot;
    hide SelfMapped; hide Added; hide Unused; hide Mappable; hide FrameOf; hide SamePage; hide Shows; hide Apart;
    hide SharesEntry; hide PA.NeedsTable; hide PA.Paired; hide TableShown; hide PageShown;
    StepReady(m, dir, proc, pages, kbase, own, v, table);
    ShownAt(m, dir, proc, pages, a);
    ShownAt(m, dir, proc, pages, v);
    SamePageNo(a, v);
    SamePageSym(a, v);
    if SamePage(v, a) {
      OtherPage(v);
      ShownAt(m, dir, proc, pages, Other(v));
      UserMappable(m, dir, proc, pages, kbase, own, Other(v));
      AddMaps(m, m', dir, v, frame, table, Other(v));
      SamePageFrame(m', dir, a, v);
    } else {
      UserMappable(m, dir, proc, pages, kbase, own, a);
      TablesApart(m, dir, proc, pages, own, v, a);
      AddMaps(m, m', dir, v, frame, table, a);
    }
  }

  lemma SamePageSym(a: bv32, b: bv32)
    ensures SamePage(a, b) <==> SamePage(b, a)
  {
    hide DirIdx; hide TblIdx;
  }

  /** Some other page of the same table. */
  function Other(v: bv32): bv32 {
    v ^ 0x1000
  }

  lemma OtherPage(v: bv32)
    requires v < KERNEL_BASE
    ensures Other(v) < KERNEL_BASE && !SamePage(v, Other(v))
  {
  }

  /** The directory entries afterwards. */
  lemma TablesAfter(m: Phys, m': Phys, dir: bv32, proc: nat, pages: map<PA.Use, nat>, kbase: nat,
                    own: map<nat, PA.Use>, v: bv32, frame: bv32, table: bv32, a: bv32)
    requires Step(m, m', dir, proc, pages, kbase, own, v, frame, table)
    ensures PA.NeedsTable(pages, proc, PageNo(v)) && DirIdx(a) == DirIdx(v) ==>
              Present(Pde(m', dir, a)) && Frame(Pde(m', dir, a)) == table
    ensures !(PA.NeedsTable(pages, proc, PageNo(v)) && DirIdx(a) == DirIdx(v)) ==> Pde(m', dir, a) == Pde(m, dir, a)
  {
    hide DirIdx; hide TblIdx; hide Frame; hide Present; hide Pde; hide Pte; hide Aligned; hide PageNo; hide Slot;
    hide SelfMapped; hide Added; hide Unused; hide Mappable; hide FrameOf; hide Shows; hide Apart;
    hide PA.NeedsTable; hide PA.Paired; hide Entry;
    StepReady(m, dir, proc, pages, kbase, own, v, table);
    SelfMapAligned(m, dir);
    if Present(Pde(m, dir, v)) {
      AddedToTable(m, m', dir, v, frame, table, a);
    } else {
      EntryFields(table);
      AddedWithTable(m, m', dir, v, frame, table, a);
    }
  }

  /** So the tables show the map with the new page in it. */
  lemma MapShows(m: Phys, m': Phys, dir: bv32, proc: nat, pages: map<PA.Use, nat>, kbase: nat,
                 own: map<nat, PA.Use>, v: bv32, frame: bv32, table: bv32)
    requires Step(m, m', dir, proc, pages, kbase, own, v, frame, table)
    ensures Shows(m', dir, proc, PA.WithPage(pages, proc, PageNo(v), PageNo(frame), PageNo(table)))
  {
    hide DirIdx; hide TblIdx; hide Frame; hide Present; hide Pde; hide Aligned; hide PageNo; hide Slot;
    hide SelfMapped; hide Added; hide FrameOf; hide Apart; hide PA.Paired; hide TableNo;
    var pages' := PA.WithPage(pages, proc, PageNo(v), PageNo(frame), PageNo(table));
    TableOfPage(v);
    forall a | a < KERNEL_BASE
      ensures TableShown(m', dir, proc, pages', a) && PageShown(m', dir, proc, pages', a)
    {
      ShownAt(m, dir, proc, pages, a);
      WalkAfter(m, m', dir, proc, pages, kbase, own, v, frame, table, a);
      TablesAfter(m, m', dir, proc, pages, kbase, own, v, frame, table, a);
      SameTableNo(a, v);
    }
  }

  lemma MapApart(m: Phys, m': Phys, dir: bv32, proc: nat, pages: map<PA.Use, nat>, kbase: nat,
                 own: map<nat, PA.Use>, own': map<nat, PA.Use>, v: bv32, frame: bv32, table: bv32)
    requires Step(m, m', dir, proc, pages, kbase, own, v, frame, table)
    requires PageNo(dir) in own' && own'[PageNo(dir)] == own[PageNo(dir)]
    ensures Apart(m', dir, kbase, own')
  {
    hide DirIdx; hide TblIdx; hide Frame; hide Present; hide Pde; hide Aligned; hide PageNo; hide Slot;
    hide SelfMapped; hide Added; hide FrameOf; hide PA.Paired; hide TableNo; hide Shows; hide PA.NeedsTable;
    hide Mappable; hide Unused;
    StepReady(m, dir, proc, pages, kbase, own, v, table);
    AddKeepsSelfMap(m, m', dir, v, frame, table);
    forall a | a >= KERNEL_BASE && DirIdx(a) != 1023 && Present(Pde(m', dir, a))
      ensures PageNo(Frame(Pde(m', dir, a))) < kbase
    {
      if DirIdx(a) == DirIdx(v) { SameHalf(a, v); }
      TablesAfter(m, m', dir, proc, pages, kbase, own, v, frame, table, a);
    }
  }

  // ---------------------------------------------------------------- one page less

  /** The present bit of v's entry is cleared. */
  function Cleared(m: Phys, dir: bv32, v: bv32): Phys {
    Paging.Store(m, PteSlot(m, dir, v), ClearPresent(Pte(m, dir, v)))
  }

  lemma UnmapReady(m: Phys, dir: bv32, proc: nat, pages: map<PA.Use, nat>, kbase: nat, own: map<nat, PA.Use>, v: bv32)
    requires Shows(m, dir, proc, pages) && Apart(m, dir, kbase, own) && PA.Paired(pages, own)
    requires v < KERNEL_BASE && PA.Page(proc, PageNo(v)) in pages
    ensures SelfMapped(m, dir) && Aligned(dir) && Mappable(m, dir, v) && Present(Pde(m, dir, v))
    ensures FrameOf(m, dir, v).Some? && pages[PA.Page(proc, PageNo(v))] == PageNo(FrameOf(m, dir, v).value)
  {
    hide DirIdx; hide TblIdx; hide Frame; hide Present; hide Pde; hide Pte; hide Aligned; hide PageNo; hide Slot;
    hide SelfMapped; hide Mappable; hide PA.Paired;
    ShownAt(m, dir, proc, pages, v);
    UserMappable(m, dir, proc, pages, kbase, own, v);
    SelfMapAligned(m, dir);
  }

  lemma UnmapAt(m: Phys, dir: bv32, proc: nat, pages: map<PA.Use, nat>, kbase: nat, own: map<nat, PA.Use>, v: bv32,
                a: bv32)
    requires Shows(m, dir, proc, pages) && Apart(m, dir, kbase, own) && PA.Paired(pages, own)
    requires v < KERNEL_BASE && PA.Page(proc, PageNo(v)) in pages
    ensures Pde(Cleared(m, dir, v), dir, a) == Pde(m, dir, a)
    ensures a < KERNEL_BASE ==>
              FrameOf(Cleared(m, dir, v), dir, a) == if PageNo(a) == PageNo(v) then None else FrameOf(m, dir, a)
  {
    hide DirIdx; hide TblIdx; hide Frame; hide Present; hide Pde; hide Pte; hide Aligned; hide PageNo; hide Slot;
    hide SelfMapped; hide Mappable; hide FrameOf; hide SamePage; hide Shows; hide Apart; hide PteSlot;
    hide SharesEntry; hide PA.Paired; hide TableShown; hide PageShown; hide ClearPresent; hide Paging.Store;
    UnmapReady(m, dir, proc, pages, kbase, own, v);
    StoredEntry(m, dir, v, ClearPresent(Pte(m, dir, v)), a);
    if a < KERNEL_BASE {
      ShownAt(m, dir, proc, pages, a);
      ShownAt(m, dir, proc, pages, v);
      SamePageNo(a, v);
      SamePageSym(a, v);
      if SamePage(v, a) {
        OtherPage(v);
        RemoveUnmaps(m, dir, v, Other(v));
        SamePageFrame(Cleared(m, dir, v), dir, a, v);
      } else {
        TablesApart(m, dir, proc, pages, own, v, a);
        RemoveUnmaps(m, dir, v, a);
      }
    }
  }

  /** The tables show the map without the page. */
  lemma UnmapShows(m: Phys, dir: bv32, proc: nat, pages: map<PA.Use, nat>, kbase: nat, own: map<nat, PA.Use>, v: bv32)
    requires Shows(m, dir, proc, pages) && Apart(m, dir, kbase, own) && PA.Paired(pages, own)
    requires v < KERNEL_BASE && PA.Page(proc, PageNo(v)) in pages
    ensures Shows(Cleared(m, dir, v), dir, proc, pages - {PA.Page(proc, PageNo(v))})
    ensures forall a :: Pde(Cleared(m, dir, v), dir, a) == Pde(m, dir, a)
  {
    hide DirIdx; hide TblIdx; hide Frame; hide Present; hide Pde; hide Pte; hide Aligned; hide PageNo; hide Slot;
    hide FrameOf; hide PA.Paired; hide TableNo; hide Cleared;
    var m', pages' := Cleared(m, dir, v), pages - {PA.Page(proc, PageNo(v))};
    forall a ensures Pde(m', dir, a) == Pde(m, dir, a) {
      UnmapAt(m, dir, proc, pages, kbase, own, v, a);
    }
    forall a | a < KERNEL_BASE
      ensures TableShown(m', dir, proc, pages', a) && PageShown(m', dir, proc, pages', a)
    {
      ShownAt(m, dir, proc, pages, a);
      UnmapAt(m, dir, proc, pages, kbase, own, v, a);
    }
  }

  // ---------------------------------------------------------------- other processes

  /** A page table add writes to the directory, to the table of v, or to the new table. */
  lemma AddedOutside(m: Phys, m': Phys, dir: bv32, v: bv32, frame: bv32, table: bv32, b: bv32)
    requires Added(m, m', dir, v, frame, table) && Aligned(dir) && Frame(b) != dir
    requires if Present(Pde(m, dir, v)) then Frame(b) != Frame(Pde(m, dir, v)) else Frame(b) != table
    ensures m'(b) == m(b)
  {
    hide DirIdx; hide TblIdx; hide Frame; hide Present; hide Pde; hide Aligned; hide Slot; hide Entry;
    Indices(v, Pde(m, dir, v));
    FrameOfSlot(dir, DirIdx(v));
    FrameOfSlot(Frame(Pde(m, dir, v)), TblIdx(v));
  }

  /** Two memories that agree on the directory and on the tables show the same. */
  lemma SameWalk(m: Phys, m': Phys, dir: bv32, a: bv32)
    requires m'(PdeSlot(dir, a)) == m(PdeSlot(dir, a))
    requires Present(Pde(m, dir, a)) ==> m'(PteSlot(m, dir, a)) == m(PteSlot(m, dir, a))
    ensures Pde(m', dir, a) == Pde(m, dir, a) && FrameOf(m', dir, a) == FrameOf(m, dir, a)
  {
    hide DirIdx; hide TblIdx; hide Frame; hide Present; hide Slot;
  }

  /** The frames that the walk of another process goes through. */
  lemma OtherFrames(m: Phys, dir: bv32, dir2: bv32, proc: nat, q: nat, pages: map<PA.Use, nat>, kbase: nat,
                    own: map<nat, PA.Use>, v: bv32, a: bv32)
    requires Shows(m, dir, proc, pages) && Apart(m, dir, kbase, own) && PA.Paired(pages, own) && v < KERNEL_BASE
    requires Shows(m, dir2, q, pages) && Apart(m, dir2, kbase, own) && q != proc && dir2 != dir
    ensures Aligned(dir) && Frame(PdeSlot(dir2, a)) == dir2
    ensures Present(Pde(m, dir, v)) ==> Frame(Pde(m, dir, v)) != dir2
    ensures a < KERNEL_BASE && Present(Pde(m, dir2, a)) ==>
              && Frame(PteSlot(m, dir2, a)) == Frame(Pde(m, dir2, a)) != dir && PageNo(Frame(Pde(m, dir2, a))) in own
              && (Present(Pde(m, dir, v)) ==> Frame(Pde(m, dir, v)) != Frame(Pde(m, dir2, a)))
  {
    hide DirIdx; hide TblIdx; hide Frame; hide Present; hide Pde; hide Aligned; hide PageNo; hide Slot; hide TableNo;
    hide PageShown;
    ShownAt(m, dir, proc, pages, v);
    if a < KERNEL_BASE { ShownAt(m, dir2, q, pages, a); }
    Indices(a, Pde(m, dir2, a));
    FrameOfSlot(dir2, DirIdx(a));
    FrameOfSlot(Frame(Pde(m, dir2, a)), TblIdx(a));
  }

  /** Mapping a page leaves the walks of every other process. */
  lemma MapOther(m: Phys, m': Phys, dir: bv32, dir2: bv32, proc: nat, q: nat, pages: map<PA.Use, nat>, kbase: nat,
                 own: map<nat, PA.Use>, v: bv32, frame: bv32, table: bv32)
    requires Step(m, m', dir, proc, pages, kbase, own, v, frame, table)
    requires Shows(m, dir2, q, pages) && Apart(m, dir2, kbase, own) && q != proc && dir2 != dir
    ensures Shows(m', dir2, q, PA.WithPage(pages, proc, PageNo(v), PageNo(frame), PageNo(table)))
    ensures forall a :: a < KERNEL_BASE ==> FrameOf(m', dir2, a) == FrameOf(m, dir2, a)
    ensures forall a :: Pde(m', dir2, a) == Pde(m, dir2, a)
  {
    hide DirIdx; hide TblIdx; hide Frame; hide Present; hide Pde; hide Aligned; hide PageNo; hide Slot;
    hide SelfMapped; hide Added; hide FrameOf; hide PA.Paired; hide TableNo; hide PteSlot; hide PdeSlot;
    hide Mappable; hide Unused;
    var pages' := PA.WithPage(pages, proc, PageNo(v), PageNo(frame), PageNo(table));
    StepReady(m, dir, proc, pages, kbase, own, v, table);
    forall a ensures Pde(m', dir2, a) == Pde(m, dir2, a) {
      OtherFrames(m, dir, dir2, proc, q, pages, kbase, own, v, a);
      AddedOutside(m, m', dir, v, frame, table, PdeSlot(dir2, a));
      PdeIs(m, dir2, a);
      PdeIs(m', dir2, a);
    }
    forall a | a < KERNEL_BASE
      ensures TableShown(m', dir2, q, pages', a) && PageShown(m', dir2, q, pages', a)
      ensures FrameOf(m', dir2, a) == FrameOf(m, dir2, a)
    {
      ShownAt(m, dir2, q, pages, a);
      OtherFrames(m, dir, dir2, proc, q, pages, kbase, own, v, a);
      if Present(Pde(m, dir2, a)) { AddedOutside(m, m', dir, v, frame, table, PteSlot(m, dir2, a)); }
      PdeIs(m, dir2, a);
      PdeIs(m', dir2, a);
      SameWalk(m, m', dir2, a);
    }
  }

  lemma PdeIs(m: Phys, dir: bv32, a: bv32)
    ensures Pde(m, dir, a) == m(PdeSlot(dir, a))
  {
    hide PdeSlot;
  }

  /** And so does unmapping one. */
  lemma UnmapOther(m: Phys, dir: bv32, dir2: bv32, proc: nat, q: nat, pages: map<PA.Use, nat>, kbase: nat,
                   own: map<nat, PA.Use>, v: bv32)
    requires Shows(m, dir, proc, pages) && Apart(m, dir, kbase, own) && PA.Paired(pages, own)
    requires v < KERNEL_BASE && PA.Page(proc, PageNo(v)) in pages
    requires Shows(m, dir2, q, pages) && Apart(m, dir2, kbase, own) && q != proc && dir2 != dir
    ensures Shows(Cleared(m, dir, v), dir2, q, pages - {PA.Page(proc, PageNo(v))})
    ensures forall a :: a < KERNEL_BASE ==> FrameOf(Cleared(m, dir, v), dir2, a) == FrameOf(m, dir2, a)
    ensures forall a :: Pde(Cleared(m, dir, v), dir2, a) == Pde(m, dir2, a)
  {
    hide DirIdx; hide TblIdx; hide Frame; hide Present; hide Pde; hide Pte; hide Aligned; hide PageNo; hide Slot;
    hide SelfMapped; hide FrameOf; hide PA.Paired; hide TableNo; hide PteSlot; hide PdeSlot; hide Mappable;
    var m', pages' := Cleared(m, dir, v), pages - {PA.Page(proc, PageNo(v))};
    UnmapReady(m, dir, proc, pages, kbase, own, v);
    TableSlot(m, dir, v);
    forall a ensures Pde(m', dir2, a) == Pde(m, dir2, a) {
      OtherFrames(m, dir, dir2, proc, q, pages, kbase, own, v, a);
      PdeIs(m, dir2, a);
      PdeIs(m', dir2, a);
    }
    forall a | a < KERNEL_BASE
      ensures TableShown(m', dir2, q, pages', a) && PageShown(m', dir2, q, pages', a)
      ensures FrameOf(m', dir2, a) == FrameOf(m, dir2, a)
    {
      ShownAt(m, dir2, q, pages, a);
      OtherFrames(m, dir, dir2, proc, q, pages, kbase, own, v, a);
      PdeIs(m, dir2, a);
      PdeIs(m', dir2, a);
      SameWalk(m, m', dir2, a);
    }
  }

  lemma TableSlot(m: Phys, dir: bv32, v: bv32)
    ensures Frame(PteSlot(m, dir, v)) == Frame(Pde(m, dir, v))
  {
    hide DirIdx; hide TblIdx; hide Frame; hide Pde; hide Aligned; hide Slot;
    Indices(v, Pde(m, dir, v));
    FrameOfSlot(Frame(Pde(m, dir, v)), TblIdx(v));
  }

  // ---------------------------------------------------------------- the process

  /** The page of the directory stays in use. */
  lemma StillOwned(pages: map<PA.Use, nat>, own: map<nat, PA.Use>, pages': map<PA.Use, nat>, own': map<nat, PA.Use>,
                   f: nat)
    requires PA.Paired(pages, own) && PA.Paired(pages', own') && f in own
    requires own[f] in pages' && pages'[own[f]] == f
    ensures f in own' && own'[f] == own[f]
  {
    assert own[f] in pages && pages[own[f]] == f;
  }

  class AddressSpace {
    const mem: PA.Memory
    const mmu: Mmu
    const proc: nat

    ghost predicate Valid()
      reads this, mem, mmu
    {
      && proc != 0 && mem.PoolsOk() && PA.Paired(mem.pages, mem.own) && mem.ubase + |mem.ubits| <= 0x100000
      && Shows(mmu.phys, mmu.dir, proc, mem.pages) && Apart(mmu.phys, mmu.dir, mem.kbase, mem.own)
    }

    /** A process with the directory of `create_page_dir`: the user half is empty, the last
        entry names the directory, the others are those of the kernel. */
    constructor (mem: PA.Memory, mmu: Mmu, proc: nat)
      requires proc != 0 && mem.PoolsOk() && PA.Paired(mem.pages, mem.own) && mem.ubase + |mem.ubits| <= 0x100000
      requires forall u :: u in mem.pages ==> u.proc != proc
      requires Apart(mmu.phys, mmu.dir, mem.kbase, mem.own)
      requires forall a :: a < KERNEL_BASE ==> !Present(Pde(mmu.phys, mmu.dir, a))
      ensures Valid() && this.mem == mem && this.mmu == mmu && this.proc == proc
      ensures forall a :: a < KERNEL_BASE ==> Walk(a) == None
    {
      hide DirIdx; hide TblIdx; hide Frame; hide Present; hide Pde; hide Pte; hide Aligned; hide PageNo; hide Slot;
      hide SelfMapped; hide PA.Paired; hide PA.PoolOk; hide PA.Inside; hide Apart; hide TableNo;
      this.mem, this.mmu, this.proc := mem, mmu, proc;
    }

    /** The physical frame of a, as the processor finds it. */
    ghost function Walk(a: bv32): Option<bv32>
      reads this, mmu
    {
      FrameOf(mmu.phys, mmu.dir, a)
    }

    /** A frame of the pools, as an address. */
    method Address(u: PA.Use) returns (frame: bv32)
      requires mem.PoolsOk() && PA.Paired(mem.pages, mem.own) && mem.ubase + |mem.ubits| <= 0x100000 && u in mem.pages
      ensures Aligned(frame) && PageNo(frame) == mem.pages[u] && mem.kbase <= PageNo(frame)
    {
      hide PA.Paired; hide PA.PoolOk; hide Aligned; hide PageNo;
      mem.FrameOf(u);
      frame := FrameAddr(mem.pages[u]);
    }

    /** One turn of the loop in `malloc_page`, with its `page_table_add`: afterwards the walk
        finds a frame that was free under v, and under every other user address what it found
        before. The ASSERT that the entry is unused cannot fire. */
    method Map(v: bv32) returns (halted: bool, frame: bv32)
      requires Valid() && v < KERNEL_BASE && Walk(v) == None
      modifies mem, mmu
      ensures halted ==> PA.AllSet(mem.kbits) || PA.AllSet(mem.ubits)
      ensures !halted ==>
                && Valid() && PageNo(frame) !in old(mem.own)
                && forall a :: a < KERNEL_BASE ==>
                     Walk(a) == if PageNo(a) == PageNo(v) then Some(frame) else old(Walk(a))
    {
      hide DirIdx; hide TblIdx; hide Frame; hide Present; hide Pde; hide Pte; hide Aligned; hide PageNo; hide Slot;
      hide SelfMapped; hide Added; hide Unused; hide Mappable; hide Shows; hide FrameOf;
      hide PA.NeedsTable; hide PA.Paired; hide PA.PoolOk; hide PA.Inside; hide PA.Grown; hide PA.AllSet;
      hide PA.SameFrames;
      ghost var m, pages, own, dir := mmu.phys, mem.pages, mem.own, mmu.dir;
      ShownAt(m, dir, proc, pages, v);
      frame := 0;
      var f: nat, t: nat;
      halted, f, t := mem.MapPage(proc, PageNo(v));
      if halted { return; }
      PageAdded(pages, proc, PageNo(v), f, t);
      frame := Address(PA.Page(proc, PageNo(v)));
      var table := Address(PA.Table(proc, PageNo(v) / PA.PAGES_PER_TABLE));
      StepReady(m, dir, proc, pages, mem.kbase, own, v, table);
      halted := mmu.PageTableAdd(v, frame, table);
      forall a | a < KERNEL_BASE
        ensures Walk(a) == if PageNo(a) == PageNo(v) then Some(frame) else FrameOf(m, dir, a)
      {
        WalkAfter(m, mmu.phys, dir, proc, pages, mem.kbase, own, v, frame, table, a);
      }
      MapShows(m, mmu.phys, dir, proc, pages, mem.kbase, own, v, frame, table);
      assert mem.pages == PA.WithPage(pages, proc, PageNo(v), PageNo(frame), PageNo(table));
      KernelPageKept(pages, own, proc, PageNo(v), f, t, PageNo(dir));
      StillOwned(pages, own, mem.pages, mem.own, PageNo(dir));
      MapApart(m, mmu.phys, dir, proc, pages, mem.kbase, own, mem.own, v, frame, table);
    }

    /** One turn of the loop in `mfree_page`: the frame is found by reading v's entry, goes
        back to its pool, and the present bit is cleared. */
    method Unmap(v: bv32) returns (frame: bv32)
      requires Valid() && v < KERNEL_BASE && Walk(v) != None
      modifies mem, mmu
      ensures Valid() && old(Walk(v)) == Some(frame) && mem.own == old(mem.own) - {PageNo(frame)}
      ensures forall a :: a < KERNEL_BASE ==> Walk(a) == if PageNo(a) == PageNo(v) then None else old(Walk(a))
    {
      hide DirIdx; hide TblIdx; hide Present; hide Pde; hide Aligned; hide PageNo; hide Slot; hide PtePtr;
      hide SelfMapped; hide Mappable; hide Shows; hide Frame; hide PteSlot; hide Translate;
      hide PA.Paired; hide PA.PoolOk; hide PA.Inside;
      ghost var m, pages, own, dir := mmu.phys, mem.pages, mem.own, mmu.dir;
      ShownAt(m, dir, proc, pages, v);
      UnmapReady(m, dir, proc, pages, mem.kbase, own, v);
      WalkPtePtr(m, dir, v);
      var pte := mmu.Read(PtePtr(v));
      frame := Frame(pte);
      mem.UnmapPage(proc, PageNo(v));
      mmu.PteRemove(v);
      UnmapShows(m, dir, proc, pages, mem.kbase, own, v);
      forall a | a < KERNEL_BASE ensures Walk(a) == if PageNo(a) == PageNo(v) then None else FrameOf(m, dir, a) {
        UnmapAt(m, dir, proc, pages, mem.kbase, own, v, a);
      }
      KernelPageStays(pages, own, proc, PageNo(v), PageNo(dir));
      ApartKept(m, mmu.phys, dir, mem.kbase, own, mem.own);
    }
  }

  lemma PageAdded(pages: map<PA.Use, nat>, proc: nat, v: nat, f: nat, t: nat)
    requires proc != 0
    ensures var pages', d := PA.WithPage(pages, proc, v, f, t), PA.Table(proc, v / PA.PAGES_PER_TABLE);
            && PA.Page(proc, v) in pages' && pages'[PA.Page(proc, v)] == f && d in pages'
            && (PA.NeedsTable(pages, proc, v) ==> pages'[d] == t)
            && forall t' :: !PA.NeedsTable(pages, proc, v) ==> PA.WithPage(pages, proc, v, f, t') == pages'
  {
  }

  lemma KernelPageKept(pages: map<PA.Use, nat>, own: map<nat, PA.Use>, proc: nat, v: nat, f: nat, t: nat, g: nat)
    requires PA.Paired(pages, own) && g in own && own[g].Page? && own[g].proc == 0 && proc != 0
    ensures own[g] in PA.WithPage(pages, proc, v, f, t) && PA.WithPage(pages, proc, v, f, t)[own[g]] == g
  {
  }

  lemma KernelPageStays(pages: map<PA.Use, nat>, own: map<nat, PA.Use>, proc: nat, v: nat, g: nat)
    requires PA.Paired(pages, own) && g in own && own[g].Page? && own[g].proc == 0 && proc != 0
    requires PA.Page(proc, v) in pages
    ensures g in own - {pages[PA.Page(proc, v)]}
  {
  }
}
