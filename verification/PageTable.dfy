/** Two-level page tables edited through the directory's own last entry
    (kernel/memory.c). The format is that of section 4.3, "32-Bit Paging", of volume 3A
    of the Intel 64 and IA-32 Architectures Software Developer's Manual: bits 31..22 of
    an address index the directory, bits 21..12 the table, bit 0 of an entry is the
    present bit. */
module Paging {
  import opened Options

  /** Physical memory by word address. */
  type Phys = bv32 -> bv32

  function Store(m: Phys, a: bv32, x: bv32): (m': Phys)
    ensures forall b :: m'(b) == if b == a then x else m(b)
  {
    b => if b == a then x else m(b)
  }

  function DirIdx(v: bv32): bv32 { v >> 22 }
  function TblIdx(v: bv32): bv32 { (v >> 12) & 0x3ff }
  function Offset(v: bv32): bv32 { v & 0xfff }
  function Frame(e: bv32): bv32 { e & 0xfffff000 }
  predicate Present(e: bv32) { e & 1 != 0 }
  predicate Aligned(a: bv32) { a & 0xfff == 0 }

  /** `page_phyaddr | PG_US_U | PG_RW_W | PG_P_1` */
  function Entry(frame: bv32): bv32 { frame | 7 }

  function In(frame: bv32, offset: bv32): bv32 { frame | offset }
  function WordOffset(i: bv32): bv32 { i << 2 }

  /** Word i of a frame. */
  function Slot(frame: bv32, i: bv32): bv32 { In(frame, WordOffset(i)) }

  // ---------------------------------------------------------------- the hardware walk

  function PdeSlot(dir: bv32, v: bv32): bv32 {
    Slot(dir, DirIdx(v))
  }

  function Pde(m: Phys, dir: bv32, v: bv32): bv32 {
    m(PdeSlot(dir, v))
  }

  /** Where the entry of v is, if its table is there. */
  function PteSlot(m: Phys, dir: bv32, v: bv32): bv32 {
    Slot(Frame(Pde(m, dir, v)), TblIdx(v))
  }

  function Pte(m: Phys, dir: bv32, v: bv32): bv32 {
    m(PteSlot(m, dir, v))
  }

  /** The frame that v's page is mapped to. */
  function FrameOf(m: Phys, dir: bv32, v: bv32): Option<bv32> {
    if Present(Pde(m, dir, v)) && Present(Pte(m, dir, v)) then Some(Frame(Pte(m, dir, v))) else None
  }

  /** The physical address of v. */
  function Translate(m: Phys, dir: bv32, v: bv32): Option<bv32> {
    match FrameOf(m, dir, v)
    case None => None
    case Some(f) => Some(In(f, Offset(v)))
  }

  // ---------------------------------------------------------------- the two pointers

  function PtePtr(v: bv32): bv32 {
    0xffc00000 + ((v & 0xffc00000) >> 10) + ((v & 0x003ff000) >> 12) * 4
  }

  function PdePtr(v: bv32): bv32 {
    0xfffff000 + ((v & 0xffc00000) >> 22) * 4
  }

  /** What `boot/loader.S` and `create_page_dir` set up: the last entry of the
      directory maps the directory. */
  ghost predicate SelfMapped(m: Phys, dir: bv32) {
    Aligned(dir) && Present(m(Slot(dir, 1023))) && Frame(m(Slot(dir, 1023))) == dir
  }

  lemma PtePtrBits(v: bv32)
    ensures PtePtr(v) == 0xffc00000 | ((v >> 10) & 0x3ffffc)
  {
    assert ((v & 0x003ff000) >> 12) * 4 == (v & 0x003ff000) >> 10;
    assert 0xffc00000 + ((v & 0xffc00000) >> 10) + ((v & 0x003ff000) >> 10) == 0xffc00000 | ((v >> 10) & 0x3ffffc);
  }

  lemma PtePtrFields(v: bv32)
    ensures DirIdx(PtePtr(v)) == 1023 && TblIdx(PtePtr(v)) == DirIdx(v) && Offset(PtePtr(v)) == WordOffset(TblIdx(v))
  {
    PtePtrBits(v);
    hide PtePtr;
    assert (0xffc00000 | ((v >> 10) & 0x3ffffc)) >> 22 == 1023;
    assert ((0xffc00000 | ((v >> 10) & 0x3ffffc)) >> 12) & 0x3ff == v >> 22;
    assert (0xffc00000 | ((v >> 10) & 0x3ffffc)) & 0xfff == ((v >> 12) & 0x3ff) << 2;
  }

  lemma PdePtrFields(v: bv32)
    ensures DirIdx(PdePtr(v)) == 1023 && TblIdx(PdePtr(v)) == 1023 && Offset(PdePtr(v)) == WordOffset(DirIdx(v))
  {
    hide PdePtr;
    PdePtrBits(v);
  }

  lemma PdePtrBits(v: bv32)
    ensures PdePtr(v) == 0xfffff000 | ((v >> 22) << 2)
    ensures (0xfffff000 | ((v >> 22) << 2)) >> 22 == 1023
    ensures ((0xfffff000 | ((v >> 22) << 2)) >> 12) & 0x3ff == 1023
    ensures (0xfffff000 | ((v >> 22) << 2)) & 0xfff == (v >> 22) << 2
  {
  }

  /** Walking the tables from `pte_ptr(v)` reaches the physical word of v's entry, for
      every v whose table is there. */
  lemma WalkPtePtr(m: Phys, dir: bv32, v: bv32)
    requires SelfMapped(m, dir) && Present(Pde(m, dir, v))
    ensures Translate(m, dir, PtePtr(v)) == Some(PteSlot(m, dir, v))
  {
    hide DirIdx; hide TblIdx; hide Offset; hide Frame; hide Present; hide Aligned; hide PtePtr; hide In;
    hide WordOffset;
    PtePtrFields(v);
    var p := PtePtr(v);
    assert Pde(m, dir, p) == m(Slot(dir, 1023));
    assert PteSlot(m, dir, p) == Slot(dir, DirIdx(v));
  }

  /** And from `pde_ptr(v)` the word of v's directory entry, for every v. */
  lemma WalkPdePtr(m: Phys, dir: bv32, v: bv32)
    requires SelfMapped(m, dir)
    ensures Translate(m, dir, PdePtr(v)) == Some(PdeSlot(dir, v))
  {
    hide DirIdx; hide TblIdx; hide Offset; hide Frame; hide Present; hide Aligned; hide PdePtr; hide In;
    hide WordOffset;
    PdePtrFields(v);
    var p := PdePtr(v);
    assert Pde(m, dir, p) == m(Slot(dir, 1023));
    assert PteSlot(m, dir, p) == Slot(dir, 1023);
  }

  // ---------------------------------------------------------------- slots do not overlap

  lemma SlotInjective(f: bv32, i: bv32, g: bv32, j: bv32)
    requires Aligned(f) && Aligned(g) && i <= 1023 && j <= 1023
    ensures Slot(f, i) == Slot(g, j) ==> f == g && i == j
  {
  }

  lemma Indices(v: bv32, e: bv32)
    ensures DirIdx(v) <= 1023 && TblIdx(v) <= 1023 && Aligned(Frame(e))
  {
  }

  lemma EntryFields(f: bv32)
    requires Aligned(f)
    ensures Present(Entry(f)) && Frame(Entry(f)) == f && !Present(0)
  {
  }

  /** The table of v's directory entry is not the directory, and v is not in the
      self-map region: what holds of every page the kernel maps. */
  ghost predicate Mappable(m: Phys, dir: bv32, v: bv32) {
    DirIdx(v) != 1023 && (Present(Pde(m, dir, v)) ==> Frame(Pde(m, dir, v)) != dir)
  }

  // ---------------------------------------------------------------- page_table_add

  /** Memory after `page_table_add`: one word of the table that is there, or a new table
      in frame `table`, zero but for that word, and the directory word that names it. */
  ghost predicate Added(m: Phys, m': Phys, dir: bv32, v: bv32, frame: bv32, table: bv32) {
    if Present(Pde(m, dir, v)) then
      forall a :: m'(a) == if a == PteSlot(m, dir, v) then Entry(frame) else m(a)
    else
      && (forall a :: Frame(a) != table ==> m'(a) == if a == PdeSlot(dir, v) then Entry(table) else m(a))
      && (forall j :: j <= 1023 ==> m'(Slot(table, j)) == if j == TblIdx(v) then Entry(frame) else 0)
  }

  /** A frame that no directory entry uses. */
  ghost predicate Unused(m: Phys, dir: bv32, table: bv32) {
    && Aligned(table) && table != dir
    && forall w :: Present(Pde(m, dir, w)) ==> Frame(Pde(m, dir, w)) != table
  }

  predicate SamePage(v: bv32, w: bv32) {
    DirIdx(v) == DirIdx(w) && TblIdx(v) == TblIdx(w)
  }

  /** The entries of v and of w are one word of memory. */
  ghost predicate SharesEntry(m: Phys, dir: bv32, v: bv32, w: bv32) {
    && Present(Pde(m, dir, v)) && Present(Pde(m, dir, w))
    && Frame(Pde(m, dir, w)) == Frame(Pde(m, dir, v)) && TblIdx(w) == TblIdx(v)
  }

  /** The table is there: what the entries of w are afterwards. */
  lemma AddedToTable(m: Phys, m': Phys, dir: bv32, v: bv32, frame: bv32, table: bv32, w: bv32)
    requires Aligned(dir) && Mappable(m, dir, v) && Added(m, m', dir, v, frame, table) && Present(Pde(m, dir, v))
    ensures Pde(m', dir, w) == Pde(m, dir, w)
    ensures Pte(m', dir, w) == if Frame(Pde(m, dir, w)) == Frame(Pde(m, dir, v)) && TblIdx(w) == TblIdx(v)
                               then Entry(frame) else Pte(m, dir, w)
  {
    hide DirIdx; hide TblIdx; hide Frame; hide Present; hide Aligned; hide Slot; hide Entry;
    Indices(v, Pde(m, dir, v));
    Indices(w, Pde(m, dir, w));
    SlotInjective(Frame(Pde(m, dir, v)), TblIdx(v), dir, DirIdx(w));
    SlotInjective(Frame(Pde(m, dir, v)), TblIdx(v), Frame(Pde(m, dir, w)), TblIdx(w));
  }

  /** A new table: v's entry is the only one in it, and other tables are as before. */
  lemma AddedWithTable(m: Phys, m': Phys, dir: bv32, v: bv32, frame: bv32, table: bv32, w: bv32)
    requires Aligned(dir) && Unused(m, dir, table) && Added(m, m', dir, v, frame, table) && !Present(Pde(m, dir, v))
    ensures DirIdx(w) == DirIdx(v) ==>
              Pde(m', dir, w) == Entry(table) && Pte(m', dir, w) == if TblIdx(w) == TblIdx(v) then Entry(frame) else 0
    ensures DirIdx(w) != DirIdx(v) ==>
              && Pde(m', dir, w) == Pde(m, dir, w)
              && (Present(Pde(m, dir, w)) && Frame(Pde(m, dir, w)) != dir ==> Pte(m', dir, w) == Pte(m, dir, w))
  {
    hide DirIdx; hide TblIdx; hide Frame; hide Present; hide Aligned; hide Slot; hide Entry;
    Indices(v, Pde(m, dir, v));
    Indices(w, Pde(m, dir, w));
    EntryFields(table);
    FrameOfSlot(dir, DirIdx(w));
    FrameOfSlot(dir, DirIdx(v));
    FrameOfSlot(Frame(Pde(m, dir, w)), TblIdx(w));
    SlotInjective(dir, DirIdx(v), dir, DirIdx(w));
    SlotInjective(Frame(Pde(m, dir, w)), TblIdx(w), dir, DirIdx(v));
  }

  lemma FrameOfSlot(f: bv32, i: bv32)
    requires Aligned(f) && i <= 1023
    ensures Frame(Slot(f, i)) == f
  {
  }

  lemma MapsInTable(m: Phys, m': Phys, dir: bv32, v: bv32, frame: bv32, table: bv32, w: bv32)
    requires Aligned(dir) && Aligned(frame) && Mappable(m, dir, v) && Added(m, m', dir, v, frame, table)
    requires Present(Pde(m, dir, v)) && !Present(Pte(m, dir, v))
    ensures FrameOf(m', dir, v) == Some(frame)
    ensures FrameOf(m', dir, w) == FrameOf(m, dir, w) <==> !SharesEntry(m, dir, v, w)
  {
    hide DirIdx; hide TblIdx; hide Frame; hide Present; hide Aligned; hide Entry; hide Pde; hide Pte; hide Added;
    EntryFields(frame);
    AddedToTable(m, m', dir, v, frame, table, v);
    AddedToTable(m, m', dir, v, frame, table, w);
    SharedUnmapped(m, dir, v, w);
  }

  lemma SharedUnmapped(m: Phys, dir: bv32, v: bv32, w: bv32)
    ensures Frame(Pde(m, dir, w)) == Frame(Pde(m, dir, v)) && TblIdx(w) == TblIdx(v) ==>
              Pte(m, dir, w) == Pte(m, dir, v)
  {
    hide DirIdx; hide TblIdx; hide Frame; hide Pde;
  }

  lemma MapsWithTable(m: Phys, m': Phys, dir: bv32, v: bv32, frame: bv32, table: bv32, w: bv32)
    requires Aligned(dir) && Aligned(frame) && Mappable(m, dir, w) && Added(m, m', dir, v, frame, table)
    requires !Present(Pde(m, dir, v)) && Unused(m, dir, table) && !SamePage(v, w)
    ensures FrameOf(m', dir, v) == Some(frame) && FrameOf(m', dir, w) == FrameOf(m, dir, w)
  {
    TableAligned(m, dir, table);
    SamePde(m, dir, v, w);
    hide DirIdx; hide TblIdx; hide Frame; hide Present; hide Aligned; hide Entry; hide Pde; hide Pte; hide Added;
    hide Unused;
    EntryFields(frame);
    EntryFields(table);
    AddedWithTable(m, m', dir, v, frame, table, v);
    AddedWithTable(m, m', dir, v, frame, table, w);
  }

  lemma SamePde(m: Phys, dir: bv32, v: bv32, w: bv32)
    ensures DirIdx(v) == DirIdx(w) ==> Pde(m, dir, v) == Pde(m, dir, w)
  {
    hide DirIdx; hide Slot;
  }

  /** `page_table_add` maps v to the frame. Every other page outside the self-map keeps
      its translation exactly when it does not share v's entry; with a new table none
      does. */
  lemma AddMaps(m: Phys, m': Phys, dir: bv32, v: bv32, frame: bv32, table: bv32, w: bv32)
    requires SelfMapped(m, dir) && Mappable(m, dir, v) && Mappable(m, dir, w) && Aligned(frame)
    requires FrameOf(m, dir, v) == None && !SamePage(v, w)
    requires !Present(Pde(m, dir, v)) ==> Unused(m, dir, table)
    requires Added(m, m', dir, v, frame, table)
    ensures FrameOf(m', dir, v) == Some(frame)
    ensures FrameOf(m', dir, w) == FrameOf(m, dir, w) <==> !SharesEntry(m, dir, v, w)
    ensures Offset(Pte(m', dir, v)) == 7 && (!Present(Pde(m, dir, v)) ==> Offset(Pde(m', dir, v)) == 7)
  {
    SelfMapAligned(m, dir);
    AddedBits(m, m', dir, v, frame, table);
    hide DirIdx; hide TblIdx; hide Frame; hide Present; hide Aligned; hide Pde; hide Pte; hide Added;
    hide SelfMapped; hide Unused; hide Mappable; hide SamePage;
    if Present(Pde(m, dir, v)) {
      MapsInTable(m, m', dir, v, frame, table, w);
    } else {
      MapsWithTable(m, m', dir, v, frame, table, w);
    }
  }

  /** The new entries are present, writable and open to user mode. */
  lemma AddedBits(m: Phys, m': Phys, dir: bv32, v: bv32, frame: bv32, table: bv32)
    requires Aligned(dir) && Mappable(m, dir, v) && Aligned(frame) && Added(m, m', dir, v, frame, table)
    requires !Present(Pde(m, dir, v)) ==> Unused(m, dir, table)
    ensures Offset(Pte(m', dir, v)) == 7 && (!Present(Pde(m, dir, v)) ==> Offset(Pde(m', dir, v)) == 7)
  {
    hide DirIdx; hide TblIdx; hide Frame; hide Present; hide Aligned; hide Pde; hide Pte; hide Added;
    hide Unused; hide Mappable; hide Entry; hide Offset;
    EntryBits(frame);
    if Present(Pde(m, dir, v)) {
      AddedToTable(m, m', dir, v, frame, table, v);
    } else {
      TableAligned(m, dir, table);
      EntryBits(table);
      AddedWithTable(m, m', dir, v, frame, table, v);
    }
  }

  lemma EntryBits(f: bv32)
    requires Aligned(f)
    ensures Offset(Entry(f)) == 7
  {
  }

  // ---------------------------------------------------------------- page_table_pte_remove

  function ClearPresent(e: bv32): bv32 { e & 0xfffffffe }

  /** Every bit but the present bit. */
  function OtherBits(e: bv32): bv32 { e >> 1 }

  lemma ClearedFields(e: bv32)
    ensures !Present(ClearPresent(e)) && OtherBits(ClearPresent(e)) == OtherBits(e)
  {
  }

  /** Clearing the present bit unmaps v. Every other page keeps its translation exactly
      unless it shares the entry and was mapped by it. */
  lemma RemoveUnmaps(m: Phys, dir: bv32, v: bv32, w: bv32)
    requires Aligned(dir) && Mappable(m, dir, v) && Present(Pde(m, dir, v)) && !SamePage(v, w)
    ensures var m' := Store(m, PteSlot(m, dir, v), ClearPresent(Pte(m, dir, v)));
            && FrameOf(m', dir, v) == None && OtherBits(Pte(m', dir, v)) == OtherBits(Pte(m, dir, v))
            && (FrameOf(m', dir, w) == FrameOf(m, dir, w) <==>
                !(SharesEntry(m, dir, v, w) && FrameOf(m, dir, w) != None))
  {
    hide DirIdx; hide TblIdx; hide Frame; hide Present; hide Aligned; hide ClearPresent; hide Store; hide Pde;
    hide Pte; hide OtherBits;
    ClearedFields(Pte(m, dir, v));
    StoredEntry(m, dir, v, ClearPresent(Pte(m, dir, v)), v);
    StoredEntry(m, dir, v, ClearPresent(Pte(m, dir, v)), w);
    SharedUnmapped(m, dir, v, w);
  }

  /** What the entries of w are after a store to that of v. */
  lemma StoredEntry(m: Phys, dir: bv32, v: bv32, x: bv32, w: bv32)
    requires Aligned(dir) && Mappable(m, dir, v) && Present(Pde(m, dir, v))
    ensures var m' := Store(m, PteSlot(m, dir, v), x);
            && Pde(m', dir, w) == Pde(m, dir, w)
            && Pte(m', dir, w) == if Frame(Pde(m, dir, w)) == Frame(Pde(m, dir, v)) && TblIdx(w) == TblIdx(v)
                                  then x else Pte(m, dir, w)
  {
    hide DirIdx; hide TblIdx; hide Frame; hide Present; hide Aligned; hide Slot;
    Indices(v, Pde(m, dir, v));
    Indices(w, Pde(m, dir, w));
    SlotInjective(Frame(Pde(m, dir, v)), TblIdx(v), dir, DirIdx(w));
    SlotInjective(Frame(Pde(m, dir, v)), TblIdx(v), Frame(Pde(m, dir, w)), TblIdx(w));
  }

  lemma SelfMapAligned(m: Phys, dir: bv32)
    requires SelfMapped(m, dir)
    ensures Aligned(dir)
  {
    hide Present; hide Frame; hide Slot; hide Aligned;
  }

  lemma TableAligned(m: Phys, dir: bv32, table: bv32)
    requires Unused(m, dir, table)
    ensures Aligned(table)
  {
    hide Present; hide Frame; hide Slot; hide Aligned; hide Pde;
  }

  /** The directory keeps mapping itself. */
  lemma AddKeepsSelfMap(m: Phys, m': Phys, dir: bv32, v: bv32, frame: bv32, table: bv32)
    requires SelfMapped(m, dir) && Mappable(m, dir, v) && Added(m, m', dir, v, frame, table)
    requires !Present(Pde(m, dir, v)) ==> Unused(m, dir, table)
    ensures SelfMapped(m', dir)
  {
    LastEntry();
    hide DirIdx; hide TblIdx; hide Frame; hide Present; hide Aligned; hide Slot; hide Entry; hide Added;
    assert Pde(m, dir, 0xffc00000) == m(Slot(dir, 1023)) && Pde(m', dir, 0xffc00000) == m'(Slot(dir, 1023));
    if Present(Pde(m, dir, v)) {
      AddedToTable(m, m', dir, v, frame, table, 0xffc00000);
    } else {
      AddedWithTable(m, m', dir, v, frame, table, 0xffc00000);
    }
  }

  lemma LastEntry()
    ensures DirIdx(0xffc00000) == 1023
  {
  }

  /** The kernel's own directory is not free of sharing: the loader makes entries 0 and
      768 name one table, so mapping the first heap page maps low memory at 1 MB too. */
  lemma BootDirectoryShares(m: Phys, m': Phys, dir: bv32, frame: bv32)
    requires SelfMapped(m, dir) && Aligned(frame)
    requires m(Slot(dir, 0)) == m(Slot(dir, 768)) && Present(m(Slot(dir, 768))) && Frame(m(Slot(dir, 768))) != dir
    requires FrameOf(m, dir, 0xc0100000) == None && Added(m, m', dir, 0xc0100000, frame, 0)
    ensures FrameOf(m, dir, 0x00100000) == None && FrameOf(m', dir, 0x00100000) == Some(frame)
  {
    BootIndices();
    hide DirIdx; hide TblIdx; hide Frame; hide Present; hide Aligned; hide Slot; hide Entry;
    EntryFields(frame);
    AddedToTable(m, m', dir, 0xc0100000, frame, 0, 0x00100000);
  }

  lemma BootIndices()
    ensures DirIdx(0xc0100000) == 768 && DirIdx(0x00100000) == 0 && TblIdx(0xc0100000) == TblIdx(0x00100000)
  {
  }

  // ---------------------------------------------------------------- the code, through virtual addresses

  /** Word i of the page in which `pte_ptr(v)` lies: v's whole table. */
  function TableWord(v: bv32, i: bv32): bv32 {
    In(Frame(PtePtr(v)), WordOffset(i))
  }

  lemma TableWordFields(v: bv32, i: bv32)
    requires i <= 1023
    ensures DirIdx(TableWord(v, i)) == 1023 && TblIdx(TableWord(v, i)) == DirIdx(v)
    ensures Offset(TableWord(v, i)) == WordOffset(i)
  {
    hide PtePtr;
    PtePtrBits(v);
    TableWordBits(v, i);
  }

  lemma TableWordBits(v: bv32, i: bv32)
    requires i <= 1023
    ensures (((0xffc00000 | ((v >> 10) & 0x3ffffc)) & 0xfffff000) | (i << 2)) >> 22 == 1023
    ensures ((((0xffc00000 | ((v >> 10) & 0x3ffffc)) & 0xfffff000) | (i << 2)) >> 12) & 0x3ff == v >> 22
    ensures (((0xffc00000 | ((v >> 10) & 0x3ffffc)) & 0xfffff000) | (i << 2)) & 0xfff == i << 2
  {
  }

  lemma WalkTableWord(m: Phys, dir: bv32, v: bv32, i: bv32)
    requires SelfMapped(m, dir) && Present(Pde(m, dir, v)) && i <= 1023
    ensures Translate(m, dir, TableWord(v, i)) == Some(Slot(Frame(Pde(m, dir, v)), i))
  {
    hide DirIdx; hide TblIdx; hide Offset; hide Frame; hide Present; hide Aligned; hide TableWord; hide In;
    hide WordOffset;
    TableWordFields(v, i);
    var p := TableWord(v, i);
    assert Pde(m, dir, p) == m(Slot(dir, 1023));
    assert PteSlot(m, dir, p) == Slot(dir, DirIdx(v));
  }

  /** A store outside the directory keeps every directory entry. */
  lemma StoreKeepsDir(m: Phys, dir: bv32, f: bv32, i: bv32, x: bv32, w: bv32)
    requires Aligned(dir) && Aligned(f) && f != dir && i <= 1023
    ensures Pde(Store(m, Slot(f, i), x), dir, w) == Pde(m, dir, w)
    ensures SelfMapped(m, dir) ==> SelfMapped(Store(m, Slot(f, i), x), dir)
  {
    hide DirIdx; hide Frame; hide Present; hide Aligned; hide Slot;
    Indices(w, 0);
    SlotInjective(f, i, dir, DirIdx(w));
    SlotInjective(f, i, dir, 1023);
  }

  /** A new directory entry, other than the last. */
  lemma StoreInDir(m: Phys, dir: bv32, v: bv32, x: bv32)
    requires SelfMapped(m, dir) && DirIdx(v) != 1023
    ensures Pde(Store(m, PdeSlot(dir, v), x), dir, v) == x && SelfMapped(Store(m, PdeSlot(dir, v), x), dir)
  {
    hide DirIdx; hide Frame; hide Present; hide Aligned; hide Slot;
    Indices(v, 0);
    SlotInjective(dir, DirIdx(v), dir, 1023);
  }

  class Mmu {
    var phys: Phys
    const dir: bv32

    method Read(va: bv32) returns (x: bv32)
      requires Translate(phys, dir, va).Some?
      ensures x == phys(Translate(phys, dir, va).value)
    {
      x := phys(Translate(phys, dir, va).value);
    }

    method Write(va: bv32, x: bv32)
      requires Translate(phys, dir, va).Some?
      modifies this
      ensures phys == Store(old(phys), Translate(old(phys), dir, va).value, x)
    {
      phys := Store(phys, Translate(phys, dir, va).value, x);
    }

    /** `page_table_add`; `table` is the frame `palloc` would return. The ASSERT fires
        exactly when v is mapped already. */
    method PageTableAdd(v: bv32, frame: bv32, table: bv32) returns (halted: bool)
      requires SelfMapped(phys, dir) && Mappable(phys, dir, v)
      requires !Present(Pde(phys, dir, v)) ==> Unused(phys, dir, table)
      modifies this
      ensures halted <==> FrameOf(old(phys), dir, v) != None
      ensures halted ==> phys == old(phys)
      ensures !halted ==> Added(old(phys), phys, dir, v, frame, table)
    {
      hide DirIdx; hide TblIdx; hide Offset; hide Frame; hide Aligned; hide Slot; hide Entry; hide PtePtr;
      hide PdePtr; hide In; hide SelfMapped; hide Translate;
      halted := false;
      WalkPdePtr(phys, dir, v);
      var pde := Read(PdePtr(v));
      if Present(pde) {
        WalkPtePtr(phys, dir, v);
        var pte := Read(PtePtr(v));
        if Present(pte) {
          halted := true;
          return;
        }
        Write(PtePtr(v), Entry(frame));
      } else {
        SelfMapAligned(phys, dir);
        StoreInDir(phys, dir, v, Entry(table));
        EntryFields(table);
        Write(PdePtr(v), Entry(table));
        ClearTable(v, table);
        WalkPtePtr(phys, dir, v);
        ghost var m2 := phys;
        Write(PtePtr(v), Entry(frame));
        NewTableAdded(old(phys), m2, dir, v, frame, table);
      }
    }

    /** `page_table_pte_remove`, of a page whose table is there. */
    method PteRemove(v: bv32)
      requires SelfMapped(phys, dir) && Present(Pde(phys, dir, v))
      modifies this
      ensures phys == Store(old(phys), PteSlot(old(phys), dir, v), ClearPresent(Pte(old(phys), dir, v)))
    {
      hide DirIdx; hide TblIdx; hide Offset; hide Frame; hide Aligned; hide Slot; hide PtePtr; hide In;
      hide SelfMapped;
      hide Translate; hide ClearPresent;
      WalkPtePtr(phys, dir, v);
      var pte := Read(PtePtr(v));
      Write(PtePtr(v), ClearPresent(pte));
    }

    /** The memset of the new table. */
    method ClearTable(v: bv32, table: bv32)
      requires SelfMapped(phys, dir) && Aligned(dir) && Aligned(table) && table != dir
      requires Pde(phys, dir, v) == Entry(table)
      modifies this
      ensures SelfMapped(phys, dir) && Pde(phys, dir, v) == Entry(table)
      ensures forall a :: Frame(a) != table ==> phys(a) == old(phys)(a)
      ensures forall j :: j <= 1023 ==> phys(Slot(table, j)) == 0
    {
      hide DirIdx; hide TblIdx; hide Offset; hide Frame; hide Aligned; hide Slot; hide Entry; hide PtePtr; hide In;
      hide SelfMapped; hide Translate; hide Present; hide TableWord;
      EntryFields(table);
      var i: bv32 := 0;
      while i < 1024
        invariant i <= 1024
        invariant SelfMapped(phys, dir) && Pde(phys, dir, v) == Entry(table)
        invariant forall a :: Frame(a) != table ==> phys(a) == old(phys)(a)
        invariant forall j :: j < i ==> phys(Slot(table, j)) == 0
        decreases 1024 - i
      {
        WalkTableWord(phys, dir, v, i);
        FrameOfSlot(table, i);
        StoreKeepsDir(phys, dir, table, i, 0, v);
        forall j | j <= 1023 ensures Slot(table, j) == Slot(table, i) ==> j == i { SlotInjective(table, j, table, i); }
        Write(TableWord(v, i), 0);
        i := i + 1;
      }
    }
  }

  lemma NewTableAdded(m: Phys, m2: Phys, dir: bv32, v: bv32, frame: bv32, table: bv32)
    requires Aligned(dir) && Aligned(table) && !Present(Pde(m, dir, v)) && Pde(m2, dir, v) == Entry(table)
    requires forall a :: Frame(a) != table ==> m2(a) == Store(m, PdeSlot(dir, v), Entry(table))(a)
    requires forall j :: j <= 1023 ==> m2(Slot(table, j)) == 0
    ensures Added(m, Store(m2, PteSlot(m2, dir, v), Entry(frame)), dir, v, frame, table)
  {
    hide DirIdx; hide TblIdx; hide Frame; hide Aligned; hide Slot; hide Entry; hide Present;
    EntryFields(table);
    Indices(v, 0);
    FrameOfSlot(table, TblIdx(v));
    forall j | j <= 1023 ensures Slot(table, j) == Slot(table, TblIdx(v)) ==> j == TblIdx(v) {
      SlotInjective(table, j, table, TblIdx(v));
    }
  }
}
