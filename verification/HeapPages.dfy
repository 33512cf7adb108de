/** The arena heap on top of the page allocator, as `sys_malloc` and `sys_free` use them
    together (kernel/memory.c): every arena stands on pages that are mapped for the process,
    and pages leave with their arena. */
module HeapPages {
  import opened Bitmaps
  import opened PageAlloc
  import opened Arenas

  /** Every page of every run is mapped, inside the range of the virtual bitmap. */
  ghost predicate Backed(runs: map<nat, nat>, end: nat, proc: nat, pages: map<Use, nat>) {
    forall p :: p in runs ==> p + runs[p] <= end && AllMapped(pages, proc, p, runs[p])
  }

  /** Pages that were not mapped lie in no arena. */
  lemma FreshIsUnused(arenas: map<nat, Arena>, end: nat, proc: nat, pages: map<Use, nat>, v: nat, cnt: nat)
    requires Backed(PageRuns(arenas), end, proc, pages) && NoneMapped(pages, proc, v, cnt) && cnt > 0
    requires forall p :: p in arenas ==> PagesOf(arenas[p]) > 0
    ensures Unused(arenas, v, cnt)
  {
    var runs := PageRuns(arenas);
    forall q | q in arenas ensures q + PagesOf(arenas[q]) <= v || v + cnt <= q {
      assert q in runs && AllMapped(pages, proc, q, runs[q]);
      var x := if q < v then v else q;
      if q + runs[q] > v && v + cnt > q {
        assert InRange(Page(proc, x), proc, q, runs[q]) && InRange(Page(proc, x), proc, v, cnt);
        assert false;
      }
    }
  }

  lemma BackedAdd(runs: map<nat, nat>, end: nat, proc: nat, pages: map<Use, nat>, pages': map<Use, nat>, v: nat,
        cnt: nat)
    requires Backed(runs, end, proc, pages) && Grown(pages, pages', proc, v, cnt)
    requires AllMapped(pages', proc, v, cnt) && v + cnt <= end
    ensures Backed(runs, end, proc, pages') && Backed(runs[v := cnt], end, proc, pages')
  {
  }

  lemma BackedDrop(arenas: map<nat, Arena>, start: nat, end: nat, proc: nat, pages: map<Use, nat>, a: nat)
    requires Placed(arenas, start) && a in arenas && Backed(PageRuns(arenas), end, proc, pages)
    ensures Backed(PageRuns(arenas) - {a}, end, proc, Unmapped(pages, proc, a, PagesOf(arenas[a])))
    ensures AllMapped(pages, proc, a, PagesOf(arenas[a])) && start <= a && a + PagesOf(arenas[a]) <= end
  {
    var runs := PageRuns(arenas);
    assert a in runs && runs[a] == PagesOf(arenas[a]);
    var pages' := Unmapped(pages, proc, a, runs[a]);
    forall p | p in runs && p != a ensures AllMapped(pages', proc, p, runs[p]) {
      assert AllMapped(pages, proc, p, runs[p]);
      assert p + PagesOf(arenas[p]) <= a || a + PagesOf(arenas[a]) <= p;
      assert forall u :: InRange(u, proc, p, runs[p]) ==> !InRange(u, proc, a, runs[a]);
    }
  }

  lemma HeapPlaced(arenas: map<nat, Arena>, free: seq<seq<nat>>, live: map<nat, nat>, start: nat)
    requires HeapOk(arenas, free, live, start)
    ensures Placed(arenas, start) && forall p :: p in arenas ==> PagesOf(arenas[p]) > 0
  {
  }

  /** Every byte of a live block lies in a mapped page. */
  lemma LiveMapped(arenas: map<nat, Arena>, free: seq<seq<nat>>, live: map<nat, nat>, start: nat,
                   end: nat, proc: nat, pages: map<Use, nat>, b: nat, x: nat)
    requires HeapOk(arenas, free, live, start) && Backed(PageRuns(arenas), end, proc, pages)
    requires b in live && b <= x < b + live[b]
    ensures Page(proc, x / PG_SIZE) in pages
  {
    hide ArenasOk; hide LivesOk; hide ListsOk;
    LiveInside(arenas, free, live, start, b);
    var p, runs := ArenaOf(b), PageRuns(arenas);
    assert p in runs && AllMapped(pages, proc, p, runs[p]);
    assert InRange(Page(proc, x / PG_SIZE), proc, p, runs[p]);
  }

  class MappedHeap {
    const mem: Memory
    const heap: Heap
    const proc: nat

    ghost predicate Valid()
      reads this, mem, heap
    {
      && mem.Valid() && heap.Valid() && proc in mem.virt && heap.start == mem.Start(proc)
      && Backed(PageRuns(heap.arenas), heap.start + |mem.virt[proc]|, proc, mem.pages)
    }

    constructor (mem: Memory, heap: Heap, proc: nat)
      requires mem.Valid() && heap.Valid() && proc in mem.virt && heap.start == mem.Start(proc) && heap.arenas == map[]
      ensures Valid() && this.mem == mem && this.heap == heap && this.proc == proc
    {
      this.mem, this.heap, this.proc := mem, heap, proc;
    }

    /** `sys_malloc` with the pages it asks for. A NULL result changes nothing; a block is
        new, and no mapping that was there moves. */
    method Malloc(size: nat, past: bool) returns (halted: bool, r: nat)
      requires Valid() && ScanExact(mem.virt[proc], past, PagesFor(size))
      modifies mem, heap
      ensures !halted ==> Valid()
      ensures halted ==>
                && AsksPages(size, heap.poolSize, old(heap.free))
                && (|| 3840 <= PagesFor(size) || AllSet(old(mem.virt)[proc]) || AllSet(mem.kbits)
                    || (proc != 0 && (AllSet(mem.ubits)
                                      || 0xbffff <= mem.uvStart + FirstRun(old(mem.virt)[proc], PagesFor(size)))))
      ensures !halted && r == 0 ==>
                && heap.live == old(heap.live) && heap.arenas == old(heap.arenas) && heap.free == old(heap.free)
                && mem.pages == old(mem.pages) && mem.virt == old(mem.virt)
                && mem.kbits == old(mem.kbits) && mem.ubits == old(mem.ubits)
      ensures !halted && r != 0 ==>
                && r !in old(heap.live) && heap.live == old(heap.live)[r := size]
                && forall u :: u in old(mem.pages) ==> u in mem.pages && mem.pages[u] == old(mem.pages)[u]
    {
      hide HeapOk; hide Backed; hide PoolOk; hide Paired; hide VirtsOk; hide AllMapped; hide NoneMapped;
      hide PageRuns;
      hide SetRange; hide FirstRun; hide Inside; hide Unused; hide SameFrames; hide AllSet; hide ScanExact;
      hide NoneIdle; hide Grown;
      r := 0;
      var page := -1;
      if AsksPages(size, heap.poolSize, heap.free) {
        halted, page := mem.MallocPage(proc, PagesFor(size), past);
        if halted { return; }
        if page != -1 {
          HeapPlaced(heap.arenas, heap.free, heap.live, heap.start);
          FreshIsUnused(heap.arenas, heap.start + |old(mem.virt)[proc]|, proc, old(mem.pages), page, PagesFor(size));
          RunFits(old(mem.virt)[proc], page - mem.Start(proc), PagesFor(size));
          BackedAdd(PageRuns(heap.arenas), heap.start + |mem.virt[proc]|, proc, old(mem.pages), mem.pages, page,
              PagesFor(size));
          GrownKeeps(old(mem.pages), mem.pages, proc, page, PagesFor(size));
        }
      }
      halted, r := heap.SysMalloc(size, page);
    }

    /** `sys_free` with the pages it gives back: those of the arena, if it was the last
        block. */
    method Free(ptr: nat) returns (halted: bool)
      requires Valid() && ptr in heap.live
      modifies mem, heap
      ensures !halted && Valid() && heap.live == old(heap.live) - {ptr}
      ensures var a := ArenaOf(ptr);
              mem.pages == if a in heap.arenas || a !in old(heap.arenas) then old(mem.pages)
                           else Unmapped(old(mem.pages), proc, a, PagesOf(old(heap.arenas)[a]))
    {
      hide HeapOk; hide Backed; hide PoolOk; hide Paired; hide VirtsOk; hide AllMapped; hide PageRuns;
      hide SetRange; hide Inside; hide NoneIdle; hide FreeOk; hide Unmapped;
      LiveArena(heap.arenas, heap.free, heap.live, heap.start, ptr);
      HeapPlaced(heap.arenas, heap.free, heap.live, heap.start);
      var a := ArenaOf(ptr);
      var n := PagesOf(heap.arenas[a]);
      BackedDrop(heap.arenas, heap.start, heap.start + |mem.virt[proc]|, proc, mem.pages, a);
      halted := heap.SysFree(ptr);
      if a !in heap.arenas {
        halted := mem.MfreePage(proc, a, n);
      }
    }

    /** When everything has been freed, the heap holds no page. */
    lemma NothingHeld()
      requires Valid() && heap.live == map[]
      ensures heap.arenas == map[]
    {
      NothingLeft(heap.arenas, heap.free, heap.live, heap.start);
    }
  }

  lemma GrownKeeps(pages: map<Use, nat>, pages': map<Use, nat>, proc: nat, v: nat, cnt: nat)
    requires Grown(pages, pages', proc, v, cnt)
    ensures forall u :: u in pages ==> u in pages' && pages'[u] == pages[u]
  {
  }
}
