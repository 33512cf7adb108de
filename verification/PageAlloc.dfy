/** Virtual and physical page pools (kernel/memory.c): `malloc_page`, `mfree_page` and
    what they are made of. Pages and frames are numbered by address / 4096. What is mapped
    is the map `pages`; the tables that hold it are the subject of `Paging`, and
    `AddressSpaces` ties the two. Process 0 is the kernel, whose page tables are there from
    boot (boot/loader.S:219-232); every other process has its own page tables and virtual
    bitmap. A method's `halted` result is a failed ASSERT. */
module PageAlloc {
  import opened Bitmaps

  const PAGES_PER_TABLE := 1024

  /** What a frame is for: a mapped page of a process, or one of its page tables. */
  datatype Use = Page(proc: nat, v: nat) | Table(proc: nat, d: nat)

  type Content = seq<bv8>

  predicate FromUserPool(u: Use) {
    u.Page? && u.proc != 0
  }

  /** Every use has a frame of its own, and `own` is the way back. */
  ghost predicate Paired(pages: map<Use, nat>, own: map<nat, Use>) {
    && (forall u :: u in pages ==> pages[u] in own && own[pages[u]] == u)
    && (forall f :: f in own ==> own[f] in pages && pages[own[f]] == f)
  }

  /** The set bits of a pool are the frames in use, and they are used for what the pool
      is there for. */
  ghost predicate PoolOk(bits: seq<bool>, base: nat, user: bool, own: map<nat, Use>) {
    forall f :: base <= f < base + |bits| ==>
      && (f in own <==> bits[f - base])
      && (f in own ==> FromUserPool(own[f]) == user)
  }

  /** No frame in use lies outside the pools, and the user pool comes second. */
  ghost predicate Inside(k: nat, kbase: nat, u: nat, ubase: nat, own: map<nat, Use>) {
    && 0x102 <= kbase && kbase + k <= ubase
    && forall f :: f in own ==> kbase <= f < kbase + k || ubase <= f < ubase + u
  }

  /** A bit of the virtual bitmap is set iff that page is mapped. */
  ghost predicate VirtOk(bits: seq<bool>, start: nat, proc: nat, pages: map<Use, nat>) {
    forall i :: 0 <= i < |bits| ==> (bits[i] <==> Page(proc, start + i) in pages)
  }

  lemma PairAdd(pages: map<Use, nat>, own: map<nat, Use>, u: Use, f: nat)
    requires Paired(pages, own) && u !in pages && f !in own
    ensures Paired(pages[u := f], own[f := u])
  {
  }

  lemma PairDrop(pages: map<Use, nat>, own: map<nat, Use>, u: Use)
    requires Paired(pages, own) && u in pages
    ensures Paired(pages - {u}, own - {pages[u]})
  {
  }

  /** Distinct uses have distinct frames. */
  lemma FramesDiffer(pages: map<Use, nat>, own: map<nat, Use>, u: Use, w: Use)
    requires Paired(pages, own) && u in pages && w in pages && pages[u] == pages[w]
    ensures u == w
  {
  }

  /** A use of another kind or process does not touch a virtual bitmap. */
  lemma VirtElsewhere(bits: seq<bool>, start: nat, proc: nat, pages: map<Use, nat>, pages': map<Use, nat>)
    requires VirtOk(bits, start, proc, pages)
    requires forall u: Use :: u.Page? && u.proc == proc ==> (u in pages <==> u in pages')
    ensures VirtOk(bits, start, proc, pages')
  {
  }

  /** One frame more in use for `u`: what `palloc` and the marking of its bit keep. */
  lemma PoolsSet(kbits: seq<bool>, kbase: nat, ubits: seq<bool>, ubase: nat, own: map<nat, Use>, i: nat, u: Use)
    requires PoolOk(kbits, kbase, false, own) && PoolOk(ubits, ubase, true, own)
    requires Inside(|kbits|, kbase, |ubits|, ubase, own)
    requires if FromUserPool(u) then i < |ubits| && !ubits[i] else i < |kbits| && !kbits[i]
    ensures var f := (if FromUserPool(u) then ubase else kbase) + i;
            && f !in own && Inside(|kbits|, kbase, |ubits|, ubase, own[f := u])
            && PoolOk(if FromUserPool(u) then kbits else kbits[i := true], kbase, false, own[f := u])
            && PoolOk(if FromUserPool(u) then ubits[i := true] else ubits, ubase, true, own[f := u])
  {
  }

  /** `pfree` finds the pool of a frame by its address alone. */
  lemma PoolsClear(kbits: seq<bool>, kbase: nat, ubits: seq<bool>, ubase: nat, own: map<nat, Use>, f: nat)
    requires PoolOk(kbits, kbase, false, own) && PoolOk(ubits, ubase, true, own)
    requires Inside(|kbits|, kbase, |ubits|, ubase, own) && f in own
    ensures FromUserPool(own[f]) <==> ubase <= f
    ensures if ubase <= f then f < ubase + |ubits| else kbase <= f < kbase + |kbits|
    ensures Inside(|kbits|, kbase, |ubits|, ubase, own - {f})
    ensures PoolOk(if ubase <= f then kbits else kbits[f - kbase := false], kbase, false, own - {f})
    ensures PoolOk(if ubase <= f then ubits[f - ubase := false] else ubits, ubase, true, own - {f})
  {
  }

  /** The pages `v` to `v + cnt - 1` of `proc`. */
  predicate InRange(u: Use, proc: nat, v: nat, cnt: nat) {
    u.Page? && u.proc == proc && v <= u.v < v + cnt
  }

  /** Every mapping is as it was, and only some of `cnt` pages of `proc` are new, and page
      tables of `proc` unless it is the kernel. */
  ghost predicate Grown(pages: map<Use, nat>, pages': map<Use, nat>, proc: nat, v: nat, cnt: nat) {
    && (forall u :: u in pages ==> u in pages' && pages'[u] == pages[u])
    && (forall u :: u in pages' && u !in pages ==> InRange(u, proc, v, cnt) || (u.Table? && u.proc == proc != 0))
  }

  lemma GrownStep(p0: map<Use, nat>, p1: map<Use, nat>, p2: map<Use, nat>, proc: nat, v: nat, k: nat)
    requires Grown(p0, p1, proc, v, k) && Grown(p1, p2, proc, v + k, 1)
    ensures Grown(p0, p2, proc, v, k + 1)
  {
  }

  /** The mappings without a run of pages. */
  function Unmapped(pages: map<Use, nat>, proc: nat, v: nat, cnt: nat): (r: map<Use, nat>)
    ensures forall u :: u in r <==> u in pages && !InRange(u, proc, v, cnt)
    ensures forall u :: u in r ==> r[u] == pages[u]
  {
    map u | u in pages && !InRange(u, proc, v, cnt) :: pages[u]
  }

  lemma UnmappedStep(pages: map<Use, nat>, proc: nat, v: nat, k: nat)
    ensures Unmapped(pages, proc, v, k) - {Page(proc, v + k)} == Unmapped(pages, proc, v, k + 1)
  {
  }

  ghost predicate AllMapped(pages: map<Use, nat>, proc: nat, v: nat, cnt: nat) {
    forall u :: InRange(u, proc, v, cnt) ==> u in pages
  }

  ghost predicate NoneMapped(pages: map<Use, nat>, proc: nat, v: nat, cnt: nat) {
    forall u :: InRange(u, proc, v, cnt) ==> u !in pages
  }

  lemma AllMappedAt(pages: map<Use, nat>, proc: nat, v: nat, cnt: nat, k: nat)
    requires AllMapped(pages, proc, v, cnt) && k < cnt
    ensures Page(proc, v + k) in pages && Page(proc, v + k) in Unmapped(pages, proc, v, k)
  {
  }

  lemma AllMappedStep(p1: map<Use, nat>, p2: map<Use, nat>, proc: nat, v: nat, k: nat)
    requires AllMapped(p1, proc, v, k) && Grown(p1, p2, proc, v + k, 1) && Page(proc, v + k) in p2
    ensures AllMapped(p2, proc, v, k + 1)
  {
  }

  lemma StillUnmapped(p0: map<Use, nat>, p1: map<Use, nat>, proc: nat, v: nat, k: nat, cnt: nat)
    requires NoneMapped(p0, proc, v, cnt) && Grown(p0, p1, proc, v, k) && k < cnt
    ensures Page(proc, v + k) !in p1
  {
  }

  lemma NothingYet(pages: map<Use, nat>, proc: nat, v: nat, ram: map<nat, Content>)
    ensures Grown(pages, pages, proc, v, 0) && AllMapped(pages, proc, v, 0)
    ensures Unmapped(pages, proc, v, 0) == pages && SameFrames(pages, ram, ram)
  {
  }

  lemma VirtOf(virt: map<nat, seq<bool>>, kvStart: nat, uvStart: nat, pages: map<Use, nat>, proc: nat)
    requires VirtsOk(virt, kvStart, uvStart, pages) && proc in virt
    ensures VirtOk(virt[proc], if proc == 0 then kvStart else uvStart, proc, pages)
  {
  }

  lemma FreshRun(bits: seq<bool>, start: nat, proc: nat, pages: map<Use, nat>, i: nat, cnt: nat)
    requires VirtOk(bits, start, proc, pages) && FreeRun(bits, i, cnt)
    ensures NoneMapped(pages, proc, start + i, cnt)
  {
    forall u | InRange(u, proc, start + i, cnt) ensures u !in pages {
      assert !bits[u.v - start] && u == Page(proc, start + (u.v - start));
    }
  }

  /** All virtual bitmaps agree with the mappings. */
  ghost predicate VirtsOk(virt: map<nat, seq<bool>>, kvStart: nat, uvStart: nat, pages: map<Use, nat>) {
    forall p :: p in virt ==> VirtOk(virt[p], if p == 0 then kvStart else uvStart, p, pages)
  }

  lemma VirtsMapped(virt: map<nat, seq<bool>>, kvStart: nat, uvStart: nat, pages: map<Use, nat>,
                    pages': map<Use, nat>, proc: nat, i: nat, cnt: nat)
    requires VirtsOk(virt, kvStart, uvStart, pages) && proc in virt && i + cnt <= |virt[proc]|
    requires Grown(pages, pages', proc, (if proc == 0 then kvStart else uvStart) + i, cnt)
    requires AllMapped(pages', proc, (if proc == 0 then kvStart else uvStart) + i, cnt)
    ensures VirtsOk(virt[proc := SetRange(virt[proc], i, cnt, true)], kvStart, uvStart, pages')
  {
  }

  lemma VirtsUnmapped(virt: map<nat, seq<bool>>, kvStart: nat, uvStart: nat, pages: map<Use, nat>,
                      proc: nat, i: nat, cnt: nat)
    requires VirtsOk(virt, kvStart, uvStart, pages) && proc in virt && i + cnt <= |virt[proc]|
    ensures VirtsOk(virt[proc := SetRange(virt[proc], i, cnt, false)], kvStart, uvStart,
                    Unmapped(pages, proc, (if proc == 0 then kvStart else uvStart) + i, cnt))
  {
  }

  /** Mapping a run of pages and unmapping it again leaves at most new tables. */
  lemma GrownUnmapped(p0: map<Use, nat>, p1: map<Use, nat>, proc: nat, v: nat, cnt: nat)
    requires Grown(p0, p1, proc, v, cnt) && NoneMapped(p0, proc, v, cnt)
    ensures Grown(p0, Unmapped(p1, proc, v, cnt), proc, 0, 0)
  {
  }

  /** Where only page tables are new, the user pool is as it was and the kernel pool has
      lost exactly the frames of those tables. */
  lemma OnlyTablesNew(bits: seq<bool>, bits': seq<bool>, base: nat, user: bool, proc: nat,
                      pages: map<Use, nat>, pages': map<Use, nat>, own: map<nat, Use>, own': map<nat, Use>)
    requires Paired(pages, own) && Paired(pages', own') && |bits| == |bits'|
    requires PoolOk(bits, base, user, own) && PoolOk(bits', base, user, own')
    requires Grown(pages, pages', proc, 0, 0)
    ensures user || proc == 0 ==> bits' == bits
    ensures forall i :: 0 <= i < |bits| && bits[i] ==> bits'[i]
    ensures forall i :: 0 <= i < |bits| && bits'[i] && !bits[i] ==>
              base + i in own' && own'[base + i].Table? && own'[base + i].proc == proc && own'[base + i] !in pages
  {
    forall i | 0 <= i < |bits|
      ensures bits[i] ==> bits'[i]
      ensures bits'[i] && !bits[i] ==>
                && base + i in own' && own'[base + i].Table? && own'[base + i].proc == proc
                && own'[base + i] !in pages && !user && proc != 0
    {
      var f := base + i;
      assert f in own <==> bits[f - base];
      assert f in own' <==> bits'[f - base];
      if bits[i] { assert pages[own[f]] == f && pages'[own[f]] == f; }
      if bits'[i] && !bits[i] {
        var u := own'[f];
        assert pages'[u] == f && FromUserPool(u) == user;
      }
    }
  }

  /** For one page any scan is exact; for more, see `Bitmaps.ScanPastEnd`. */
  predicate ScanExact(bits: seq<bool>, past: bool, cnt: nat) {
    cnt == 1 || past || FirstRun(bits, cnt) != -1 || |bits| + 1 < cnt || !FreeRun(bits, |bits| + 1 - cnt, cnt - 1)
  }

  lemma ScanIs(bits: seq<bool>, past: bool, cnt: nat)
    requires ScanExact(bits, past, cnt) && cnt > 0
    ensures (if cnt == 1 then FirstRun(bits, 1) else FirstRun(bits + [past], cnt)) == FirstRun(bits, cnt)
    ensures FirstRun(bits, cnt) != -1 ==>
              FreeRun(bits, FirstRun(bits, cnt), cnt) && 0 <= FirstRun(bits, cnt) <= |bits| - cnt
  {
    if cnt > 1 { ScanPastEnd(bits, past, cnt); }
  }

  lemma RunFits(bits: seq<bool>, i: int, cnt: nat)
    requires i == FirstRun(bits, cnt) && i != -1
    ensures 0 <= i <= |bits| - cnt && FreeRun(bits, i, cnt)
  {
  }

  predicate AllSet(bits: seq<bool>) {
    forall i :: 0 <= i < |bits| ==> bits[i]
  }

  ghost predicate SameFrames(pages: map<Use, nat>, ram: map<nat, Content>, ram': map<nat, Content>) {
    forall u :: u in pages ==> Frame(ram, pages[u]) == Frame(ram', pages[u])
  }

  function Frame(ram: map<nat, Content>, f: nat): Content {
    if f in ram then ram[f] else []
  }

  lemma NewFrame(pages: map<Use, nat>, own: map<nat, Use>, f: nat, ram: map<nat, Content>, c: Content)
    requires Paired(pages, own) && f !in own
    ensures SameFrames(pages, ram, ram[f := c])
  {
  }

  lemma GrownOne(pages: map<Use, nat>, proc: nat, v: nat, d: nat, f: nat, table: nat)
    requires Page(proc, v) !in pages
    ensures Grown(pages, pages[Page(proc, v) := f], proc, v, 1)
    ensures Table(proc, d) !in pages && proc != 0 ==>
              Grown(pages, pages[Page(proc, v) := f][Table(proc, d) := table], proc, v, 1)
  {
  }

  predicate NeedsTable(pages: map<Use, nat>, proc: nat, v: nat) {
    proc != 0 && Table(proc, v / PAGES_PER_TABLE) !in pages
  }

  /** Page v is mapped to frame f, by a new table if there is none. */
  function WithPage(pages: map<Use, nat>, proc: nat, v: nat, f: nat, table: nat): map<Use, nat> {
    if NeedsTable(pages, proc, v)
    then pages[Page(proc, v) := f][Table(proc, v / PAGES_PER_TABLE) := table]
    else pages[Page(proc, v) := f]
  }

  lemma SameFramesStep(p0: map<Use, nat>, p1: map<Use, nat>, proc: nat, v: nat, k: nat,
                       r0: map<nat, Content>, r1: map<nat, Content>, r2: map<nat, Content>)
    requires Grown(p0, p1, proc, v, k) && SameFrames(p0, r0, r1) && SameFrames(p1, r1, r2)
    ensures SameFrames(p0, r0, r2)
  {
  }

  // ---------------------------------------------------------------- fork

  /** Writing to a page that was just mapped changes no page that was mapped before. */
  lemma Overwrite(p0: map<Use, nat>, pages: map<Use, nat>, own: map<nat, Use>, proc: nat, v: nat,
                  r0: map<nat, Content>, ram: map<nat, Content>, buf: Content)
    requires Paired(pages, own) && Grown(p0, pages, proc, v, 1) && SameFrames(p0, r0, ram)
    requires Page(proc, v) !in p0 && Page(proc, v) in pages
    ensures SameFrames(p0, r0, ram[pages[Page(proc, v)] := buf])
    ensures Frame(ram[pages[Page(proc, v)] := buf], pages[Page(proc, v)]) == buf
  {
  }

  /** The first n pages of the child are mapped where the parent's bitmap says so, and hold
      what the parent's hold. */
  ghost predicate Copied(bits: seq<bool>, n: nat, start: nat, parent: nat, child: nat,
                         pages0: map<Use, nat>, ram0: map<nat, Content>, pages: map<Use, nat>, ram: map<nat, Content>) {
    && n <= |bits|
    && (forall j :: start <= j < start + n ==> (Page(child, j) in pages <==> bits[j - start]))
    && (forall j :: start <= j < start + n && Page(child, j) in pages ==>
          Page(parent, j) in pages0 && Frame(ram, pages[Page(child, j)]) == Frame(ram0, pages0[Page(parent, j)]))
  }

  lemma CopiedStart(bits: seq<bool>, start: nat, parent: nat, child: nat, pages: map<Use, nat>, ram: map<nat, Content>)
    ensures Copied(bits, 0, start, parent, child, pages, ram, pages, ram)
    ensures Grown(pages, pages, child, start, 0) && SameFrames(pages, ram, ram)
  {
  }

  lemma BitIs(bytes: seq<bv8>, i: nat, k: nat)
    requires i < |bytes| && k < 8
    ensures BitsOf(bytes)[8 * i + k] == Bit(bytes[i], k)
  {
  }

  lemma ZeroByte(bytes: seq<bv8>, i: nat)
    requires i < |bytes| && bytes[i] == 0
    ensures forall j :: 8 * i <= j < 8 * i + 8 ==> !BitsOf(bytes)[j]
  {
    forall j | 8 * i <= j < 8 * i + 8 ensures !BitsOf(bytes)[j] {
      BitIs(bytes, i, j - 8 * i);
    }
  }

  /** A marked page of the parent is mapped and can be read; the child's is still free. */
  lemma ReadyToCopy(bits: seq<bool>, n: nat, start: nat, parent: nat, child: nat, pages0: map<Use, nat>,
                    ram0: map<nat, Content>, pages: map<Use, nat>, ram: map<nat, Content>)
    requires VirtOk(bits, start, parent, pages0) && n < |bits| && bits[n] && NoPages(child, pages0)
    requires Grown(pages0, pages, child, start, n) && SameFrames(pages0, ram0, ram)
    ensures Page(parent, start + n) in pages0 && Page(parent, start + n) in pages && Page(child, start + n) !in pages
    ensures Frame(ram, pages[Page(parent, start + n)]) == Frame(ram0, pages0[Page(parent, start + n)])
  {
  }

  /** The child's frames were free before the fork. */
  lemma CopiedFrames(bits: seq<bool>, start: nat, parent: nat, child: nat, pages0: map<Use, nat>, own0: map<nat, Use>,
                     ram0: map<nat, Content>, pages: map<Use, nat>, own: map<nat, Use>, ram: map<nat, Content>)
    requires Copied(bits, |bits|, start, parent, child, pages0, ram0, pages, ram)
    requires Paired(pages0, own0) && Paired(pages, own) && NoPages(child, pages0)
    requires Grown(pages0, pages, child, start, |bits|)
    ensures forall v :: start <= v < start + |bits| ==>
              && (Page(child, v) in pages <==> bits[v - start])
              && (Page(child, v) in pages ==>
                    && Page(parent, v) in pages0
                    && Frame(ram, pages[Page(child, v)]) == Frame(ram0, pages0[Page(parent, v)])
                    && pages[Page(child, v)] !in own0)
  {
  }

  lemma CopiedNone(bits: seq<bool>, n: nat, m: nat, start: nat, parent: nat, child: nat,
                   pages0: map<Use, nat>, ram0: map<nat, Content>, pages: map<Use, nat>, ram: map<nat, Content>)
    requires Copied(bits, n, start, parent, child, pages0, ram0, pages, ram) && n <= m <= |bits|
    requires Grown(pages0, pages, child, start, n) && NoPages(child, pages0)
    requires forall j :: n <= j < m ==> !bits[j]
    ensures Copied(bits, m, start, parent, child, pages0, ram0, pages, ram) && Grown(pages0, pages, child, start, m)
  {
  }

  lemma CopiedOne(bits: seq<bool>, n: nat, start: nat, parent: nat, child: nat, pages0: map<Use, nat>,
        ram0: map<nat, Content>,
                  pages: map<Use, nat>, ram: map<nat, Content>, pages': map<Use, nat>, ram': map<nat, Content>)
    requires Copied(bits, n, start, parent, child, pages0, ram0, pages, ram) && n < |bits| && bits[n]
    requires Grown(pages, pages', child, start + n, 1) && SameFrames(pages, ram, ram')
    requires Page(child, start + n) in pages' && Page(parent, start + n) in pages0
    requires Frame(ram', pages'[Page(child, start + n)]) == Frame(ram0, pages0[Page(parent, start + n)])
    ensures Copied(bits, n + 1, start, parent, child, pages0, ram0, pages', ram')
  {
  }

  predicate NoPages(proc: nat, pages: map<Use, nat>) {
    forall u :: u in pages && u.Page? ==> u.proc != proc
  }

  lemma VirtsForked(virt: map<nat, seq<bool>>, kvStart: nat, uvStart: nat, parent: nat, child: nat, n: nat,
                    pages0: map<Use, nat>, ram0: map<nat, Content>, pages: map<Use, nat>, ram: map<nat, Content>)
    requires VirtsOk(virt, kvStart, uvStart, pages0) && parent in virt && child != 0 && child !in virt
    requires Grown(pages0, pages, child, uvStart, n)
    requires Copied(virt[parent], |virt[parent]|, uvStart, parent, child, pages0, ram0, pages, ram)
    ensures VirtsOk(virt[child := virt[parent]], kvStart, uvStart, pages)
  {
    assert VirtOk(virt[parent], uvStart, child, pages) by {
      forall i | 0 <= i < |virt[parent]| ensures virt[parent][i] <==> Page(child, uvStart + i) in pages {
        var j := uvStart + i;
        assert Page(child, j) in pages <==> virt[parent][j - uvStart];
      }
    }
    forall p | p in virt ensures VirtOk(virt[p], if p == 0 then kvStart else uvStart, p, pages) {
      VirtElsewhere(virt[p], if p == 0 then kvStart else uvStart, p, pages0, pages);
    }
  }

  class Memory {
    const kbase: nat
    const ubase: nat
    const kvStart: nat
    const uvStart: nat
    var kbits: seq<bool>
    var ubits: seq<bool>
    var virt: map<nat, seq<bool>>
    var pages: map<Use, nat>
    var ram: map<nat, Content>
    ghost var own: map<nat, Use>

    function Start(proc: nat): nat {
      if proc == 0 then kvStart else uvStart
    }

    ghost predicate PoolsOk()
      reads this
    {
      && Inside(|kbits|, kbase, |ubits|, ubase, own)
      && PoolOk(kbits, kbase, false, own) && PoolOk(ubits, ubase, true, own)
    }

    ghost predicate Valid()
      reads this
    {
      PoolsOk() && Paired(pages, own) && VirtsOk(virt, kvStart, uvStart, pages)
    }

    /** `mem_pool_init`: two pools of free frames above the first two megabytes, the user
        pool second, both inside the installed memory. Page counts are kept in 16 bits. */
    constructor PoolInit(allMem: nat)
      requires 0x200000 <= allMem < 0x1_0000_0000
      ensures Valid() && pages == map[] && kbase == 0x200 && kbase + |kbits| <= ubase
      ensures (ubase + |ubits|) * 4096 <= allMem
      ensures var free := (allMem - 0x200000) / 4096 % 0x10000;
              && |kbits| == free / 2 - free / 2 % 8 && |ubits| == (free + 1) / 2 - (free + 1) / 2 % 8
              && ubase == kbase + free / 2
      ensures allMem < 0x10200000 ==> allMem < (ubase + |ubits| + 8) * 4096
      ensures kvStart == 0xc0100000 / 4096 && uvStart == 0x8048000 / 4096
      ensures kbits == seq(|kbits|, _ => false) && ubits == seq(|ubits|, _ => false) && virt == map[0 := kbits]
    {
      var free := ((allMem - 0x200000) / 4096) % 0x10000;
      var kernelFree := free / 2;
      var userFree := free - kernelFree;
      kbase, ubase, kvStart, uvStart := 0x200, 0x200 + kernelFree, 0xc0100, 0x8048;
      kbits := seq(8 * (kernelFree / 8), _ => false);
      ubits := seq(8 * (userFree / 8), _ => false);
      virt := map[0 := seq(8 * (kernelFree / 8), _ => false)];
      pages, own, ram := map[], map[], map[];
    }

    /** `create_user_vaddr_bitmap`: a process with nothing mapped yet. */
    method NewProcess(proc: nat)
      requires Valid() && proc != 0 && proc !in virt && NoPages(proc, pages)
      modifies this`virt
      ensures Valid() && virt == old(virt)[proc := seq(0xc0000 - 0x8048, _ => false)]
    {
      hide PoolOk; hide Paired; hide Inside;
      virt := virt[proc := seq(0xc0000 - 0x8048, _ => false)];
    }

    /** `palloc` for the use `u`: the lowest free frame of its pool. */
    method Palloc(user: bool, ghost u: Use) returns (halted: bool, f: nat)
      requires PoolsOk() && FromUserPool(u) == user
      modifies this`kbits, this`ubits, this`own
      ensures halted <==> AllSet(if user then old(ubits) else old(kbits))
      ensures halted ==> kbits == old(kbits) && ubits == old(ubits) && own == old(own)
      ensures |kbits| == old(|kbits|) && |ubits| == old(|ubits|)
      ensures !halted ==> PoolsOk() && f !in old(own) && own == old(own)[f := u]
      ensures !halted && user ==> kbits == old(kbits) && ubase <= f && f - ubase == FirstRun(old(ubits), 1)
      ensures !halted && !user ==> ubits == old(ubits) && kbase <= f && f - kbase == FirstRun(old(kbits), 1)
    {
      hide PoolOk; hide Inside;
      var bits := if user then ubits else kbits;
      var i := FirstRun(bits, 1);
      f := 0;
      halted := i == -1;
      if halted {
        forall k | 0 <= k < |bits| ensures bits[k] { assert !FreeRun(bits, k, 1); }
        return;
      }
      assert FreeRun(bits, i, 1) && !bits[i];
      PoolsSet(kbits, kbase, ubits, ubase, own, i, u);
      if user {
        f := ubase + i;
        ubits := ubits[i := true];
      } else {
        f := kbase + i;
        kbits := kbits[i := true];
      }
      own := own[f := u];
    }

    /** One turn of the loop in `malloc_page`: a frame f for page v, and one for its page
        table if there is none yet. */
    method MapPage(proc: nat, v: nat) returns (halted: bool, f: nat, table: nat)
      requires PoolsOk() && Paired(pages, own) && Page(proc, v) !in pages
      modifies this`kbits, this`ubits, this`own, this`pages, this`ram
      ensures |kbits| == old(|kbits|) && |ubits| == old(|ubits|)
      ensures halted ==> AllSet(kbits) || (proc != 0 && AllSet(ubits))
      ensures !halted ==>
                && PoolsOk() && Paired(pages, own) && Page(proc, v) in pages
                && Grown(old(pages), pages, proc, v, 1)
                && SameFrames(old(pages), old(ram), ram)
                && f !in old(own) && pages == WithPage(old(pages), proc, v, f, table)
                && (NeedsTable(old(pages), proc, v) ==> table !in old(own))
    {
      hide Paired; hide PoolOk; hide Inside; hide Grown; hide SameFrames; hide AllSet; hide FirstRun; hide InRange;
      var u, t := Page(proc, v), Table(proc, v / PAGES_PER_TABLE);
      table := 0;
      NothingYet(pages, proc, v, ram);
      halted, f := Palloc(proc != 0, u);
      if halted { return; }
      PairAdd(pages, old(own), u, f);
      ghost var mid := own;
      pages := pages[u := f];
      GrownOne(old(pages), proc, v, v / PAGES_PER_TABLE, f, f);
      if proc != 0 && t !in pages {
        halted, table := Palloc(false, t);
        if halted { return; }
        PairAdd(pages, mid, t, table);
        NewFrame(old(pages), old(own), table, ram, seq(4096, _ => 0));
        GrownOne(old(pages), proc, v, v / PAGES_PER_TABLE, f, table);
        pages := pages[t := table];
        ram := ram[table := seq(4096, _ => 0)];
      }
    }

    /** `malloc_page`; the result -1 is NULL. `past` is the bit that follows the virtual
        bitmap in memory. */
    method MallocPage(proc: nat, cnt: nat, past: bool) returns (halted: bool, r: int)
      requires Valid() && proc in virt && ScanExact(virt[proc], past, cnt)
      modifies this
      ensures |kbits| == old(|kbits|) && |ubits| == old(|ubits|)
      ensures halted ==>
                || cnt == 0 || 3840 <= cnt || AllSet(old(virt)[proc]) || AllSet(kbits)
                || (proc != 0 && (AllSet(ubits) || 0xbffff <= uvStart + FirstRun(old(virt)[proc], cnt)))
      ensures !halted ==> Valid() && 0 < cnt < 3840 && (r == -1 <==> FirstRun(old(virt)[proc], cnt) == -1)
      ensures !halted && r == -1 ==>
                && kbits == old(kbits) && ubits == old(ubits) && virt == old(virt) && pages == old(pages)
                && ram == old(ram)
      ensures !halted && r != -1 ==>
                && r == Start(proc) + FirstRun(old(virt)[proc], cnt)
                && virt == old(virt)[proc := SetRange(old(virt)[proc], r - Start(proc), cnt, true)]
                && Grown(old(pages), pages, proc, r, cnt)
                && AllMapped(pages, proc, r, cnt) && NoneMapped(old(pages), proc, r, cnt)
                && SameFrames(old(pages), old(ram), ram)
    {
      hide Paired; hide PoolOk; hide Inside; hide VirtOk; hide VirtsOk; hide Grown; hide SameFrames;
      hide AllMapped; hide NoneMapped; hide InRange; hide Frame; hide FirstRun; hide FreeRun; hide SetRange;
      hide Unmapped; hide ScanExact; hide AllSet;
      halted, r := true, -1;
      if cnt == 0 || 3840 <= cnt { return; }
      var bits := virt[proc];
      if AllSet(bits) { return; }
      var i := if cnt == 1 then FirstRun(bits, 1) else FirstRun(bits + [past], cnt);
      ScanIs(bits, past, cnt);
      if i == -1 { return false, -1; }
      r := Start(proc) + i;
      VirtOf(virt, kvStart, uvStart, pages, proc);
      FreshRun(bits, Start(proc), proc, pages, i, cnt);
      virt := virt[proc := SetRange(bits, i, cnt, true)];
      if proc != 0 && 0xbffff <= r { return; }
      var k := 0;
      NothingYet(pages, proc, r, ram);
      while k < cnt
        invariant 0 <= k <= cnt && virt == old(virt)[proc := SetRange(bits, i, cnt, true)]
        invariant |kbits| == old(|kbits|) && |ubits| == old(|ubits|)
        invariant PoolsOk() && Paired(pages, own) && Grown(old(pages), pages, proc, r, k)
        invariant SameFrames(old(pages), old(ram), ram) && AllMapped(pages, proc, r, k)
      {
        StillUnmapped(old(pages), pages, proc, r, k, cnt);
        ghost var p1, r1 := pages, ram;
        var f, table;
        halted, f, table := MapPage(proc, r + k);
        if halted { return; }
        GrownStep(old(pages), p1, pages, proc, r, k);
        SameFramesStep(old(pages), p1, proc, r, k, old(ram), r1, ram);
        AllMappedStep(p1, pages, proc, r, k);
        k := k + 1;
      }
      halted := false;
      VirtsMapped(old(virt), kvStart, uvStart, old(pages), pages, proc, i, cnt);
    }

    /** One turn of the loop in `mfree_page`: the frame goes back, the page is unmapped. */
    method UnmapPage(proc: nat, v: nat)
      requires PoolsOk() && Paired(pages, own) && Page(proc, v) in pages
      modifies this`kbits, this`ubits, this`pages, this`own
      ensures PoolsOk() && Paired(pages, own) && |kbits| == old(|kbits|) && |ubits| == old(|ubits|)
      ensures pages == old(pages) - {Page(proc, v)} && own == old(own) - {old(pages)[Page(proc, v)]}
    {
      hide PoolOk; hide Inside;
      PairDrop(pages, own, Page(proc, v));
      Pfree(pages[Page(proc, v)]);
      pages := pages - {Page(proc, v)};
    }

    /** `mfree_page`, of pages that are mapped. Its ASSERTs on the frames cannot fire. */
    method MfreePage(proc: nat, v: nat, cnt: nat) returns (halted: bool)
      requires Valid() && proc in virt && Start(proc) <= v && v + cnt <= Start(proc) + |virt[proc]|
      requires AllMapped(pages, proc, v, cnt)
      modifies this`kbits, this`ubits, this`virt, this`pages, this`own
      ensures halted <==> cnt == 0
      ensures |kbits| == old(|kbits|) && |ubits| == old(|ubits|)
      ensures !halted ==>
                && Valid() && pages == Unmapped(old(pages), proc, v, cnt)
                && virt == old(virt)[proc := SetRange(old(virt)[proc], v - Start(proc), cnt, false)]
    {
      hide Paired; hide PoolOk; hide Inside; hide VirtOk; hide VirtsOk; hide Grown; hide SameFrames;
      hide AllMapped; hide NoneMapped; hide InRange; hide Frame; hide FirstRun; hide FreeRun; hide SetRange;
      hide Unmapped; hide ScanExact; hide AllSet;
      if cnt == 0 { return true; }
      halted := true;
      AllMappedAt(pages, proc, v, cnt, 0);
      FrameOf(Page(proc, v));
      var inUser := ubase <= pages[Page(proc, v)];
      if pages[Page(proc, v)] < 0x102 { return; }
      NothingYet(pages, proc, v, ram);
      var k := 0;
      while k < cnt
        invariant 0 <= k <= cnt && virt == old(virt) && pages == Unmapped(old(pages), proc, v, k)
        invariant |kbits| == old(|kbits|) && |ubits| == old(|ubits|)
        invariant PoolsOk() && Paired(pages, own)
      {
        AllMappedAt(old(pages), proc, v, cnt, k);
        var f := pages[Page(proc, v + k)];
        FrameOf(Page(proc, v + k));
        if inUser && f < ubase { return; }
        if !inUser && !(kbase <= f < ubase) { return; }
        UnmapPage(proc, v + k);
        UnmappedStep(old(pages), proc, v, k);
        k := k + 1;
      }
      virt := virt[proc := SetRange(virt[proc], v - Start(proc), cnt, false)];
      halted := false;
      VirtsUnmapped(old(virt), kvStart, uvStart, old(pages), proc, v - Start(proc), cnt);
    }

    /** The frame of a use lies in the pool its use tells. */
    lemma FrameOf(u: Use)
      requires PoolsOk() && Paired(pages, own) && u in pages
      ensures pages[u] in own && own[pages[u]] == u && (FromUserPool(u) <==> ubase <= pages[u])
      ensures 0x102 <= kbase <= pages[u]
      ensures if ubase <= pages[u] then pages[u] < ubase + |ubits| else pages[u] < kbase + |kbits|
    {
      PoolsClear(kbits, kbase, ubits, ubase, own, pages[u]);
    }

    /** `pfree`: the bit of the frame is cleared in the pool its address lies in. */
    method Pfree(f: nat)
      requires PoolsOk() && f in own
      modifies this`kbits, this`ubits, this`own
      ensures PoolsOk() && own == old(own) - {f} && |kbits| == old(|kbits|) && |ubits| == old(|ubits|)
      ensures if FromUserPool(old(own)[f])
              then kbits == old(kbits) && 0 <= f - ubase < |ubits| && ubits == old(ubits)[f - ubase := false]
              else ubits == old(ubits) && 0 <= f - kbase < |kbits| && kbits == old(kbits)[f - kbase := false]
    {
      hide PoolOk; hide Inside;
      PoolsClear(kbits, kbase, ubits, ubase, own, f);
      if ubase <= f {
        ubits := ubits[f - ubase := false];
      } else {
        kbits := kbits[f - kbase := false];
      }
      own := own - {f};
    }

    /** Allocating pages and freeing them restores every bitmap, except that the frames of
        page tables made on the way stay taken from the kernel pool. */
    method MallocFree(proc: nat, cnt: nat, past: bool) returns (halted: bool, r: int)
      requires Valid() && proc in virt && ScanExact(virt[proc], past, cnt)
      modifies this
      ensures !halted ==>
                && Valid() && virt == old(virt) && ubits == old(ubits) && (proc == 0 ==> kbits == old(kbits))
                && Grown(old(pages), pages, proc, 0, 0) && |kbits| == old(|kbits|)
                && forall i :: 0 <= i < |kbits| && kbits[i] != old(kbits)[i] ==>
                     kbits[i] && kbase + i in own && own[kbase + i].Table? && own[kbase + i].proc == proc
                     && own[kbase + i] !in old(pages)
    {
      hide Paired; hide PoolOk; hide Inside; hide VirtOk; hide VirtsOk; hide Grown; hide SameFrames;
      hide AllMapped; hide NoneMapped; hide InRange; hide Frame; hide FirstRun; hide FreeRun; hide Unmapped;
      hide ScanExact; hide AllSet;
      NothingYet(pages, proc, 0, ram);
      halted, r := MallocPage(proc, cnt, past);
      if halted { return; }
      if r != -1 {
        ghost var p1, i := pages, r - Start(proc);
        RunFits(old(virt)[proc], i, cnt);
        SetRangeUndo(old(virt)[proc], i, cnt);
        halted := MfreePage(proc, r, cnt);
        GrownUnmapped(old(pages), p1, proc, r, cnt);
        assert virt == old(virt);
      }
      OnlyTablesNew(old(kbits), kbits, kbase, false, proc, old(pages), pages, old(own), own);
      OnlyTablesNew(old(ubits), ubits, ubase, true, proc, old(pages), pages, old(own), own);
    }

    /** One page of `copy_body_stack3`: read under the parent's tables, mapped and written
        under the child's. */
    method CopyPage(parent: nat, child: nat, v: nat) returns (halted: bool)
      requires PoolsOk() && Paired(pages, own) && Page(child, v) !in pages && Page(parent, v) in pages && child != 0
      modifies this`kbits, this`ubits, this`own, this`pages, this`ram
      ensures |kbits| == old(|kbits|) && |ubits| == old(|ubits|)
      ensures halted ==> AllSet(kbits) || AllSet(ubits)
      ensures !halted ==>
                && PoolsOk() && Paired(pages, own) && Page(child, v) in pages
                && Grown(old(pages), pages, child, v, 1) && SameFrames(old(pages), old(ram), ram)
                && Frame(ram, pages[Page(child, v)]) == Frame(old(ram), old(pages)[Page(parent, v)])
    {
      hide Paired; hide PoolOk; hide Inside; hide VirtOk; hide VirtsOk; hide Grown; hide SameFrames;
      hide AllMapped; hide NoneMapped; hide InRange; hide Frame; hide FirstRun; hide FreeRun; hide SetRange;
      hide Unmapped; hide ScanExact; hide AllSet;
      var buf := Frame(ram, pages[Page(parent, v)]);
      var f, table;
      halted, f, table := MapPage(child, v);
      if halted { return; }
      Overwrite(old(pages), pages, own, child, v, old(ram), ram, buf);
      ram := ram[pages[Page(child, v)] := buf];
    }

    /** `copy_body_stack3`, with the copy of the bitmap that `sys_fork` makes before it.
        `bytes` is the parent's bitmap. */
    method CopyBody(parent: nat, child: nat, bytes: seq<bv8>) returns (halted: bool)
      requires Valid() && parent in virt && parent != 0 && virt[parent] == BitsOf(bytes)
      requires child != 0 && child !in virt && NoPages(child, pages)
      modifies this
      ensures |kbits| == old(|kbits|) && |ubits| == old(|ubits|)
      ensures halted ==> AllSet(kbits) || AllSet(ubits)
      ensures !halted ==>
                && Valid() && virt == old(virt)[child := old(virt)[parent]]
                && Grown(old(pages), pages, child, uvStart, |virt[parent]|) && SameFrames(old(pages), old(ram), ram)
                && forall v :: uvStart <= v < uvStart + |virt[parent]| ==>
                     && (Page(child, v) in pages <==> virt[parent][v - uvStart])
                     && (Page(child, v) in pages ==>
                           && Page(parent, v) in old(pages)
                           && Frame(ram, pages[Page(child, v)]) == Frame(old(ram), old(pages)[Page(parent, v)])
                           && pages[Page(child, v)] !in old(own))
    {
      hide Paired; hide PoolOk; hide Inside; hide VirtOk; hide VirtsOk; hide Grown; hide SameFrames; hide Copied;
      hide NoPages; hide BitsOf; hide AllSet; hide Bit; hide InRange; hide Frame;
      var bits := virt[parent];
      virt := virt[child := bits];
      halted := false;
      var idxByte := 0;
      CopiedStart(bits, uvStart, parent, child, pages, ram);
      while idxByte < |bytes|
        invariant 0 <= idxByte <= |bytes| && virt == old(virt)[child := bits]
        invariant |kbits| == old(|kbits|) && |ubits| == old(|ubits|)
        invariant PoolsOk() && Paired(pages, own) && Grown(old(pages), pages, child, uvStart, 8 * idxByte)
        invariant SameFrames(old(pages), old(ram), ram)
        invariant Copied(bits, 8 * idxByte, uvStart, parent, child, old(pages), old(ram), pages, ram)
      {
        if bytes[idxByte] != 0 {
          halted := CopyByte(parent, child, bytes, idxByte, old(virt), old(pages), old(ram));
          if halted { return; }
        } else {
          ZeroByte(bytes, idxByte);
          CopiedNone(bits, 8 * idxByte, 8 * idxByte + 8, uvStart, parent, child, old(pages), old(ram), pages, ram);
        }
        idxByte := idxByte + 1;
      }
      VirtsForked(old(virt), kvStart, uvStart, parent, child, |bits|, old(pages), old(ram), pages, ram);
      CopiedFrames(bits, uvStart, parent, child, old(pages), old(own), old(ram), pages, own, ram);
    }

    /** The loop over the eight bits of one byte. */
    method CopyByte(parent: nat, child: nat, bytes: seq<bv8>, idxByte: nat, ghost virt0: map<nat, seq<bool>>,
                    ghost pages0: map<Use, nat>, ghost ram0: map<nat, Content>) returns (halted: bool)
      requires idxByte < |bytes| && parent != 0 && child != 0 && NoPages(child, pages0)
      requires parent in virt0 && virt0[parent] == BitsOf(bytes) && VirtsOk(virt0, kvStart, uvStart, pages0)
      requires PoolsOk() && Paired(pages, own) && Grown(pages0, pages, child, uvStart, 8 * idxByte)
      requires SameFrames(pages0, ram0, ram)
      requires Copied(BitsOf(bytes), 8 * idxByte, uvStart, parent, child, pages0, ram0, pages, ram)
      modifies this`kbits, this`ubits, this`own, this`pages, this`ram
      ensures |kbits| == old(|kbits|) && |ubits| == old(|ubits|)
      ensures halted ==> AllSet(kbits) || AllSet(ubits)
      ensures !halted ==>
                && PoolsOk() && Paired(pages, own) && Grown(pages0, pages, child, uvStart, 8 * idxByte + 8)
                && SameFrames(pages0, ram0, ram)
                && Copied(BitsOf(bytes), 8 * idxByte + 8, uvStart, parent, child, pages0, ram0, pages, ram)
    {
      hide Paired; hide PoolOk; hide Inside; hide VirtOk; hide VirtsOk; hide Grown; hide SameFrames; hide Copied;
      hide NoPages; hide BitsOf; hide AllSet; hide Bit; hide InRange; hide Frame;
      ghost var bits := virt0[parent];
      halted := false;
      var idxBit := 0;
      while idxBit < 8
        invariant 0 <= idxBit <= 8
        invariant |kbits| == old(|kbits|) && |ubits| == old(|ubits|)
        invariant PoolsOk() && Paired(pages, own) && Grown(pages0, pages, child, uvStart, 8 * idxByte + idxBit)
        invariant SameFrames(pages0, ram0, ram)
        invariant Copied(bits, 8 * idxByte + idxBit, uvStart, parent, child, pages0, ram0, pages, ram)
      {
        ghost var n := 8 * idxByte + idxBit;
        BitIs(bytes, idxByte, idxBit);
        if Bit(bytes[idxByte], idxBit) {
          var v := (idxByte * 8 + idxBit) + uvStart;
          ghost var p1, r1 := pages, ram;
          VirtOf(virt0, kvStart, uvStart, pages0, parent);
          ReadyToCopy(bits, n, uvStart, parent, child, pages0, ram0, pages, ram);
          halted := CopyPage(parent, child, v);
          if halted { return; }
          CopiedOne(bits, n, uvStart, parent, child, pages0, ram0, p1, r1, pages, ram);
          GrownStep(pages0, p1, pages, child, uvStart, n);
          SameFramesStep(pages0, p1, child, uvStart, n, ram0, r1, ram);
        } else {
          CopiedNone(bits, n, n + 1, uvStart, parent, child, pages0, ram0, pages, ram);
        }
        idxBit := idxBit + 1;
      }
    }
  }
}
