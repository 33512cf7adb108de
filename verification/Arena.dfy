/** The arena heap (kernel/memory.c: `sys_malloc`, `sys_free` and what they are made of).

    An arena is a page run that starts with a 12-byte header. A small arena is cut into
    equal blocks that are on the free list of their size class or in use; a large one
    serves one request. Headers are kept in `arenas`, by page number, and free-list links
    are kept in `free`: `LiveApart` and `BlockInside` show that no block in use covers
    them. `live` records every block handed out and the size asked for. */
module Arenas {
  import opened Queues

  const PG_SIZE := 4096
  const HEADER := 12
  const DESC_CNT := 7

  datatype Arena = Small(desc: nat, cnt: nat) | Large(pages: nat)

  /** The seven size classes. */
  function BlockSize(d: nat): nat {
    if d == 0 then 16 else if d == 1 then 32 else if d == 2 then 64 else if d == 3 then 128
    else if d == 4 then 256 else if d == 5 then 512 else 1024
  }

  /** How many blocks fit behind the header. */
  function PerArena(d: nat): nat {
    if d == 0 then 255 else if d == 1 then 127 else if d == 2 then 63 else if d == 3 then 31
    else if d == 4 then 15 else if d == 5 then 7 else 3
  }

  /** `block_desc_init`. */
  method BlockDescInit() returns (sizes: seq<nat>, counts: seq<nat>)
    ensures sizes == seq(DESC_CNT, (d: nat) => BlockSize(d)) && counts == seq(DESC_CNT, (d: nat) => PerArena(d))
    ensures sizes == [16, 32, 64, 128, 256, 512, 1024] && counts == [255, 127, 63, 31, 15, 7, 3]
  {
    sizes, counts := [], [];
    var idx, blockSize := 0, 16;
    while idx < DESC_CNT
      invariant 0 <= idx <= DESC_CNT && (idx < DESC_CNT ==> blockSize == BlockSize(idx))
      invariant sizes == seq(idx, (d: nat) => BlockSize(d)) && counts == seq(idx, (d: nat) => PerArena(d))
    {
      sizes := sizes + [blockSize];
      counts := counts + [(PG_SIZE - HEADER) / blockSize];
      blockSize := blockSize * 2;
      idx := idx + 1;
    }
  }

  /** `arena2block`. */
  function Addr(p: nat, d: nat, i: nat): nat {
    p * PG_SIZE + HEADER + i * BlockSize(d)
  }

  /** `block2arena`. */
  function ArenaOf(b: nat): nat {
    b / PG_SIZE
  }

  /** A block lies inside its page and clear of the header, and its address names the
      arena. */
  lemma BlockInside(p: nat, d: nat, i: nat)
    requires d < DESC_CNT && i < PerArena(d)
    ensures p * PG_SIZE + HEADER <= Addr(p, d, i) && Addr(p, d, i) + BlockSize(d) <= (p + 1) * PG_SIZE
    ensures ArenaOf(Addr(p, d, i)) == p
  {
    var s, n := BlockSize(d), PerArena(d);
    assert n * s <= PG_SIZE - HEADER;
    Times(i + 1, n, s);
    assert (i + 1) * s == i * s + s;
  }

  lemma Times(i: nat, j: nat, s: nat)
    requires i <= j
    ensures i * s <= j * s
  {
  }

  /** Blocks of one arena do not overlap. */
  lemma BlocksApart(p: nat, d: nat, i: nat, j: nat)
    requires i < j
    ensures Addr(p, d, i) + BlockSize(d) <= Addr(p, d, j)
  {
    Times(i + 1, j, BlockSize(d));
    assert (i + 1) * BlockSize(d) == i * BlockSize(d) + BlockSize(d);
  }

  lemma AddrInjective(p: nat, d: nat, i: nat, j: nat)
    requires Addr(p, d, i) == Addr(p, d, j)
    ensures i == j
  {
    if i < j { BlocksApart(p, d, i, j); } else if j < i { BlocksApart(p, d, j, i); }
  }

  ghost predicate IsBlock(b: nat, p: nat, d: nat) {
    exists i: nat :: i < PerArena(d) && b == Addr(p, d, i)
  }

  /** How many of an arena's first n blocks are on the list. */
  ghost function FreeIn(list: seq<nat>, p: nat, d: nat, n: nat): nat {
    if n == 0 then 0 else FreeIn(list, p, d, n - 1) + if Addr(p, d, n - 1) in list then 1 else 0
  }

  lemma {:induction false} FreeInBounds(list: seq<nat>, p: nat, d: nat, n: nat)
    ensures FreeIn(list, p, d, n) <= n
    ensures FreeIn(list, p, d, n) == n <==> forall i: nat :: i < n ==> Addr(p, d, i) in list
  {
    if n > 0 { FreeInBounds(list, p, d, n - 1); }
  }

  /** Lists that agree on an arena's blocks agree on its count. */
  lemma {:induction false} FreeInSame(list: seq<nat>, list': seq<nat>, p: nat, d: nat, n: nat)
    requires forall i: nat :: i < n ==> (Addr(p, d, i) in list <==> Addr(p, d, i) in list')
    ensures FreeIn(list, p, d, n) == FreeIn(list', p, d, n)
  {
    if n > 0 { FreeInSame(list, list', p, d, n - 1); }
  }

  /** One block more on the list is one more counted. */
  lemma {:induction false} FreeInMore(list: seq<nat>, list': seq<nat>, p: nat, d: nat, n: nat, k: nat)
    requires k < n && Addr(p, d, k) !in list
    requires forall b :: b in list' <==> b in list || b == Addr(p, d, k)
    ensures FreeIn(list', p, d, n) == FreeIn(list, p, d, n) + 1
  {
    forall i: nat | i < n && i != k ensures Addr(p, d, i) != Addr(p, d, k) {
      if Addr(p, d, i) == Addr(p, d, k) { AddrInjective(p, d, i, k); }
    }
    if k < n - 1 {
      FreeInMore(list, list', p, d, n - 1, k);
    } else {
      FreeInSame(list, list', p, d, n - 1);
    }
  }

  // ---------------------------------------------------------------- the invariant

  function PagesOf(a: Arena): nat {
    if a.Small? then 1 else a.pages
  }

  ghost predicate ArenaOk(p: nat, a: Arena, free: seq<seq<nat>>, live: map<nat, nat>) {
    match a
    case Small(d, cnt) =>
      && d < DESC_CNT && d < |free| && cnt == FreeIn(free[d], p, d, PerArena(d))
      && forall i: nat :: i < PerArena(d) ==> (Addr(p, d, i) in free[d] <==> Addr(p, d, i) !in live)
    case Large(n) =>
      n > 0 && p * PG_SIZE + HEADER in live
  }

  ghost predicate LiveOk(b: nat, size: nat, arenas: map<nat, Arena>) {
    && ArenaOf(b) in arenas && size > 0
    && match arenas[ArenaOf(b)]
       case Small(d, _) => d < DESC_CNT && IsBlock(b, ArenaOf(b), d) && size <= BlockSize(d)
       case Large(n) => b == ArenaOf(b) * PG_SIZE + HEADER && HEADER + size <= n * PG_SIZE
  }

  ghost predicate FreeOk(b: nat, d: nat, arenas: map<nat, Arena>) {
    ArenaOf(b) in arenas && arenas[ArenaOf(b)].Small? && arenas[ArenaOf(b)].desc == d && IsBlock(b, ArenaOf(b), d)
  }

  ghost predicate ArenasOk(arenas: map<nat, Arena>, free: seq<seq<nat>>, live: map<nat, nat>) {
    forall p :: p in arenas ==> ArenaOk(p, arenas[p], free, live)
  }

  ghost predicate LivesOk(arenas: map<nat, Arena>, live: map<nat, nat>) {
    forall b :: b in live ==> LiveOk(b, live[b], arenas)
  }

  ghost predicate ListsOk(arenas: map<nat, Arena>, free: seq<seq<nat>>) {
    && |free| == DESC_CNT
    && (forall d :: 0 <= d < |free| ==> Distinct(free[d]))
    && (forall d, b :: 0 <= d < |free| && b in free[d] ==> FreeOk(b, d, arenas))
  }

  /** Arenas take pages of their own, from the start of the heap on. */
  ghost predicate Placed(arenas: map<nat, Arena>, start: nat) {
    && (forall p :: p in arenas ==> start <= p)
    && (forall p, q :: p in arenas && q in arenas && p < q ==> p + PagesOf(arenas[p]) <= q)
  }

  ghost predicate HeapOk(arenas: map<nat, Arena>, free: seq<seq<nat>>, live: map<nat, nat>, start: nat) {
    ArenasOk(arenas, free, live) && LivesOk(arenas, live) && ListsOk(arenas, free) && Placed(arenas, start)
  }

  /** No small arena, except the one at `but`, has all its blocks free. */
  ghost predicate NoneIdle(arenas: map<nat, Arena>, but: int) {
    forall p :: p in arenas && p != but && arenas[p].Small? ==> arenas[p].cnt < PerArena(arenas[p].desc)
  }

  // ---------------------------------------------------------------- what it means

  /** Live blocks are pairwise disjoint. */
  lemma LiveApart(arenas: map<nat, Arena>, free: seq<seq<nat>>, live: map<nat, nat>, start: nat, b: nat, c: nat)
    requires HeapOk(arenas, free, live, start) && b in live && c in live && b < c
    ensures b + live[b] <= c
  {
    hide ArenasOk; hide ListsOk; hide IsBlock; hide BlockSize;
    var p, q := ArenaOf(b), ArenaOf(c);
    assert LiveOk(b, live[b], arenas) && LiveOk(c, live[c], arenas);
    if p != q {
      LiveInside(arenas, free, live, start, b);
    } else if arenas[p].Small? {
      IsBlockApart(b, c, p, arenas[p].desc);
    }
  }

  lemma IsBlockApart(b: nat, c: nat, p: nat, d: nat)
    requires IsBlock(b, p, d) && IsBlock(c, p, d) && b < c
    ensures b + BlockSize(d) <= c
  {
    hide BlockSize; hide PerArena;
    var i: nat :| i < PerArena(d) && b == Addr(p, d, i);
    var j: nat :| j < PerArena(d) && c == Addr(p, d, j);
    if j < i { BlocksApart(p, d, j, i); }
    if i < j { BlocksApart(p, d, i, j); }
  }

  /** And no live block covers the header of any arena. */
  lemma HeaderClear(arenas: map<nat, Arena>, free: seq<seq<nat>>, live: map<nat, nat>, start: nat, b: nat, q: nat)
    requires HeapOk(arenas, free, live, start) && b in live && q in arenas
    ensures b + live[b] <= q * PG_SIZE || q * PG_SIZE + HEADER <= b
  {
    hide ArenasOk; hide LivesOk; hide ListsOk; hide Placed;
    LiveInside(arenas, free, live, start, b);
    if ArenaOf(b) != q { PlacedApart(arenas, start, ArenaOf(b), q); }
  }

  lemma PlacedApart(arenas: map<nat, Arena>, start: nat, p: nat, q: nat)
    requires Placed(arenas, start) && p in arenas && q in arenas && p != q
    ensures p + PagesOf(arenas[p]) <= q || q < p
  {
  }

  /** A live block lies in the pages of its arena, past the header. */
  lemma LiveInside(arenas: map<nat, Arena>, free: seq<seq<nat>>, live: map<nat, nat>, start: nat, b: nat)
    requires HeapOk(arenas, free, live, start) && b in live
    ensures var p := ArenaOf(b);
            && p in arenas && p * PG_SIZE + HEADER <= b
            && b + live[b] <= (p + PagesOf(arenas[p])) * PG_SIZE
  {
    hide ArenasOk; hide ListsOk; hide Placed; hide BlockSize; hide PerArena;
    var p := ArenaOf(b);
    assert LiveOk(b, live[b], arenas);
    match arenas[p] {
      case Small(d, _) =>
        var i: nat :| i < PerArena(d) && b == Addr(p, d, i);
        BlockInside(p, d, i);
      case Large(_) =>
    }
  }

  /** A heap with nothing live holds no page. */
  lemma NothingLeft(arenas: map<nat, Arena>, free: seq<seq<nat>>, live: map<nat, nat>, start: nat)
    requires HeapOk(arenas, free, live, start) && NoneIdle(arenas, -1) && live == map[]
    ensures arenas == map[] && forall d, b :: 0 <= d < |free| ==> b !in free[d]
  {
    hide LivesOk; hide Placed; hide Distinct; hide IsBlock; hide PerArena; hide BlockSize; hide Addr; hide ArenaOf;
    forall p | p in arenas ensures false {
      assert ArenaOk(p, arenas[p], free, live);
      if arenas[p].Small? {
        FreeInBounds(free[arenas[p].desc], p, arenas[p].desc, PerArena(arenas[p].desc));
      }
    }
  }

  // ---------------------------------------------------------------- steps on values

  /** Blocks of the other arenas, seen from one of them. */
  lemma OtherArena(b: nat, p: nat, q: nat, d: nat, e: nat)
    requires IsBlock(b, p, d) && d < DESC_CNT && e < DESC_CNT && q != p
    ensures ArenaOf(b) == p && forall i: nat :: i < PerArena(e) ==> Addr(q, e, i) != b
  {
    hide PerArena; hide BlockSize;
    var k: nat :| k < PerArena(d) && b == Addr(p, d, k);
    BlockInside(p, d, k);
    forall i: nat | i < PerArena(e) ensures Addr(q, e, i) != b { BlockInside(q, e, i); }
  }

  /** An arena is as well off under lists and live blocks that agree on its blocks. */
  lemma ArenaKept(p: nat, a: Arena, free: seq<seq<nat>>, free': seq<seq<nat>>, live: map<nat, nat>,
                  live': map<nat, nat>)
    requires ArenaOk(p, a, free, live) && |free| == |free'|
    requires a.Small? ==> forall i: nat :: i < PerArena(a.desc) ==>
               var b := Addr(p, a.desc, i);
               (b in free[a.desc] <==> b in free'[a.desc]) && (b in live <==> b in live')
    requires a.Large? ==> p * PG_SIZE + HEADER in live ==> p * PG_SIZE + HEADER in live'
    ensures ArenaOk(p, a, free', live')
  {
    hide PerArena; hide BlockSize;
    if a.Small? { FreeInSame(free[a.desc], free'[a.desc], p, a.desc, PerArena(a.desc)); }
  }

  /** Blocks of arena `p` move between its free list and the live blocks; nothing else
      changes for the other arenas. */
  lemma OthersKept(arenas: map<nat, Arena>, arenas': map<nat, Arena>, p: nat, d: nat, b: nat,
                   free: seq<seq<nat>>, list: seq<nat>, live: map<nat, nat>, live': map<nat, nat>)
    requires ArenasOk(arenas, free, live) && p in arenas && arenas[p].Small? && arenas[p].desc == d
    requires d < |free| == DESC_CNT && IsBlock(b, p, d)
    requires arenas'.Keys == arenas.Keys && (forall q :: q in arenas && q != p ==> arenas'[q] == arenas[q])
    requires forall c :: c != b ==> (c in list <==> c in free[d]) && (c in live' <==> c in live)
    ensures forall q :: q in arenas && q != p ==> ArenaOk(q, arenas'[q], free[d := list], live')
  {
    hide PerArena; hide BlockSize; hide IsBlock;
    forall q | q in arenas && q != p ensures ArenaOk(q, arenas'[q], free[d := list], live') {
      var a := arenas[q];
      assert ArenaOk(q, a, free, live) && ArenaOk(p, arenas[p], free, live);
      if a.Small? { OtherArena(b, p, q, d, a.desc); } else { NotLarge(b, p, q, d); }
      ArenaKept(q, a, free, free[d := list], live, live');
    }
  }

  lemma NotLarge(b: nat, p: nat, q: nat, d: nat)
    requires IsBlock(b, p, d) && d < DESC_CNT && q != p
    ensures b != q * PG_SIZE + HEADER
  {
    hide PerArena; hide BlockSize;
    var k: nat :| k < PerArena(d) && b == Addr(p, d, k);
    BlockInside(p, d, k);
  }

  /** The header of one small arena changes its count only. */
  lemma SameShape(arenas: map<nat, Arena>, p: nat, cnt: nat, free: seq<seq<nat>>, live: map<nat, nat>, start: nat)
    requires p in arenas && arenas[p].Small?
    ensures var arenas' := arenas[p := Small(arenas[p].desc, cnt)];
            && (Placed(arenas, start) ==> Placed(arenas', start))
            && (LivesOk(arenas, live) ==> LivesOk(arenas', live))
            && (ListsOk(arenas, free) ==> ListsOk(arenas', free))
  {
    hide IsBlock; hide BlockSize; hide ArenaOf;
    var arenas' := arenas[p := Small(arenas[p].desc, cnt)];
    assert forall b, size :: LiveOk(b, size, arenas) ==> LiveOk(b, size, arenas');
    assert forall b, d :: FreeOk(b, d, arenas) ==> FreeOk(b, d, arenas');
  }

  /** A free block is handed out. */
  lemma Take(arenas: map<nat, Arena>, free: seq<seq<nat>>, live: map<nat, nat>, start: nat, d: nat, size: nat)
    requires HeapOk(arenas, free, live, start) && d < DESC_CNT && free[d] != [] && 0 < size <= BlockSize(d)
    ensures var b := free[d][0]; var p := ArenaOf(b);
            && p in arenas && arenas[p].Small? && arenas[p].desc == d && 0 < arenas[p].cnt <= PerArena(d) && b !in live
            && HeapOk(arenas[p := Small(d, arenas[p].cnt - 1)], free[d := free[d][1..]], live[b := size], start)
  {
    hide IsBlock; hide BlockSize; hide PerArena; hide Placed; hide FreeIn; hide Distinct; hide ArenaOf;
    var b, list := free[d][0], free[d][1..];
    var p := ArenaOf(b);
    assert b in free[d] && FreeOk(b, d, arenas) && ArenaOk(p, arenas[p], free, live);
    PopFirst(free[d]);
    TakeArena(p, arenas[p], free, list, live, b, size);
    var arenas' := arenas[p := Small(d, arenas[p].cnt - 1)];
    OthersKept(arenas, arenas', p, d, b, free, list, live, live[b := size]);
    SameShape(arenas, p, arenas[p].cnt - 1, free[d := list], live[b := size], start);
  }

  lemma TakeArena(p: nat, a: Arena, free: seq<seq<nat>>, list: seq<nat>, live: map<nat, nat>, b: nat, size: nat)
    requires a.Small? && ArenaOk(p, a, free, live) && IsBlock(b, p, a.desc)
    requires b !in list && forall c :: c in free[a.desc] <==> c == b || c in list
    ensures 0 < a.cnt <= PerArena(a.desc) && b !in live
    ensures ArenaOk(p, Small(a.desc, a.cnt - 1), free[a.desc := list], live[b := size])
  {
    hide BlockSize; hide PerArena;
    var i: nat :| i < PerArena(a.desc) && b == Addr(p, a.desc, i);
    FreeInMore(list, free[a.desc], p, a.desc, PerArena(a.desc), i);
    FreeInBounds(free[a.desc], p, a.desc, PerArena(a.desc));
  }

  /** The arena that `block2arena` finds for a live block. */
  lemma LiveArena(arenas: map<nat, Arena>, free: seq<seq<nat>>, live: map<nat, nat>, start: nat, b: nat)
    requires HeapOk(arenas, free, live, start) && b in live
    ensures var p := ArenaOf(b);
            && p in arenas && start <= p && start * PG_SIZE <= b && 0 < b && |free| == DESC_CNT
            && match arenas[p]
               case Large(_) => b == p * PG_SIZE + HEADER
               case Small(d, _) => d < DESC_CNT && FreeOk(b, d, arenas)
  {
    hide IsBlock; hide BlockSize; hide PerArena; hide ArenasOk; hide FreeIn; hide Distinct;
    assert LiveOk(b, live[b], arenas);
    LiveInside(arenas, free, live, start, b);
  }

  /** A block comes back to its list. */
  lemma Give(arenas: map<nat, Arena>, free: seq<seq<nat>>, live: map<nat, nat>, start: nat, b: nat, p: nat)
    requires HeapOk(arenas, free, live, start) && b in live && p in arenas && p == ArenaOf(b) && arenas[p].Small?
    ensures var Small(d, cnt) := arenas[p];
            && d < |free| && cnt < PerArena(d)
            && HeapOk(arenas[p := Small(d, cnt + 1)], free[d := free[d] + [b]], live - {b}, start)
  {
    hide IsBlock; hide BlockSize; hide PerArena; hide FreeIn; hide Distinct; hide ArenaOf; hide LiveOk;
    hide Placed; hide ArenaOk;
    LiveArena(arenas, free, live, start, b);
    assert ArenaOk(p, arenas[p], free, live);
    var d, cnt := arenas[p].desc, arenas[p].cnt;
    GiveArena(p, arenas[p], free, live, b);
    DistinctAppend(free[d], b);
    OthersKept(arenas, arenas[p := Small(d, cnt + 1)], p, d, b, free, free[d] + [b], live, live - {b});
    GiveRest(arenas, free, live, d, b);
    SameShape(arenas, p, cnt + 1, free[d := free[d] + [b]], live - {b}, start);
  }

  lemma GiveRest(arenas: map<nat, Arena>, free: seq<seq<nat>>, live: map<nat, nat>, d: nat, b: nat)
    requires LivesOk(arenas, live) && ListsOk(arenas, free) && d < |free| && FreeOk(b, d, arenas)
    requires Distinct(free[d] + [b])
    ensures LivesOk(arenas, live - {b}) && ListsOk(arenas, free[d := free[d] + [b]])
  {
    hide FreeOk; hide LiveOk; hide Distinct;
  }

  lemma GiveArena(p: nat, a: Arena, free: seq<seq<nat>>, live: map<nat, nat>, b: nat)
    requires a.Small? && ArenaOk(p, a, free, live) && IsBlock(b, p, a.desc) && b in live
    ensures a.cnt < PerArena(a.desc) && b !in free[a.desc]
    ensures ArenaOk(p, Small(a.desc, a.cnt + 1), free[a.desc := free[a.desc] + [b]], live - {b})
  {
    hide BlockSize; hide PerArena;
    var d, n := a.desc, PerArena(a.desc);
    var i: nat :| i < PerArena(d) && b == Addr(p, d, i);
    var list := free[d] + [b];
    assert forall c :: c in list <==> c in free[d] || c == b;
    FreeInMore(free[d], list, p, d, n, i);
    FreeInBounds(list, p, d, n);
  }

  // ---------------------------------------------------------------- arenas come and go

  /** No arena reaches into the n pages from p on. */
  ghost predicate Unused(arenas: map<nat, Arena>, p: nat, n: nat) {
    forall q :: q in arenas ==> q + PagesOf(arenas[q]) <= p || p + n <= q
  }

  /** The first n blocks of an arena, in the order they are cut. */
  function Blocks(p: nat, d: nat, n: nat): seq<nat> {
    seq(n, (i: nat) => Addr(p, d, i))
  }

  lemma PlacedAdd(arenas: map<nat, Arena>, start: nat, p: nat, a: Arena)
    requires Placed(arenas, start) && Unused(arenas, p, PagesOf(a)) && start <= p && PagesOf(a) > 0
    requires forall q :: q in arenas ==> PagesOf(arenas[q]) > 0
    ensures p !in arenas && Placed(arenas[p := a], start)
  {
  }

  lemma LivesAdd(arenas: map<nat, Arena>, live: map<nat, nat>, p: nat, a: Arena)
    requires LivesOk(arenas, live) && p !in arenas
    ensures LivesOk(arenas[p := a], live) && forall b :: b in live ==> ArenaOf(b) != p
  {
    hide IsBlock; hide ArenaOf; hide BlockSize;
    assert forall b, size :: LiveOk(b, size, arenas) ==> ArenaOf(b) != p && LiveOk(b, size, arenas[p := a]);
  }

  lemma PagesPositive(arenas: map<nat, Arena>, free: seq<seq<nat>>, live: map<nat, nat>)
    requires ArenasOk(arenas, free, live)
    ensures forall q :: q in arenas ==> PagesOf(arenas[q]) > 0
  {
    hide FreeIn; hide Addr; hide PerArena;
    assert forall q :: q in arenas ==> ArenaOk(q, arenas[q], free, live);
  }

  lemma AddArena(arenas: map<nat, Arena>, free: seq<seq<nat>>, live: map<nat, nat>, start: nat, p: nat, d: nat)
    requires HeapOk(arenas, free, live, start) && d < DESC_CNT && free[d] == []
    requires Unused(arenas, p, 1) && start <= p
    ensures p !in arenas
    ensures HeapOk(arenas[p := Small(d, PerArena(d))], free[d := Blocks(p, d, PerArena(d))], live, start)
  {
    hide PerArena; hide BlockSize; hide ArenaOk; hide LiveOk; hide Placed; hide FreeOk; hide Distinct; hide Unused;
    hide Blocks; hide ArenaOf;
    var a, list := Small(d, PerArena(d)), Blocks(p, d, PerArena(d));
    PagesPositive(arenas, free, live);
    PlacedAdd(arenas, start, p, a);
    LivesAdd(arenas, live, p, a);
    AddBlocks(p, d, free, live);
    assert ListsOk(arenas[p := a], free[d := list]) by { ListsAdd(arenas, free, p, d); }
    forall q | q in arenas ensures ArenaOk(q, arenas[q], free[d := list], live) {
      assert ArenaOk(q, arenas[q], free, live);
      BlocksElsewhere(p, d, q, arenas[q], free, live);
    }
  }

  lemma BlocksElsewhere(p: nat, d: nat, q: nat, a: Arena, free: seq<seq<nat>>, live: map<nat, nat>)
    requires d < DESC_CNT == |free| && free[d] == [] && q != p && ArenaOk(q, a, free, live)
    ensures ArenaOk(q, a, free[d := Blocks(p, d, PerArena(d))], live)
  {
    hide PerArena; hide BlockSize;
    var list := Blocks(p, d, PerArena(d));
    if a.Small? {
      forall i: nat | i < PerArena(a.desc) ensures Addr(q, a.desc, i) !in list {
        if Addr(q, a.desc, i) in list {
          var k: nat :| k < |list| && list[k] == Addr(q, a.desc, i);
          BlockInside(p, d, k);
          BlockInside(q, a.desc, i);
        }
      }
    }
    ArenaKept(q, a, free, free[d := list], live, live);
  }

  lemma AddBlocks(p: nat, d: nat, free: seq<seq<nat>>, live: map<nat, nat>)
    requires d < DESC_CNT == |free| && forall b :: b in live ==> ArenaOf(b) != p
    ensures ArenaOk(p, Small(d, PerArena(d)), free[d := Blocks(p, d, PerArena(d))], live)
  {
    hide PerArena; hide BlockSize;
    var n := PerArena(d);
    var list := Blocks(p, d, n);
    forall i: nat | i < n ensures Addr(p, d, i) in list && Addr(p, d, i) !in live {
      assert list[i] == Addr(p, d, i);
      BlockInside(p, d, i);
    }
    FreeInBounds(list, p, d, n);
  }

  /** Blocks cut from one arena are distinct, so the ASSERT on each of them holds. */
  lemma BlocksDistinct(p: nat, d: nat, n: nat)
    ensures Distinct(Blocks(p, d, n)) && Addr(p, d, n) !in Blocks(p, d, n)
    ensures Blocks(p, d, n) + [Addr(p, d, n)] == Blocks(p, d, n + 1)
  {
    hide BlockSize;
    forall i, j | 0 <= i < j <= n ensures Addr(p, d, i) != Addr(p, d, j) {
      if Addr(p, d, i) == Addr(p, d, j) { AddrInjective(p, d, i, j); }
    }
  }

  lemma ListsAdd(arenas: map<nat, Arena>, free: seq<seq<nat>>, p: nat, d: nat)
    requires ListsOk(arenas, free) && p !in arenas && d < |free|
    ensures ListsOk(arenas[p := Small(d, PerArena(d))], free[d := Blocks(p, d, PerArena(d))])
  {
    hide BlockSize; hide PerArena; hide Addr; hide ArenaOf; hide Distinct;
    var a, list := Small(d, PerArena(d)), Blocks(p, d, PerArena(d));
    BlocksDistinct(p, d, PerArena(d));
    forall b | b in list ensures FreeOk(b, d, arenas[p := a]) {
      var k: nat :| k < |list| && list[k] == b;
      BlockInside(p, d, k);
      assert b == Addr(p, d, k);
    }
    assert forall b, e :: FreeOk(b, e, arenas) ==> FreeOk(b, e, arenas[p := a]);
  }

  /** A list without the blocks of arena `p`. */
  ghost predicate Cleared(list: seq<nat>, was: seq<nat>, p: nat) {
    Distinct(list) && forall b :: b in list <==> b in was && ArenaOf(b) != p
  }

  lemma DropArena(arenas: map<nat, Arena>, free: seq<seq<nat>>, live: map<nat, nat>, start: nat, p: nat, list: seq<nat>)
    requires HeapOk(arenas, free, live, start) && p in arenas && arenas[p].Small?
    requires arenas[p].desc < |free| && arenas[p].cnt == PerArena(arenas[p].desc)
    requires Cleared(list, free[arenas[p].desc], p)
    ensures HeapOk(arenas - {p}, free[arenas[p].desc := list], live, start)
  {
    hide PerArena; hide BlockSize; hide ArenaOk; hide LiveOk; hide FreeOk; hide Distinct; hide Cleared;
    var d := arenas[p].desc;
    var arenas' := arenas - {p};
    assert ArenaOk(p, arenas[p], free, live);
    forall b | b in live ensures LiveOk(b, live[b], arenas') {
      assert LiveOk(b, live[b], arenas);
      IdleHasNoLive(arenas, p, free, live, b);
    }
    ListsDrop(arenas, free, p, list);
    forall q | q in arenas' ensures ArenaOk(q, arenas'[q], free[d := list], live) {
      assert ArenaOk(q, arenas[q], free, live);
      ClearedElsewhere(p, q, arenas[q], free, live, d, list);
    }
  }

  lemma IdleHasNoLive(arenas: map<nat, Arena>, p: nat, free: seq<seq<nat>>, live: map<nat, nat>, b: nat)
    requires p in arenas && arenas[p].Small? && ArenaOk(p, arenas[p], free, live)
    requires arenas[p].cnt == PerArena(arenas[p].desc) && b in live && LiveOk(b, live[b], arenas)
    ensures LiveOk(b, live[b], arenas - {p})
  {
    hide PerArena; hide BlockSize;
    FreeInBounds(free[arenas[p].desc], p, arenas[p].desc, PerArena(arenas[p].desc));
  }

  lemma ClearedElsewhere(p: nat, q: nat, a: Arena, free: seq<seq<nat>>, live: map<nat, nat>, d: nat, list: seq<nat>)
    requires ArenaOk(q, a, free, live) && q != p && d < |free| && Cleared(list, free[d], p)
    ensures ArenaOk(q, a, free[d := list], live)
  {
    hide PerArena; hide BlockSize; hide Distinct; hide ArenaOf;
    if a.Small? {
      forall i: nat | i < PerArena(a.desc) ensures ArenaOf(Addr(q, a.desc, i)) == q { BlockInside(q, a.desc, i); }
    }
    ArenaKept(q, a, free, free[d := list], live, live);
  }

  lemma ListsDrop(arenas: map<nat, Arena>, free: seq<seq<nat>>, p: nat, list: seq<nat>)
    requires ListsOk(arenas, free) && p in arenas && arenas[p].Small? && arenas[p].desc < |free|
    requires Cleared(list, free[arenas[p].desc], p)
    ensures ListsOk(arenas - {p}, free[arenas[p].desc := list])
  {
    hide IsBlock; hide ArenaOf; hide Distinct;
    var d, arenas' := arenas[p].desc, arenas - {p};
    forall e, b | 0 <= e < |free| && b in free[d := list][e] ensures FreeOk(b, e, arenas') {
      assert FreeOk(b, e, arenas);
    }
  }

  lemma AddLarge(arenas: map<nat, Arena>, free: seq<seq<nat>>, live: map<nat, nat>, start: nat, p: nat, n: nat,
        size: nat)
    requires HeapOk(arenas, free, live, start) && Unused(arenas, p, n) && start <= p
    requires n > 0 && 0 < size && HEADER + size <= n * PG_SIZE
    ensures var b := p * PG_SIZE + HEADER;
            p !in arenas && b !in live && HeapOk(arenas[p := Large(n)], free, live[b := size], start)
  {
    hide PerArena; hide BlockSize; hide ArenaOk; hide LiveOk; hide Placed; hide FreeOk; hide Distinct; hide Unused;
    hide ArenaOf;
    var b, a := p * PG_SIZE + HEADER, Large(n);
    PagesPositive(arenas, free, live);
    PlacedAdd(arenas, start, p, a);
    LivesAdd(arenas, live, p, a);
    LargeBlock(arenas, p, n, size);
    ListsKeep(arenas, free, p, a);
    forall q | q in arenas ensures ArenaOk(q, arenas[q], free, live[b := size]) {
      assert ArenaOk(q, arenas[q], free, live);
      LargeElsewhere(p, q, arenas[q], free, live, live[b := size]);
    }
    assert ArenaOk(p, a, free, live[b := size]) by { LargeOk(p, n, free, live[b := size]); }
  }

  lemma LargeOk(p: nat, n: nat, free: seq<seq<nat>>, live: map<nat, nat>)
    requires n > 0 && p * PG_SIZE + HEADER in live
    ensures ArenaOk(p, Large(n), free, live)
  {
  }

  lemma LargeBlock(arenas: map<nat, Arena>, p: nat, n: nat, size: nat)
    requires 0 < size && HEADER + size <= n * PG_SIZE
    ensures ArenaOf(p * PG_SIZE + HEADER) == p && LiveOk(p * PG_SIZE + HEADER, size, arenas[p := Large(n)])
  {
  }

  lemma ListsKeep(arenas: map<nat, Arena>, free: seq<seq<nat>>, p: nat, a: Arena)
    requires ListsOk(arenas, free)
    ensures p !in arenas ==> ListsOk(arenas[p := a], free)
    ensures p in arenas && arenas[p].Large? ==> ListsOk(arenas - {p}, free)
  {
    hide IsBlock; hide ArenaOf; hide Distinct;
    assert p !in arenas ==> forall b, e :: FreeOk(b, e, arenas) ==> FreeOk(b, e, arenas[p := a]);
    assert p in arenas && arenas[p].Large? ==> forall b, e :: FreeOk(b, e, arenas) ==> FreeOk(b, e, arenas - {p});
  }

  lemma LargeElsewhere(p: nat, q: nat, a: Arena, free: seq<seq<nat>>, live: map<nat, nat>, live': map<nat, nat>)
    requires ArenaOk(q, a, free, live) && q != p
    requires forall c :: c != p * PG_SIZE + HEADER ==> (c in live' <==> c in live)
    ensures ArenaOk(q, a, free, live')
  {
    hide PerArena; hide BlockSize;
    if a.Small? {
      forall i: nat | i < PerArena(a.desc) ensures Addr(q, a.desc, i) != p * PG_SIZE + HEADER {
        BlockInside(q, a.desc, i);
      }
    }
    ArenaKept(q, a, free, free, live, live');
  }

  lemma DropLarge(arenas: map<nat, Arena>, free: seq<seq<nat>>, live: map<nat, nat>, start: nat, p: nat)
    requires HeapOk(arenas, free, live, start) && p in arenas && arenas[p].Large?
    ensures HeapOk(arenas - {p}, free, live - {p * PG_SIZE + HEADER}, start)
  {
    hide PerArena; hide BlockSize; hide ArenaOk; hide LiveOk; hide FreeOk; hide Distinct;
    var arenas', live' := arenas - {p}, live - {p * PG_SIZE + HEADER};
    ListsKeep(arenas, free, p, arenas[p]);
    forall b | b in live' ensures LiveOk(b, live'[b], arenas') {
      assert LiveOk(b, live[b], arenas);
      LiveKept(arenas, p, b, live[b]);
    }
    forall q | q in arenas' ensures ArenaOk(q, arenas'[q], free, live') {
      assert ArenaOk(q, arenas[q], free, live);
      LargeElsewhere(p, q, arenas[q], free, live, live');
    }
  }

  lemma LiveKept(arenas: map<nat, Arena>, p: nat, b: nat, size: nat)
    requires LiveOk(b, size, arenas) && p in arenas && arenas[p].Large? && b != p * PG_SIZE + HEADER
    ensures LiveOk(b, size, arenas - {p})
  {
  }

  // ---------------------------------------------------------------- the heap

  /** A list without the first n blocks of arena `p`. */
  ghost predicate Removed(list: seq<nat>, was: seq<nat>, p: nat, d: nat, n: nat) {
    Distinct(list) && forall b :: b in list <==> b in was && forall i: nat :: i < n ==> b != Addr(p, d, i)
  }

  lemma RemovedStep(list: seq<nat>, was: seq<nat>, p: nat, d: nat, n: nat)
    requires Removed(list, was, p, d, n) && Addr(p, d, n) in was
    ensures Addr(p, d, n) in list && Removed(Without(list, Addr(p, d, n)), was, p, d, n + 1)
  {
    hide BlockSize; hide Distinct; hide Addr;
    forall i: nat | i < n ensures Addr(p, d, i) != Addr(p, d, n) {
      if Addr(p, d, i) == Addr(p, d, n) { AddrInjective(p, d, i, n); }
    }
    WithoutIs(list, Addr(p, d, n));
  }

  lemma RemovedAll(list: seq<nat>, arenas: map<nat, Arena>, free: seq<seq<nat>>, p: nat, d: nat)
    requires d < |free| && ListsOk(arenas, free) && Removed(list, free[d], p, d, PerArena(d))
    ensures Cleared(list, free[d], p)
  {
    hide BlockSize; hide Distinct; hide Addr; hide PerArena; hide ArenaOf;
    forall b | b in free[d] ensures b in list <==> ArenaOf(b) != p {
      assert FreeOk(b, d, arenas);
      if b !in list {
        var i: nat :| i < PerArena(d) && b == Addr(p, d, i);
        BlockInside(p, d, i);
      }
    }
  }

  /** Once its last block is back, every block of an arena is on the list. */
  lemma IdleAllFree(arenas: map<nat, Arena>, free: seq<seq<nat>>, live: map<nat, nat>, start: nat, p: nat)
    requires HeapOk(arenas, free, live, start) && p in arenas && arenas[p].Small?
    requires arenas[p].cnt == PerArena(arenas[p].desc)
    ensures arenas[p].desc < |free| && forall i: nat :: i < PerArena(arenas[p].desc) ==>
              Addr(p, arenas[p].desc, i) in free[arenas[p].desc]
  {
    hide BlockSize; hide PerArena; hide Addr;
    assert ArenaOk(p, arenas[p], free, live);
    FreeInBounds(free[arenas[p].desc], p, arenas[p].desc, PerArena(arenas[p].desc));
  }

  /** The smallest class that serves a request. */
  function ClassOf(size: nat): (d: nat)
    ensures d <= DESC_CNT && (size <= 1024 ==> d < DESC_CNT && size <= BlockSize(d))
    ensures forall e: nat :: e < d ==> BlockSize(e) < size
  {
    if size <= 16 then 0 else if size <= 32 then 1 else if size <= 64 then 2 else if size <= 128 then 3
    else if size <= 256 then 4 else if size <= 512 then 5 else if size <= 1024 then 6 else DESC_CNT
  }

  /** The pages a request asks `malloc_page` for, if it asks at all. */
  function PagesFor(size: nat): (n: nat)
    ensures n > 0 && (size > 1024 ==> HEADER + size <= n * PG_SIZE < HEADER + size + PG_SIZE)
  {
    if size > 1024 then (size + HEADER + PG_SIZE - 1) / PG_SIZE else 1
  }

  /** Whether a request goes to `malloc_page`. */
  predicate AsksPages(size: nat, poolSize: nat, free: seq<seq<nat>>) {
    0 < size < poolSize && (size > 1024 || |free| <= ClassOf(size) || free[ClassOf(size)] == [])
  }

  /** The pages the heap holds: where each run starts and how long it is. */
  function PageRuns(arenas: map<nat, Arena>): map<nat, nat> {
    map p | p in arenas :: PagesOf(arenas[p])
  }

  class Heap {
    const start: nat
    const poolSize: nat
    var arenas: map<nat, Arena>
    var free: seq<seq<nat>>
    ghost var live: map<nat, nat>

    ghost predicate Valid()
      reads this
    {
      HeapOk(arenas, free, live, start) && NoneIdle(arenas, -1)
    }

    constructor (start: nat, poolSize: nat)
      ensures Valid() && live == map[] && this.start == start && this.poolSize == poolSize
    {
      this.start, this.poolSize := start, poolSize;
      arenas, live := map[], map[];
      free := seq(DESC_CNT, _ => []);
    }

    /** `sys_malloc`. `page` is the answer of `malloc_page`, -1 for NULL, should it be asked
        for pages; `halted` is a failed ASSERT and 0 is NULL. */
    method SysMalloc(size: nat, page: int) returns (halted: bool, r: nat)
      requires Valid()
      requires page == -1 || (start <= page && Unused(arenas, page, PagesFor(size)))
      modifies this
      ensures Valid() && !halted
      ensures r == 0 <==> !(0 < size < poolSize) || (page == -1 && AsksPages(size, poolSize, old(free)))
      ensures r == 0 ==> live == old(live) && arenas == old(arenas) && free == old(free)
      ensures r != 0 ==> r !in old(live) && live == old(live)[r := size]
      ensures r != 0 ==>
                r == if AsksPages(size, poolSize, old(free)) then page * PG_SIZE + HEADER
                     else old(free)[ClassOf(size)][0]
      ensures forall q :: q in old(arenas) && (r == 0 || q != ArenaOf(r)) ==> q in arenas && arenas[q] == old(arenas)[q]
      ensures PageRuns(arenas) == if r != 0 && AsksPages(size, poolSize, old(free))
                then PageRuns(old(arenas))[page := PagesFor(size)]
                                  else PageRuns(old(arenas))
    {
      hide HeapOk; hide Unused; hide BlockSize; hide PerArena; hide Addr;
      halted, r := false, 0;
      if !(0 < size < poolSize) { return; }
      HeapShape(arenas, free, live, start);
      if size > 1024 {
        var pageCnt := (size + HEADER + PG_SIZE - 1) / PG_SIZE;
        if page == -1 { return; }
        AddLarge(arenas, free, live, start, page, pageCnt, size);
        arenas := arenas[page := Large(pageCnt)];
        r := page * PG_SIZE + HEADER;
        assert ArenaOf(r) == page;
        live := live[r := size];
      } else {
        var d := FindClass(size);
        if free[d] == [] {
          if page == -1 { return; }
          halted := NewArena(page, d);
        }
        r := TakeBlock(d, size, page);
      }
    }

    /** A block from a list that has one. */
    method TakeBlock(d: nat, size: nat, ghost idle: int) returns (r: nat)
      requires HeapOk(arenas, free, live, start) && NoneIdle(arenas, idle) && d < DESC_CNT == |free| && free[d] != []
      requires 0 < size <= BlockSize(d) && (idle in arenas && idle >= 0 ==>
                idle == ArenaOf(free[d][0]) || NoneIdle(arenas, -1))
      modifies this
      ensures Valid() && r > 0 && r !in old(live) && live == old(live)[r := size] && r == old(free)[d][0]
      ensures free == old(free)[d := old(free)[d][1..]]
      ensures forall q :: q in old(arenas) && q != ArenaOf(r) ==> q in arenas && arenas[q] == old(arenas)[q]
      ensures PageRuns(arenas) == PageRuns(old(arenas))
    {
      hide HeapOk; hide BlockSize; hide PerArena; hide ArenaOf;
      Take(arenas, free, live, start, d, size);
      r := free[d][0];
      free := free[d := free[d][1..]];
      var a := ArenaOf(r);
      arenas := arenas[a := Small(arenas[a].desc, arenas[a].cnt - 1)];
      live := live[r := size];
      LiveArena(arenas, free, live, start, r);
    }

    /** An empty list gets the blocks of a new arena. */
    method NewArena(p: nat, d: nat) returns (halted: bool)
      requires Valid() && d < DESC_CNT == |free| && free[d] == [] && start <= p && Unused(arenas, p, 1)
      modifies this`free, this`arenas
      ensures !halted && HeapOk(arenas, free, live, start) && NoneIdle(arenas, p) && |free| == DESC_CNT
      ensures free[d] != [] && ArenaOf(free[d][0]) == p && p !in old(arenas) && free[d][0] == p * PG_SIZE + HEADER
      ensures forall q :: q in old(arenas) ==> q in arenas && arenas[q] == old(arenas)[q]
      ensures PageRuns(arenas) == PageRuns(old(arenas))[p := 1]
    {
      hide HeapOk; hide Unused; hide BlockSize;
      AddArena(arenas, free, live, start, p, d);
      arenas := arenas[p := Small(d, PerArena(d))];
      halted := Split(p, d);
      BlockInside(p, d, 0);
      assert free[d][0] == Addr(p, d, 0);
    }

    method FindClass(size: nat) returns (d: nat)
      requires size <= 1024
      ensures d == ClassOf(size) < DESC_CNT && size <= BlockSize(d)
    {
      d := 0;
      while d < DESC_CNT
        invariant 0 <= d <= ClassOf(size)
        decreases DESC_CNT - d
      {
        if size <= BlockSize(d) { break; }
        d := d + 1;
      }
    }

    /** A new arena is cut into blocks. */
    method Split(p: nat, d: nat) returns (halted: bool)
      requires d < |free| && free[d] == []
      modifies this`free
      ensures !halted && free == old(free)[d := Blocks(p, d, PerArena(d))]
    {
      hide BlockSize; hide PerArena; hide Addr;
      assert Blocks(p, d, 0) == [];
      var idx := 0;
      while idx < PerArena(d)
        invariant 0 <= idx <= PerArena(d)
        invariant free == old(free)[d := Blocks(p, d, idx)]
      {
        BlocksDistinct(p, d, idx);
        var b := Addr(p, d, idx);
        if b in free[d] { return true; }
        free := free[d := free[d] + [b]];
        idx := idx + 1;
      }
      halted := false;
    }

    /** `sys_free` of a live block. */
    method SysFree(ptr: nat) returns (halted: bool)
      requires Valid() && ptr in live
      modifies this
      ensures Valid() && !halted && live == old(live) - {ptr}
      ensures ArenaOf(ptr) in arenas ==>
                && ArenaOf(ptr) in old(arenas) && old(arenas)[ArenaOf(ptr)].Small?
                && var d := old(arenas)[ArenaOf(ptr)].desc;
                   d < |old(free)| && free == old(free)[d := old(free)[d] + [ptr]]
      ensures forall q :: q in old(arenas) && q != ArenaOf(ptr) ==> q in arenas && arenas[q] == old(arenas)[q]
      ensures PageRuns(arenas) == if ArenaOf(ptr) in arenas then PageRuns(old(arenas))
                else PageRuns(old(arenas)) - {ArenaOf(ptr)}
    {
      hide HeapOk; hide BlockSize; hide PerArena; hide Addr; hide FreeOk;
      halted := true;
      LiveArena(arenas, free, live, start, ptr);
      if ptr == 0 || ptr < start * PG_SIZE { return; }
      var a := ArenaOf(ptr);
      match arenas[a] {
        case Large(n) =>
          DropLarge(arenas, free, live, start, a);
          arenas := arenas - {a};
          live := live - {ptr};
        case Small(d, cnt) =>
          Give(arenas, free, live, start, ptr, a);
          free := free[d := free[d] + [ptr]];
          arenas := arenas[a := Small(d, cnt + 1)];
          live := live - {ptr};
          if cnt + 1 == PerArena(d) {
            halted := Retire(a, d);
            if halted { return; }
          }
      }
      halted := false;
    }

    /** A wholly free arena gives up its blocks and its page. */
    method Retire(p: nat, d: nat) returns (halted: bool)
      requires HeapOk(arenas, free, live, start) && p in arenas && arenas[p] == Small(d, PerArena(d))
      modifies this`free, this`arenas
      ensures !halted && HeapOk(arenas, free, live, start) && arenas == old(arenas) - {p}
    {
      hide HeapOk; hide BlockSize; hide PerArena; hide Addr; hide Removed;
      IdleAllFree(arenas, free, live, start, p);
      HeapShape(arenas, free, live, start);
      RemovedNone(free[d], p, d);
      var idx := 0;
      while idx < PerArena(d)
        invariant 0 <= idx <= PerArena(d) && |free| == old(|free|) && arenas == old(arenas)
        invariant free == old(free)[d := free[d]] && Removed(free[d], old(free)[d], p, d, idx)
      {
        var b := Addr(p, d, idx);
        RemovedStep(free[d], old(free)[d], p, d, idx);
        if b !in free[d] { return true; }
        free := free[d := Without(free[d], b)];
        idx := idx + 1;
      }
      halted := false;
      RemovedAll(free[d], arenas, old(free), p, d);
      DropArena(arenas, old(free), live, start, p, free[d]);
      arenas := arenas - {p};
    }
  }

  lemma RemovedNone(list: seq<nat>, p: nat, d: nat)
    requires Distinct(list)
    ensures Removed(list, list, p, d, 0)
  {
  }

  lemma HeapShape(arenas: map<nat, Arena>, free: seq<seq<nat>>, live: map<nat, nat>, start: nat)
    requires HeapOk(arenas, free, live, start)
    ensures |free| == DESC_CNT && ListsOk(arenas, free) && forall d :: 0 <= d < |free| ==> Distinct(free[d])
  {
  }
}
