/** Who owns which block. `refs[n]` lists the 141 block pointers of live inode n:
    12 direct blocks, the indirect table, and the 128 entries of that table; zero
    means no block. Bit j of the block bitmap stands for sector `base + j`. */
module Ownership {
  import opened Bitmaps

  const REFS := 141

  type Owner = map<int, (nat, nat)>

  /** Every pointer is owned exactly where it stands, every owned sector is pointed
      to, and the set bits are the owned sectors and the reserved ones. */
  ghost predicate Own(refs: map<nat, seq<int>>, bits: seq<bool>, owner: Owner, reserved: set<nat>, base: nat) {
    && 0 < base
    && (forall n :: n in refs ==> |refs[n]| == REFS)
    && (forall n, i :: n in refs && 0 <= i < REFS && refs[n][i] != 0 ==>
         refs[n][i] in owner && owner[refs[n][i]] == (n, i))
    && (forall b :: b in owner ==>
         && base <= b < base + |bits|
         && owner[b].0 in refs && owner[b].1 < REFS && refs[owner[b].0][owner[b].1] == b
         && b - base !in reserved)
    && (forall j :: 0 <= j < |bits| ==> (bits[j] <==> base + j in owner || j in reserved))
  }

  /** A pointer to a free block is set. */
  lemma Link(refs: map<nat, seq<int>>, bits: seq<bool>, owner: Owner, reserved: set<nat>, base: nat,
             n: nat, i: nat, b: int)
    requires Own(refs, bits, owner, reserved, base)
    requires n in refs && i < REFS && refs[n][i] == 0
    requires base <= b < base + |bits| && !bits[b - base]
    ensures Own(refs[n := refs[n][i := b]], bits[b - base := true], owner[b := (n, i)], reserved, base)
    ensures b !in owner
  {
  }

  /** A pointer is cleared and its block given back. */
  lemma Unlink(refs: map<nat, seq<int>>, bits: seq<bool>, owner: Owner, reserved: set<nat>, base: nat,
               n: nat, i: nat)
    requires Own(refs, bits, owner, reserved, base)
    requires n in refs && i < REFS && refs[n][i] != 0
    ensures base <= refs[n][i] < base + |bits|
    ensures var b := refs[n][i];
            Own(refs[n := refs[n][i := 0]], bits[b - base := false], owner - {b}, reserved, base)
  {
    var b, g := refs[n][i], refs[n][i := 0];
    var refs', owner' := refs[n := g], owner - {b};
    assert owner[b] == (n, i);
    forall m, j | m in refs' && 0 <= j < REFS && refs'[m][j] != 0
      ensures refs'[m][j] in owner' && owner'[refs'[m][j]] == (m, j)
    {
      assert refs'[m][j] == refs[m][j] && (m, j) != (n, i);
    }
    forall c | c in owner' ensures refs'[owner'[c].0][owner'[c].1] == c {
      assert c in owner && c != b;
    }
  }

  lemma AddInode(refs: map<nat, seq<int>>, bits: seq<bool>, owner: Owner, reserved: set<nat>, base: nat,
                 n: nat, none: seq<int>)
    requires Own(refs, bits, owner, reserved, base)
    requires n !in refs && |none| == REFS && forall i :: 0 <= i < REFS ==> none[i] == 0
    ensures Own(refs[n := none], bits, owner, reserved, base)
  {
  }

  lemma DropInode(refs: map<nat, seq<int>>, bits: seq<bool>, owner: Owner, reserved: set<nat>, base: nat, n: nat)
    requires Own(refs, bits, owner, reserved, base)
    requires n in refs && forall i :: 0 <= i < REFS ==> refs[n][i] == 0
    ensures Own(refs - {n}, bits, owner, reserved, base)
  {
  }

  // ---------------------------------------------------------------- what the invariant means

  /** The blocks one inode points to. */
  function Blocks(refs: seq<int>): set<int> {
    set i | 0 <= i < |refs| && refs[i] != 0 :: refs[i]
  }

  ghost predicate Used(refs: map<nat, seq<int>>, b: int) {
    exists n :: n in refs && b in Blocks(refs[n])
  }

  /** The set bits are the disjoint union of the reserved bits and the blocks of the
      live inodes, and no inode points to the same block twice. */
  lemma OwnMeans(refs: map<nat, seq<int>>, bits: seq<bool>, owner: Owner, reserved: set<nat>, base: nat)
    requires Own(refs, bits, owner, reserved, base)
    ensures forall j :: 0 <= j < |bits| ==> (bits[j] <==> j in reserved || Used(refs, base + j))
    ensures forall j :: 0 <= j < |bits| && j in reserved ==> !Used(refs, base + j)
    ensures forall n, m :: n in refs && m in refs && n != m ==> Blocks(refs[n]) !! Blocks(refs[m])
    ensures forall n, i, k :: n in refs && 0 <= i < k < REFS && refs[n][i] != 0 ==> refs[n][i] != refs[n][k]
  {
  }

  /** Two states with the same owners have the same bitmap. */
  lemma SameOwnersSameBits(refs: map<nat, seq<int>>, bits: seq<bool>, refs': map<nat, seq<int>>, bits': seq<bool>,
                           owner: Owner, reserved: set<nat>, base: nat)
    requires Own(refs, bits, owner, reserved, base) && Own(refs', bits', owner, reserved, base)
    requires |bits| == |bits'|
    ensures bits == bits'
  {
  }

  // ---------------------------------------------------------------- counting free blocks

  function FreeCount(bits: seq<bool>): nat {
    if bits == [] then 0 else FreeCount(bits[..|bits| - 1]) + if bits[|bits| - 1] then 0 else 1
  }

  lemma {:induction false} FreeCountFlip(bits: seq<bool>, j: nat)
    requires j < |bits| && !bits[j]
    ensures FreeCount(bits[j := true]) == FreeCount(bits) - 1
  {
    var k := |bits| - 1;
    if j == k {
      assert bits[j := true][..k] == bits[..k];
    } else {
      assert bits[j := true][..k] == bits[..k][j := true];
      FreeCountFlip(bits[..k], j);
    }
  }

  lemma {:induction false} FreeCountZero(bits: seq<bool>)
    ensures FreeCount(bits) == 0 <==> FirstRun(bits, 1) == -1
  {
    if forall j :: 0 <= j < |bits| ==> bits[j] {
      AllSet(bits);
      forall k: nat ensures !FreeRun(bits, k, 1) { assert k < |bits| ==> bits[k]; }
      FirstRunUnique(bits, 1, -1);
    } else {
      var j :| 0 <= j < |bits| && !bits[j];
      FreeCountFlip(bits, j);
      assert FreeRun(bits, j, 1);
    }
  }

  lemma {:induction false} FreeCountRange(bits: seq<bool>, lo: nat, hi: nat)
    requires lo <= hi <= |bits| && forall j :: lo <= j < hi ==> !bits[j]
    ensures FreeCount(bits) >= hi - lo
    decreases |bits|
  {
    if lo < hi { FreeCountRange(bits[..|bits| - 1], lo, if hi == |bits| then hi - 1 else hi); }
  }

  lemma {:induction false} AllSet(bits: seq<bool>)
    requires forall j :: 0 <= j < |bits| ==> bits[j]
    ensures FreeCount(bits) == 0
  {
    if bits != [] { AllSet(bits[..|bits| - 1]); }
  }
}
