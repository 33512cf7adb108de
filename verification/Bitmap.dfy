/** The bitmap allocator shared by the page pools, the pid pool and the file
    system (lib/kernel/bitmap.c).

    `Bitmap.bits` is the memory that starts at the C pointer of that name. It is
    longer than `byteLen`, because `bitmap_scan` reads past the declared end. */
module Bitmaps {

  // ---------------------------------------------------------------- bits of a byte

  predicate Bit(b: bv8, k: nat) {
    k < 8 && b & ((1 as bv8) << k) != 0
  }

  function WithBit(b: bv8, k: nat, value: bool): bv8
    requires k < 8
  {
    if value then b | ((1 as bv8) << k) else b & !((1 as bv8) << k)
  }

  lemma WithBitAt(b: bv8, k: nat, value: bool)
    requires k < 8
    ensures forall j: nat :: j < 8 ==> Bit(WithBit(b, k, value), j) == if j == k then value else Bit(b, j)
  {
  }

  lemma FullByte(b: bv8)
    ensures b == 0xff <==> forall k: nat :: k < 8 ==> Bit(b, k)
  {
    if Bit(b, 0) && Bit(b, 1) && Bit(b, 2) && Bit(b, 3) && Bit(b, 4) && Bit(b, 5) && Bit(b, 6) && Bit(b, 7) {
      assert b == 0xff;
    }
  }

  /** The bits of a stretch of bytes, lowest first. */
  function BitsOf(mem: seq<bv8>): (s: seq<bool>)
    ensures |s| == 8 * |mem|
  {
    Flatten(mem, Bit)
  }

  /** Low bit first, low byte first. */
  lemma LowBitFirst()
    ensures var s := BitsOf([5, 128]); s[0] && !s[1] && s[2] && !s[7] && !s[8] && s[15]
  {
    assert Bit(5, 0) && !Bit(5, 1) && Bit(5, 2) && !Bit(5, 7) && !Bit(128, 0) && Bit(128, 7);
  }

  /** Eight `bit`s for each element of `mem`. */
  function Flatten<T>(mem: seq<T>, bit: (T, nat) -> bool): (s: seq<bool>)
    ensures |s| == 8 * |mem|
  {
    seq(8 * |mem|, (i: nat) requires i < 8 * |mem| => bit(mem[i / 8], i % 8))
  }

  lemma FlattenUpdate<T>(mem: seq<T>, bit: (T, nat) -> bool, i: nat, b: T, value: bool)
    requires i < 8 * |mem|
    requires forall j: nat :: j < 8 ==> bit(b, j) == if j == i % 8 then value else bit(mem[i / 8], j)
    ensures Flatten(mem[i / 8 := b], bit) == Flatten(mem, bit)[i := value]
  {
  }

  // ---------------------------------------------------------------- runs of clear bits

  /** `cnt` clear bits lie at `i` and after. */
  predicate FreeRun(s: seq<bool>, i: nat, cnt: nat) {
    i + cnt <= |s| && forall j :: i <= j < i + cnt ==> !s[j]
  }

  /** The lowest start, from `from` on, of `cnt` consecutive clear bits, or -1. */
  function FirstRun(s: seq<bool>, cnt: nat, from: nat := 0): (r: int)
    ensures r == -1 || (from <= r && FreeRun(s, r, cnt))
    ensures forall k: nat :: from <= k && (r == -1 || k < r) ==> !FreeRun(s, k, cnt)
    decreases |s| - from
  {
    if from + cnt > |s| then -1
    else if FreeRun(s, from, cnt) then from
    else if from == |s| then -1
    else FirstRun(s, cnt, from + 1)
  }

  /** First fit is the only answer with its two properties. */
  lemma FirstRunUnique(s: seq<bool>, cnt: nat, r: int)
    requires r == -1 || (0 <= r && FreeRun(s, r, cnt))
    requires forall k: nat :: (r == -1 || k < r) ==> !FreeRun(s, k, cnt)
    ensures r == FirstRun(s, cnt)
  {
    assert r != -1 ==> FreeRun(s, r, cnt);
  }

  /** `s` with the `cnt` bits from `i` on set to `v`. */
  function SetRange(s: seq<bool>, i: nat, cnt: nat, v: bool): (r: seq<bool>)
    requires i + cnt <= |s|
    ensures |r| == |s|
    ensures forall j :: 0 <= j < |s| ==> r[j] == if i <= j < i + cnt then v else s[j]
  {
    s[..i] + seq(cnt, _ => v) + s[i + cnt..]
  }

  /** Marking a clear run and clearing it again restores the bitmap. */
  lemma SetRangeUndo(s: seq<bool>, i: nat, cnt: nat)
    requires FreeRun(s, i, cnt)
    ensures SetRange(SetRange(s, i, cnt, true), i, cnt, false) == s
  {
  }

  /** The state of the scan before bit `next`: no run of `cnt` ends before it, and
      the clear stretch that ends there is `count` long. */
  predicate NoRunYet(e: seq<bool>, next: nat, count: nat, cnt: nat) {
    && count < cnt && count <= next <= |e|
    && (forall j :: next - count <= j < next ==> !e[j])
    && (count < next ==> e[next - count - 1])
    && (forall k: nat :: k + cnt <= next ==> !FreeRun(e, k, cnt))
  }

  lemma NoRunStep(e: seq<bool>, next: nat, count: nat, cnt: nat)
    requires next < |e| && NoRunYet(e, next, count, cnt)
    ensures var c := if e[next] then 0 else count + 1;
            if c == cnt then FirstRun(e, cnt) == next - cnt + 1 else NoRunYet(e, next + 1, c, cnt)
  {
    var c := if e[next] then 0 else count + 1;
    if c == cnt {
      assert FreeRun(e, next - cnt + 1, cnt);
      FirstRunUnique(e, cnt, next - cnt + 1);
    } else {
      forall k: nat | k + cnt <= next + 1 ensures !FreeRun(e, k, cnt) {
        if k + cnt == next + 1 {
          assert e[next - c];
        }
      }
    }
  }

  /** Bytes that are full up to a byte with its first clear bit at `idxBit`. */
  lemma FirstClearBits(mem: seq<bv8>, byteLen: nat, idxByte: nat, idxBit: nat)
    requires idxByte <= byteLen < |mem| && forall i :: 0 <= i < idxByte ==> mem[i] == 0xff
    requires idxByte < byteLen ==> idxBit < 8 && !Bit(mem[idxByte], idxBit)
    requires idxByte < byteLen ==> forall k: nat :: k < idxBit ==> Bit(mem[idxByte], k)
    ensures var s, start := BitsOf(mem)[..8 * byteLen], idxByte * 8 + idxBit;
            if idxByte == byteLen then forall i :: 0 <= i < |s| ==> s[i]
            else !s[start] && FirstRun(s, 1) == start && forall i :: 0 <= i < start ==> s[i]
  {
    var s, start := BitsOf(mem)[..8 * byteLen], idxByte * 8 + idxBit;
    FullByte(0xff);
    forall i: nat | i < 8 * idxByte ensures s[i] { assert Bit(mem[i / 8], i % 8); }
    if idxByte < byteLen {
      forall i: nat | 8 * idxByte <= i < start ensures s[i] { assert Bit(mem[idxByte], i - 8 * idxByte); }
      assert FreeRun(s, start, 1) by { assert s[start] == Bit(mem[idxByte], idxBit); }
      forall k: nat | k < start ensures !FreeRun(s, k, 1) { assert s[k]; }
      FirstRunUnique(s, 1, start);
    }
  }

  /** What the scan really searches is the declared bits and one more. For a
      request of several bits it therefore answers as promised exactly when that
      extra bit is set, or some run fits inside, or the tail is too short. */
  lemma ScanPastEnd(s: seq<bool>, past: bool, cnt: nat)
    requires cnt > 1
    ensures FirstRun(s + [past], cnt) == FirstRun(s, cnt)
            <==> past || FirstRun(s, cnt) != -1
                 || |s| + 1 < cnt || !FreeRun(s, |s| + 1 - cnt, cnt - 1)
  {
    var e := s + [past];
    forall k: nat | k + cnt <= |s| ensures FreeRun(e, k, cnt) == FreeRun(s, k, cnt) {
      assert forall j :: 0 <= j < |s| ==> s[j] == e[j];
    }
    if FirstRun(s, cnt) != -1 {
      FirstRunUnique(e, cnt, FirstRun(s, cnt));
    } else if |s| + 1 >= cnt {
      var t := |s| + 1 - cnt;
      assert FreeRun(e, t, cnt) <==> !past && FreeRun(s, t, cnt - 1) by {
        if FreeRun(e, t, cnt) {
          assert !e[|s|];
          forall j | t <= j < |s| ensures !s[j] { assert !e[j]; }
        }
      }
      if !FreeRun(e, t, cnt) {
        FirstRunUnique(e, cnt, -1);
      }
    } else {
      FirstRunUnique(e, cnt, -1);
    }
  }

  /** Two free bytes and a clear byte after them: a request for 17 bits is granted. */
  lemma ScanPastEndExample()
    ensures var s := seq(16, _ => false);
            FirstRun(s, 17) == -1 && FirstRun(s + [false], 17) == 0
  {
    var s := seq(16, _ => false);
    assert FreeRun(s + [false], 0, 17);
    FirstRunUnique(s + [false], 17, 0);
  }

  // ---------------------------------------------------------------- the bitmap itself

  class Bitmap {
    var bits: array<bv8>
    const byteLen: nat

    ghost predicate Valid()
      reads this
    {
      byteLen < bits.Length
    }

    /** Every bit of the memory at `bits`, in and past the bitmap. */
    ghost function AllBits(): (s: seq<bool>)
      reads this, bits
      ensures |s| == 8 * bits.Length
    {
      BitsOf(bits[..])
    }

    /** The bits the bitmap declares. */
    ghost function Bits(): (s: seq<bool>)
      requires Valid()
      reads this, bits
      ensures |s| == 8 * byteLen
    {
      AllBits()[..8 * byteLen]
    }

    /** `mem` is the memory the bitmap is laid over. */
    constructor (mem: array<bv8>, byteLen: nat)
      requires byteLen < mem.Length
      ensures Valid() && bits == mem && this.byteLen == byteLen
    {
      bits := mem;
      this.byteLen := byteLen;
    }

    method Init()
      requires Valid()
      modifies bits
      ensures Bits() == seq(8 * byteLen, _ => false)
      ensures AllBits()[8 * byteLen..] == old(AllBits())[8 * byteLen..]
    {
      var i := 0;
      while i < byteLen
        invariant 0 <= i <= byteLen
        invariant forall k :: 0 <= k < i ==> bits[k] == 0
        invariant forall k :: byteLen <= k < bits.Length ==> bits[k] == old(bits[k])
      {
        bits[i] := 0;
        i := i + 1;
      }
      assert forall k: nat :: !Bit(0, k);
    }

    method ScanTest(bitIdx: nat) returns (r: bool)
      requires bitIdx < 8 * bits.Length
      ensures r == AllBits()[bitIdx]
    {
      r := Bit(bits[bitIdx / 8], bitIdx % 8);
    }

    /** `halted` stands for the failed ASSERT that stops the kernel. */
    method Scan(cnt: nat) returns (halted: bool, r: int)
      requires Valid() && cnt >= 1
      ensures halted <==> forall i :: 0 <= i < |Bits()| ==> Bits()[i]
      ensures !halted && cnt == 1 ==> r == FirstRun(Bits(), 1) && r != -1
      ensures !halted && cnt > 1 ==> r == FirstRun(AllBits()[..8 * byteLen + 1], cnt)
    {
      ghost var e := AllBits()[..8 * byteLen + 1];
      var idxByte, idxBit := FirstClear();
      FirstClearBits(bits[..], byteLen, idxByte, idxBit);
      if idxByte >= byteLen {
        return true, -1;
      }
      var start := idxByte * 8 + idxBit;
      assert !Bits()[start];
      if cnt == 1 {
        return false, start;
      }
      assert forall k :: 0 <= k <= start ==> e[k] == Bits()[k];
      r := ScanFrom(cnt, start, e);
      halted := false;
    }

    /** The byte loop and the bit loop: the first byte that is not full and the
        first clear bit in it, or `byteLen` and 0. */
    method FirstClear() returns (idxByte: nat, idxBit: nat)
      requires Valid()
      ensures idxByte <= byteLen && forall i :: 0 <= i < idxByte ==> bits[i] == 0xff
      ensures idxByte < byteLen ==> idxBit < 8 && !Bit(bits[idxByte], idxBit)
      ensures idxByte < byteLen ==> forall k: nat :: k < idxBit ==> Bit(bits[idxByte], k)
    {
      idxByte, idxBit := 0, 0;
      while bits[idxByte] == 0xff && idxByte < byteLen
        invariant idxByte <= byteLen
        invariant forall k :: 0 <= k < idxByte ==> bits[k] == 0xff
      {
        idxByte := idxByte + 1;
      }
      if idxByte < byteLen {
        FullByte(bits[idxByte]);
        while Bit(bits[idxByte], idxBit)
          invariant 0 <= idxBit <= 8
          invariant forall k: nat :: k < idxBit ==> Bit(bits[idxByte], k)
          decreases 8 - idxBit
        {
          idxBit := idxBit + 1;
        }
      }
    }

    /** The search for a longer run, from the first clear bit on. */
    method ScanFrom(cnt: nat, start: nat, ghost e: seq<bool>) returns (r: int)
      requires Valid() && cnt > 1 && start < 8 * byteLen
      requires e == AllBits()[..8 * byteLen + 1]
      requires !e[start] && forall k :: 0 <= k < start ==> e[k]
      ensures r == FirstRun(e, cnt)
    {
      var bitLeft := byteLen * 8 - start;
      var nextBit := start + 1;
      var count := 1;
      r := -1;
      forall k: nat | k + cnt <= nextBit ensures !FreeRun(e, k, cnt) { assert e[k]; }
      while bitLeft > 0
        invariant 0 <= bitLeft && nextBit + bitLeft == 8 * byteLen + 1
        invariant 0 <= count && NoRunYet(e, nextBit, count, cnt)
      {
        bitLeft := bitLeft - 1;
        NoRunStep(e, nextBit, count, cnt);
        var used := ScanTest(nextBit);
        assert used == e[nextBit];
        if !used {
          count := count + 1;
        } else {
          count := 0;
        }
        if count == cnt {
          r := nextBit - cnt + 1;
          return;
        }
        nextBit := nextBit + 1;
      }
      FirstRunUnique(e, cnt, -1);
    }

    method Set(bitIdx: nat, value: bool)
      requires bitIdx < 8 * bits.Length
      modifies bits
      ensures AllBits() == old(AllBits())[bitIdx := value]
    {
      ghost var was := bits[..];
      var byteIdx, bitOdd := bitIdx / 8, bitIdx % 8;
      WithBitAt(bits[byteIdx], bitOdd, value);
      FlattenUpdate(was, Bit, bitIdx, WithBit(bits[byteIdx], bitOdd, value), value);
      bits[byteIdx] := WithBit(bits[byteIdx], bitOdd, value);
      assert bits[..] == was[byteIdx := bits[byteIdx]];
    }

    /** The marking loop of `vaddr_get` and `vaddr_remove`. */
    method SetRun(start: nat, cnt: nat, value: bool)
      requires start + cnt <= 8 * bits.Length
      modifies bits
      ensures AllBits() == SetRange(old(AllBits()), start, cnt, value)
    {
      var i := 0;
      while i < cnt
        invariant 0 <= i <= cnt
        invariant AllBits() == SetRange(old(AllBits()), start, i, value)
      {
        Set(start + i, value);
        i := i + 1;
      }
    }
  }
}
