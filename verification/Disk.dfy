/** Sectors, and the little-endian 32-bit words the kernel lays over them.
    `ide_read` and `ide_write` are whole-sector copies here. */
module Disks {

  const SECTOR_SIZE := 512
  const U32 := 0x1_0000_0000

  newtype Byte = b: int | 0 <= b < 256
  type Word = w: int | 0 <= w < 0x1_0000_0000
  type Sector = s: seq<Byte> | |s| == 512 witness Zeros(512)
  type Disk = map<int, Sector>

  function Zeros(n: nat): (s: seq<Byte>)
    ensures |s| == n && forall i :: 0 <= i < n ==> s[i] == 0
  {
    seq(n, _ => 0)
  }

  /** A sector that was never written reads as zeros. */
  function Read(d: Disk, lba: int): Sector {
    if lba in d then d[lba] else Zeros(512)
  }

  function Join(b0: int, b1: int, b2: int, b3: int): int {
    b0 + 0x100 * (b1 + 0x100 * (b2 + 0x100 * b3))
  }

  function WordAt(s: seq<Byte>, k: nat): Word
    requires 4 * k + 3 < |s|
  {
    Join(s[4 * k] as int, s[4 * k + 1] as int, s[4 * k + 2] as int, s[4 * k + 3] as int)
  }

  function ByteOfWord(w: Word, i: nat): Byte
    requires i < 4
  {
    if i == 0 then (w % 0x100) as Byte
    else if i == 1 then (w / 0x100 % 0x100) as Byte
    else if i == 2 then (w / 0x100 / 0x100 % 0x100) as Byte
    else (w / 0x100 / 0x100 / 0x100) as Byte
  }

  /** The bytes of a sequence of words. */
  function WordBytes(ws: seq<Word>): (s: seq<Byte>)
    ensures |s| == 4 * |ws|
  {
    seq(4 * |ws|, (i: nat) requires i < 4 * |ws| => ByteOfWord(ws[i / 4], i % 4))
  }

  lemma SplitJoin(w: Word)
    ensures Join(ByteOfWord(w, 0) as int, ByteOfWord(w, 1) as int, ByteOfWord(w, 2) as int, ByteOfWord(w, 3) as int)
            == w
  {
  }

  /** Low byte first. */
  lemma LittleEndian()
    ensures WordBytes([0x04030201]) == [1, 2, 3, 4]
  {
    assert 0x04030201 == Join(1, 2, 3, 4);
  }

  /** Reading back a word that was stored returns it. */
  lemma WordRoundTrip(ws: seq<Word>, k: nat)
    requires k < |ws|
    ensures WordAt(WordBytes(ws), k) == ws[k]
  {
    SplitJoin(ws[k]);
    var s := WordBytes(ws);
    assert s[4 * k] == ByteOfWord(ws[k], 0);
    assert s[4 * k + 1] == ByteOfWord(ws[k], 1);
    assert s[4 * k + 2] == ByteOfWord(ws[k], 2);
    assert s[4 * k + 3] == ByteOfWord(ws[k], 3);
  }

  /** The words a stretch of bytes holds. */
  function Words(s: seq<Byte>): (ws: seq<Word>)
    ensures |ws| == |s| / 4
  {
    seq(|s| / 4, (k: nat) requires k < |s| / 4 => WordAt(s, k))
  }

  lemma WordsRoundTrip(ws: seq<Word>)
    ensures Words(WordBytes(ws)) == ws
  {
    forall k: nat | k < |ws| ensures Words(WordBytes(ws))[k] == ws[k] { WordRoundTrip(ws, k); }
  }

  lemma WordsOfZeros(n: nat)
    ensures forall k :: 0 <= k < n / 4 ==> Words(Zeros(n))[k] == 0
  {
  }
}
