/** The swap store of the first virtual-memory layer (vm/swap.c under
    src/pintos/src): an in-use table of MAXDD slots, each slot being
    BYTE__ consecutive 512-byte sectors of the swap disk, one page. */
module SwapSlots {
  import opened Machine

  /** Number of swap slots (`MAXDD`). */
  const MAXDD: int := 1024
  /** Sectors per slot (`BYTE__`). */
  const SECTORS_PER_PAGE: int := 8
  /** Bytes per disk sector (`P_SIZE`). */
  const SECTOR_SIZE: int := 512
  /** Sectors of the swap disk the slots cover. */
  const SWAP_SECTORS: int := MAXDD * SECTORS_PER_PAGE

  type Disk = map<int, seq<Byte>>

  /** Every sector a slot can use exists and holds one sector of bytes. */
  ghost predicate DiskValid(d: Disk)
  {
    forall s :: 0 <= s < SWAP_SECTORS ==> s in d && |d[s]| == SECTOR_SIZE
  }

  /** A sector number that `find_empty` can return: the first sector of a
      slot. */
  predicate IsSlotSector(sec: int)
  {
    0 <= sec < SWAP_SECTORS && sec % SECTORS_PER_PAGE == 0
  }

  /** A slot's first sector names its in-use index by `sec / BYTE__`, the
      index `find_empty` set when it returned `i * BYTE__`. */
  lemma SlotIndex(sec: int)
    requires IsSlotSector(sec)
    ensures 0 <= sec / SECTORS_PER_PAGE < MAXDD
    ensures sec / SECTORS_PER_PAGE * SECTORS_PER_PAGE == sec
  {
  }

  /** The lowest index whose slot is not in use, or |used| when every slot
      is in use. */
  function FirstFree(used: seq<bool>): (i: nat)
    ensures i <= |used|
    ensures forall j :: 0 <= j < i ==> used[j]
    ensures i < |used| ==> !used[i]
  {
    if used == [] then 0
    else if !used[0] then 0
    else 1 + FirstFree(used[1..])
  }

  /** Sector I of a page: bytes [512*I, 512*(I+1)). */
  function Chunk(page: seq<Byte>, i: int): (c: seq<Byte>)
    requires |page| == PGSIZE && 0 <= i < SECTORS_PER_PAGE
    ensures |c| == SECTOR_SIZE
  {
    page[SECTOR_SIZE * i .. SECTOR_SIZE * (i + 1)]
  }

  /** The disk once the first N sectors of PAGE have been written, one
      after the other, from sector SEC on. */
  function WriteSectors(d: Disk, sec: int, page: seq<Byte>, n: int): (r: Disk)
    requires |page| == PGSIZE && 0 <= n <= SECTORS_PER_PAGE
    decreases n
  {
    if n == 0 then d else WriteSectors(d, sec, page, n - 1)[sec + n - 1 := Chunk(page, n - 1)]
  }

  /** The disk after `swap_d_write (d, sec, page)`. */
  function WriteSlot(d: Disk, sec: int, page: seq<Byte>): (r: Disk)
    requires |page| == PGSIZE
  {
    WriteSectors(d, sec, page, SECTORS_PER_PAGE)
  }

  /** After N sector writes, sector SEC+I (I < N) holds sector I of the page
      and every other sector is as before. */
  lemma {:induction false} WriteSectorsAt(d: Disk, sec: int, page: seq<Byte>, n: int, s: int)
    requires |page| == PGSIZE && 0 <= n <= SECTORS_PER_PAGE
    requires s in d || sec <= s < sec + n
    ensures s in WriteSectors(d, sec, page, n)
    ensures WriteSectors(d, sec, page, n)[s] == if sec <= s < sec + n then Chunk(page, s - sec) else d[s]
    decreases n
  {
    if n > 0 && s != sec + n - 1 {
      WriteSectorsAt(d, sec, page, n - 1, s);
    }
  }

  /** Sectors SEC .. SEC+7 hold the page's eight sectors in order, every
      other sector is as before. */
  lemma WriteSlotAt(d: Disk, sec: int, page: seq<Byte>, s: int)
    requires |page| == PGSIZE && (s in d || sec <= s < sec + SECTORS_PER_PAGE)
    ensures s in WriteSlot(d, sec, page)
    ensures WriteSlot(d, sec, page)[s] == if sec <= s < sec + SECTORS_PER_PAGE then Chunk(page, s - sec) else d[s]
  {
    WriteSectorsAt(d, sec, page, SECTORS_PER_PAGE, s);
  }

  lemma WriteSlotValid(d: Disk, sec: int, page: seq<Byte>)
    requires DiskValid(d) && |page| == PGSIZE
    ensures DiskValid(WriteSlot(d, sec, page))
  {
    var r := WriteSlot(d, sec, page);
    forall s | 0 <= s < SWAP_SECTORS
      ensures s in r && |r[s]| == SECTOR_SIZE
    {
      WriteSlotAt(d, sec, page, s);
    }
  }

  /** The page `swap_d_read (d, sec, page)` fills in: byte K comes from
      sector sec + K/512 at offset K%512. */
  function ReadSlot(d: Disk, sec: int): (p: seq<Byte>)
    requires DiskValid(d) && IsSlotSector(sec)
    ensures |p| == PGSIZE
  {
    seq(PGSIZE, k requires 0 <= k < PGSIZE => d[sec + k / SECTOR_SIZE][k % SECTOR_SIZE])
  }

  /** The bytes of the first N+1 sectors of a slot are those of the first N
      followed by sector N. */
  lemma ReadSlotPrefix(d: Disk, sec: int, n: int)
    requires DiskValid(d) && IsSlotSector(sec) && 0 <= n < SECTORS_PER_PAGE
    ensures ReadSlot(d, sec)[..SECTOR_SIZE * (n + 1)] == ReadSlot(d, sec)[..SECTOR_SIZE * n] + d[sec + n]
  {
    var p := ReadSlot(d, sec);
    var a := p[..SECTOR_SIZE * (n + 1)];
    var b := p[..SECTOR_SIZE * n] + d[sec + n];
    assert |a| == |b|;
    forall k | 0 <= k < |a|
      ensures a[k] == b[k]
    {
      if k >= SECTOR_SIZE * n {
        assert k / SECTOR_SIZE == n && k % SECTOR_SIZE == k - SECTOR_SIZE * n;
      }
    }
  }

  /** Reading a slot right after writing a page to it gives the page back. */
  lemma SlotRoundTrip(d: Disk, sec: int, page: seq<Byte>)
    requires DiskValid(d) && IsSlotSector(sec) && |page| == PGSIZE
    ensures ReadSlot(WriteSlot(d, sec, page), sec) == page
  {
    var w := WriteSlot(d, sec, page);
    WriteSlotValid(d, sec, page);
    forall k | 0 <= k < PGSIZE
      ensures ReadSlot(w, sec)[k] == page[k]
    {
      var i, j := k / SECTOR_SIZE, k % SECTOR_SIZE;
      assert k == SECTOR_SIZE * i + j;
      WriteSlotAt(d, sec, page, sec + i);
    }
  }

  /** Writing one slot leaves the contents of every other slot alone. */
  lemma SlotWriteDisjoint(d: Disk, sec: int, other: int, page: seq<Byte>)
    requires DiskValid(d) && IsSlotSector(sec) && IsSlotSector(other) && sec != other
    requires |page| == PGSIZE
    ensures ReadSlot(WriteSlot(d, other, page), sec) == ReadSlot(d, sec)
  {
    var w := WriteSlot(d, other, page);
    WriteSlotValid(d, other, page);
    forall k | 0 <= k < PGSIZE
      ensures ReadSlot(w, sec)[k] == ReadSlot(d, sec)[k]
    {
      var i := k / SECTOR_SIZE;
      assert !(other <= sec + i < other + SECTORS_PER_PAGE);
      WriteSlotAt(d, other, page, sec + i);
    }
  }
}
