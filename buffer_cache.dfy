/** The buffer cache of filesys/cache.c: CACHE_SIZE blocks, each caching
    one disk sector, found by sector number, filled from the disk on
    demand, written back when dirty, and replaced round-robin.

    What a sector reads as through the cache is the data of the valid
    block holding it when that block is loaded, and the disk's copy
    otherwise (Views).  Every operation is a function on blocks, and a
    lemma says what it does to the views: lookups, loads, flushes and
    evictions leave them alone, writes and clears change the one sector.
    The class over the `cache_table` array follows the C code and is
    proved against those functions.  DISK_SECTOR_SIZE is that of
    devices/disk.h, which is not part of this model; the disk is a map
    from sector numbers to sector contents. */
module BufferCache {
  import opened Machine

  /** `CACHE_SIZE`. */
  const CACHE_SIZE: int := 64
  /** `DISK_SECTOR_SIZE`. */
  const SECTOR_SIZE: int := 512

  type Disk = map<int, seq<Byte>>

  /** `enum cache_lock_type`. */
  datatype LockType = ReadOnly | ReadWrite

  /** `struct cache_block` without its locks and condition variables. */
  datatype Block = Block(valid: bool, loaded: bool, dirty: bool, sector: int, data: seq<Byte>,
                         readers: int, writers: int, readWaiters: int, writeWaiters: int)

  /** Nobody reads, writes or waits for the block: `cache_victim` may
      take it. */
  predicate Idle(b: Block)
  {
    b.readers == 0 && b.writers == 0 && b.readWaiters == 0 && b.writeWaiters == 0
  }

  /** The readers-writer discipline of a block: counters never go
      negative, and a block has either any number of readers or a single
      writer. */
  predicate LockOk(b: Block)
  {
    && b.readers >= 0 && b.readWaiters >= 0 && b.writeWaiters >= 0
    && (b.writers == 0 || (b.writers == 1 && b.readers == 0))
  }

  /** One block on its own: a sector of data, the lock discipline, an
      invalid block neither loaded, dirty nor in use, a valid one naming
      a sector of the disk, and a loaded block that is not dirty holding
      exactly the disk's copy. */
  ghost predicate BlockOk(b: Block, disk: Disk)
  {
    && |b.data| == SECTOR_SIZE
    && LockOk(b)
    && (!b.valid ==> Idle(b))
    && (!b.valid ==> !b.loaded && !b.dirty)
    && (b.valid ==> b.sector in disk)
    && (b.valid && b.loaded && !b.dirty ==> b.data == disk[b.sector])
  }

  /** The cache table and the disk: every block well formed, every
      sector a sector of data, and no sector held by two valid blocks. */
  ghost predicate Wf(bs: seq<Block>, disk: Disk)
  {
    && |bs| == CACHE_SIZE
    && (forall s :: s in disk ==> |disk[s]| == SECTOR_SIZE)
    && (forall k :: 0 <= k < |bs| ==> BlockOk(bs[k], disk))
    && (forall j, k :: 0 <= j < k < |bs| && bs[j].valid && bs[k].valid ==> bs[j].sector != bs[k].sector)
  }

  /** B is a valid block holding SECTOR. */
  predicate Holds(b: Block, sector: int)
  {
    b.valid && b.sector == sector
  }

  /** The lookup loop of `cache_acquire` from index K on: the first valid
      block holding SECTOR, or -1. */
  function LookupFrom(bs: seq<Block>, sector: int, k: nat): (r: int)
    ensures r == -1 || (k <= r < |bs| && Holds(bs[r], sector))
    ensures r == -1 <==> forall j :: k <= j < |bs| ==> !Holds(bs[j], sector)
    ensures r != -1 ==> forall j :: k <= j < r ==> !Holds(bs[j], sector)
    decreases |bs| - k
  {
    if k >= |bs| then -1
    else if Holds(bs[k], sector) then k
    else LookupFrom(bs, sector, k + 1)
  }

  function Lookup(bs: seq<Block>, sector: int): (i: int)
  {
    LookupFrom(bs, sector, 0)
  }

  /** No sector is held by two blocks. */
  lemma HolderUnique(bs: seq<Block>, disk: Disk, j: int, k: int, sector: int)
    requires Wf(bs, disk) && 0 <= j < |bs| && 0 <= k < |bs|
    ensures Holds(bs[j], sector) && Holds(bs[k], sector) ==> j == k
  {
  }

  /** With no sector held twice, the lookup finds the one valid block
      that holds it. */
  lemma LookupFindsHolder(bs: seq<Block>, disk: Disk, k: int)
    requires Wf(bs, disk) && 0 <= k < |bs| && bs[k].valid
    ensures Lookup(bs, bs[k].sector) == k
  {
    HolderUnique(bs, disk, Lookup(bs, bs[k].sector), k, bs[k].sector);
  }

  /** What SECTOR reads as through the cache. */
  ghost function ViewOf(bs: seq<Block>, disk: Disk, sector: int): (v: seq<Byte>)
    requires sector in disk
  {
    var k := Lookup(bs, sector);
    if k >= 0 && bs[k].loaded then bs[k].data else disk[sector]
  }

  /** The disk as seen through the cache. */
  ghost function Views(bs: seq<Block>, disk: Disk): (m: map<int, seq<Byte>>)
    ensures m.Keys == disk.Keys
  {
    map s | s in disk :: ViewOf(bs, disk, s)
  }

  /** Two tables in which the same blocks hold SECTOR find the same
      block for it. */
  lemma LookupSame(bs: seq<Block>, bs': seq<Block>, sector: int, k: nat)
    requires |bs| == |bs'| && k <= |bs|
    requires forall j :: k <= j < |bs| ==> Holds(bs'[j], sector) == Holds(bs[j], sector)
    ensures LookupFrom(bs', sector, k) == LookupFrom(bs, sector, k)
    decreases |bs| - k
  {
    if k < |bs| {
      LookupSame(bs, bs', sector, k + 1);
    }
  }

  /** Replacing block K by a well-formed block B for the same sector
      keeps the table well formed... */
  lemma ReplaceWf(bs: seq<Block>, disk: Disk, k: int, b: Block)
    requires Wf(bs, disk) && 0 <= k < |bs| && BlockOk(b, disk)
    requires b.valid == bs[k].valid && b.sector == bs[k].sector
    ensures Wf(bs[k := b], disk)
  {
  }

  /** ... and what a sector reads as depends on block K only if K holds
      it. */
  lemma ReplaceViewOf(bs: seq<Block>, disk: Disk, k: int, b: Block, s: int)
    requires Wf(bs, disk) && 0 <= k < |bs| && s in disk
    requires b.valid == bs[k].valid && b.sector == bs[k].sector
    ensures ViewOf(bs[k := b], disk, s) ==
      if Holds(b, s) && b.loaded then b.data
      else if Holds(b, s) then disk[s]
      else ViewOf(bs, disk, s)
  {
    LookupSame(bs, bs[k := b], s, 0);
    if Holds(b, s) {
      LookupFindsHolder(bs, disk, k);
    }
  }

  /** So when B is loaded, its sector reads as B's data and no other
      sector changes. */
  lemma ReplaceLoaded(bs: seq<Block>, disk: Disk, k: int, b: Block)
    requires Wf(bs, disk) && 0 <= k < |bs| && BlockOk(b, disk)
    requires b.valid == bs[k].valid && b.sector == bs[k].sector && b.valid && b.loaded
    ensures Wf(bs[k := b], disk)
    ensures Views(bs[k := b], disk) == Views(bs, disk)[b.sector := b.data]
  {
    ReplaceWf(bs, disk, k, b);
    var m := Views(bs, disk)[b.sector := b.data];
    forall s | s in disk
      ensures ViewOf(bs[k := b], disk, s) == m[s]
    {
      ReplaceViewOf(bs, disk, k, b, s);
    }
    ViewsExt(bs[k := b], disk, m);
  }

  /** And when B has the same data and load state, nothing reads
      differently. */
  lemma ReplaceSameData(bs: seq<Block>, disk: Disk, k: int, b: Block)
    requires Wf(bs, disk) && 0 <= k < |bs| && BlockOk(b, disk)
    requires b.valid == bs[k].valid && b.sector == bs[k].sector
    requires b.loaded == bs[k].loaded && b.data == bs[k].data
    ensures Wf(bs[k := b], disk)
    ensures Views(bs[k := b], disk) == Views(bs, disk)
  {
    ReplaceWf(bs, disk, k, b);
    forall s | s in disk
      ensures ViewOf(bs[k := b], disk, s) == Views(bs, disk)[s]
    {
      ReplaceViewOf(bs, disk, k, b, s);
      if Holds(b, s) {
        LookupFindsHolder(bs, disk, k);
      }
    }
    ViewsExt(bs[k := b], disk, Views(bs, disk));
  }

  /** Changing one block's counters changes no view and keeps the table
      well formed. */
  lemma CountersKeepViews(bs: seq<Block>, disk: Disk, k: int, b: Block)
    requires Wf(bs, disk) && 0 <= k < |bs|
    requires b == bs[k].(readers := b.readers, writers := b.writers,
                         readWaiters := b.readWaiters, writeWaiters := b.writeWaiters)
    requires LockOk(b) && (!b.valid ==> Idle(b))
    ensures Wf(bs[k := b], disk) && Views(bs[k := b], disk) == Views(bs, disk)
  {
    ReplaceSameData(bs, disk, k, b);
  }

  /** `cache_flush` on one block: a loaded, dirty block is written to its
      sector and is then clean. */
  function Flushed(b: Block): (r: Block)
    ensures !(r.loaded && r.dirty)
    ensures r.(dirty := b.dirty) == b
  {
    if b.loaded && b.dirty then b.(dirty := false) else b
  }

  function FlushDisk(b: Block, disk: Disk): (d: Disk)
    ensures d.Keys == disk.Keys + (if b.loaded && b.dirty then {b.sector} else {})
  {
    if b.loaded && b.dirty then disk[b.sector := b.data] else disk
  }

  /** A second flush does nothing. */
  lemma FlushTwice(b: Block, disk: Disk)
    ensures Flushed(Flushed(b)) == Flushed(b)
    ensures FlushDisk(Flushed(b), FlushDisk(b, disk)) == FlushDisk(b, disk)
  {
  }

  /** Flushing a block writes back what the cache showed for its sector:
      no view changes, and the table stays well formed. */
  lemma FlushKeepsViews(bs: seq<Block>, disk: Disk, k: int)
    requires Wf(bs, disk) && 0 <= k < |bs|
    ensures var bs', disk' := bs[k := Flushed(bs[k])], FlushDisk(bs[k], disk);
      Wf(bs', disk') && Views(bs', disk') == Views(bs, disk)
  {
    var b := bs[k];
    var bs', disk' := bs[k := Flushed(b)], FlushDisk(b, disk);
    if b.loaded && b.dirty {
      FlushWf(bs, disk, k);
      forall s | s in disk
        ensures ViewOf(bs', disk', s) == Views(bs, disk)[s]
      {
        FlushViewOf(bs, disk, k, s);
      }
      ViewsExt(bs', disk', Views(bs, disk));
    } else {
      assert bs' == bs;
    }
  }

  lemma FlushWf(bs: seq<Block>, disk: Disk, k: int)
    requires Wf(bs, disk) && 0 <= k < |bs| && bs[k].loaded && bs[k].dirty
    ensures Wf(bs[k := Flushed(bs[k])], FlushDisk(bs[k], disk))
  {
    var bs', disk' := bs[k := Flushed(bs[k])], FlushDisk(bs[k], disk);
    forall j | 0 <= j < |bs'|
      ensures BlockOk(bs'[j], disk')
    {
      HolderUnique(bs, disk, j, k, bs[k].sector);
    }
  }

  lemma FlushViewOf(bs: seq<Block>, disk: Disk, k: int, s: int)
    requires Wf(bs, disk) && 0 <= k < |bs| && bs[k].loaded && bs[k].dirty && s in disk
    ensures ViewOf(bs[k := Flushed(bs[k])], FlushDisk(bs[k], disk), s) == ViewOf(bs, disk, s)
  {
    LookupSame(bs, bs[k := Flushed(bs[k])], s, 0);
    LookupFindsHolder(bs, disk, k);
  }

  /** Views are equal to M when they agree with it sector by sector. */
  lemma ViewsExt(bs: seq<Block>, disk: Disk, m: map<int, seq<Byte>>)
    requires m.Keys == disk.Keys
    requires forall s :: s in disk ==> ViewOf(bs, disk, s) == m[s]
    ensures Views(bs, disk) == m
  {
  }

  /** `cache_load`: a block that is not loaded reads its sector from the
      disk and is then loaded and clean. */
  function Loaded(b: Block, disk: Disk): (r: Block)
    requires b.sector in disk
    ensures r.loaded
    ensures !b.loaded ==> r.data == disk[b.sector] && !r.dirty
    ensures b.loaded ==> r == b
  {
    if !b.loaded then b.(data := disk[b.sector], loaded := true, dirty := false) else b
  }

  /** Loading a valid block changes no view: an unloaded block showed
      the disk's copy already. */
  lemma LoadKeepsViews(bs: seq<Block>, disk: Disk, k: int)
    requires Wf(bs, disk) && 0 <= k < |bs| && bs[k].valid
    ensures var bs' := bs[k := Loaded(bs[k], disk)];
      Wf(bs', disk) && Views(bs', disk) == Views(bs, disk)
  {
    ReplaceLoaded(bs, disk, k, Loaded(bs[k], disk));
    ReadSeesView(bs, disk, k);
  }

  /** `cache_read` after `cache_load`: the loaded block holds what the
      cache shows for its sector. */
  lemma ReadSeesView(bs: seq<Block>, disk: Disk, k: int)
    requires Wf(bs, disk) && 0 <= k < |bs| && bs[k].valid
    ensures Loaded(bs[k], disk).data == Views(bs, disk)[bs[k].sector]
  {
    LookupFindsHolder(bs, disk, k);
  }

  /** BUF copied over DATA from OFFSET on (the `memcpy` of `cache_write`). */
  function Splice(data: seq<Byte>, offset: int, buf: seq<Byte>): (r: seq<Byte>)
    requires 0 <= offset && offset + |buf| <= |data|
    ensures |r| == |data|
    ensures r[offset..offset + |buf|] == buf
    ensures forall j :: 0 <= j < |data| && !(offset <= j < offset + |buf|) ==> r[j] == data[j]
  {
    data[..offset] + buf + data[offset + |buf|..]
  }

  /** `cache_write`: a write of a whole sector at offset 0 only marks the
      block loaded, any other write loads it first; then BUF is copied in
      and the block is dirty. */
  function Written(b: Block, disk: Disk, offset: int, buf: seq<Byte>): (r: Block)
    requires b.sector in disk && |b.data| == SECTOR_SIZE && |disk[b.sector]| == SECTOR_SIZE
    requires 0 <= offset && offset + |buf| <= SECTOR_SIZE
    ensures r.loaded && r.dirty && r.valid == b.valid && r.sector == b.sector
  {
    var l := if offset == 0 && |buf| == SECTOR_SIZE then b.(loaded := true) else Loaded(b, disk);
    l.(data := Splice(l.data, offset, buf), dirty := true)
  }

  /** A write changes what its sector reads as, by exactly the bytes
      written, and no other sector. */
  lemma WriteUpdatesView(bs: seq<Block>, disk: Disk, k: int, offset: int, buf: seq<Byte>)
    requires Wf(bs, disk) && 0 <= k < |bs| && bs[k].valid
    requires 0 <= offset && offset + |buf| <= SECTOR_SIZE
    ensures var s := bs[k].sector; var bs' := bs[k := Written(bs[k], disk, offset, buf)];
      && Wf(bs', disk)
      && Views(bs', disk) == Views(bs, disk)[s := Splice(Views(bs, disk)[s], offset, buf)]
  {
    var w := Written(bs[k], disk, offset, buf);
    var seen := Views(bs, disk)[bs[k].sector];
    ReadSeesView(bs, disk, k);
    assert w.data == Splice(seen, offset, buf) by {
      if offset == 0 && |buf| == SECTOR_SIZE {
        assert Splice(seen, offset, buf) == buf;
        assert Splice(bs[k].data, offset, buf) == buf;
      }
    }
    ReplaceLoaded(bs, disk, k, w);
  }

  /** `cache_fillzero`: load, then zero every byte and mark dirty. */
  function Zeroed(b: Block, disk: Disk): (r: Block)
    requires b.sector in disk
    ensures r.loaded && r.dirty && r.data == Zeros(SECTOR_SIZE)
    ensures r.valid == b.valid && r.sector == b.sector
  {
    Loaded(b, disk).(data := Zeros(SECTOR_SIZE), dirty := true)
  }

  /** Clearing a block makes its sector read as zeros and changes no
      other sector. */
  lemma FillZeroView(bs: seq<Block>, disk: Disk, k: int)
    requires Wf(bs, disk) && 0 <= k < |bs| && bs[k].valid
    ensures var s := bs[k].sector; var bs' := bs[k := Zeroed(bs[k], disk)];
      Wf(bs', disk) && Views(bs', disk) == Views(bs, disk)[s := Zeros(SECTOR_SIZE)]
  {
    ReplaceLoaded(bs, disk, k, Zeroed(bs[k], disk));
  }

  /** The end of `cache_victim`: the block is no longer valid, loaded or
      dirty. */
  function Evicted(b: Block): (r: Block)
    ensures !r.valid && !r.loaded && !r.dirty && r.sector == b.sector && r.data == b.data
  {
    b.(valid := false, loaded := false, dirty := false)
  }

  /** Evicting an idle block that holds nothing unwritten changes no
      view: its sector reads from the disk again, which has the same
      bytes. */
  lemma EvictKeepsViews(bs: seq<Block>, disk: Disk, k: int)
    requires Wf(bs, disk) && 0 <= k < |bs| && !(bs[k].loaded && bs[k].dirty) && Idle(bs[k])
    ensures var bs' := bs[k := Evicted(bs[k])];
      Wf(bs', disk) && Views(bs', disk) == Views(bs, disk)
  {
    var bs' := bs[k := Evicted(bs[k])];
    forall s | s in disk
      ensures ViewOf(bs', disk, s) == ViewOf(bs, disk, s)
    {
      if Holds(bs[k], s) {
        LookupFindsHolder(bs, disk, k);
        forall j | 0 <= j < |bs'|
          ensures !Holds(bs'[j], s)
        {
          HolderUnique(bs, disk, j, k, s);
        }
      } else {
        LookupSame(bs, bs', s, 0);
      }
    }
  }

  /** The miss path of `cache_acquire`: the freed block now holds
      SECTOR, valid but not loaded. */
  function Claimed(b: Block, sector: int): (r: Block)
    ensures r.valid && r.sector == sector && r.loaded == b.loaded && r.dirty == b.dirty
  {
    b.(sector := sector, valid := true)
  }

  /** Giving a sector no block holds to an invalid block changes no
      view: the block is not loaded, so the sector still reads from the
      disk. */
  lemma ClaimKeepsViews(bs: seq<Block>, disk: Disk, k: int, sector: int)
    requires Wf(bs, disk) && 0 <= k < |bs| && !bs[k].valid && sector in disk
    requires Lookup(bs, sector) == -1
    ensures var bs' := bs[k := Claimed(bs[k], sector)];
      Wf(bs', disk) && Views(bs', disk) == Views(bs, disk)
  {
    var bs' := bs[k := Claimed(bs[k], sector)];
    forall s | s in disk
      ensures ViewOf(bs', disk, s) == ViewOf(bs, disk, s)
    {
      if s != sector {
        LookupSame(bs, bs', s, 0);
      }
    }
  }

  /** Emptying a block leaves a sector no block held unheld. */
  lemma EvictedHoldsNothing(bs: seq<Block>, k: int, sector: int)
    requires 0 <= k < |bs| && Lookup(bs, sector) == -1
    ensures Lookup(bs[k := Evicted(Flushed(bs[k]))], sector) == -1
  {
    var bs' := bs[k := Evicted(Flushed(bs[k]))];
    assert forall j :: 0 <= j < |bs'| ==> !Holds(bs'[j], sector);
  }

  /** With no block both loaded and dirty, the cache shows exactly the
      disk: what `cache_flush_all` leaves behind. */
  lemma CleanCacheIsDisk(bs: seq<Block>, disk: Disk)
    requires Wf(bs, disk)
    requires forall k :: 0 <= k < |bs| ==> !(bs[k].loaded && bs[k].dirty)
    ensures Views(bs, disk) == disk
  {
    forall s | s in disk
      ensures ViewOf(bs, disk, s) == disk[s]
    {
      var k := Lookup(bs, s);
      if k >= 0 && bs[k].loaded {
        assert BlockOk(bs[k], disk);
      }
    }
  }

  /** The condition `cache_acquire` waits on: a reader waits while there
      is a writer or a writer waiting, a writer while there is anyone
      reading or writing. */
  predicate MustWait(b: Block, lockType: LockType)
  {
    match lockType
    case ReadOnly => b.writers != 0 || b.writeWaiters != 0
    case ReadWrite => b.readers != 0 || b.writers != 0
  }

  /** `cache_acquire` granting the lock: one more reader, or the single
      writer. */
  function Acquired(b: Block, lockType: LockType): (r: Block)
    requires !MustWait(b, lockType)
    ensures LockOk(b) ==> LockOk(r)
    ensures lockType == ReadOnly ==> r.readers == b.readers + 1 && r.writers == 0
    ensures lockType == ReadWrite ==> r.writers == 1 && r.readers == 0
    ensures r.(readers := b.readers, writers := b.writers) == b
  {
    match lockType
    case ReadOnly => b.(readers := b.readers + 1)
    case ReadWrite => b.(writers := 1)
  }

  /** `cache_acquire` going to sleep on the block's condition: it is
      counted among the waiters. */
  function Waiting(b: Block, lockType: LockType): (r: Block)
    ensures LockOk(b) ==> LockOk(r)
    ensures lockType == ReadOnly ==> r == b.(readWaiters := b.readWaiters + 1)
    ensures lockType == ReadWrite ==> r == b.(writeWaiters := b.writeWaiters + 1)
  {
    match lockType
    case ReadOnly => b.(readWaiters := b.readWaiters + 1)
    case ReadWrite => b.(writeWaiters := b.writeWaiters + 1)
  }

  /** The end of `cache_acquire` on block B: the lock granted when it is
      free, and the caller counted as a waiter otherwise. */
  function Taken(b: Block, lockType: LockType): (r: Block)
    ensures LockOk(b) ==> LockOk(r)
    ensures r.(readers := b.readers, writers := b.writers,
               readWaiters := b.readWaiters, writeWaiters := b.writeWaiters) == b
  {
    if MustWait(b, lockType) then Waiting(b, lockType) else Acquired(b, lockType)
  }

  /** `cache_release`: one reader fewer when there are readers, and no
      writer otherwise. */
  function Released(b: Block): (r: Block)
    ensures LockOk(b) ==> LockOk(r)
    ensures b.readers != 0 ==> r.readers == b.readers - 1 && r.writers == b.writers
    ensures b.readers == 0 ==> r.writers == 0 && r.readers == 0
    ensures r.(readers := b.readers, writers := b.writers) == b
  {
    if b.readers != 0 then b.(readers := b.readers - 1) else b.(writers := 0)
  }

  /** Releasing a block right after acquiring it gives back the block as
      it was, for either kind of lock. */
  lemma ReleaseUndoesAcquire(b: Block, lockType: LockType)
    requires LockOk(b) && !MustWait(b, lockType)
    ensures Released(Acquired(b, lockType)) == b
  {
  }

  /** A writer excludes every reader and every other writer: whenever
      the lock discipline holds, a second writer must wait, and so must
      a reader while the writer holds the block. */
  lemma WriterExcludes(b: Block)
    requires LockOk(b) && !MustWait(b, ReadWrite)
    ensures MustWait(Acquired(b, ReadWrite), ReadWrite)
    ensures MustWait(Acquired(b, ReadWrite), ReadOnly)
  {
  }

  /** Readers share: a reader can join other readers as long as no
      writer holds or waits for the block. */
  lemma ReadersShare(b: Block)
    requires LockOk(b) && !MustWait(b, ReadOnly)
    ensures !MustWait(Acquired(b, ReadOnly), ReadOnly)
    ensures MustWait(Acquired(b, ReadOnly), ReadWrite)
  {
  }

  /** Index of the block `cache_victim` looks at after COUNT steps from
      START: `victim_idx` advances by one modulo CACHE_SIZE, and after a
      full round it is back at START. */
  function Pos(start: int, count: int): (j: int)
    requires 0 <= start < CACHE_SIZE && 0 <= count < 2 * CACHE_SIZE
    ensures 0 <= j < CACHE_SIZE
  {
    var c := if count >= CACHE_SIZE then count - CACHE_SIZE else count;
    if start + c < CACHE_SIZE then start + c else start + c - CACHE_SIZE
  }

  /** How many steps from START the scan takes to reach block J. */
  function Offset(start: int, j: int): (d: int)
    requires 0 <= start < CACHE_SIZE && 0 <= j < CACHE_SIZE
    ensures 0 <= d < CACHE_SIZE && Pos(start, d) == j
  {
    if j >= start then j - start else j - start + CACHE_SIZE
  }

  /** One step of the scan moves `victim_idx` to the next block,
      wrapping round at the end of the table. */
  lemma PosNext(start: int, count: int, p: int)
    requires 0 <= start < CACHE_SIZE && 0 <= count && count + 1 < 2 * CACHE_SIZE
    requires p == Pos(start, count)
    ensures (p + 1) % CACHE_SIZE == Pos(start, count + 1)
  {
    assert CACHE_SIZE == 64;
    if p == 63 {
      assert (p + 1) % 64 == 0;
    } else {
      assert (p + 1) % 64 == p + 1;
    }
  }

  /** The loop of `cache_victim` from step COUNT on: during the first
      round it stops only at an invalid block, during the second also at
      an idle one; -1 when it would never stop. */
  function Scan(bs: seq<Block>, start: int, count: int): (r: int)
    requires |bs| == CACHE_SIZE && 0 <= start < CACHE_SIZE && 0 <= count <= 2 * CACHE_SIZE
    ensures r == -1 || (0 <= r < CACHE_SIZE && (!bs[r].valid || Idle(bs[r])))
    decreases 2 * CACHE_SIZE - count
  {
    if count == 2 * CACHE_SIZE then -1
    else
      var j := Pos(start, count);
      if !bs[j].valid then j
      else if count >= CACHE_SIZE && Idle(bs[j]) then j
      else Scan(bs, start, count + 1)
  }

  /** A block the scan passes over leaves the rest of the scan to find
      the victim. */
  lemma ScanSkip(bs: seq<Block>, start: int, count: int)
    requires |bs| == CACHE_SIZE && 0 <= start < CACHE_SIZE && 0 <= count < 2 * CACHE_SIZE
    requires Scan(bs, start, count) != -1
    requires bs[Pos(start, count)].valid && !(count >= CACHE_SIZE && Idle(bs[Pos(start, count)]))
    ensures count + 1 < 2 * CACHE_SIZE && Scan(bs, start, count + 1) == Scan(bs, start, count)
  {
  }

  /** One step of the scan that does not stop: the next block is
      `(victim_idx + 1) % CACHE_SIZE` and the scan goes on from there. */
  lemma ScanStep(bs: seq<Block>, start: int, count: int, v: int)
    requires |bs| == CACHE_SIZE && 0 <= start < CACHE_SIZE && 0 <= count < 2 * CACHE_SIZE
    requires v == Pos(start, count) && Scan(bs, start, count) != -1
    requires bs[v].valid && !(count >= CACHE_SIZE && Idle(bs[v]))
    ensures count + 1 < 2 * CACHE_SIZE && Scan(bs, start, count + 1) == Scan(bs, start, count)
    ensures (v + 1) % CACHE_SIZE == Pos(start, count + 1)
  {
    ScanSkip(bs, start, count);
    PosNext(start, count, v);
  }

  /** The block `cache_victim` takes, starting at `victim_idx` START. */
  function VictimChoice(bs: seq<Block>, start: int): (i: int)
    requires |bs| == CACHE_SIZE && 0 <= start < CACHE_SIZE
  {
    Scan(bs, start, 0)
  }

  /** During the second round the scan takes the first idle block. */
  lemma {:induction false} ScanSecondRound(bs: seq<Block>, start: int, c: int, d: int)
    requires |bs| == CACHE_SIZE && 0 <= start < CACHE_SIZE && CACHE_SIZE <= c <= d < 2 * CACHE_SIZE
    requires forall j :: 0 <= j < CACHE_SIZE ==> bs[j].valid
    requires Idle(bs[Pos(start, d)])
    requires forall e :: c <= e < d ==> !Idle(bs[Pos(start, e)])
    ensures Scan(bs, start, c) == Pos(start, d)
    decreases d - c
  {
    if c < d {
      ScanSecondRound(bs, start, c + 1, d);
    }
  }

  /** During the first round the scan takes the first invalid block. */
  lemma {:induction false} ScanFirstRound(bs: seq<Block>, start: int, c: int, d: int)
    requires |bs| == CACHE_SIZE && 0 <= start < CACHE_SIZE && 0 <= c <= d < CACHE_SIZE
    requires !bs[Pos(start, d)].valid
    requires forall e :: c <= e < d ==> bs[Pos(start, e)].valid
    ensures Scan(bs, start, c) == Pos(start, d)
    decreases d - c
  {
    if c < d {
      ScanFirstRound(bs, start, c + 1, d);
    }
  }

  /** With every block valid, the first round passes over all of them. */
  lemma {:induction false} ScanAllValid(bs: seq<Block>, start: int, c: int)
    requires |bs| == CACHE_SIZE && 0 <= start < CACHE_SIZE && 0 <= c <= CACHE_SIZE
    requires forall j :: 0 <= j < CACHE_SIZE ==> bs[j].valid
    ensures Scan(bs, start, c) == Scan(bs, start, CACHE_SIZE)
    decreases CACHE_SIZE - c
  {
    if c < CACHE_SIZE {
      assert bs[Pos(start, c)].valid;
      ScanAllValid(bs, start, c + 1);
    }
  }

  /** With every block valid and busy, the second round finds nothing. */
  lemma {:induction false} ScanAllBusy(bs: seq<Block>, start: int, c: int)
    requires |bs| == CACHE_SIZE && 0 <= start < CACHE_SIZE && CACHE_SIZE <= c <= 2 * CACHE_SIZE
    requires forall j :: 0 <= j < CACHE_SIZE ==> bs[j].valid && !Idle(bs[j])
    ensures Scan(bs, start, c) == -1
    decreases 2 * CACHE_SIZE - c
  {
    if c < 2 * CACHE_SIZE {
      assert bs[Pos(start, c)].valid && !Idle(bs[Pos(start, c)]);
      ScanAllBusy(bs, start, c + 1);
    }
  }

  /** When the scan finds nothing, every block it passed was valid, and
      every block of the second round busy. */
  lemma {:induction false} ScanNothing(bs: seq<Block>, start: int, c: int)
    requires |bs| == CACHE_SIZE && 0 <= start < CACHE_SIZE && 0 <= c <= 2 * CACHE_SIZE
    requires Scan(bs, start, c) == -1
    ensures forall e :: c <= e < 2 * CACHE_SIZE ==> bs[Pos(start, e)].valid
    ensures forall e :: c <= e < 2 * CACHE_SIZE && CACHE_SIZE <= e ==> !Idle(bs[Pos(start, e)])
    decreases 2 * CACHE_SIZE - c
  {
    if c < 2 * CACHE_SIZE {
      ScanNothing(bs, start, c + 1);
    }
  }

  /** `cache_victim` takes the first invalid block, counting round the
      table from START, when there is one. */
  lemma VictimTakesFirstInvalid(bs: seq<Block>, start: int, j: int)
    requires |bs| == CACHE_SIZE && 0 <= start < CACHE_SIZE && 0 <= j < CACHE_SIZE
    requires !bs[j].valid
    requires forall i :: 0 <= i < CACHE_SIZE && Offset(start, i) < Offset(start, j) ==> bs[i].valid
    ensures VictimChoice(bs, start) == j
  {
    var d := Offset(start, j);
    forall e | 0 <= e < d
      ensures bs[Pos(start, e)].valid
    {
      assert Offset(start, Pos(start, e)) == e;
    }
    ScanFirstRound(bs, start, 0, d);
  }

  /** With every block valid, it takes the first idle block counting
      from START. */
  lemma VictimTakesFirstIdle(bs: seq<Block>, start: int, j: int)
    requires |bs| == CACHE_SIZE && 0 <= start < CACHE_SIZE && 0 <= j < CACHE_SIZE
    requires forall i :: 0 <= i < CACHE_SIZE ==> bs[i].valid
    requires Idle(bs[j])
    requires forall i :: 0 <= i < CACHE_SIZE && Offset(start, i) < Offset(start, j) ==> !Idle(bs[i])
    ensures VictimChoice(bs, start) == j
  {
    var d := Offset(start, j);
    ScanAllValid(bs, start, 0);
    forall e | CACHE_SIZE <= e < CACHE_SIZE + d
      ensures !Idle(bs[Pos(start, e)])
    {
      assert Offset(start, Pos(start, e)) == e - CACHE_SIZE;
    }
    assert Pos(start, CACHE_SIZE + d) == j;
    ScanSecondRound(bs, start, CACHE_SIZE, CACHE_SIZE + d);
  }

  /** It finds nothing, and would spin for ever, exactly when every
      block is valid and busy. */
  lemma VictimNoneMeansAllBusy(bs: seq<Block>, start: int)
    requires |bs| == CACHE_SIZE && 0 <= start < CACHE_SIZE
    ensures VictimChoice(bs, start) == -1 <==> forall i :: 0 <= i < CACHE_SIZE ==> bs[i].valid && !Idle(bs[i])
  {
    if forall i :: 0 <= i < CACHE_SIZE ==> bs[i].valid && !Idle(bs[i]) {
      ScanAllValid(bs, start, 0);
      ScanAllBusy(bs, start, CACHE_SIZE);
    }
    if VictimChoice(bs, start) == -1 {
      ScanNothing(bs, start, 0);
      forall i | 0 <= i < CACHE_SIZE
        ensures bs[i].valid && !Idle(bs[i])
      {
        assert Pos(start, Offset(start, i) + CACHE_SIZE) == i;
      }
    }
  }

  /** An unused block, as `cache_init` leaves every block of the static
      table: invalid, not loaded, not dirty and with no readers, writers
      or waiters. */
  function EmptyBlock(): (b: Block)
    ensures !b.valid && !b.loaded && !b.dirty && Idle(b) && |b.data| == SECTOR_SIZE
  {
    Block(false, false, false, 0, Zeros(SECTOR_SIZE), 0, 0, 0, 0)
  }

  /** The index of the block `cache_acquire` settles on for SECTOR: the
      block holding SECTOR if there is one, and otherwise the victim. */
  function Target(bs: seq<Block>, start: int, sector: int): (i: int)
    requires |bs| == CACHE_SIZE && 0 <= start < CACHE_SIZE
    requires Lookup(bs, sector) != -1 || VictimChoice(bs, start) != -1
    ensures 0 <= i < CACHE_SIZE
  {
    var r := Lookup(bs, sector);
    if r != -1 then r else VictimChoice(bs, start)
  }

  /** That block before `cache_acquire` takes its lock: as it was on a
      hit, and emptied and given SECTOR on a miss. */
  function Located(bs: seq<Block>, start: int, sector: int): (b: Block)
    requires |bs| == CACHE_SIZE && 0 <= start < CACHE_SIZE
    requires Lookup(bs, sector) != -1 || VictimChoice(bs, start) != -1
    ensures Holds(b, sector)
  {
    var i := Target(bs, start, sector);
    if Lookup(bs, sector) != -1 then bs[i] else Claimed(Evicted(Flushed(bs[i])), sector)
  }

  /** Updating an index with the element already there changes nothing. */
  lemma UpdateSame<T>(s: seq<T>, i: int)
    requires 0 <= i < |s|
    ensures s[i := s[i]] == s
  {
  }

  /** A second update of the same index overrides the first. */
  lemma UpdateTwice<T>(s: seq<T>, i: int, a: T, b: T)
    requires 0 <= i < |s|
    ensures s[i := a][i := b] == s[i := b]
  {
  }

  /** `cache_table` with `victim_idx` over a disk. */
  class Cache {
    const table: array<Block>
    var victimIdx: int
    var disk: Disk

    ghost predicate Valid()
      reads this, table
    {
      table.Length == CACHE_SIZE && Wf(table[..], disk) && 0 <= victimIdx < CACHE_SIZE
    }

    /** What every sector of the disk reads as through the cache. */
    ghost function Contents(): (m: map<int, seq<Byte>>)
      reads this, table
      requires Valid()
      ensures m.Keys == disk.Keys
    {
      Views(table[..], disk)
    }

    /** `cache_init`: every block unused, the scan starting at block 0. */
    constructor (d: Disk)
      requires forall s :: s in d ==> |d[s]| == SECTOR_SIZE
      ensures Valid() && fresh(table) && victimIdx == 0 && disk == d
      ensures forall k :: 0 <= k < CACHE_SIZE ==> table[k] == EmptyBlock()
      ensures Contents() == d
    {
      table := new Block[CACHE_SIZE](_ => EmptyBlock());
      victimIdx := 0;
      disk := d;
      new;
      CleanCacheIsDisk(table[..], disk);
    }

    /** Block I of the table becomes B. */
    method Store(i: int, b: Block)
      requires 0 <= i < table.Length
      modifies table
      ensures table[..] == old(table[..])[i := b]
    {
      table[i] := b;
    }

    /** `cache_flush`: write block I back when it is loaded and dirty. */
    method Flush(i: int)
      requires Valid() && 0 <= i < CACHE_SIZE
      modifies table, this`disk
      ensures Valid()
      ensures table[..] == old(table[..])[i := Flushed(old(table[i]))]
      ensures disk == FlushDisk(old(table[i]), old(disk))
      ensures Contents() == old(Contents())
    {
      FlushKeepsViews(table[..], disk, i);
      if table[i].loaded && table[i].dirty {
        disk := disk[table[i].sector := table[i].data];
        Store(i, table[i].(dirty := false));
      }
    }

    /** `cache_flush_all`: afterwards the disk holds what the cache showed,
        and no block is dirty. */
    method FlushAll()
      requires Valid()
      modifies table, this`disk
      ensures Valid()
      ensures disk == old(Contents()) && Contents() == old(Contents())
      ensures forall k :: 0 <= k < CACHE_SIZE ==> !(table[k].loaded && table[k].dirty)
    {
      var i := 0;
      while i < CACHE_SIZE
        invariant 0 <= i <= CACHE_SIZE && Valid()
        invariant Contents() == old(Contents())
        invariant forall k :: 0 <= k < i ==> !(table[k].loaded && table[k].dirty)
      {
        if table[i].valid {
          Flush(i);
        }
        i := i + 1;
      }
      CleanCacheIsDisk(table[..], disk);
    }

    /** `cache_victim`: scan from `victim_idx` for a block to reuse, flush
        it when it was in use for a sector, and empty it; `victim_idx` is
        left at the block taken.  The source spins while every block is
        busy, so a block that can be taken is required. */
    method Victim() returns (i: int)
      requires Valid() && VictimChoice(table[..], victimIdx) != -1
      modifies table, this`disk, this`victimIdx
      ensures Valid()
      ensures i == VictimChoice(old(table[..]), old(victimIdx)) && victimIdx == i
      ensures table[..] == old(table[..])[i := Evicted(Flushed(old(table[i])))]
      ensures disk == FlushDisk(old(table[i]), old(disk))
      ensures Contents() == old(Contents())
    {
      ghost var bs := table[..];
      var flush;
      i, flush := FindVictim();
      if flush {
        Flush(i);
      }
      if !flush {
        UpdateSame(bs, i);
      }
      ghost var flushed := table[..];
      EvictKeepsViews(flushed, disk, i);
      Store(i, Evicted(table[i]));
      UpdateTwice(bs, i, Flushed(bs[i]), Evicted(Flushed(bs[i])));
    }

    /** The loop of `cache_victim`: FLUSH tells whether it stopped at an
        idle block in the second round rather than at an invalid one.
        The index advances in a local and is stored in `victimIdx` when
        the scan stops; the cache lock held by the caller keeps anyone
        else from seeing it in between. */
    method FindVictim() returns (i: int, flush: bool)
      requires table.Length == CACHE_SIZE && 0 <= victimIdx < CACHE_SIZE
      requires VictimChoice(table[..], victimIdx) != -1
      modifies this`victimIdx
      ensures i == VictimChoice(table[..], old(victimIdx)) && victimIdx == i
      ensures flush ==> table[i].valid && Idle(table[i])
      ensures !flush ==> !table[i].valid
    {
      ghost var bs := table[..];
      var start := victimIdx;
      var idx := start;
      var count := 0;
      while true
        invariant 0 <= count < 2 * CACHE_SIZE
        invariant idx == Pos(start, count)
        invariant Scan(bs, start, count) == VictimChoice(bs, start) != -1
        decreases 2 * CACHE_SIZE - count
      {
        if !table[idx].valid {
          flush := false;
          break;
        }
        if count >= CACHE_SIZE && Idle(table[idx]) {
          flush := true;
          break;
        }
        ScanStep(bs, start, count, idx);
        idx := (idx + 1) % CACHE_SIZE;
        count := count + 1;
      }
      victimIdx := idx;
      i := idx;
    }

    /** `cache_acquire`: find the block holding SECTOR, or take a victim
        for it, then take the lock of the requested kind.  When the lock
        is not free the caller is counted as a waiter and GRANTED is
        false; the wait itself and the wake-up are not modelled. */
    method Acquire(sector: int, lockType: LockType) returns (i: int, granted: bool)
      requires Valid() && sector in disk
      requires Lookup(table[..], sector) != -1 || VictimChoice(table[..], victimIdx) != -1
      modifies table, this`disk, this`victimIdx
      ensures Valid() && Contents() == old(Contents())
      ensures i == Target(old(table[..]), old(victimIdx), sector)
      ensures granted == !MustWait(Located(old(table[..]), old(victimIdx), sector), lockType)
      ensures table[..] == old(table[..])[i := Taken(Located(old(table[..]), old(victimIdx), sector), lockType)]
    {
      ghost var bs := table[..];
      ghost var b := Located(bs, victimIdx, sector);
      i := Locate(sector);
      granted := TakeLock(i, lockType);
      UpdateTwice(bs, i, b, Taken(b, lockType));
    }

    /** The first half of `cache_acquire`: the block holding SECTOR, or a
        victim given SECTOR. */
    method Locate(sector: int) returns (i: int)
      requires Valid() && sector in disk
      requires Lookup(table[..], sector) != -1 || VictimChoice(table[..], victimIdx) != -1
      modifies table, this`disk, this`victimIdx
      ensures Valid() && Contents() == old(Contents())
      ensures i == Target(old(table[..]), old(victimIdx), sector)
      ensures table[..] == old(table[..])[i := Located(old(table[..]), old(victimIdx), sector)]
      ensures table[i] == Located(old(table[..]), old(victimIdx), sector)
    {
      ghost var bs := table[..];
      ghost var b := Located(bs, victimIdx, sector);
      i := Find(sector);
      if i == -1 {
        i := Miss(sector);
      } else {
        assert bs[i := b] == bs;
      }
    }

    /** The miss path of `cache_acquire`: a victim emptied and given
        SECTOR. */
    method Miss(sector: int) returns (i: int)
      requires Valid() && sector in disk
      requires Lookup(table[..], sector) == -1 && VictimChoice(table[..], victimIdx) != -1
      modifies table, this`disk, this`victimIdx
      ensures Valid() && Contents() == old(Contents())
      ensures i == old(VictimChoice(table[..], victimIdx))
      ensures table[..] == old(table[..])[i := Claimed(Evicted(Flushed(old(table[i]))), sector)]
    {
      ghost var bs := table[..];
      i := Victim();
      ghost var e := Evicted(Flushed(bs[i]));
      EvictedHoldsNothing(bs, i, sector);
      ClaimVictim(i, sector);
      UpdateTwice(bs, i, e, Claimed(e, sector));
    }

    /** The lookup loop of `cache_acquire`: the block holding SECTOR, or
        -1 (the source's NULL) when no valid block holds it. */
    method Find(sector: int) returns (i: int)
      requires table.Length == CACHE_SIZE
      ensures i == Lookup(table[..], sector)
      ensures i == -1 <==> forall k :: 0 <= k < CACHE_SIZE ==> !Holds(table[k], sector)
      ensures i != -1 ==> 0 <= i < CACHE_SIZE && table[i].valid && table[i].sector == sector
    {
      i := 0;
      while i < CACHE_SIZE
        invariant 0 <= i <= CACHE_SIZE
        invariant LookupFrom(table[..], sector, i) == Lookup(table[..], sector)
      {
        if table[i].valid && table[i].sector == sector {
          return;
        }
        i := i + 1;
      }
      i := -1;
    }

    /** The miss path of `cache_acquire`: the emptied victim now holds
        SECTOR. */
    method ClaimVictim(i: int, sector: int)
      requires Valid() && 0 <= i < CACHE_SIZE && sector in disk
      requires !table[i].valid && Idle(table[i])
      requires Lookup(table[..], sector) == -1
      modifies table
      ensures Valid() && Contents() == old(Contents())
      ensures table[..] == old(table[..])[i := Claimed(old(table[i]), sector)]
    {
      ClaimKeepsViews(table[..], disk, i, sector);
      Store(i, Claimed(table[i], sector));
    }

    /** The end of `cache_acquire`: take the lock, or be counted as
        waiting for it. */
    method TakeLock(i: int, lockType: LockType) returns (granted: bool)
      requires Valid() && 0 <= i < CACHE_SIZE && table[i].valid
      modifies table
      ensures Valid() && Contents() == old(Contents())
      ensures granted == !MustWait(old(table[i]), lockType)
      ensures table[..] == old(table[..])[i := Taken(old(table[i]), lockType)]
    {
      var b := table[i];
      var b' := b;
      if MustWait(b, lockType) {
        b' := Waiting(b, lockType);
        granted := false;
      } else {
        b' := Acquired(b, lockType);
        granted := true;
      }
      ghost var bs := table[..];
      CountersKeepViews(bs, disk, i, b');
      Store(i, b');
    }

    /** `cache_release`. */
    method Release(i: int)
      requires Valid() && 0 <= i < CACHE_SIZE
      modifies table
      ensures Valid() && Contents() == old(Contents())
      ensures table[..] == old(table[..])[i := Released(old(table[i]))]
    {
      ghost var bs := table[..];
      var b := Released(table[i]);
      CountersKeepViews(bs, disk, i, b);
      Store(i, b);
    }

    /** `cache_load`. */
    method Load(i: int)
      requires Valid() && 0 <= i < CACHE_SIZE && table[i].valid
      modifies table
      ensures Valid() && Contents() == old(Contents())
      ensures table[..] == old(table[..])[i := Loaded(old(table[i]), disk)]
    {
      LoadKeepsViews(table[..], disk, i);
      if !table[i].loaded {
        Store(i, table[i].(data := disk[table[i].sector], loaded := true, dirty := false));
      }
    }

    /** `cache_read`: SIZE bytes of block I from OFFSET on, which are the
        bytes its sector reads as through the cache. */
    method Read(i: int, offset: int, size: int) returns (buf: seq<Byte>)
      requires Valid() && 0 <= i < CACHE_SIZE && table[i].valid
      requires 0 <= offset && 0 <= size && offset + size <= SECTOR_SIZE
      modifies table
      ensures Valid() && Contents() == old(Contents())
      ensures buf == old(Contents())[old(table[i].sector)][offset..offset + size]
      ensures table[..] == old(table[..])[i := Loaded(old(table[i]), disk)]
    {
      ReadSeesView(table[..], disk, i);
      Load(i);
      buf := table[i].data[offset..offset + size];
    }

    /** `cache_write`: BUF replaces the bytes of block I from OFFSET on,
        and that is the only change to what the disk reads as. */
    method Write(i: int, offset: int, buf: seq<Byte>)
      requires Valid() && 0 <= i < CACHE_SIZE && table[i].valid
      requires 0 <= offset && offset + |buf| <= SECTOR_SIZE
      modifies table
      ensures Valid()
      ensures var s := old(table[i].sector);
        Contents() == old(Contents())[s := Splice(old(Contents())[s], offset, buf)]
      ensures table[..] == old(table[..])[i := Written(old(table[i]), disk, offset, buf)]
    {
      ghost var bs := table[..];
      WriteUpdatesView(bs, disk, i, offset, buf);
      PrepareWrite(i, offset, |buf|);
      ghost var prepared := table[i];
      Store(i, table[i].(data := Splice(table[i].data, offset, buf), dirty := true));
      UpdateTwice(bs, i, prepared, Written(bs[i], disk, offset, buf));
    }

    /** The first half of `cache_write`: a whole sector need not be read
        first. */
    method PrepareWrite(i: int, offset: int, size: int)
      requires Valid() && 0 <= i < CACHE_SIZE && table[i].valid
      modifies table
      ensures var b := old(table[i]);
        table[..] == old(table[..])[i := if offset == 0 && size == SECTOR_SIZE then b.(loaded := true)
                                         else Loaded(b, disk)]
    {
      if offset == 0 && size == SECTOR_SIZE {
        Store(i, table[i].(loaded := true));
      } else {
        Load(i);
      }
    }

    /** `cache_fillzero`: the sector of block I now reads as zeros. */
    method FillZero(i: int)
      requires Valid() && 0 <= i < CACHE_SIZE && table[i].valid
      modifies table
      ensures Valid()
      ensures Contents() == old(Contents())[old(table[i].sector) := Zeros(SECTOR_SIZE)]
      ensures table[..] == old(table[..])[i := Zeroed(old(table[i]), disk)]
    {
      ghost var bs := table[..];
      FillZeroView(bs, disk, i);
      Load(i);
      Store(i, table[i].(data := Zeros(SECTOR_SIZE), dirty := true));
      UpdateTwice(bs, i, Loaded(bs[i], disk), Zeroed(bs[i], disk));
    }
  }
}
