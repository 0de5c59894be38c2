/** The second virtual-memory layer (vm/page_table.c and vm/frame_table.c).
    Each thread has a supplemental page table keyed by user page whose
    entries say where a page's bytes come from: a range of a file followed
    by zeros, or nothing at all for a stack page.  One global frame table
    holds the frames in use, keyed by an `order` number.  This layer never
    swaps: eviction writes a page back to its file and drops it. */
module FileBackedVm {
  import opened Machine
  import opened Wrappers

  /** Largest stack `expand_stack` grows (`MAX_STACK_SIZE`, 1 MiB). */
  const MAX_STACK_SIZE: int := 1048576

  /** `page_t`. */
  datatype PageType = Stack | File | Swap

  /** A supplemental page-table entry (`struct page_entry`) together with
      the kernel address it was allocated at, which is its identity. */
  datatype SupEntry = SupEntry(
    addr: int,
    userPage: int,
    file: int,
    ofs: int,
    readBytes: nat,
    zeroBytes: nat,
    writable: bool,
    pageType: PageType)

  /** A frame-table entry (`struct frame_entry`): the page entry it holds,
      the thread that created it, the kernel page and the `order` key. */
  datatype FrameEntry = FrameEntry(page: SupEntry, thread: Tid, framePtr: int, order: int)

  /** Open files by handle; NULL is never a handle. */
  type FileStore = map<int, seq<Byte>>

  /** `page_hash_less`: entries are ordered by user page alone. */
  predicate PageHashLess(a: SupEntry, b: SupEntry)
  {
    a.userPage < b.userPage
  }

  /** The hash table treats two entries as the same key exactly when
      neither is less than the other, that is when their user pages agree. */
  lemma PageHashLessKey(a: SupEntry, b: SupEntry)
    ensures !PageHashLess(a, b) && !PageHashLess(b, a) <==> a.userPage == b.userPage
    ensures !(PageHashLess(a, b) && PageHashLess(b, a))
  {
  }

  /** `frame_hash_less`: frames are ordered by `order` alone. */
  predicate FrameHashLess(a: FrameEntry, b: FrameEntry)
  {
    a.order < b.order
  }

  /** Two frames are the same key exactly when their orders agree, whatever
      their pages, threads and kernel pages. */
  lemma FrameHashLessKey(a: FrameEntry, b: FrameEntry)
    ensures !FrameHashLess(a, b) && !FrameHashLess(b, a) <==> a.order == b.order
    ensures !(FrameHashLess(a, b) && FrameHashLess(b, a))
  {
  }

  /** `hash_insert` on the frame table: the entry goes in only if no entry
      with its order is there; otherwise the table is left as it was. */
  function FrameInsert(table: map<int, FrameEntry>, e: FrameEntry): map<int, FrameEntry>
  {
    if e.order in table then table else table[e.order := e]
  }

  /** While every order is below the table size, the size is a fresh order:
      the new frame goes in and the table stays dense. */
  lemma DenseOrdersInsert(table: map<int, FrameEntry>, e: FrameEntry)
    requires forall k :: k in table ==> 0 <= k < |table|
    requires e.order == |table|
    ensures FrameInsert(table, e) == table[e.order := e]
    ensures |FrameInsert(table, e)| == |table| + 1
    ensures forall k :: k in FrameInsert(table, e) ==> 0 <= k < |FrameInsert(table, e)|
  {
    assert e.order !in table;
  }

  /** `order = hash_size` after a removal: from a table with orders 0 and 1,
      removing order 0 leaves one entry, so the next frame gets order 1,
      which the survivor holds; the insert is dropped and the new frame is
      not in the table. */
  lemma OrderCollisionDropsFrame(table: map<int, FrameEntry>, e: FrameEntry)
    requires table.Keys == {0, 1} && e.order == |table - {0}| && e != table[1]
    ensures FrameInsert(table - {0}, e) == table - {0}
    ensures e !in FrameInsert(table - {0}, e).Values
  {
    var rest := table - {0};
    assert rest.Keys == {1};
    assert |rest| == |rest.Keys| == 1;
    assert forall v :: v in rest.Values ==> v == rest[1];
  }

  /** The file after `file_write_at` of DATA at OFS; the file does not grow,
      bytes past its end are dropped. */
  function FileWrite(contents: seq<Byte>, ofs: int, data: seq<Byte>): (r: seq<Byte>)
    requires 0 <= ofs
    ensures |r| == |contents|
  {
    seq(|contents|, i requires 0 <= i < |contents| =>
      if ofs <= i < ofs + |data| then data[i - ofs] else contents[i])
  }

  /** Reading back a range just written gives the written bytes. */
  lemma FileWriteRead(contents: seq<Byte>, ofs: int, data: seq<Byte>)
    requires 0 <= ofs && ofs + |data| <= |contents|
    ensures FileRead(FileWrite(contents, ofs, data), ofs, |data|) == data
  {
    var r := FileRead(FileWrite(contents, ofs, data), ofs, |data|);
    assert |r| == |data|;
    forall i | 0 <= i < |data|
      ensures r[i] == data[i]
    {
    }
  }

  /** A write leaves every byte outside its range alone. */
  lemma FileWriteElsewhere(contents: seq<Byte>, ofs: int, data: seq<Byte>, i: int)
    requires 0 <= ofs && 0 <= i < |contents| && !(ofs <= i < ofs + |data|)
    ensures FileWrite(contents, ofs, data)[i] == contents[i]
  {
  }

  /** `pagedir_is_dirty` as `frame_eviction` calls it: with the page
      entry's own address rather than its user page.  A kernel address is
      answered by the kernel's mapping of it, whose dirty bits are
      KERNELDIRTY. */
  function DirtyQuery(hw: Hw, kernelDirty: set<int>, f: FrameEntry): bool
  {
    if IsUserVaddr(f.page.addr) then IsDirty(hw, f.thread, f.page.addr)
    else f.page.addr in kernelDirty
  }

  /** The write-back decision does not depend on whether the user page was
      written: setting its mapping's dirty bit either way changes nothing. */
  lemma DirtyQueryIgnoresUserPage(hw: Hw, kernelDirty: set<int>, f: FrameEntry, m: Mapping)
    requires f.page.addr >= PHYS_BASE
    ensures var hw' := hw.(pagedirs := hw.pagedirs[f.thread := Dir(hw, f.thread)[f.page.userPage := m]]);
      DirtyQuery(hw', kernelDirty, f) == DirtyQuery(hw, kernelDirty, f)
  {
  }

  /** The files after `frame_eviction` has decided whether to write frame F
      back: when DIRTY, `read_bytes` bytes of the frame go to the page's
      file at its offset. */
  function WriteBack(files: FileStore, f: FrameEntry, frame: seq<Byte>, dirty: bool): (r: FileStore)
    requires |frame| == PGSIZE && f.page.readBytes <= PGSIZE && 0 <= f.page.ofs
    ensures r.Keys == files.Keys
    ensures !dirty ==> r == files
  {
    if dirty && f.page.file in files then
      files[f.page.file := FileWrite(files[f.page.file], f.page.ofs, frame[..f.page.readBytes])]
    else files
  }

  /** A dirty frame whose file range lies inside the file can be read back
      from the file after the write-back. */
  lemma WriteBackReadable(files: FileStore, f: FrameEntry, frame: seq<Byte>)
    requires |frame| == PGSIZE && f.page.readBytes <= PGSIZE && 0 <= f.page.ofs
    requires f.page.file in files && f.page.ofs + f.page.readBytes <= |files[f.page.file]|
    ensures FileRead(WriteBack(files, f, frame, true)[f.page.file], f.page.ofs, f.page.readBytes)
      == frame[..f.page.readBytes]
  {
    FileWriteRead(files[f.page.file], f.page.ofs, frame[..f.page.readBytes]);
  }

  /** The frame `load_page_from_file` leaves behind, from the page PREV the
      allocator handed out: the bytes read go first, then the zero-filled
      part, then whatever PREV held.  Reading into the frame and clearing
      after the bytes read produce exactly this. */
  lemma FilledLayout(prev: seq<Byte>, data: seq<Byte>, zb: nat)
    requires |prev| == PGSIZE && |data| + zb <= PGSIZE
    ensures var read := data + prev[|data|..];
      var filled := read[..|data|] + Zeros(zb) + read[|data| + zb..];
      && |filled| == PGSIZE
      && filled[..|data|] == data
      && (forall i :: |data| <= i < |data| + zb ==> filled[i] == 0)
      && filled[|data| + zb..] == prev[|data| + zb..]
  {
    var read := data + prev[|data|..];
    assert read[..|data|] == data;
    assert read[|data| + zb..] == prev[|data| + zb..];
  }

  /** `CALC_SIZE (uaddr)`: the distance from PHYS_BASE down to UADDR as a
      32-bit unsigned number. */
  function CalcSize(uaddr: int): int
    requires 0 <= uaddr < ADDR_LIMIT
  {
    (PHYS_BASE - uaddr) % ADDR_LIMIT
  }

  /** `expand_stack` proceeds exactly for the addresses in the top MiB below
      PHYS_BASE, PHYS_BASE itself included; the wrap-around makes every
      kernel address above PHYS_BASE fail the check. */
  lemma CalcSizeBound(uaddr: int)
    requires 0 <= uaddr < ADDR_LIMIT
    ensures CalcSize(uaddr) < MAX_STACK_SIZE <==> PHYS_BASE - MAX_STACK_SIZE < uaddr <= PHYS_BASE
  {
    if uaddr > PHYS_BASE {
      assert CalcSize(uaddr) == PHYS_BASE - uaddr + ADDR_LIMIT;
    }
  }

  /** What the frame table needs of its entries: a real kernel page, a page
      entry allocated in kernel memory, and a file range within one page. */
  ghost predicate FrameValid(f: FrameEntry, hw: Hw)
  {
    && f.framePtr != NULL && f.framePtr in hw.memory
    && f.page.addr >= PHYS_BASE && 0 <= f.page.ofs && f.page.readBytes <= PGSIZE
  }

  /** Some frame of TABLE holds user page U of thread T. */
  ghost predicate HoldsFrame(table: map<int, FrameEntry>, t: Tid, u: int)
  {
    exists k :: k in table && table[k].thread == t && table[k].page.userPage == u
  }

  /** AFTER's page directories are BEFORE's with some mappings removed, and
      only mappings of user pages that a frame of TABLE held. */
  ghost predicate MappingsShrunk(before: Hw, after: Hw, table: map<int, FrameEntry>)
  {
    && (forall t, u :: u in Dir(after, t) ==> u in Dir(before, t) && Dir(after, t)[u] == Dir(before, t)[u])
    && (forall t, u :: u in Dir(before, t) && u !in Dir(after, t) ==> HoldsFrame(table, t, u))
  }

  /** The supplemental page table of thread T among TABLES (empty for a
      thread without one). */
  function TableOf(tables: map<Tid, map<int, SupEntry>>, t: Tid): map<int, SupEntry>
  {
    if t in tables then tables[t] else map[]
  }

  /** Adding a new key and then removing it again gives back the map. */
  lemma AddThenRemove<K, V>(m: map<K, V>, k: K, v: V)
    requires k !in m
    ensures m[k := v] - {k} == m
  {
  }

  /** Clearing the mapping of frame K of TABLE keeps the directories a
      shrinking of the original ones. */
  lemma EvictionShrinks(start: Hw, before: Hw, after: Hw, table: map<int, FrameEntry>, k: int)
    requires MappingsShrunk(start, before, table) && k in table
    requires after.pagedirs == ClearPage(before, table[k].thread, table[k].page.userPage).pagedirs
    ensures MappingsShrunk(start, after, table)
  {
    forall t, u | u in Dir(start, t) && u !in Dir(after, t)
      ensures HoldsFrame(table, t, u)
    {
      if u in Dir(before, t) {
        assert t == table[k].thread && u == table[k].page.userPage;
      }
    }
  }

  class Vm {
    /** Supplemental page tables by thread (`sup_page_table`). */
    var supTables: map<Tid, map<int, SupEntry>>
    /** The global `frame_table`, keyed by `order`. */
    var frameTable: map<int, FrameEntry>
    var hw: Hw
    var files: FileStore
    /** Dirty bits of the kernel's own mappings. */
    var kernelDirty: set<int>
    /** Where `malloc` places the next page entry. */
    var nextAddr: int

    ghost predicate Valid()
      reads this
    {
      && HwValid(hw)
      && nextAddr >= PHYS_BASE
      && (forall t, u :: t in supTables && u in supTables[t] ==>
            supTables[t][u].userPage == u && supTables[t][u].addr >= PHYS_BASE)
      && (forall k :: k in frameTable ==> FrameValid(frameTable[k], hw))
    }

    constructor (machine: Hw, openFiles: FileStore, kernelBits: set<int>)
      requires HwValid(machine)
      ensures Valid()
      ensures supTables == map[] && frameTable == map[]
      ensures hw == machine && files == openFiles && kernelDirty == kernelBits
    {
      supTables := map[];
      frameTable := map[];
      hw := machine;
      files := openFiles;
      kernelDirty := kernelBits;
      nextAddr := PHYS_BASE;
    }

    function Table(t: Tid): (table: map<int, SupEntry>)
      reads this
    {
      TableOf(supTables, t)
    }

    /** `retrieve_entry`: the current thread's entry for UPAGE, if any. */
    function RetrieveEntry(cur: Tid, upage: int): (r: Option<SupEntry>)
      requires Valid()
      reads this
      ensures r.Some? <==> upage in Table(cur)
      ensures r.Some? ==> r.value.userPage == upage && r.value in Table(cur).Values
    {
      if upage in Table(cur) then Some(Table(cur)[upage]) else None
    }

    /** `create_page_entry`: a new entry with the given fields goes into the
        current thread's table, unless UPAGE already has one, in which case
        the result is NULL and nothing changes. */
    method CreatePageEntry(cur: Tid, file: int, ofs: int, upage: int, readBytes: nat, zeroBytes: nat,
                           writable: bool, pageType: PageType) returns (r: Option<SupEntry>)
      requires Valid()
      modifies this`supTables, this`nextAddr
      ensures Valid()
      ensures r.None? <==> upage in old(Table(cur))
      ensures r.None? ==> supTables == old(supTables) && nextAddr == old(nextAddr)
      ensures r.Some? ==>
        && r.value == SupEntry(old(nextAddr), upage, file, ofs, readBytes, zeroBytes, writable, pageType)
        && Table(cur) == old(Table(cur))[upage := r.value]
        && (forall t :: t != cur ==> TableOf(supTables, t) == TableOf(old(supTables), t))
    {
      if upage in Table(cur) {
        return None;
      }
      var e := SupEntry(nextAddr, upage, file, ofs, readBytes, zeroBytes, writable, pageType);
      nextAddr := nextAddr + 1;
      supTables := supTables[cur := Table(cur)[upage := e]];
      r := Some(e);
    }

    /** `destroy_page_entry`: delete the current thread's entry with E's
        user page. */
    method DestroyPageEntry(cur: Tid, e: SupEntry)
      requires Valid()
      modifies this`supTables
      ensures Valid()
      ensures Table(cur) == old(Table(cur)) - {e.userPage}
      ensures forall t :: t != cur ==> TableOf(supTables, t) == TableOf(old(supTables), t)
    {
      supTables := supTables[cur := Table(cur) - {e.userPage}];
    }

    /** `destroy_frame`: if the table holds an entry with F's order (which
        need not be F itself) and F has a kernel page, that entry is
        deleted and F's page goes back to the allocator; otherwise nothing
        changes. */
    method DestroyFrame(f: FrameEntry)
      requires Valid() && (f.framePtr != NULL ==> f.framePtr in hw.memory)
      modifies this`frameTable, this`hw
      ensures Valid()
      ensures f.order in old(frameTable) && f.framePtr != NULL ==>
        frameTable == old(frameTable) - {f.order} && hw == PallocFree(old(hw), f.framePtr)
      ensures !(f.order in old(frameTable) && f.framePtr != NULL) ==>
        frameTable == old(frameTable) && hw == old(hw)
    {
      if f.order in frameTable && f.framePtr != NULL {
        frameTable := frameTable - {f.order};
        hw := PallocFree(hw, f.framePtr);
      }
    }

    /** `retrieve_frame`: scan the frame table for an entry holding PAGE. */
    method RetrieveFrame(page: SupEntry) returns (r: Option<FrameEntry>)
      ensures r.Some? ==> r.value in frameTable.Values && r.value.page == page
      ensures r.None? ==> forall k :: k in frameTable ==> frameTable[k].page != page
    {
      var rest := frameTable.Keys;
      while rest != {}
        invariant rest <= frameTable.Keys
        invariant forall k :: k in frameTable && k !in rest ==> frameTable[k].page != page
        decreases |rest|
      {
        if forall q :: q !in rest {
          assert false;
        }
        var k :| k in rest;
        if frameTable[k].page == page {
          return Some(frameTable[k]);
        }
        rest := rest - {k};
      }
      return None;
    }

    /** `frame_eviction`: on a non-empty table, one entry (the first the
        hash iterator yields) is written back to its file when the dirty
        query says so, removed from the table, unmapped from its thread,
        and its kernel page freed; an empty table is left alone. */
    method FrameEviction() returns (ghost victim: int)
      requires Valid()
      modifies this`frameTable, this`hw, this`files
      ensures Valid()
      ensures files.Keys == old(files.Keys)
      ensures old(frameTable) == map[] ==> frameTable == old(frameTable) && hw == old(hw) && files == old(files)
      ensures old(frameTable) != map[] ==>
        && victim in old(frameTable)
        && frameTable == old(frameTable) - {victim}
        && var f := old(frameTable)[victim];
           && hw == PallocFree(ClearPage(old(hw), f.thread, f.page.userPage), f.framePtr)
           && files == WriteBack(old(files), f, old(hw).memory[f.framePtr], DirtyQuery(old(hw), kernelDirty, f))
      ensures old(frameTable) != map[] ==> hw.pool != []
    {
      victim := 0;
      if frameTable == map[] {
        return;
      }
      if forall q :: q !in frameTable {
        assert false;
      }
      var k :| k in frameTable;
      victim := k;
      var f := frameTable[k];
      files := WriteBack(files, f, hw.memory[f.framePtr], DirtyQuery(hw, kernelDirty, f));
      frameTable := frameTable - {k};
      hw := ClearPage(hw, f.thread, f.page.userPage);
      hw := PallocFree(hw, f.framePtr);
    }

    /** `create_frame`: take a user page from the allocator, evicting a
        frame each time it has none, and record PAGE in a new frame entry
        whose order is the table size at that moment.  The entry is
        returned even when its insert was dropped.  BEFORE is the table
        just before the insert. */
    method CreateFrame(cur: Tid, page: SupEntry) returns (e: FrameEntry, ghost before: map<int, FrameEntry>)
      requires Valid() && page.addr >= PHYS_BASE && 0 <= page.ofs && page.readBytes <= PGSIZE
      requires hw.pool != [] || frameTable != map[]
      modifies this`frameTable, this`hw, this`files
      ensures Valid()
      ensures e.page == page && e.thread == cur && e.framePtr != NULL && e.framePtr in hw.memory
      ensures before.Keys <= old(frameTable).Keys && (forall k :: k in before ==> before[k] == old(frameTable)[k])
      ensures e.order == |before|
      ensures frameTable == FrameInsert(before, e)
      ensures hw.memory == old(hw.memory) && files.Keys == old(files.Keys)
      ensures MappingsShrunk(old(hw), hw, old(frameTable))
    {
      var got := NULL;
      before := frameTable;
      e := FrameEntry(page, cur, NULL, 0);
      while got == NULL
        invariant Valid()
        invariant got == NULL ==> hw.pool != [] || frameTable != map[]
        invariant got == NULL ==> frameTable.Keys <= old(frameTable).Keys
        invariant got == NULL ==> forall k :: k in frameTable ==> frameTable[k] == old(frameTable)[k]
        invariant hw.memory == old(hw.memory) && files.Keys == old(files.Keys)
        invariant MappingsShrunk(old(hw), hw, old(frameTable))
        invariant got != NULL ==>
          && e.page == page && e.thread == cur && e.framePtr != NULL && e.framePtr in hw.memory
          && before.Keys <= old(frameTable).Keys && (forall k :: k in before ==> before[k] == old(frameTable)[k])
          && e.order == |before| && frameTable == FrameInsert(before, e)
        decreases if got != NULL then 0 else if hw.pool != [] then 1 else 2
      {
        got := NextFree(hw);
        if got != NULL {
          hw := Palloc(hw, false);
          e := FrameEntry(page, cur, got, |frameTable|);
          before := frameTable;
          frameTable := FrameInsert(frameTable, e);
        } else {
          ghost var h0, t0 := hw, frameTable;
          ghost var v := FrameEviction();
          assert v in old(frameTable) && t0[v] == old(frameTable)[v];
          EvictionShrinks(old(hw), h0, hw, old(frameTable), v);
        }
      }
    }

    /** `load_page_from_file`: give PAGE a frame, read its `read_bytes`
        bytes from its file into the frame, clear the `zero_bytes` after
        them and map the page.  A short read or a user page that is already
        mapped destroys the frame and fails; a NULL entry succeeds without
        doing anything.  FRAME is the entry `create_frame` returned. */
    method LoadPageFromFile(cur: Tid, page: Option<SupEntry>) returns (ok: bool, ghost frame: FrameEntry, ghost mapped: bool)
      requires Valid()
      requires page.Some? ==>
        && page.value.addr >= PHYS_BASE && 0 <= page.value.ofs
        && page.value.readBytes + page.value.zeroBytes <= PGSIZE
        && IsUserVaddr(page.value.userPage)
        && (page.value.readBytes != 0 ==> page.value.file in files)
        && (hw.pool != [] || frameTable != map[])
      modifies this`frameTable, this`hw, this`files
      ensures Valid()
      ensures page.None? ==> ok && frameTable == old(frameTable) && hw == old(hw) && files == old(files)
      ensures page.Some? ==> frame.page == page.value && frame.thread == cur && files.Keys == old(files.Keys)
      ensures page.Some? && ok ==>
        && var p := page.value;
           && p.userPage in Dir(hw, cur)
           && Dir(hw, cur)[p.userPage] == Mapping(frame.framePtr, p.writable, false)
           && frame.framePtr in hw.memory
           && (p.readBytes != 0 ==>
                 hw.memory[frame.framePtr][..p.readBytes] == FileRead(files[p.file], p.ofs, p.readBytes))
           && (forall i :: p.readBytes <= i < p.readBytes + p.zeroBytes ==> hw.memory[frame.framePtr][i] == 0)
      ensures page.Some? && page.value.readBytes != 0 &&
              |FileRead(files[page.value.file], page.value.ofs, page.value.readBytes)| != page.value.readBytes
              ==> !ok
      ensures page.Some? && !ok ==> frame.order !in frameTable && hw.pool != [] && hw.pool[|hw.pool| - 1] == frame.framePtr
      ensures page.Some? ==>
        var p := page.value;
        && (ok <==> (p.readBytes == 0 || |FileRead(files[p.file], p.ofs, p.readBytes)| == p.readBytes) && !mapped)
        && (mapped ==> GetPage(old(hw), cur, p.userPage) != NULL)
        && ((p.readBytes == 0 || |FileRead(files[p.file], p.ofs, p.readBytes)| == p.readBytes)
            && GetPage(old(hw), cur, p.userPage) != NULL && !HoldsFrame(old(frameTable), cur, p.userPage)
            ==> mapped)
    {
      if page.None? {
        return true, FrameEntry(SupEntry(PHYS_BASE, 0, NULL, 0, 0, 0, false, Stack), cur, NULL, 0), false;
      }
      ok, frame, mapped := LoadIntoNewFrame(cur, page.value);
    }

    /** `load_page_from_file` for an entry P: create a frame, fill it, map
        it; a failure after the frame exists destroys it.  It succeeds
        exactly when the read is complete and `setup_page` finds the user
        page unmapped; MAPPED tells whether `setup_page` found it mapped.
        The frames `create_frame` evicts lose their mappings first, so a
        page mapped at the start is still mapped then unless one of the
        evicted frames held it. */
    method LoadIntoNewFrame(cur: Tid, p: SupEntry) returns (ok: bool, ghost frame: FrameEntry, ghost mapped: bool)
      requires Valid()
      requires p.addr >= PHYS_BASE && 0 <= p.ofs && p.readBytes + p.zeroBytes <= PGSIZE
      requires IsUserVaddr(p.userPage) && (p.readBytes != 0 ==> p.file in files)
      requires hw.pool != [] || frameTable != map[]
      modifies this`frameTable, this`hw, this`files
      ensures Valid()
      ensures frame.page == p && frame.thread == cur && files.Keys == old(files.Keys)
      ensures ok ==>
        && p.userPage in Dir(hw, cur)
        && Dir(hw, cur)[p.userPage] == Mapping(frame.framePtr, p.writable, false)
        && frame.framePtr in hw.memory
        && (p.readBytes != 0 ==> hw.memory[frame.framePtr][..p.readBytes] == FileRead(files[p.file], p.ofs, p.readBytes))
        && (forall i :: p.readBytes <= i < p.readBytes + p.zeroBytes ==> hw.memory[frame.framePtr][i] == 0)
      ensures p.readBytes != 0 && |FileRead(files[p.file], p.ofs, p.readBytes)| != p.readBytes ==> !ok
      ensures !ok ==> frame.order !in frameTable && hw.pool != [] && hw.pool[|hw.pool| - 1] == frame.framePtr
      ensures ok <==> (p.readBytes == 0 || |FileRead(files[p.file], p.ofs, p.readBytes)| == p.readBytes) && !mapped
      ensures mapped ==> GetPage(old(hw), cur, p.userPage) != NULL
      ensures (p.readBytes == 0 || |FileRead(files[p.file], p.ofs, p.readBytes)| == p.readBytes)
              && GetPage(old(hw), cur, p.userPage) != NULL && !HoldsFrame(old(frameTable), cur, p.userPage)
              ==> mapped
    {
      mapped := false;
      var f, before := CreateFrame(cur, p);
      frame := f;
      assert f.order in frameTable;
      var full := ReadIntoFrame(f.framePtr, p);
      if !full {
        DestroyFrame(f);
        return false, frame, mapped;
      }
      mapped := GetPage(hw, cur, p.userPage) != NULL;
      var installed := InstallPage(hw, cur, p.userPage, f.framePtr, p.writable);
      hw := installed.0;
      if !installed.1 {
        assert f.order in frameTable;
        DestroyFrame(f);
        return false, frame, mapped;
      }
      ok := true;
    }

    /** The frame-filling part of `load_page_from_file`: read P's
        `read_bytes` bytes from its file into kernel page K, and when all
        of them arrived clear the `zero_bytes` after them.  FULL tells
        whether the read was complete. */
    method ReadIntoFrame(k: int, p: SupEntry) returns (full: bool)
      requires Valid() && k in hw.memory && 0 <= p.ofs && p.readBytes + p.zeroBytes <= PGSIZE
      requires p.readBytes != 0 ==> p.file in files
      modifies this`hw
      ensures Valid()
      ensures hw.pagedirs == old(hw.pagedirs) && hw.pool == old(hw.pool) && hw.memory.Keys == old(hw.memory.Keys)
      ensures full <==> p.readBytes == 0 || |FileRead(files[p.file], p.ofs, p.readBytes)| == p.readBytes
      ensures full && p.readBytes != 0 ==> hw.memory[k][..p.readBytes] == FileRead(files[p.file], p.ofs, p.readBytes)
      ensures full ==> forall i :: p.readBytes <= i < p.readBytes + p.zeroBytes ==> hw.memory[k][i] == 0
    {
      var bytes := hw.memory[k];
      var data: seq<Byte> := [];
      if p.readBytes != 0 {
        data := FileRead(files[p.file], p.ofs, p.readBytes);
        bytes := data + bytes[|data|..];
        if |data| != p.readBytes {
          hw := Store(hw, k, bytes);
          return false;
        }
      }
      FilledLayout(bytes, data, p.zeroBytes);
      bytes := bytes[..p.readBytes] + Zeros(p.zeroBytes) + bytes[p.readBytes + p.zeroBytes..];
      hw := Store(hw, k, bytes);
      full := true;
    }

    /** `expand_stack`: for an address within MAX_STACK_SIZE below
        PHYS_BASE, create a writable STACK entry with no file for it, give
        it a frame and map it, returning the kernel page.  Failing to map
        destroys the frame and the entry; every failure returns NULL. */
    method ExpandStack(cur: Tid, uaddr: int) returns (r: int, ghost mapped: bool)
      requires Valid() && 0 <= uaddr < ADDR_LIMIT
      requires CalcSize(uaddr) < MAX_STACK_SIZE && uaddr !in Table(cur) ==>
        IsUserVaddr(uaddr) && (hw.pool != [] || frameTable != map[])
      modifies this`supTables, this`nextAddr, this`frameTable, this`hw, this`files
      ensures Valid()
      ensures CalcSize(uaddr) >= MAX_STACK_SIZE || uaddr in old(Table(cur)) ==>
        && r == NULL && supTables == old(supTables) && frameTable == old(frameTable)
        && hw == old(hw) && files == old(files)
      ensures r != NULL ==>
        && Table(cur) == old(Table(cur))[uaddr := SupEntry(old(nextAddr), uaddr, NULL, 0, 0, 0, true, Stack)]
        && uaddr in Dir(hw, cur) && Dir(hw, cur)[uaddr] == Mapping(r, true, false)
        && r in hw.memory
      ensures r == NULL ==> Table(cur) == old(Table(cur))
      ensures forall t :: t != cur ==> TableOf(supTables, t) == TableOf(old(supTables), t)
      ensures r != NULL <==> CalcSize(uaddr) < MAX_STACK_SIZE && uaddr !in old(Table(cur)) && !mapped
      ensures mapped ==> CalcSize(uaddr) < MAX_STACK_SIZE && uaddr !in old(Table(cur)) && GetPage(old(hw), cur, uaddr) != NULL
      ensures CalcSize(uaddr) < MAX_STACK_SIZE && uaddr !in old(Table(cur))
              && GetPage(old(hw), cur, uaddr) != NULL && !HoldsFrame(old(frameTable), cur, uaddr)
              ==> mapped
    {
      r, mapped := NULL, false;
      if CalcSize(uaddr) < MAX_STACK_SIZE {
        var page := CreatePageEntry(cur, NULL, 0, uaddr, 0, 0, true, Stack);
        if page.Some? {
          var frame, before := CreateFrame(cur, page.value);
          mapped := GetPage(hw, cur, uaddr) != NULL;
          var installed := InstallPage(hw, cur, page.value.userPage, frame.framePtr, page.value.writable);
          hw := installed.0;
          if installed.1 {
            r := frame.framePtr;
          } else {
            ghost var t0 := Table(cur);
            DestroyFrame(frame);
            DestroyPageEntry(cur, page.value);
            AddThenRemove(old(Table(cur)), uaddr, page.value);
            assert Table(cur) == t0 - {uaddr};
          }
        }
      }
    }
  }
}
