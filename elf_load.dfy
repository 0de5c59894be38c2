/** The ELF loader of userprog/process.c (`load`, `validate_segment`,
    `load_segment`, `setup_stack`).  The executable is given by its bytes;
    the header check, the program-header decisions and the division of a
    segment into file bytes and zero bytes are pure functions, and the
    loading of pages into the process's page directory is a class over the
    machine state. */
module ElfLoad {
  import opened Machine
  import opened Wrappers
  import opened ArgStack

  /** `sizeof (struct Elf32_Ehdr)` and `sizeof (struct Elf32_Phdr)`. */
  const EHDR_SIZE: int := 52
  const PHDR_SIZE: int := 32
  /** The program-header types `load` acts on; every other type is ignored. */
  const PT_LOAD: int := 1
  const PT_DYNAMIC: int := 2
  const PT_INTERP: int := 3
  const PT_SHLIB: int := 5
  /** The most program headers `load` accepts. */
  const MAX_PHNUM: int := 1024
  /** The largest `off_t`, bounding file lengths and offsets. */
  const OFF_MAX: int := 0x7fff_ffff

  /** `"\177ELF\1\1\1"`: the magic number, 32-bit class, little-endian
      data and version 1. */
  const ELF_IDENT: seq<Byte> := [0x7f, 0x45, 0x4c, 0x46, 1, 1, 1]

  /** An `Elf32_Word`, `Elf32_Addr` or `Elf32_Off`. */
  type Word = x: int | 0 <= x < 0x1_0000_0000

  /** Unsigned 32-bit wrap-around. */
  function U32(x: int): (r: Word)
    ensures 0 <= x < ADDR_LIMIT ==> r == x
  {
    x % ADDR_LIMIT
  }

  /** The unsigned 16-bit value of the two bytes of S from index I up,
      least significant first. */
  function Le16At(s: seq<Byte>, i: int): (v: int)
    requires 0 <= i && i + 2 <= |s|
    ensures 0 <= v < 0x1_0000
  {
    s[i] as int + 0x100 * (s[i + 1] as int)
  }

  /** The fields of `struct Elf32_Ehdr` that `load` looks at. */
  datatype Ehdr = Ehdr(ident: seq<Byte>, etype: int, machine: int, version: Word,
                       entry: Word, phoff: Word, phentsize: int, phnum: int)

  /** `file_read (file, &ehdr, sizeof ehdr)` from the start of the file,
      decoded; None when fewer than EHDR_SIZE bytes can be read. */
  function ReadEhdr(file: seq<Byte>): (r: Option<Ehdr>)
    ensures r.None? <==> |file| < EHDR_SIZE
    ensures r.Some? ==> |r.value.ident| == 16 && 0 <= r.value.phnum < 0x1_0000
  {
    var b := FileRead(file, 0, EHDR_SIZE);
    if |b| != EHDR_SIZE then None
    else Some(Ehdr(b[..16], Le16At(b, 16), Le16At(b, 18), Le32At(b, 20),
                   Le32At(b, 24), Le32At(b, 28), Le16At(b, 42), Le16At(b, 44)))
  }

  /** The header test of `load`. */
  predicate HeaderAccepted(h: Ehdr)
  {
    |h.ident| >= 7 && h.ident[..7] == ELF_IDENT && h.etype == 2 && h.machine == 3
    && h.version == 1 && h.phentsize == PHDR_SIZE && h.phnum <= MAX_PHNUM
  }

  /** A 16-bit field equals a small value exactly when its high byte is 0
      and its low byte is that value. */
  lemma Le16AtSmall(s: seq<Byte>, i: int, v: int)
    requires 0 <= i && i + 2 <= |s| && 0 <= v < 0x100
    ensures Le16At(s, i) == v <==> s[i] == v && s[i + 1] == 0
  {
  }

  /** The header test on the bytes of the file: the seven identification
      bytes, `e_type` 2 (executable), `e_machine` 3 (80386), `e_version`
      1, `e_phentsize` 32, and at most 1024 program headers. */
  lemma HeaderAcceptedBytes(file: seq<Byte>)
    ensures ReadEhdr(file).Some? && HeaderAccepted(ReadEhdr(file).value) <==>
      && |file| >= EHDR_SIZE
      && file[..7] == ELF_IDENT
      && file[16] == 2 && file[17] == 0 && file[18] == 3 && file[19] == 0
      && file[20] == 1 && file[21] == 0 && file[22] == 0 && file[23] == 0
      && file[42] == PHDR_SIZE && file[43] == 0
      && file[44] as int + 0x100 * (file[45] as int) <= MAX_PHNUM
  {
    if |file| >= EHDR_SIZE {
      var b := FileRead(file, 0, EHDR_SIZE);
      assert b == file[..EHDR_SIZE];
      assert b[..16][..7] == file[..7];
      Le16AtSmall(b, 16, 2);
      Le16AtSmall(b, 18, 3);
      Le16AtSmall(b, 42, PHDR_SIZE);
    }
  }

  /** The fields of `struct Elf32_Phdr` that `load` looks at. */
  datatype Phdr = Phdr(ptype: Word, offset: Word, vaddr: Word, filesz: Word, memsz: Word, flags: Word)

  /** The program header held by the 32 bytes of B. */
  function PhdrOf(b: seq<Byte>): Phdr
    requires |b| == PHDR_SIZE
  {
    Phdr(Le32At(b, 0), Le32At(b, 4), Le32At(b, 8), Le32At(b, 16), Le32At(b, 20), Le32At(b, 24))
  }

  /** `validate_segment`, check by check; FILE_LEN is `file_length`.
      The sums are computed on 32-bit addresses. */
  predicate ValidateSegment(p: Phdr, fileLen: int)
  {
    if PgOfs(p.offset) != PgOfs(p.vaddr) then false
    else if p.offset > fileLen then false
    else if p.memsz < p.filesz then false
    else if p.memsz == 0 then false
    else if !IsUserVaddr(p.vaddr) then false
    else if !IsUserVaddr(U32(p.vaddr + p.memsz)) then false
    else if U32(p.vaddr + p.memsz) < p.vaddr then false
    else true
  }

  /** What the checks amount to: equal page offsets, a file offset within
      the file, a non-empty memory image at least as large as the file
      image, and the whole region below PHYS_BASE without wrapping.  Page 0
      is not excluded. */
  lemma ValidateSegmentMeans(p: Phdr, fileLen: int)
    ensures ValidateSegment(p, fileLen) <==>
      && PgOfs(p.offset) == PgOfs(p.vaddr)
      && p.offset <= fileLen
      && p.filesz <= p.memsz && 0 < p.memsz
      && p.vaddr + p.memsz < PHYS_BASE
  {
    if p.vaddr + p.memsz >= ADDR_LIMIT {
      assert U32(p.vaddr + p.memsz) == p.vaddr + p.memsz - ADDR_LIMIT;
    }
  }

  /** A segment at virtual address 0 passes `validate_segment`, the page-0
      check being commented out. */
  lemma PageZeroAccepted()
    ensures ValidateSegment(Phdr(PT_LOAD, 0, 0, 0, PGSIZE, 0), 0)
  {
  }

  /** `ROUND_UP (x, PGSIZE)` in unsigned 32-bit arithmetic. */
  function RoundUp32(x: Word): Word
  {
    U32(x + PGSIZE - 1) / PGSIZE * PGSIZE
  }

  /** The arguments `load` passes to `load_segment` for one PT_LOAD header:
      the page-aligned file offset and user page, how many bytes to read
      and to zero, and whether the pages are writable (PF_W). */
  datatype Segment = Segment(filePage: int, upage: int, readBytes: int, zeroBytes: int, writable: bool)

  function SegmentOf(p: Phdr): Segment
  {
    var pageOffset := PgOfs(p.vaddr);
    var writable := (p.flags / 2) % 2 == 1;
    if p.filesz > 0 then
      var readBytes := U32(pageOffset + p.filesz);
      Segment(PgRoundDown(p.offset), PgRoundDown(p.vaddr), readBytes,
              U32(RoundUp32(U32(pageOffset + p.memsz)) - readBytes), writable)
    else
      Segment(PgRoundDown(p.offset), PgRoundDown(p.vaddr), 0, RoundUp32(U32(pageOffset + p.memsz)), writable)
  }

  /** For a validated segment the 32-bit arithmetic never wraps: the file
      image starts at the page offset of `p_vaddr` in the first page, the
      read and zero bytes together cover the region rounded up to whole
      pages, and all of it lies below PHYS_BASE.  This is what the
      assertions at the head of `load_segment` demand. */
  lemma SegmentSplit(p: Phdr, fileLen: int)
    requires ValidateSegment(p, fileLen)
    ensures var s := SegmentOf(p);
      && s.upage % PGSIZE == 0 && s.filePage % PGSIZE == 0
      && s.upage + PgOfs(p.vaddr) == p.vaddr && s.filePage + PgOfs(p.vaddr) == p.offset
      && s.readBytes == (if p.filesz > 0 then PgOfs(p.vaddr) + p.filesz else 0)
      && 0 <= s.zeroBytes
      && s.readBytes + s.zeroBytes == RoundUp(PgOfs(p.vaddr) + p.memsz, PGSIZE)
      && (s.readBytes + s.zeroBytes) % PGSIZE == 0
      && s.upage + s.readBytes + s.zeroBytes <= PHYS_BASE
  {
    ValidateSegmentMeans(p, fileLen);
    var x := PgOfs(p.vaddr) + p.memsz;
    assert x + PGSIZE - 1 < ADDR_LIMIT;
    assert RoundUp32(U32(x)) == RoundUp(x, PGSIZE);
    RoundUpBounds(x);
    RoundUpBelow(PgRoundDown(p.vaddr), x);
  }

  /** ROUND_UP lands on a multiple of PGSIZE at or above X, less than a
      page above it. */
  lemma RoundUpBounds(x: int)
    requires 0 <= x
    ensures var r := RoundUp(x, PGSIZE); r % PGSIZE == 0 && x <= r < x + PGSIZE
  {
    var q := (x + PGSIZE - 1) / PGSIZE;
    assert x + PGSIZE - 1 == q * PGSIZE + (x + PGSIZE - 1) % PGSIZE;
  }

  /** A page-aligned BASE plus X rounded up stays below PHYS_BASE when BASE
      plus X does. */
  lemma RoundUpBelow(base: int, x: int)
    requires 0 <= x && base % PGSIZE == 0 && base + x < PHYS_BASE
    ensures base + RoundUp(x, PGSIZE) <= PHYS_BASE
  {
    RoundUpBounds(x);
    var r := RoundUp(x, PGSIZE);
    var a, b := base / 4096, r / 4096;
    assert base == 4096 * a && r == 4096 * b;
    assert 4096 * (a + b) < 4096 * 0xC_0001;
  }

  /** What `load` does with one program header at offset OFS: give up,
      skip it, or load the segment it describes. */
  datatype Step = Abort | Ignore | LoadIt(seg: Segment)

  function PhdrStep(file: seq<Byte>, ofs: int): (r: Step)
    ensures r.LoadIt? ==> 0 <= ofs && ofs + PHDR_SIZE <= |file|
  {
    if ofs < 0 || ofs > |file| then Abort
    else
      var b := FileRead(file, ofs, PHDR_SIZE);
      if |b| != PHDR_SIZE then Abort
      else
        var p := PhdrOf(b);
        if p.ptype == PT_DYNAMIC || p.ptype == PT_INTERP || p.ptype == PT_SHLIB then Abort
        else if p.ptype == PT_LOAD then
          if ValidateSegment(p, |file|) then LoadIt(SegmentOf(p)) else Abort
        else Ignore
  }

  /** The outcome of each program-header step, in the terms of the header
      it reads: a header that does not lie wholly within the file, or a
      dynamic-linking header, aborts; a PT_LOAD header is loaded exactly
      when it passes `validate_segment`; anything else is skipped. */
  lemma PhdrStepMeans(file: seq<Byte>, ofs: int)
    ensures !(0 <= ofs && ofs + PHDR_SIZE <= |file|) ==> PhdrStep(file, ofs) == Abort
    ensures 0 <= ofs && ofs + PHDR_SIZE <= |file| ==>
      var p := PhdrOf(file[ofs..ofs + PHDR_SIZE]);
      && (p.ptype in {PT_DYNAMIC, PT_INTERP, PT_SHLIB} ==> PhdrStep(file, ofs) == Abort)
      && (p.ptype == PT_LOAD ==>
            PhdrStep(file, ofs) == if ValidateSegment(p, |file|) then LoadIt(SegmentOf(p)) else Abort)
      && (p.ptype !in {PT_LOAD, PT_DYNAMIC, PT_INTERP, PT_SHLIB} ==> PhdrStep(file, ofs) == Ignore)
  {
  }

  /** Every LoadIt step hands `load_segment` arguments that satisfy its
      assertions and stay in user space. */
  lemma LoadStepFits(file: seq<Byte>, ofs: int)
    requires PhdrStep(file, ofs).LoadIt?
    ensures var s := PhdrStep(file, ofs).seg;
      && s.upage % PGSIZE == 0 && s.filePage % PGSIZE == 0 && 0 <= s.filePage
      && 0 <= s.readBytes && 0 <= s.zeroBytes && (s.readBytes + s.zeroBytes) % PGSIZE == 0
      && 0 <= s.upage && s.upage + s.readBytes + s.zeroBytes <= PHYS_BASE
  {
    var p := PhdrOf(FileRead(file, ofs, PHDR_SIZE));
    assert ValidateSegment(p, |file|) && PhdrStep(file, ofs).seg == SegmentOf(p);
    SegmentFits(p, |file|);
  }

  /** The arguments of a validated segment, as LoadStepFits needs them. */
  lemma SegmentFits(p: Phdr, fileLen: int)
    requires ValidateSegment(p, fileLen)
    ensures var s := SegmentOf(p);
      && s.upage % PGSIZE == 0 && s.filePage % PGSIZE == 0 && 0 <= s.filePage
      && 0 <= s.readBytes && 0 <= s.zeroBytes && (s.readBytes + s.zeroBytes) % PGSIZE == 0
      && 0 <= s.upage && s.upage + s.readBytes + s.zeroBytes <= PHYS_BASE
  {
    SegmentSplit(p, fileLen);
  }

  /** The file offset of program header J: `e_phoff` converted to `off_t`
      and advanced by PHDR_SIZE per header, in 32-bit arithmetic. */
  function PhdrOfs(phoff: Word, j: nat): Int32
  {
    Wrap32(phoff + PHDR_SIZE * j)
  }

  /** Advancing the running offset by one header gives the next header's
      offset. */
  lemma PhdrOfsNext(phoff: Word, j: nat)
    ensures Wrap32(PhdrOfs(phoff, j) + PHDR_SIZE) == PhdrOfs(phoff, j + 1)
  {
    var x := phoff + PHDR_SIZE * j;
    var q := (x + 0x8000_0000) / 0x1_0000_0000;
    assert PhdrOfs(phoff, j) == x - q * 0x1_0000_0000;
    assert PhdrOfs(phoff, j) + PHDR_SIZE == x + PHDR_SIZE - q * 0x1_0000_0000;
    WrapShift(x + PHDR_SIZE, q);
  }

  /** Wrap32 ignores multiples of 2^32. */
  lemma WrapShift(x: int, q: int)
    ensures Wrap32(x - q * 0x1_0000_0000) == Wrap32(x)
  {
    var y := x + 0x8000_0000;
    assert (y - q * 0x1_0000_0000) % 0x1_0000_0000 == y % 0x1_0000_0000;
  }

  /** The bytes of page K of a segment whose file image starts at OFS and
      is READ bytes long: up to a page of file bytes, zeros after. */
  function PageImage(file: seq<Byte>, ofs: int, read: int, k: int): (img: seq<Byte>)
    requires 0 <= ofs && 0 <= k
    ensures |img| == PGSIZE || (read - k * PGSIZE > 0 && ofs + k * PGSIZE + (if read - k * PGSIZE < PGSIZE then read - k * PGSIZE else PGSIZE) > |file|)
  {
    var left := read - k * PGSIZE;
    var prb := if left <= 0 then 0 else if left < PGSIZE then left else PGSIZE;
    FileRead(file, ofs + k * PGSIZE, prb) + Zeros(PGSIZE - prb)
  }

  /** When the file holds the whole file image, page K of the segment is
      the K-th page of the file image followed by ZERO zero bytes. */
  lemma PageImageIsSlice(file: seq<Byte>, ofs: int, read: int, zero: int, k: int)
    requires 0 <= ofs && 0 <= read && 0 <= zero && ofs + read <= |file|
    requires 0 <= k && (k + 1) * PGSIZE <= read + zero
    ensures PageImage(file, ofs, read, k) == (file[ofs..ofs + read] + Zeros(zero))[k * PGSIZE..(k + 1) * PGSIZE]
  {
    var flat := file[ofs..ofs + read] + Zeros(zero);
    var img := PageImage(file, ofs, read, k);
    forall n | 0 <= n < PGSIZE
      ensures img[n] == flat[k * PGSIZE + n]
    {
      if k * PGSIZE + n < read {
        assert img[n] == file[ofs + k * PGSIZE + n];
      }
    }
  }

  /** In the file image of a validated segment followed by its zero bytes,
      byte J of the segment (at user address `p_vaddr + j`) is byte
      `p_offset + j` of the file when J is below `p_filesz`, and zero up to
      `p_memsz`. */
  lemma SegmentBytes(p: Phdr, file: seq<Byte>, j: int)
    requires ValidateSegment(p, |file|)
    requires var s := SegmentOf(p); s.filePage + s.readBytes <= |file|
    requires 0 <= j < p.memsz
    ensures var s := SegmentOf(p);
      var flat := file[s.filePage..s.filePage + s.readBytes] + Zeros(s.zeroBytes);
      && PgOfs(p.vaddr) + j < |flat|
      && flat[PgOfs(p.vaddr) + j] == if j < p.filesz then file[p.offset + j] else 0
  {
    SegmentSplit(p, |file|);
    RoundUpBounds(PgOfs(p.vaddr) + p.memsz);
  }

  /** Free pages are distinct and none of them is mapped by any page
      directory: a page `palloc_get_page` hands out is not in use. */
  ghost predicate PoolFresh(hw: Hw)
  {
    && (forall i, j :: 0 <= i < j < |hw.pool| ==> hw.pool[i] != hw.pool[j])
    && (forall t, u, i :: t in hw.pagedirs && u in hw.pagedirs[t] && 0 <= i < |hw.pool| ==>
          hw.pagedirs[t][u].kpage != hw.pool[i])
  }

  /** A page taken from the pool and given back again leaves the pool
      fresh when no mapping changed. */
  lemma PoolFreshRotated(hw: Hw, after: Hw)
    requires PoolFresh(hw) && hw.pool != []
    requires after.pagedirs == hw.pagedirs && after.pool == hw.pool[1..] + [hw.pool[0]]
    ensures PoolFresh(after)
  {
    forall i, j | 0 <= i < j < |after.pool|
      ensures after.pool[i] != after.pool[j]
    {
      assert after.pool[i] == hw.pool[i + 1];
      if j < |after.pool| - 1 {
        assert after.pool[j] == hw.pool[j + 1];
      }
    }
    forall t, u, i | t in after.pagedirs && u in after.pagedirs[t] && 0 <= i < |after.pool|
      ensures after.pagedirs[t][u].kpage != after.pool[i]
    {
      if i < |after.pool| - 1 {
        assert after.pool[i] == hw.pool[i + 1];
      }
    }
  }

  /** A page taken from the pool and mapped at UPAGE leaves the rest of the
      pool fresh. */
  lemma PoolFreshInstalled(hw: Hw, after: Hw, t: Tid, upage: int, writable: bool)
    requires PoolFresh(hw) && hw.pool != [] && after.pool == hw.pool[1..]
    requires after.pagedirs == hw.pagedirs[t := Dir(hw, t)[upage := Mapping(hw.pool[0], writable, false)]]
    ensures PoolFresh(after)
  {
    forall t', u, i | t' in after.pagedirs && u in after.pagedirs[t'] && 0 <= i < |after.pool|
      ensures after.pagedirs[t'][u].kpage != after.pool[i]
    {
      assert after.pool[i] == hw.pool[i + 1];
    }
  }

  /** Page K of the segment at UPAGE is mapped with WRITABLE and holds
      PageImage(file, ofs, read, k). */
  ghost predicate PageLoaded(hw: Hw, t: Tid, upage: int, k: int, file: seq<Byte>, ofs: int, read: int, writable: bool)
    requires 0 <= ofs && 0 <= k
  {
    var u := upage + k * PGSIZE;
    && u in Dir(hw, t) && Dir(hw, t)[u].writable == writable
    && Dir(hw, t)[u].kpage in hw.memory
    && hw.memory[Dir(hw, t)[u].kpage] == PageImage(file, ofs, read, k)
  }

  /** The counters of one round of `load_segment`: with READ bytes still
      to read (what is left of READ_BYTES after K pages) and ZERO to zero,
      a page takes `min (read, PGSIZE)` file bytes and the rest zeros, and
      neither counter goes below zero. */
  lemma PageStep(readBytes: int, k: int, n: int, read: int, zero: int)
    requires 0 <= k < n && 0 <= zero && read + zero == (n - k) * PGSIZE
    requires read == if readBytes - k * PGSIZE > 0 then readBytes - k * PGSIZE else 0
    ensures var prb := if read < PGSIZE then read else PGSIZE;
      && PGSIZE - prb <= zero
      && read - prb == (if readBytes - (k + 1) * PGSIZE > 0 then readBytes - (k + 1) * PGSIZE else 0)
      && read - prb + zero - (PGSIZE - prb) == (n - (k + 1)) * PGSIZE
  {
  }

  /** Every mapping of thread T in BEFORE is still there in AFTER, onto
      the same page holding the same bytes. */
  ghost predicate MappingsKept(before: Hw, after: Hw, t: Tid)
  {
    forall u :: u in Dir(before, t) ==>
      && u in Dir(after, t) && Dir(after, t)[u] == Dir(before, t)[u]
      && Dir(before, t)[u].kpage in before.memory && Dir(before, t)[u].kpage in after.memory
      && after.memory[Dir(before, t)[u].kpage] == before.memory[Dir(before, t)[u].kpage]
  }

  lemma MappingsKeptTrans(a: Hw, b: Hw, c: Hw, t: Tid)
    requires MappingsKept(a, b, t) && MappingsKept(b, c, t)
    ensures MappingsKept(a, c, t)
  {
    forall u | u in Dir(a, t)
      ensures u in Dir(c, t) && Dir(c, t)[u] == Dir(a, t)[u]
    {
      assert u in Dir(b, t);
    }
  }

  /** Pages loaded before stay loaded when every old mapping is kept. */
  lemma LoadedKept(before: Hw, after: Hw, t: Tid, upage: int, k: int, file: seq<Byte>, ofs: int, read: int, writable: bool)
    requires 0 <= ofs && 0 <= k && MappingsKept(before, after, t)
    requires forall j :: 0 <= j < k ==> PageLoaded(before, t, upage, j, file, ofs, read, writable)
    ensures forall j :: 0 <= j < k ==> PageLoaded(after, t, upage, j, file, ofs, read, writable)
  {
    forall j | 0 <= j < k
      ensures PageLoaded(after, t, upage, j, file, ofs, read, writable)
    {
      assert PageLoaded(before, t, upage, j, file, ofs, read, writable);
      assert upage + j * PGSIZE in Dir(before, t);
    }
  }

  /** What the `load_segment` loop has done since START after K pages:
      pages 0 to K-1 are loaded, every mapping of START is kept, the pool
      lost its first K pages, and the mapped pages are START's and the K
      new ones, none of which START had mapped. */
  ghost predicate SegmentProgress(start: Hw, hw: Hw, t: Tid, file: seq<Byte>, ofs: int, upage: int,
                                  readBytes: int, writable: bool, k: int)
  {
    && 0 <= ofs && 0 <= k
    && (forall j :: 0 <= j < k ==> PageLoaded(hw, t, upage, j, file, ofs, readBytes, writable))
    && MappingsKept(start, hw, t)
    && k <= |start.pool| && hw.pool == start.pool[k..]
    && Dir(hw, t).Keys == Dir(start, t).Keys + PagesFrom(upage, k)
    && PagesFrom(upage, k) !! Dir(start, t).Keys
  }

  /** A round that takes a pool page, maps the unmapped page K and loads
      it carries the progress from K pages to K + 1. */
  lemma ProgressNext(start: Hw, before: Hw, after: Hw, t: Tid, file: seq<Byte>, ofs: int, upage: int,
                     readBytes: int, writable: bool, k: int)
    requires HwValid(before) && NULL !in before.memory
    requires SegmentProgress(start, before, t, file, ofs, upage, readBytes, writable, k)
    requires before.pool != [] && after.pool == before.pool[1..]
    requires GetPage(before, t, upage + k * PGSIZE) == NULL
    requires Dir(after, t).Keys == Dir(before, t).Keys + {upage + k * PGSIZE}
    requires MappingsKept(before, after, t)
    requires PageLoaded(after, t, upage, k, file, ofs, readBytes, writable)
    ensures SegmentProgress(start, after, t, file, ofs, upage, readBytes, writable, k + 1)
  {
    LoadedKept(before, after, t, upage, k, file, ofs, readBytes, writable);
    MappingsKeptTrans(start, before, after, t);
    assert upage + k * PGSIZE !in Dir(before, t);
    assert after.pool == start.pool[k + 1..];
  }

  /** A round for page K < N that fails finds the segment not loadable
      from START: the pool ran out before page K, the file is short, or
      page K was already mapped in START. */
  lemma ProgressStuck(start: Hw, hw: Hw, t: Tid, file: seq<Byte>, ofs: int, upage: int,
                      readBytes: int, zeroBytes: int, writable: bool, k: int, pos: int, prb: int)
    requires HwValid(start) && NULL !in start.memory
    requires SegmentProgress(start, hw, t, file, ofs, upage, readBytes, writable, k)
    requires 0 <= k < (readBytes + zeroBytes) / PGSIZE
    requires 0 <= pos && (prb == 0 || pos == ofs + k * PGSIZE)
    requires prb == (if readBytes - k * PGSIZE <= 0 then 0
                     else if readBytes - k * PGSIZE < PGSIZE then readBytes - k * PGSIZE else PGSIZE)
    requires !(hw.pool != [] && |FileRead(file, pos, prb)| == prb && GetPage(hw, t, upage + k * PGSIZE) == NULL)
    ensures !SegmentLoadable(start, t, file, ofs, upage, readBytes, zeroBytes)
  {
    var page := upage + k * PGSIZE;
    if hw.pool == [] {
      assert |start.pool| == k;
    } else if |FileRead(file, pos, prb)| != prb {
      assert readBytes > 0 && ofs + readBytes > |file|;
    } else {
      assert page !in PagesFrom(upage, k);
      assert GetPage(start, t, page) != NULL;
    }
  }

  /** The progress after all N pages: the segment was loadable from START,
      and the room left is START's less N pages, with the segment's pages
      mapped. */
  lemma ProgressDone(start: Hw, hw: Hw, t: Tid, file: seq<Byte>, ofs: int, upage: int,
                     readBytes: int, zeroBytes: int, writable: bool)
    requires 0 <= readBytes && (readBytes > 0 ==> ofs + readBytes <= |file|)
    requires SegmentProgress(start, hw, t, file, ofs, upage, readBytes, writable, (readBytes + zeroBytes) / PGSIZE)
    ensures SegmentLoadable(start, t, file, ofs, upage, readBytes, zeroBytes)
    ensures RoomOf(hw, t) == Room(|start.pool| - (readBytes + zeroBytes) / PGSIZE,
                                  Dir(start, t).Keys + PagesFrom(upage, (readBytes + zeroBytes) / PGSIZE))
  {
  }

  /** Every page of segment S is loaded: the segment is in memory as
      `load_segment` leaves it. */
  ghost predicate SegmentLoaded(hw: Hw, t: Tid, file: seq<Byte>, s: Segment)
  {
    && 0 <= s.filePage
    && forall k :: 0 <= k < (s.readBytes + s.zeroBytes) / PGSIZE ==>
      PageLoaded(hw, t, s.upage, k, file, s.filePage, s.readBytes, s.writable)
  }

  /** What `load_segment` needs to succeed from machine HW: a free page for
      every page of the segment, a file that holds the whole file image,
      and no page of the segment mapped yet. */
  ghost predicate SegmentLoadable(hw: Hw, t: Tid, file: seq<Byte>, ofs: int, upage: int, readBytes: int, zeroBytes: int)
  {
    && |hw.pool| >= (readBytes + zeroBytes) / PGSIZE
    && (readBytes > 0 ==> ofs + readBytes <= |file|)
    && forall k :: 0 <= k < (readBytes + zeroBytes) / PGSIZE ==> GetPage(hw, t, upage + k * PGSIZE) == NULL
  }

  /** The room `load` works in while it goes through the program headers:
      the number of free pages and the user pages the thread has mapped. */
  datatype Room = Room(free: int, mapped: set<int>)

  ghost function RoomOf(hw: Hw, t: Tid): Room
  {
    Room(|hw.pool|, Dir(hw, t).Keys)
  }

  /** The page addresses of the first N pages from UPAGE up. */
  function PagesFrom(upage: int, n: int): (r: set<int>)
    ensures forall k :: 0 <= k < n ==> upage + k * PGSIZE in r
    ensures forall u :: u in r ==> u < upage + n * PGSIZE
    decreases n
  {
    if n <= 0 then {} else PagesFrom(upage, n - 1) + {upage + (n - 1) * PGSIZE}
  }

  /** Handling STEP from ROOM: None when `load` gives up on it (an
      unsupported or invalid header, or a segment without enough free
      pages, with a short file or with a page already mapped), otherwise
      the room left after it. */
  function StepRoom(file: seq<Byte>, step: Step, room: Room): Option<Room>
  {
    match step
    case Abort => None
    case Ignore => Some(room)
    case LoadIt(s) =>
      var n := (s.readBytes + s.zeroBytes) / PGSIZE;
      if && room.free >= n
         && (s.readBytes > 0 ==> s.filePage + s.readBytes <= |file|)
         && forall k :: 0 <= k < n ==> s.upage + k * PGSIZE !in room.mapped
      then Some(Room(room.free - n, room.mapped + PagesFrom(s.upage, n)))
      else None
  }

  /** On a well-formed machine a segment is loadable exactly when its step
      finds room: free pages, the file image and unmapped pages. */
  lemma LoadableRoom(hw: Hw, t: Tid, file: seq<Byte>, s: Segment)
    requires HwValid(hw) && NULL !in hw.memory
    ensures SegmentLoadable(hw, t, file, s.filePage, s.upage, s.readBytes, s.zeroBytes)
            <==> StepRoom(file, LoadIt(s), RoomOf(hw, t)).Some?
  {
    forall u ensures GetPage(hw, t, u) == NULL <==> u !in Dir(hw, t) {
      NullIffUnmapped(hw, t, u);
    }
  }

  /** On a well-formed machine `pagedir_get_page` returns NULL exactly for
      an unmapped address. */
  lemma NullIffUnmapped(hw: Hw, t: Tid, u: int)
    requires HwValid(hw) && NULL !in hw.memory
    ensures GetPage(hw, t, u) == NULL <==> u !in Dir(hw, t)
  {
    if u in Dir(hw, t) {
      assert Dir(hw, t)[u].kpage in hw.memory;
    }
  }

  /** What `load_segment` did to the room: it succeeded exactly when its
      step found room in BEFORE, and then left the room that step
      computes. */
  lemma SegmentRoom(before: Hw, after: Hw, t: Tid, file: seq<Byte>, s: Segment, ok: bool)
    requires HwValid(before) && NULL !in before.memory
    requires ok <==> SegmentLoadable(before, t, file, s.filePage, s.upage, s.readBytes, s.zeroBytes)
    requires ok ==> RoomOf(after, t) == Room(|before.pool| - (s.readBytes + s.zeroBytes) / PGSIZE,
                                            Dir(before, t).Keys + PagesFrom(s.upage, (s.readBytes + s.zeroBytes) / PGSIZE))
    ensures ok <==> StepRoom(file, LoadIt(s), RoomOf(before, t)).Some?
    ensures ok ==> StepRoom(file, LoadIt(s), RoomOf(before, t)) == Some(RoomOf(after, t))
  {
    LoadableRoom(before, t, file, s);
  }

  /** What `load` decides for each of the N program headers from PHOFF. */
  function PhdrSteps(file: seq<Byte>, phoff: Word, n: nat): (r: seq<Step>)
    ensures |r| == n && forall j :: 0 <= j < n ==> r[j] == PhdrStep(file, PhdrOfs(phoff, j))
  {
    seq(n, j requires 0 <= j => PhdrStep(file, PhdrOfs(phoff, j)))
  }

  /** Handling the program-header decisions STEPS in turn, each in the
      room the earlier ones left: None when one of them makes `load` give
      up, otherwise the room left after the last. */
  function RunSteps(file: seq<Byte>, steps: seq<Step>, room: Room): Option<Room>
    decreases |steps|
  {
    if steps == [] then Some(room)
    else match StepRoom(file, steps[0], room)
      case None => None
      case Some(next) => RunSteps(file, steps[1..], next)
  }

  /** A header that `load` gives up on ends the loop in failure, whatever
      the headers before it do. */
  lemma {:induction false} AbortFails(file: seq<Byte>, steps: seq<Step>, room: Room, a: nat)
    requires a < |steps| && steps[a].Abort?
    ensures RunSteps(file, steps, room).None?
    decreases a
  {
    var step := StepRoom(file, steps[0], room);
    if 0 < a && step.Some? {
      AbortFails(file, steps[1..], step.value, a - 1);
    }
  }

  /** Headers that are all ignored always succeed and use no room. */
  lemma {:induction false} IgnoredSucceed(file: seq<Byte>, steps: seq<Step>, room: Room)
    requires forall i :: 0 <= i < |steps| ==> steps[i].Ignore?
    ensures RunSteps(file, steps, room) == Some(room)
    decreases |steps|
  {
    if steps != [] {
      IgnoredSucceed(file, steps[1..], room);
    }
  }

  /** Every segment among STEPS has a non-negative size. */
  ghost predicate SegmentsSized(steps: seq<Step>)
  {
    forall i :: 0 <= i < |steps| && steps[i].LoadIt? ==> 0 <= steps[i].seg.readBytes && 0 <= steps[i].seg.zeroBytes
  }

  /** The segments `load` decides to load have non-negative sizes. */
  lemma PhdrStepsSized(file: seq<Byte>, phoff: Word, n: nat)
    ensures SegmentsSized(PhdrSteps(file, phoff, n))
  {
    var steps := PhdrSteps(file, phoff, n);
    forall i | 0 <= i < n && steps[i].LoadIt?
      ensures 0 <= steps[i].seg.readBytes && 0 <= steps[i].seg.zeroBytes
    {
      LoadStepFits(file, PhdrOfs(phoff, i));
    }
  }

  /** Loading segments only uses up free pages and only adds mappings. */
  lemma {:induction false} RunStepsShrinks(file: seq<Byte>, steps: seq<Step>, room: Room)
    requires SegmentsSized(steps) && RunSteps(file, steps, room).Some?
    ensures RunSteps(file, steps, room).value.free <= room.free
    ensures room.mapped <= RunSteps(file, steps, room).value.mapped
    decreases |steps|
  {
    if steps != [] {
      var next := StepRoom(file, steps[0], room).value;
      assert SegmentsSized(steps[1..]) by {
        forall i | 0 <= i < |steps| - 1 ensures steps[1..][i] == steps[i + 1] { }
      }
      RunStepsShrinks(file, steps[1..], next);
    }
  }

  /** Handling the first step of STEPS, then the rest, is handling STEPS. */
  lemma RunStepsNext(file: seq<Byte>, steps: seq<Step>, i: nat, room: Room)
    requires i < |steps|
    ensures RunSteps(file, steps[i..], room) == match StepRoom(file, steps[i], room)
      case None => None
      case Some(next) => RunSteps(file, steps[i + 1..], next)
  {
    assert steps[i..][1..] == steps[i + 1..];
  }

  /** When `load` succeeds with FREE free pages: the ELF header is read
      and accepted, every program header is handled in the room the
      earlier ones left, starting from an empty page directory, and a free
      page and an unmapped stack address remain for `setup_stack`. */
  ghost predicate LoadSucceeds(file: seq<Byte>, free: int)
  {
    && ReadEhdr(file).Some? && HeaderAccepted(ReadEhdr(file).value)
    && var h := ReadEhdr(file).value;
       var r := RunSteps(file, PhdrSteps(file, h.phoff, h.phnum), Room(free, {}));
       r.Some? && r.value.free > 0 && STACK_PAGE !in r.value.mapped
  }

  /** What `load` has done for one program header: it did not give up, and
      a loadable segment is in memory. */
  ghost predicate StepDone(hw: Hw, t: Tid, file: seq<Byte>, step: Step)
  {
    !step.Abort? && (step.LoadIt? ==> SegmentLoaded(hw, t, file, step.seg))
  }

  /** The first N program headers from PHOFF have been handled. */
  ghost predicate HeadersDone(hw: Hw, t: Tid, file: seq<Byte>, phoff: Word, n: nat)
  {
    forall j: nat :: j < n ==> StepDone(hw, t, file, PhdrStep(file, PhdrOfs(phoff, j)))
  }

  /** A handled header stays handled while every old mapping is kept. */
  lemma StepDoneKept(before: Hw, after: Hw, t: Tid, file: seq<Byte>, step: Step)
    requires StepDone(before, t, file, step) && MappingsKept(before, after, t)
    ensures StepDone(after, t, file, step)
  {
    if step.LoadIt? {
      var s := step.seg;
      var n := (s.readBytes + s.zeroBytes) / PGSIZE;
      if n > 0 {
        LoadedKept(before, after, t, s.upage, n, file, s.filePage, s.readBytes, s.writable);
      }
    }
  }

  /** Handling header N after the first N keeps them handled. */
  lemma HeadersDoneNext(before: Hw, after: Hw, t: Tid, file: seq<Byte>, phoff: Word, n: nat)
    requires HeadersDone(before, t, file, phoff, n) && MappingsKept(before, after, t)
    requires StepDone(after, t, file, PhdrStep(file, PhdrOfs(phoff, n)))
    ensures HeadersDone(after, t, file, phoff, n + 1)
  {
    forall j: nat | j < n + 1
      ensures StepDone(after, t, file, PhdrStep(file, PhdrOfs(phoff, j)))
    {
      if j < n {
        StepDoneKept(before, after, t, file, PhdrStep(file, PhdrOfs(phoff, j)));
      }
    }
  }

  /** Handled headers stay handled while every old mapping is kept. */
  lemma HeadersDoneKept(before: Hw, after: Hw, t: Tid, file: seq<Byte>, phoff: Word, n: nat)
    requires HeadersDone(before, t, file, phoff, n) && MappingsKept(before, after, t)
    ensures HeadersDone(after, t, file, phoff, n)
  {
    forall j: nat | j < n
      ensures StepDone(after, t, file, PhdrStep(file, PhdrOfs(phoff, j)))
    {
      StepDoneKept(before, after, t, file, PhdrStep(file, PhdrOfs(phoff, j)));
    }
  }

  /** The stack page is mapped writable at the top of user memory and the
      bytes from ESP up to PHYS_BASE are the argument image for ARGS. */
  ghost predicate StackReady(hw: Hw, t: Tid, args: seq<seq<Byte>>, esp: int)
  {
    var img := StackImage(args, PHYS_BASE);
    && esp == PHYS_BASE - |img| && STACK_PAGE <= esp
    && STACK_PAGE in Dir(hw, t) && Dir(hw, t)[STACK_PAGE].writable
    && Dir(hw, t)[STACK_PAGE].kpage in hw.memory
    && |hw.memory[Dir(hw, t)[STACK_PAGE].kpage]| == PGSIZE
    && hw.memory[Dir(hw, t)[STACK_PAGE].kpage][esp - STACK_PAGE..] == img
  }

  /** The loading process: the machine state and the thread being loaded. */
  class Process {
    var hw: Hw
    const cur: Tid

    /** The machine is well formed, its free pages are not in use, and no
        page sits at the NULL address. */
    ghost predicate Valid()
      reads this
    {
      HwValid(hw) && PoolFresh(hw) && NULL !in hw.memory
    }

    constructor (hw0: Hw, t: Tid)
      requires HwValid(hw0) && PoolFresh(hw0) && NULL !in hw0.memory
      ensures Valid() && hw == hw0 && cur == t
    {
      hw := hw0;
      cur := t;
    }

    /** One round of the `load_segment` loop: take a page (without
        zeroing), read PRB bytes of FILE at POS into it, zero the rest and
        map it at UPAGE.  A page allocation failure, a short read or an
        UPAGE that is already mapped fails; the page is then freed again. */
    method LoadPage(file: seq<Byte>, pos: int, upage: int, prb: int, writable: bool) returns (ok: bool)
      requires Valid() && 0 <= pos && 0 <= prb <= PGSIZE && 0 <= upage < PHYS_BASE
      modifies this
      ensures Valid()
      ensures ok ==> |FileRead(file, pos, prb)| == prb
      ensures ok ==> && upage in Dir(hw, cur) && Dir(hw, cur)[upage].writable == writable
                     && Dir(hw, cur)[upage].kpage in hw.memory
                     && hw.memory[Dir(hw, cur)[upage].kpage] == FileRead(file, pos, prb) + Zeros(PGSIZE - prb)
      ensures ok ==> MappingsKept(old(hw), hw, cur)
      ensures ok <==> old(hw.pool) != [] && |FileRead(file, pos, prb)| == prb && GetPage(old(hw), cur, upage) == NULL
      ensures ok ==> hw.pool == old(hw.pool)[1..]
                     && forall u :: u != upage ==> GetPage(hw, cur, u) == GetPage(old(hw), cur, u)
      ensures ok ==> Dir(hw, cur).Keys == Dir(old(hw), cur).Keys + {upage}
    {
      var kpage := NextFree(hw);
      if kpage == NULL {
        return false;
      }
      assert forall u :: u in Dir(hw, cur) ==> Dir(hw, cur)[u].kpage != kpage;
      ghost var start := hw;
      hw := Palloc(hw, false);
      var data := FileRead(file, pos, prb);
      if |data| != prb {
        hw := PallocFree(hw, kpage);
        PoolFreshRotated(start, hw);
        return false;
      }
      hw := Store(hw, kpage, data + Zeros(PGSIZE - prb));
      var r := InstallPage(hw, cur, upage, kpage, writable);
      if r.1 {
        InstallPageAdds(hw, cur, upage, kpage, writable);
      }
      if !r.1 {
        hw := PallocFree(hw, kpage);
        PoolFreshRotated(start, hw);
        return false;
      }
      hw := r.0;
      PoolFreshInstalled(start, hw, cur, upage, writable);
      assert upage !in Dir(start, cur);
      return true;
    }

    /** One round of the `load_segment` loop seen from the segment: the
        round that loads page K of the segment at UPAGE, whose file image
        is READ_BYTES bytes from OFS, carries the progress made since START
        from K pages to K + 1.  When it fails, the segment could not have
        been loaded from START at all. */
    method LoadSegmentPage(file: seq<Byte>, pos: int, page: int, prb: int, writable: bool, ghost start: Hw,
                           ghost ofs: int, ghost upage: int, ghost readBytes: int, ghost zeroBytes: int, ghost k: int)
      returns (ok: bool)
      requires Valid() && HwValid(start) && NULL !in start.memory
      requires 0 <= ofs && 0 <= k < (readBytes + zeroBytes) / PGSIZE && 0 <= upage && page + PGSIZE <= PHYS_BASE
      requires 0 <= pos && (prb == 0 || pos == ofs + k * PGSIZE) && page == upage + k * PGSIZE
      requires prb == (if readBytes - k * PGSIZE <= 0 then 0
                       else if readBytes - k * PGSIZE < PGSIZE then readBytes - k * PGSIZE else PGSIZE)
      requires SegmentProgress(start, hw, cur, file, ofs, upage, readBytes, writable, k)
      modifies this
      ensures Valid()
      ensures ok <==> old(hw.pool) != [] && |FileRead(file, pos, prb)| == prb && GetPage(old(hw), cur, page) == NULL
      ensures ok ==> (prb == 0 || pos + prb <= |file|) && SegmentProgress(start, hw, cur, file, ofs, upage, readBytes, writable, k + 1)
      ensures !ok ==> !SegmentLoadable(start, cur, file, ofs, upage, readBytes, zeroBytes)
    {
      ghost var before := hw;
      ok := LoadPage(file, pos, page, prb, writable);
      if ok {
        assert FileRead(file, pos, prb) == FileRead(file, ofs + k * PGSIZE, prb);
        assert PageLoaded(hw, cur, upage, k, file, ofs, readBytes, writable);
        ProgressNext(start, before, hw, cur, file, ofs, upage, readBytes, writable, k);
      } else {
        ProgressStuck(start, before, cur, file, ofs, upage, readBytes, zeroBytes, writable, k, pos, prb);
      }
    }

    /** The page loop of `load_segment`: on success all N pages of the
        segment are loaded and the file held the whole file image; a
        failure means the segment could not be loaded from the state the
        loop started in. */
    method LoadSegmentPages(file: seq<Byte>, ofs: int, upage: int, readBytes: int, zeroBytes: int, writable: bool)
      returns (ok: bool)
      requires Valid()
      requires 0 <= readBytes && 0 <= zeroBytes && (readBytes + zeroBytes) % PGSIZE == 0
      requires 0 <= upage && upage % PGSIZE == 0 && 0 <= ofs && ofs % PGSIZE == 0
      requires upage + readBytes + zeroBytes <= PHYS_BASE
      modifies this
      ensures Valid()
      ensures ok ==> (readBytes > 0 ==> ofs + readBytes <= |file|)
                     && SegmentProgress(old(hw), hw, cur, file, ofs, upage, readBytes, writable, (readBytes + zeroBytes) / PGSIZE)
      ensures !ok ==> !SegmentLoadable(old(hw), cur, file, ofs, upage, readBytes, zeroBytes)
    {
      var read, zero, page, pos := readBytes, zeroBytes, upage, ofs;
      ghost var k, n := 0, (readBytes + zeroBytes) / PGSIZE;
      ghost var start := hw;
      assert PagesFrom(upage, 0) == {};
      while read > 0 || zero > 0
        invariant Valid()
        invariant 0 <= k <= n && page == upage + k * PGSIZE && read + zero == (n - k) * PGSIZE
        invariant 0 <= zero && read == (if readBytes - k * PGSIZE > 0 then readBytes - k * PGSIZE else 0)
        invariant pos == ofs + (readBytes - read)
        invariant readBytes - read > 0 ==> ofs + (readBytes - read) <= |file|
        invariant start == old(hw) && SegmentProgress(start, hw, cur, file, ofs, upage, readBytes, writable, k)
        decreases read + zero
      {
        var prb := if read < PGSIZE then read else PGSIZE;
        var pzb := PGSIZE - prb;
        PageStep(readBytes, k, n, read, zero);
        ok := LoadSegmentPage(file, pos, page, prb, writable, start, ofs, upage, readBytes, zeroBytes, k);
        if !ok {
          return;
        }
        read, zero, page, pos := read - prb, zero - pzb, page + PGSIZE, pos + prb;
        k := k + 1;
      }
      return true;
    }

    /** `load_segment`: READ_BYTES bytes of FILE from offset OFS, then
        ZERO_BYTES zeros, one page at a time from UPAGE up.  The three
        assertions at its head and the user-address assertion of
        `install_page` are its preconditions.  On success every page K of
        the segment is mapped with WRITABLE and holds PageImage, the file
        held the whole file image, every mapping the thread had is still
        there, the pool lost one page per page of the segment, and the
        mapped pages are the old ones and the segment's.  A failure leaves
        the pages already installed in place. */
    method LoadSegment(file: seq<Byte>, ofs: int, upage: int, readBytes: int, zeroBytes: int, writable: bool)
      returns (ok: bool)
      requires Valid()
      requires 0 <= readBytes && 0 <= zeroBytes && (readBytes + zeroBytes) % PGSIZE == 0
      requires 0 <= upage && upage % PGSIZE == 0 && 0 <= ofs && ofs % PGSIZE == 0
      requires upage + readBytes + zeroBytes <= PHYS_BASE
      modifies this
      ensures Valid()
      ensures ok && readBytes > 0 ==> ofs + readBytes <= |file|
      ensures ok ==> forall k :: 0 <= k < (readBytes + zeroBytes) / PGSIZE ==>
        PageLoaded(hw, cur, upage, k, file, ofs, readBytes, writable)
      ensures ok ==> MappingsKept(old(hw), hw, cur)
      ensures ok <==> SegmentLoadable(old(hw), cur, file, ofs, upage, readBytes, zeroBytes)
      ensures ok ==> RoomOf(hw, cur) == Room(|old(hw.pool)| - (readBytes + zeroBytes) / PGSIZE,
                                             Dir(old(hw), cur).Keys + PagesFrom(upage, (readBytes + zeroBytes) / PGSIZE))
    {
      ok := LoadSegmentPages(file, ofs, upage, readBytes, zeroBytes, writable);
      if ok {
        ProgressDone(old(hw), hw, cur, file, ofs, upage, readBytes, zeroBytes, writable);
      }
    }

    /** `setup_stack`: a zeroed page mapped writable just below PHYS_BASE.
        Without a free page, or when that address is already mapped, it
        fails and gives the page back.  The page is not one any earlier
        mapping used. */
    method SetupStack() returns (ok: bool)
      requires Valid()
      modifies this
      ensures Valid()
      ensures ok ==> && STACK_PAGE in Dir(hw, cur) && Dir(hw, cur)[STACK_PAGE].writable
                     && Dir(hw, cur)[STACK_PAGE].kpage in hw.memory
                     && hw.memory[Dir(hw, cur)[STACK_PAGE].kpage] == Zeros(PGSIZE)
      ensures ok ==> MappingsKept(old(hw), hw, cur)
      ensures ok ==> forall u :: u in old(Dir(hw, cur)) ==> old(Dir(hw, cur))[u].kpage != GetPage(hw, cur, STACK_PAGE)
      ensures ok <==> old(hw.pool) != [] && GetPage(old(hw), cur, STACK_PAGE) == NULL
    {
      var kpage := NextFree(hw);
      if kpage == NULL {
        return false;
      }
      assert forall u :: u in Dir(hw, cur) ==> Dir(hw, cur)[u].kpage != kpage;
      ghost var start := hw;
      hw := Palloc(hw, true);
      var r := InstallPage(hw, cur, STACK_PAGE, kpage, true);
      if r.1 {
        InstallPageAdds(hw, cur, STACK_PAGE, kpage, true);
      }
      if !r.1 {
        hw := PallocFree(hw, kpage);
        PoolFreshRotated(start, hw);
        return false;
      }
      hw := r.0;
      PoolFreshInstalled(start, hw, cur, STACK_PAGE, true);
      assert STACK_PAGE !in Dir(start, cur);
      return true;
    }

    /** The body of the program-header loop of `load` for the header at
        file offset OFS: give up on an unsupported or invalid header, skip
        one that is not loadable, and hand a loadable one to
        `load_segment`. */
    method LoadHeader(file: seq<Byte>, ofs: int) returns (ok: bool)
      requires Valid() && |file| <= OFF_MAX
      modifies this
      ensures Valid()
      ensures ok ==> StepDone(hw, cur, file, PhdrStep(file, ofs)) && MappingsKept(old(hw), hw, cur)
      ensures ok <==> StepRoom(file, PhdrStep(file, ofs), RoomOf(old(hw), cur)).Some?
      ensures ok ==> StepRoom(file, PhdrStep(file, ofs), RoomOf(old(hw), cur)) == Some(RoomOf(hw, cur))
    {
      var step := PhdrStep(file, ofs);
      if step.Abort? {
        return false;
      }
      if step.LoadIt? {
        var s := step.seg;
        LoadStepFits(file, ofs);
        ghost var before := hw;
        ok := LoadSegment(file, s.filePage, s.upage, s.readBytes, s.zeroBytes, s.writable);
        SegmentRoom(before, hw, cur, file, s, ok);
        return;
      }
      return true;
    }

    /** The program-header loop of `load`: the headers of the ELF header
        H, read from `e_phoff` on, are handled one after the other until
        one of them fails. */
    method LoadHeaders(file: seq<Byte>, h: Ehdr) returns (ok: bool)
      requires Valid() && |file| <= OFF_MAX && 0 <= h.phnum
      modifies this
      ensures Valid()
      ensures ok ==> HeadersDone(hw, cur, file, h.phoff, h.phnum) && MappingsKept(old(hw), hw, cur)
      ensures ok <==> RunSteps(file, PhdrSteps(file, h.phoff, h.phnum), RoomOf(old(hw), cur)).Some?
      ensures ok ==> RunSteps(file, PhdrSteps(file, h.phoff, h.phnum), RoomOf(old(hw), cur)) == Some(RoomOf(hw, cur))
    {
      var fileOfs := Wrap32(h.phoff);
      var i := 0;
      ghost var steps := PhdrSteps(file, h.phoff, h.phnum);
      while i < h.phnum
        invariant Valid() && 0 <= i <= h.phnum
        invariant fileOfs == PhdrOfs(h.phoff, i)
        invariant HeadersDone(hw, cur, file, h.phoff, i) && MappingsKept(old(hw), hw, cur)
        invariant RunSteps(file, steps, RoomOf(old(hw), cur)) == RunSteps(file, steps[i..], RoomOf(hw, cur))
      {
        ghost var before := hw;
        ok := LoadHeader(file, fileOfs);
        RunStepsNext(file, steps, i, RoomOf(before, cur));
        if !ok {
          return;
        }
        MappingsKeptTrans(old(hw), before, hw, cur);
        HeadersDoneNext(before, hw, cur, file, h.phoff, i);
        PhdrOfsNext(h.phoff, i);
        fileOfs := Wrap32(fileOfs + PHDR_SIZE);
        i := i + 1;
      }
      return true;
    }

    /** The end of `load`: `setup_stack`, then `setup_arguments` writing
        the command line ARGS onto the new page from PHYS_BASE down. */
    method SetupProcessStack(args: seq<seq<Byte>>) returns (ok: bool, esp: int)
      requires Valid() && |args| <= MAX_ARG && |StackImage(args, PHYS_BASE)| <= PGSIZE
      modifies this
      ensures Valid()
      ensures ok ==> StackReady(hw, cur, args, esp) && MappingsKept(old(hw), hw, cur)
      ensures ok <==> old(hw.pool) != [] && GetPage(old(hw), cur, STACK_PAGE) == NULL
    {
      ok := SetupStack();
      if !ok {
        return false, 0;
      }
      var stack := new UserStack();
      stack.SetupArguments(args);
      assert stack.Contents() == StackImage(args, PHYS_BASE);
      var kpage := GetPage(hw, cur, STACK_PAGE);
      hw := Store(hw, kpage, stack.page);
      return true, stack.esp;
    }

    /** `load`: a fresh page directory, the ELF header checked, every
        program header handled in turn, the stack set up and the command
        line ARGS written onto it.  On success the header was accepted,
        every program header is handled (none aborts and every loadable
        segment is in memory), the entry point is `e_entry` and the stack
        pointer points at the argument image. */
    method Load(file: seq<Byte>, args: seq<seq<Byte>>) returns (success: bool, eip: int, esp: int)
      requires Valid() && |file| <= OFF_MAX
      requires |args| <= MAX_ARG && |StackImage(args, PHYS_BASE)| <= PGSIZE
      modifies this
      ensures Valid()
      ensures success ==> ReadEhdr(file).Some? && HeaderAccepted(ReadEhdr(file).value)
      ensures success ==> var h := ReadEhdr(file).value;
        eip == h.entry && HeadersDone(hw, cur, file, h.phoff, h.phnum)
      ensures success ==> StackReady(hw, cur, args, esp)
      ensures success <==> LoadSucceeds(file, |old(hw.pool)|)
    {
      hw := hw.(pagedirs := hw.pagedirs[cur := map[]]);
      assert RoomOf(hw, cur) == Room(|old(hw.pool)|, {});
      var eh := ReadEhdr(file);
      if eh.None? || !HeaderAccepted(eh.value) {
        return false, 0, 0;
      }
      var h := eh.value;
      var ok := LoadHeaders(file, h);
      if !ok {
        return false, 0, 0;
      }
      ghost var loaded := hw;
      NullIffUnmapped(hw, cur, STACK_PAGE);
      ok, esp := SetupProcessStack(args);
      if !ok {
        return false, 0, 0;
      }
      HeadersDoneKept(loaded, hw, cur, file, h.phoff, h.phnum);
      return true, h.entry, esp;
    }
  }
}
