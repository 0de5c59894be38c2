/** The machine the other modules share, and the collaborators whose code
    is not part of this model: bytes, 32-bit words and user addresses;
    the page directories (`pagedir_get_page`, `pagedir_set_page`,
    `pagedir_clear_page`, `pagedir_is_dirty`), the user-pool page
    allocator (`palloc_get_page`, `palloc_free_page`) and the contents of
    physical pages, modelled together as one value, `Hw`, with functions
    over it; `file_read_at` over a file's bytes; and `install_page` of
    the loader. */
module Machine {

  type Byte = x: int | 0 <= x < 256
  type Tid = int

  const PGSIZE: int := 4096
  /** Base of kernel virtual memory; user addresses lie below it. */
  const PHYS_BASE: int := 0xC000_0000
  /** One past the largest 32-bit address; pointer arithmetic wraps here. */
  const ADDR_LIMIT: int := 0x1_0000_0000
  /** The null pointer, as a kernel page address. */
  const NULL: int := 0

  type Int32 = x: int | -0x8000_0000 <= x < 0x8000_0000

  /** Two's-complement wrap-around of an integer into a 32-bit `int`. */
  function Wrap32(x: int): (r: Int32)
    ensures -0x8000_0000 <= x < 0x8000_0000 ==> r == x
    ensures x % 2 == 0 ==> r % 2 == 0
  {
    (x + 0x8000_0000) % 0x1_0000_0000 - 0x8000_0000
  }

  predicate IsUserVaddr(a: int)
  {
    a < PHYS_BASE
  }

  function PgOfs(a: int): int
  {
    a % PGSIZE
  }

  function PgRoundDown(a: int): int
  {
    a - a % PGSIZE
  }

  /** `ROUND_UP (x, step)` of round.h for a positive step. */
  function RoundUp(x: int, step: int): int
    requires step > 0
  {
    (x + step - 1) / step * step
  }

  function Zeros(n: nat): (z: seq<Byte>)
    ensures |z| == n && forall i :: 0 <= i < n ==> z[i] == 0
  {
    seq(n, _ => 0)
  }

  /** One page-table entry: the kernel page it maps to, whether the user may
      write it, and the hardware dirty bit. */
  datatype Mapping = Mapping(kpage: int, writable: bool, dirty: bool)

  type PageDir = map<int, Mapping>

  /** Page directories per thread, contents of every physical page (by its
      kernel address), and the free user pages in the order `palloc` hands
      them out. */
  datatype Hw = Hw(pagedirs: map<Tid, PageDir>, memory: map<int, seq<Byte>>, pool: seq<int>)

  /** Every free page and every mapped page is a real page of PGSIZE bytes,
      and page directories map user addresses only, onto real pages. */
  ghost predicate HwValid(hw: Hw)
  {
    && (forall i :: 0 <= i < |hw.pool| ==> hw.pool[i] != NULL && hw.pool[i] in hw.memory)
    && (forall k :: k in hw.memory ==> |hw.memory[k]| == PGSIZE)
    && (forall t, u :: t in hw.pagedirs && u in hw.pagedirs[t] ==>
          u < PHYS_BASE && hw.pagedirs[t][u].kpage in hw.memory)
  }

  function Dir(hw: Hw, t: Tid): PageDir
  {
    if t in hw.pagedirs then hw.pagedirs[t] else map[]
  }

  /** `pagedir_get_page` on a page address: the kernel page, or NULL. */
  function GetPage(hw: Hw, t: Tid, upage: int): int
  {
    if upage in Dir(hw, t) then Dir(hw, t)[upage].kpage else NULL
  }

  /** A mapped page is a real page. */
  lemma MappedIsReal(hw: Hw, t: Tid, upage: int)
    requires HwValid(hw) && upage in Dir(hw, t)
    ensures GetPage(hw, t, upage) in hw.memory
  {
  }

  /** `pagedir_is_dirty`: false for an address with no mapping. */
  function IsDirty(hw: Hw, t: Tid, upage: int): bool
  {
    upage in Dir(hw, t) && Dir(hw, t)[upage].dirty
  }

  /** `pagedir_set_page` on a user address; the new entry starts clean.
      The source also asserts that UPAGE is page-aligned, which this model
      does not check. */
  function SetPage(hw: Hw, t: Tid, upage: int, kpage: int, writable: bool): (r: Hw)
    requires IsUserVaddr(upage)
    ensures HwValid(hw) && kpage in hw.memory ==> HwValid(r)
    ensures GetPage(r, t, upage) == kpage
  {
    hw.(pagedirs := hw.pagedirs[t := Dir(hw, t)[upage := Mapping(kpage, writable, false)]])
  }

  /** `pagedir_clear_page`. */
  function ClearPage(hw: Hw, t: Tid, upage: int): (r: Hw)
    ensures HwValid(hw) ==> HwValid(r)
    ensures GetPage(r, t, upage) == NULL
  {
    hw.(pagedirs := hw.pagedirs[t := Dir(hw, t) - {upage}])
  }

  /** The page `palloc_get_page` would hand out, or NULL when the pool is
      exhausted. */
  function NextFree(hw: Hw): int
  {
    if hw.pool == [] then NULL else hw.pool[0]
  }

  /** The allocator after `palloc_get_page`; with PAL_ZERO the page is
      cleared, without it the page keeps whatever it held.  The free pool
      is a FIFO queue: the page at the front is taken and PallocFree
      returns pages at the back.  This stands in for palloc's bitmap,
      which hands out the lowest free page. */
  function Palloc(hw: Hw, zero: bool): (r: Hw)
    requires HwValid(hw)
    ensures HwValid(r)
    ensures hw.pool != [] ==> r.pool == hw.pool[1..]
  {
    if hw.pool == [] then hw
    else if zero then hw.(pool := hw.pool[1..], memory := hw.memory[hw.pool[0] := Zeros(PGSIZE)])
    else hw.(pool := hw.pool[1..])
  }

  /** `palloc_free_page`: the page goes back to the pool. */
  function PallocFree(hw: Hw, kpage: int): (r: Hw)
    requires HwValid(hw) && kpage in hw.memory && kpage != NULL
    ensures HwValid(r)
  {
    hw.(pool := hw.pool + [kpage])
  }

  /** Stores a whole page of bytes into a physical page. */
  function Store(hw: Hw, kpage: int, data: seq<Byte>): (r: Hw)
    requires HwValid(hw) && |data| == PGSIZE
    ensures HwValid(r)
  {
    hw.(memory := hw.memory[kpage := data])
  }

  /** A later store to the same page replaces an earlier one. */
  lemma StoreTwice(hw: Hw, kpage: int, first: seq<Byte>, second: seq<Byte>)
    requires HwValid(hw) && |first| == PGSIZE && |second| == PGSIZE
    ensures Store(Store(hw, kpage, first), kpage, second) == Store(hw, kpage, second)
  {
    assert Store(Store(hw, kpage, first), kpage, second).memory == Store(hw, kpage, second).memory;
  }

  /** The bytes `file_read_at` (and `file_read` at the current position) delivers: up to SIZE bytes from offset OFS,
      stopping at the end of the file. */
  function FileRead(contents: seq<Byte>, ofs: int, size: int): (r: seq<Byte>)
    requires 0 <= ofs && 0 <= size
    ensures |r| == if ofs + size <= |contents| then size else if ofs <= |contents| then |contents| - ofs else 0
    ensures forall i :: 0 <= i < |r| ==> r[i] == contents[ofs + i]
  {
    if ofs >= |contents| then []
    else if ofs + size <= |contents| then contents[ofs .. ofs + size]
    else contents[ofs..]
  }

  /** The N low bytes of V, least significant first. */
  function LeBytes(v: nat, n: nat): (b: seq<Byte>)
    ensures |b| == n
  {
    if n == 0 then [] else [v % 0x100] + LeBytes(v / 0x100, n - 1)
  }

  /** The four bytes, least significant first, that a 32-bit store of V
      puts in memory; V is taken modulo 2^32. */
  function Le32(v: int): (b: seq<Byte>)
    ensures |b| == 4
  {
    LeBytes(v % ADDR_LIMIT, 4)
  }

  /** The unsigned 32-bit value of the four bytes of S from index I up,
      least significant first. */
  function Le32At(s: seq<Byte>, i: int): (v: int)
    requires 0 <= i && i + 4 <= |s|
    ensures 0 <= v < ADDR_LIMIT
  {
    s[i] as int + 0x100 * (s[i + 1] as int) + 0x1_0000 * (s[i + 2] as int) + 0x100_0000 * (s[i + 3] as int)
  }

  /** Reading back a stored word gives the stored value modulo 2^32. */
  lemma Le32RoundTrip(v: int)
    ensures Le32At(Le32(v), 0) == v % ADDR_LIMIT
  {
    var u := v % ADDR_LIMIT;
    var q1 := u / 0x100;
    var q2 := q1 / 0x100;
    var q3 := q2 / 0x100;
    assert LeBytes(q3, 1) == [q3 % 0x100] + LeBytes(q3 / 0x100, 0);
    assert LeBytes(q2, 2) == [q2 % 0x100] + LeBytes(q3, 1);
    assert LeBytes(q1, 3) == [q1 % 0x100] + LeBytes(q2, 2);
    assert Le32(v) == [u % 0x100, q1 % 0x100, q2 % 0x100, q3 % 0x100];
    assert u == q1 * 0x100 + u % 0x100;
    assert q1 == q2 * 0x100 + q1 % 0x100;
    assert q2 == q3 * 0x100 + q2 % 0x100;
  }

  /** `install_page` of userprog/process.c (and the identical `setup_page` of
      vm/page_table.c): map UPAGE only if it is not mapped yet. */
  function InstallPage(hw: Hw, t: Tid, upage: int, kpage: int, writable: bool): (r: (Hw, bool))
    requires IsUserVaddr(upage)
    ensures r.1 <==> GetPage(hw, t, upage) == NULL
    ensures r.1 ==> upage in Dir(r.0, t) && Dir(r.0, t)[upage] == Mapping(kpage, writable, false)
    ensures r.1 ==> forall u :: u != upage ==> GetPage(r.0, t, u) == GetPage(hw, t, u)
    ensures !r.1 ==> r.0 == hw
  {
    if GetPage(hw, t, upage) == NULL then (SetPage(hw, t, upage, kpage, writable), true)
    else (hw, false)
  }

  /** A successful `install_page` adds the one entry to the thread's page
      directory and touches neither memory nor the free pages. */
  lemma InstallPageAdds(hw: Hw, t: Tid, upage: int, kpage: int, writable: bool)
    requires IsUserVaddr(upage) && GetPage(hw, t, upage) == NULL
    ensures var r := InstallPage(hw, t, upage, kpage, writable);
      && r.0.pagedirs == hw.pagedirs[t := Dir(hw, t)[upage := Mapping(kpage, writable, false)]]
      && r.0.memory == hw.memory && r.0.pool == hw.pool
  {
  }
}
