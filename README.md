# Pintos kernel core in Dafny

A model of the sequential core of a Pintos kernel (the claudiolanderos
Pintos-OS repository), with what its code promises proved about the model.
It covers:

- **the ELF loader and the initial user stack** of `userprog/process.c`:
  - the executable-header check of `load`;
  - the program-header loop and `validate_segment`;
  - the per-segment `read_bytes`/`zero_bytes` split and the page-by-page `load_segment` loop;
  - `setup_stack`, `install_page`, and `setup_arguments` with its stack-writing helpers (modules `ElfLoad`, `ArgStack`).
- **system-call argument fetching and the open-file table** of `userprog/syscall.c`:
  - `get_user`, `get_user_word` and `fetch_argument` (`UserWord`);
  - the global `fd_table` with its counter `fd_gl` (`FdTable`).
- **the file-descriptor allocator** of `src/pintos/src/userprog/fd.c` (`FdList`), with its LIFO stack of released ids.
- **the sign-magnitude fixed-point numbers** of `src/pintos/src/lib/kernel/real.c` (`Real`).
- **the first virtual-memory layer** (`src/pintos/src/vm/page.c`, `frame.c`, `swap.c`; modules `SwapSlots`, `SwappingVm`):
  - a per-thread supplemental page table;
  - a FIFO frame table, kept both as a list and as a hash on (page, thread);
  - a swap store of 1024 eight-sector slots;
  - the page-fault classifier `check_fault`.
- **the second, separate virtual-memory layer** (`vm/page_table.c`, `vm/frame_table.c`; module `FileBackedVm`):
  - pages backed by file ranges and zeros;
  - a frame table keyed by an `order` number;
  - eviction that writes a dirty page back to its file;
  - stack growth bounded by `MAX_STACK_SIZE`.
- **the buffer cache** of `src/pintos/src/filesys/cache.c` (`BufferCache`):
  - lookup by sector;
  - the round-robin victim scan;
  - the `loaded`/`dirty` transitions of load, read, write, flush and fill-zero;
  - the reader/writer counters of acquire and release.

The page directories, the user-pool page allocator and physical memory are one
value, `Machine.Hw`, with functions for `pagedir_get_page`,
`pagedir_set_page`, `pagedir_clear_page`, `pagedir_is_dirty`,
`palloc_get_page` and `palloc_free_page`. A file is its sequence of bytes.
Each disk is a map from sector number to sector bytes. The current thread is
passed as a `Tid` parameter.

The code's state is modelled as classes:
- `ElfLoad.Process`, the machine during `load`;
- `ArgStack.UserStack`, the stack page and `esp`;
- `FdTable.FileTable`, `FdList.Fds` and `BufferCache.Cache`, each over arrays;
- `SwappingVm.Vm` and `FileBackedVm.Vm`.

Each of their methods is proved against pure functions of the model. Those
functions in turn carry lemmas stating what the source promises: round trips,
views that are preserved, the round-robin order and the stack layout.

## Model

| member | source | states |
|---|---|---|
| Machine.InstallPage | userprog/process.c:758-767 | `install_page` (and `setup_page`) succeeds exactly when UPAGE has no mapping; it then maps UPAGE to KPAGE with the given writability, and no other address changes. On failure nothing changes. |
| Machine.InstallPageAdds | vm/page_table.c:206-215 | a successful `setup_page`/`install_page` adds exactly one page-directory entry, which starts clean, and touches neither memory nor the free pool |
| Machine.SetPage | userprog/process.c:766 | `pagedir_set_page` makes UPAGE translate to KPAGE and keeps the machine well formed |
| Machine.ClearPage | src/pintos/src/vm/frame.c:113 | after `pagedir_clear_page` UPAGE translates to nothing |
| Machine.Palloc | userprog/process.c:476 | `palloc_get_page` takes the page at the front of the free pool and keeps the machine well formed; the pool is a FIFO queue (PallocFree appends at the back) standing in for palloc's lowest-first bitmap |
| Machine.PallocFree | userprog/process.c:483 | `palloc_free_page` keeps the machine well formed |
| Machine.FileRead | vm/page_table.c:137-138 | `file_read_at` delivers SIZE bytes from OFS when the file holds them, or else the bytes up to the end of the file; each delivered byte is the file's byte at OFS + i |
| Machine.Le32RoundTrip | userprog/process.c:626-632 | the four bytes a 32-bit `memcpy` of V stores read back as V modulo 2^32 |
| UserWord.GetUser | userprog/syscall.c:436-449 | `get_user` ends the process (None) exactly for an address at or above PHYS_BASE; otherwise it yields a byte value 0..255, or -1 for a faulting read |
| UserWord.GetUserWord | userprog/syscall.c:419-430 | `get_user_word` ends the process exactly when its last byte lies at or above PHYS_BASE |
| UserWord.GetUserWordRoundTrip | userprog/syscall.c:424-429 | the little-endian sum `b0 + (b1 << 8) + (b2 << 16) + (b3 << 24)` over four bytes holding a stored int reads back that int, negative values included |
| UserWord.FetchArgumentReadsWord | userprog/syscall.c:403-412 | `fetch_argument` reads the word at `esp + 4 * arg_num` whenever that word is below PHYS_BASE, and then it never ends the process |
| UserWord.FetchArgumentAbovePhysBase | userprog/syscall.c:405-409 | an argument address at or above PHYS_BASE ends the process |
| FdTable.IndexOf | userprog/syscall.c:480-486 | the index of the first element with descriptor FD; -1 exactly when no element has it |
| FdTable.RemoveKeepsIncreasing | userprog/syscall.c:517-520 | taking one element out keeps the descriptors strictly rising |
| FdTable.FileTable.constructor | userprog/syscall.c:17-18 | the zeroed global table is empty and `fd_gl` starts at 3 |
| FdTable.FileTable.InitFdTable | userprog/syscall.c:451-454 | `init_fd_table` empties the table and leaves `fd_gl` alone |
| FdTable.FileTable.AddFile | userprog/syscall.c:456-473 | `add_file` returns `fd_gl + 1`, appends (file, fd, current thread) at index `size`, and the new fd is larger than every fd in the table (so none is reused) |
| FdTable.FileTable.GetFile | userprog/syscall.c:475-488 | `get_file` gives the file of the first element with FD, or NULL |
| FdTable.FileTable.GetFileOwner | userprog/syscall.c:490-503 | `get_file_owner` gives the owner of the first element with FD, or -1 |
| FdTable.FileTable.RemoveFile | userprog/syscall.c:505-525 | `remove_file` removes exactly the first element with FD, keeping the others in order, and returns its file; for an absent FD it returns NULL and nothing changes |
| FdTable.FileTable.ShiftDown | userprog/syscall.c:517-521 | the shifting loop moves every later element one place down and shrinks the table by one |
| FdList.DistinctBound | src/pintos/src/userprog/fd.c:77 | distinct ids drawn from [lo, hi) number at most hi - lo, so the stack of released ids never overflows `empty_fd_list` |
| FdList.Fds.constructor | src/pintos/src/userprog/fd.c:17-18 | the zero-initialised arrays followed by `fd_init`: no live slot, `fd_cnt` 3 and an empty stack |
| FdList.Fds.FdInit | src/pintos/src/userprog/fd.c:38-43 | `fd_init` sets `fd_cnt` to 3 and empties the stack of released ids |
| FdList.Fds.ValidFdNotFree | src/pintos/src/userprog/fd.c:20-36 | an id that passes `fd_is_valid` is at least 3 and is not waiting on the released stack |
| FdList.Fds.FdAcquire | src/pintos/src/userprog/fd.c:45-71 | `fd_acquire` pops the most recently released id if there is one (LIFO), and otherwise returns `fd_cnt` and increments it. The slot becomes live and owned by the current thread, holding the file, with `dir` set exactly for a directory inode, and `fd_is_valid`, `fd_get` and `fd_get_dir` read it back. No other slot changes. With every id handed out and none released it returns -1 and changes nothing. |
| FdList.Fds.FdIsValid | src/pintos/src/userprog/fd.c:20-36 | `fd_is_valid` accepts only an id that indexes `fd_list` past the console ids, so `fd_get` and `fd_get_dir` may read its slot; FdAcquire's ensures show it accepts a fresh descriptor, FdRelease's and FdProcessExit's that it rejects released ones, and ValidFdNotFree that an accepted id is never on the stack of released ids |
| FdList.Fds.FdGet | src/pintos/src/userprog/fd.c:80-84 | `fd_get` returns the file the slot holds; FdAcquire's ensures show it returns the file just handed in |
| FdList.Fds.FdGetDir | src/pintos/src/userprog/fd.c:86-90 | `fd_get_dir` returns the directory the slot holds; FdAcquire's ensures show it is the opened directory for a directory inode and NULL otherwise |
| FdList.Fds.FdRelease | src/pintos/src/userprog/fd.c:73-78 | `fd_release` marks the slot dead and pushes its id, so the next `fd_acquire` returns it; no thread's `fd_is_valid` accepts the id afterwards |
| FdList.Fds.FdProcessExit | src/pintos/src/userprog/fd.c:92-104 | `fd_process_exit (t)` releases, in increasing order, exactly the live slots owned by T; every other slot is unchanged, and afterwards `fd_is_valid` accepts no descriptor for T |
| Real.RealLessCorrected | src/pintos/src/lib/kernel/real.c:84-95 | the intended comparison: irreflexive, and for well-formed operands that are not both zero it holds exactly when the lhs denotes the smaller number |
| Real.EncodeDecode | src/pintos/src/lib/kernel/real.c:5-23 | `value_of_real` and `sign_of_real` recover the value and sign that `real_of_value_sign` packed, for any value that fits in 31 bits |
| Real.DecodeEncode | src/pintos/src/lib/kernel/real.c:5-23 | every bit pattern is the packing of its own value and sign |
| Real.RealOfIntParts | src/pintos/src/lib/kernel/real.c:26-32 | `real_of_int (x)` has magnitude `abs (x) << 14` and sign 0 exactly when x > 0 (zero is a negative zero); it denotes x * 2^14 |
| Real.IntOfRealOfInt | src/pintos/src/lib/kernel/real.c:26-38 | `int_of_real (real_of_int (x)) == x` whenever `abs (x) << 15` fits in an int |
| Real.IntOfRealOfIntOverflows | src/pintos/src/lib/kernel/real.c:29-31 | the bound is tight: for x = 65536 the shift overflows and the round trip gives -65536 |
| Real.RealMinusParts | src/pintos/src/lib/kernel/real.c:77-82 | `real_minus` keeps the magnitude, flips the sign and negates the denoted number |
| Real.RealMinusInvolution | src/pintos/src/lib/kernel/real.c:77-82 | `real_minus` applied twice is the identity on every bit pattern |
| Real.RealAddParts | src/pintos/src/lib/kernel/real.c:40-53 | with equal signs `real_add` adds the magnitudes; with different signs it subtracts the rhs magnitude from the lhs. Either way the lhs sign is kept and the sum is denoted, whenever the one magnitude computed fits in 31 bits. |
| Real.RealAddNegativeMagnitude | src/pintos/src/lib/kernel/real.c:48-51 | 1 + (-2) leaves a negative magnitude under a positive sign; the denoted number is still -1 |
| Real.RealSubSigned | src/pintos/src/lib/kernel/real.c:55-59 | `real_sub` denotes the difference of the two numbers whenever the one magnitude it computes (difference for equal signs, sum otherwise) fits in 31 bits |
| Real.RealMultParts | src/pintos/src/lib/kernel/real.c:61-67 | whenever the result fits 31 bits, `real_mult` has magnitude `(a * b) >> 14` and the XOR of the signs |
| Real.RealDivParts | src/pintos/src/lib/kernel/real.c:69-75 | whenever the result fits 31 bits, `real_div` has magnitude `(a << 14) / b`, truncated toward zero, and the XOR of the signs |
| Real.RealLessReflexiveOnNegatives | src/pintos/src/lib/kernel/real.c:93 | as written, every Real with sign bit 1 is less than itself |
| Real.RealLessZeroZero | src/pintos/src/lib/kernel/real.c:26-32 | in particular `real_of_int (0)` is less than itself |
| Real.RealLessAgreesOffNegatives | src/pintos/src/lib/kernel/real.c:87-93 | with different signs, or two positive operands, the function as written and the corrected one agree |
| ElfLoad.ReadEhdr | userprog/process.c:286 | reading the executable header fails exactly when the file is shorter than `sizeof (Elf32_Ehdr)` |
| ElfLoad.HeaderAcceptedBytes | userprog/process.c:286-292 | the header is accepted exactly when the file bytes hold the seven identification bytes `"\177ELF\1\1\1"`, `e_type` 2, `e_machine` 3, `e_version` 1, `e_phentsize` 32 and `e_phnum` at most 1024 |
| ElfLoad.ValidateSegmentMeans | userprog/process.c:401-442 | `validate_segment` accepts exactly when `p_offset` and `p_vaddr` share their page offset, `p_offset` lies within the file, `p_filesz <= p_memsz`, `p_memsz` is not 0, and `p_vaddr + p_memsz` lies below PHYS_BASE |
| ElfLoad.PageZeroAccepted | userprog/process.c:432-438 | a segment at virtual address 0 is accepted, the page-0 check being commented out |
| ElfLoad.SegmentSplit | userprog/process.c:336-354 | for a validated segment, the page-aligned `mem_page` and `file_page` plus the page offset give back `p_vaddr` and `p_offset`. `read_bytes` is `page_offset + p_filesz`, or 0 when `p_filesz` is 0. `read_bytes + zero_bytes == ROUND_UP (page_offset + p_memsz, PGSIZE)`, a multiple of PGSIZE, and it all lies below PHYS_BASE. |
| ElfLoad.PhdrStep | userprog/process.c:304-368 | a segment is loaded only from a program header lying wholly within the file |
| ElfLoad.PhdrStepMeans | userprog/process.c:304-368 | a program header not wholly within the file aborts the load. PT_DYNAMIC, PT_INTERP and PT_SHLIB abort it. PT_LOAD loads exactly when `validate_segment` accepts, and aborts otherwise. Every other type is ignored. |
| ElfLoad.LoadStepFits | userprog/process.c:462-464 | every segment handed to `load_segment` satisfies its three assertions and stays in user space |
| ElfLoad.SegmentFits | userprog/process.c:355-356 | the arguments of a validated segment satisfy `load_segment`'s assertions |
| ElfLoad.PhdrOfsNext | userprog/process.c:298-317 | advancing `file_ofs` by `sizeof phdr` in 32-bit arithmetic gives the next header's offset |
| ElfLoad.PageImageIsSlice | userprog/process.c:472-486 | page K of a segment is page K of the file image followed by `zero_bytes` zeros |
| ElfLoad.PageImage | userprog/process.c:472-486 | the image of page K is a full page unless its `file_read` comes up short |
| ElfLoad.SegmentBytes | userprog/process.c:444-457 | byte J of a validated segment is file byte `p_offset + j` below `p_filesz`, and zero up to `p_memsz` |
| ElfLoad.PageStep | userprog/process.c:472-497 | each round gives `min (read_bytes, PGSIZE)` file bytes and the rest zeros; neither counter goes negative, and both reach 0 together after the last page |
| ElfLoad.PoolFreshInstalled | userprog/process.c:476-489 | mapping the page `palloc_get_page` handed out leaves every other free page unused |
| ElfLoad.PoolFreshRotated | userprog/process.c:483-491 | a page taken and then given back with `palloc_free_page` leaves the pool's pages unused |
| ElfLoad.MappingsKeptTrans | userprog/process.c:489 | keeping every mapping of the thread is transitive, so mappings installed earlier survive later rounds |
| ElfLoad.LoadedKept | userprog/process.c:467-499 | pages loaded earlier stay loaded while every old mapping is kept |
| ElfLoad.StepDoneKept | userprog/process.c:300-369 | a handled program header stays handled while every old mapping is kept |
| ElfLoad.HeadersDoneNext | userprog/process.c:300-369 | handling header N after the first N keeps all of them handled |
| ElfLoad.HeadersDoneKept | userprog/process.c:300-369 | handled headers stay handled while mappings are kept |
| ElfLoad.PagesFrom | userprog/process.c:467-499 | the addresses of the first N pages from UPAGE hold page K for every K < N and lie below page N |
| ElfLoad.NullIffUnmapped | userprog/process.c:765 | on a well-formed machine `pagedir_get_page` returns NULL exactly for an unmapped address |
| ElfLoad.LoadableRoom | userprog/process.c:458-501 | on a well-formed machine `load_segment`'s success condition is exactly StepRoom finding room among the free pages and mapped addresses |
| ElfLoad.SegmentRoom | userprog/process.c:355-360 | what `load_segment` reports and leaves behind is what StepRoom predicts from the room before it |
| ElfLoad.PhdrSteps | userprog/process.c:299-317 | one decision per program header, decision J being PhdrStep for the header at `e_phoff + J * sizeof phdr` in 32-bit arithmetic |
| ElfLoad.PhdrStepsSized | userprog/process.c:336-354 | every segment the loop hands to `load_segment` has non-negative read and zero sizes |
| ElfLoad.AbortFails | userprog/process.c:304-366 | a header that `load` gives up on makes the whole loop fail, whatever the headers before it do |
| ElfLoad.IgnoredSucceed | userprog/process.c:319-327 | headers that are all ignored make the loop succeed without using any room |
| ElfLoad.RunStepsShrinks | userprog/process.c:300-369 | the loop only uses up free pages and only adds mappings |
| ElfLoad.RunStepsNext | userprog/process.c:300-369 | handling the decisions from I on is handling decision I and then those from I + 1 in the room it leaves |
| ElfLoad.ProgressNext | userprog/process.c:467-499 | a round that takes a pool page, maps the unmapped page K and loads it carries the progress from K pages to K + 1 |
| ElfLoad.ProgressStuck | userprog/process.c:476-491 | a failing round for page K < N shows the segment was not loadable from the start: the pool ran out before page K, the file is short, or page K was already mapped |
| ElfLoad.ProgressDone | userprog/process.c:467-501 | after all N pages the segment was loadable from the start, and the room is the start's less N pages, with the segment's pages mapped |
| ElfLoad.Process.constructor | userprog/process.c:264-272 | the process starts from the given machine and thread |
| ElfLoad.Process.LoadPage | userprog/process.c:472-498 | one round of `load_segment` succeeds exactly when the pool had a page, the read was complete and UPAGE was unmapped. Then UPAGE is mapped with WRITABLE onto a page holding the bytes read followed by zeros, the pool lost its first page, and every other mapping is kept; the mapped addresses are the old ones and UPAGE |
| ElfLoad.Process.LoadSegmentPage | userprog/process.c:467-499 | the round for page K succeeds exactly when the pool had a page, the read was complete and the page was unmapped. It then carries the progress made since the start of the segment from K pages to K + 1 (SegmentProgress: pages 0 to K loaded, one pool page taken per page, exactly those addresses newly mapped). When it fails, the segment could not have been loaded from the start at all |
| ElfLoad.Process.LoadSegmentPages | userprog/process.c:467-499 | the page loop of `load_segment`: on success every page of the segment is loaded, the file held the whole file image, the pool lost one page per page, and the mapped addresses are the old ones plus the segment's. A failure means the segment was not loadable from the state the loop started in |
| ElfLoad.Process.LoadSegment | userprog/process.c:458-501 | `load_segment` succeeds exactly when the pool has a page for every page of the segment, the file holds the whole file image and none of the pages is mapped yet. Then every page K is mapped with WRITABLE and holds page K of the file image followed by zeros, and every earlier mapping is kept. The pool lost one page per page of the segment, and the mapped addresses are the old ones plus the segment's, which is the room StepRoom computes |
| ElfLoad.Process.SetupStack | userprog/process.c:505-526 | `setup_stack` succeeds exactly when the pool had a page and the page below PHYS_BASE was unmapped. Then a zeroed page is mapped writable there, on a page no earlier mapping used, and every earlier mapping is kept |
| ElfLoad.Process.LoadHeader | userprog/process.c:302-368 | one iteration of the program-header loop succeeds exactly when StepRoom finds room for the header in the old free-page count and mapped addresses. It fails for a header outside the file, a PT_DYNAMIC, PT_INTERP or PT_SHLIB header, or a PT_LOAD that `validate_segment` rejects. A loadable segment also needs a pool page per page, its whole file image and none of its pages mapped. On success the room left is StepRoom's, the header was ignored or its segment is in memory, and earlier mappings are kept |
| ElfLoad.Process.LoadHeaders | userprog/process.c:298-369 | the loop succeeds exactly when RunSteps succeeds: each of the `e_phnum` header decisions from `e_phoff` finds room in turn, in the room the earlier ones left. On success the room left is RunSteps', every header is handled and earlier mappings are kept |
| ElfLoad.Process.SetupProcessStack | userprog/process.c:371-383 | `setup_stack` then `setup_arguments` succeeds exactly when the pool had a page and the page below PHYS_BASE was unmapped, since `setup_arguments` always returns true. On success the stack page is mapped writable and the bytes from the returned `esp` up to PHYS_BASE are the argument image |
| ElfLoad.Process.Load | userprog/process.c:262-393 | `load` succeeds exactly when LoadSucceeds holds for the old pool size. That means the header is read and accepted, every program header finds room in turn from an empty page directory (RunSteps), and a free page and an unmapped stack address are left. On success every program header was handled (none aborted and every loadable segment is in memory), `eip` is `e_entry` and the stack holds the argument image at `esp` |
| ArgStack.StrnLen | userprog/process.c:677 | `strnlen (token, ARGLEN)` is at most 30, and below 30 it is the token's length |
| ArgStack.ArgBytesAsWritten | userprog/process.c:704-706 | the copy `write_arg_to_stack` makes is `strnlen (token, ARGLEN) + 1` bytes long |
| ArgStack.ArgBytes | userprog/process.c:704-706 | the corrected copy has the same length |
| ArgStack.ArgBytesAsWrittenUnterminated | userprog/process.c:704-706 | as written, a token longer than 30 characters is copied as 31 bytes none of which is NUL |
| ArgStack.ArgBytesTerminated | userprog/process.c:704-706 | the corrected copy is the token cut to 30 characters followed by its only NUL |
| ArgStack.ArgBytesAgreeShort | userprog/process.c:704-706 | for tokens of at most 30 characters both versions copy the token and its NUL |
| ArgStack.ArgsAreaSuffix | userprog/process.c:698-708 | the strings of later arguments lie at the top end of the strings area, above those of earlier ones |
| ArgStack.StackImage | userprog/process.c:568-605 | the initial stack is four words (return address, `argc`, `argv`, the NULL sentinel), one pointer per argument, the alignment padding and the strings, each string being the `strnlen (token, ARGLEN) + 1` bytes the source copies |
| ArgStack.StackImageHeader | userprog/process.c:612-632 | the user program's initial `esp` is word-aligned and points at a zero return address, then `argc`, then `argv` pointing at the word right above it |
| ArgStack.StackImagePointers | userprog/process.c:725-738 | `argv[i]` holds the address recorded for argument I, and `argv[argc]` is NULL |
| ArgStack.StackImageString | userprog/process.c:698-708 | at `argv[i]` lie the `strnlen (token, ARGLEN) + 1` bytes copied from argument I |
| ArgStack.StackImageStringShort | userprog/process.c:698-708 | a token of at most 30 characters lies at `argv[i]` followed by its NUL |
| ArgStack.StackImageStringLong | userprog/process.c:698-708 | a token longer than 30 characters leaves 31 of its own bytes at `argv[i]`, none of them NUL |
| ArgStack.StackPointers | userprog/process.c:639-650 | `word_alignment` pads by `esp % 4` zero bytes, and the pointer array, `argv`, `argc` and the return address end at the final `esp` |
| ArgStack.UserStack.constructor | userprog/process.c:511-517 | `setup_stack` gives a zeroed page with `esp` at PHYS_BASE |
| ArgStack.UserStack.Push | userprog/process.c:614-615 | `*esp -= n` and a copy of N bytes to the new `esp` put exactly those bytes in front of the stack and leave the rest of the page alone |
| ArgStack.UserStack.WriteArgs | userprog/process.c:693-711 | `write_arg_to_stack` pushes the strings last to first and returns the address where each one starts; each string is the `strnlen (token, ARGLEN) + 1` bytes the source copies. Every byte of the page below the new `esp` is left unchanged |
| ArgStack.UserStack.WordAlignment | userprog/process.c:639-650 | `word_alignment` lowers `esp` by `esp % 4` zero bytes, after which `esp % 4 == 0`. Every byte of the page below the new `esp` is left unchanged |
| ArgStack.UserStack.WriteAddrs | userprog/process.c:719-747 | `write_add_to_stack` pushes a NULL pointer, the argument addresses last to first, and then `argv`. Every byte of the page below the new `esp` is left unchanged |
| ArgStack.UserStack.WriteArgc | userprog/process.c:626-632 | `write_argc_to_stack` pushes `argc` as four bytes. Every byte of the page below the new `esp` is left unchanged |
| ArgStack.UserStack.WriteRetAddr | userprog/process.c:612-618 | `write_ret_add_to_stack` pushes a zero return address. Every byte of the page below the new `esp` is left unchanged |
| ArgStack.UserStack.SetupArguments | userprog/process.c:568-605 | `setup_arguments` leaves exactly StackImage in front of the old stack contents, so `esp` ends as StackImageHeader, StackImagePointers and StackImageString describe. Every byte of the page below the new `esp` is left unchanged |
| SwapSlots.SlotIndex | src/pintos/src/vm/swap.c:26 | the slot sector `i * 8` that `find_empty` returns maps back to index i by `swp / 8`, the index `swap_in` frees |
| SwapSlots.FirstFree | src/pintos/src/vm/swap.c:23-28 | the lowest index not in use: every index below it is in use |
| SwapSlots.WriteSlotAt | src/pintos/src/vm/swap.c:4-11 | `swap_d_write` puts the page's eight 512-byte sectors, in order, at SEC to SEC+7, and leaves every other sector alone |
| SwapSlots.WriteSectorsAt | src/pintos/src/vm/swap.c:6-10 | after N rounds of the write loop the first N sectors of the page are on disk |
| SwapSlots.ReadSlotPrefix | src/pintos/src/vm/swap.c:15-19 | each round of the read loop appends the next sector to the page |
| SwapSlots.ReadSlot | src/pintos/src/vm/swap.c:13-20 | `swap_d_read` of a slot gives a full page |
| SwapSlots.SlotRoundTrip | src/pintos/src/vm/swap.c:4-20 | reading a slot right after writing a page to it gives the page back |
| SwapSlots.SlotWriteDisjoint | src/pintos/src/vm/swap.c:4-11 | writing one slot leaves every other slot's contents unchanged |
| SwappingVm.FrameLessKey | src/pintos/src/vm/frame.c:13-25 | `frame_less_func` is a strict order, and two entries are the same hash key exactly when page and thread both agree |
| SwappingVm.PageLessKey | src/pintos/src/vm/page.c:89-97 | page entries are the same hash key exactly when their user pages agree |
| SwappingVm.PtNoNeverDenied | src/pintos/src/vm/page.c:21-24 | `pt_no` keeps ten bits, so the `DENY_PAGE_NUM` refusal never fires |
| SwappingVm.StackSlack | src/pintos/src/vm/page.c:53 | `esp - 32` on 32-bit pointers stays a 32-bit address and is the plain difference when esp is at least 32 |
| SwappingVm.Classify | src/pintos/src/vm/page.c:4-80 | `check_fault` is fatal exactly for an address at or above PHYS_BASE or at 0, for a present page, or, with no entry, below `PHYS_BASE - 2 MiB` or below `esp - 32` (in 32-bit arithmetic). It swaps in exactly for a swapped-out entry; an entry that is not swapped out is the NOT_REACHED case. The stack grows only with no entry, inside that window. |
| SwappingVm.PushBackKeepsFrameInv | src/pintos/src/vm/frame.c:45-50 | appending a new key to `frame_list` and adding it to `frame_hash` keeps the two holding the same entries once each |
| SwappingVm.PopFrontKeepsFrameInv | src/pintos/src/vm/frame.c:96-101 | popping the front and deleting it from the hash keeps them in step |
| SwappingVm.RemoveOwnedMembers | src/pintos/src/vm/frame.c:67-86 | an entry survives `frame_table_free (t)` exactly when it was there and is not owned by T |
| SwappingVm.RemoveOwnedAppend | src/pintos/src/vm/frame.c:67-86 | removal works piece by piece, so survivors keep their original order |
| SwappingVm.RemoveOwnedNone | src/pintos/src/vm/frame.c:67-86 | a list without T's entries is left as it is |
| SwappingVm.RemoveOwnedNoDup | src/pintos/src/vm/frame.c:67-86 | removal keeps the entries distinct |
| SwappingVm.RemoveOwnedKeepsFrameInv | src/pintos/src/vm/frame.c:67-86 | `frame_table_free` keeps list and hash in step |
| SwappingVm.FreeStep | src/pintos/src/vm/frame.c:73-85 | one step of the removal loop: the entry at the cursor is deleted when T owns it and stepped over otherwise |
| SwappingVm.RemoveOwned | src/pintos/src/vm/frame.c:67-86 | what `frame_table_free` leaves of the list is never longer than the list |
| SwappingVm.FreeSlotsUnion | src/pintos/src/vm/page.c:140-154 | freeing the slots of one set and then another frees the slots of their union |
| SwappingVm.FreeSlots | src/pintos/src/vm/page.c:143-146 | freeing a set of slot indices clears exactly those indices and keeps every other one |
| SwappingVm.SwappedSlotsStep | src/pintos/src/vm/page.c:143-146 | each swapped-out entry contributes its slot `swp / 8` to those freed on destruction |
| SwappingVm.EntriesValidUpdate | src/pintos/src/vm/page.c:124 | storing an entry under its own page keeps the page tables well formed |
| SwappingVm.SlotsReservedClaim | src/pintos/src/vm/swap.c:35-41 | giving a free slot to an entry keeps every swapped-out entry's slot in use and no two of them sharing one |
| SwappingVm.SlotsReservedRelease | src/pintos/src/vm/swap.c:58-59 | freeing a slot while its entry stops being swapped out keeps the slot bookkeeping sound |
| SwappingVm.SlotsReservedDropTable | src/pintos/src/vm/page.c:140-154 | discarding a thread's table and freeing its entries' slots keeps the slot bookkeeping sound |
| SwappingVm.SlotsReservedRemove | src/pintos/src/vm/page.c:156-169 | removing one entry and freeing its slot keeps the slot bookkeeping sound |
| SwappingVm.SwappedUnmappedSet | src/pintos/src/vm/swap.c:62 | installing a translation for a page that is not swapped out keeps every swapped-out page unmapped |
| SwappingVm.SwapInFromPool | src/pintos/src/vm/swap.c:52-62 | `swap_in` with a pool page serves the fault without touching the disk or any other entry or translation, and the page gets the slot's contents |
| SwappingVm.SwapInFromVictim | src/pintos/src/vm/swap.c:52-62 | `swap_in` after an eviction changes only the entries and translations of the faulting page and the evicted one, which differ |
| SwappingVm.SwappedBackAfterVictim | src/pintos/src/vm/swap.c:52-62 | the eviction inside `swap_in` cannot touch the slot being read, so the page gets what that slot held before the fault |
| SwappingVm.SwapInComposed | src/pintos/src/vm/swap.c:46-63 | obtaining a page and then reading the slot into it serves the fault (FaultServed), and the page holds what the slot held before the fault (SwappedBack) |
| SwappingVm.SwapOutThenIn | src/pintos/src/vm/swap.c:33-63 | swap round trip: a page `victim` swaps out and `swap_in` later brings back holds exactly its contents at eviction, resident and mapped writable |
| SwappingVm.GrowComposed | src/pintos/src/vm/page.c:64-70 | obtaining a page and mapping the new stack page to it serves the fault; the page is zeroed from the pool or keeps the evicted contents |
| SwappingVm.KeysAfterGrow | src/pintos/src/vm/page.c:64-70 | after stack growth the thread's table has exactly its old keys and the new page; an evicted frame keeps its entry |
| SwappingVm.Vm.constructor | src/pintos/src/vm/frame.c:27-33 | empty frame list and hash, no page tables, every swap slot free |
| SwappingVm.Vm.PageTableFind | src/pintos/src/vm/page.c:127-138 | `page_table_find` returns thread T's entry keyed exactly PAGE, or NULL when there is none |
| SwappingVm.Vm.FrameTableFind | src/pintos/src/vm/frame.c:52-65 | `frame_table_find` returns the entry for the pair (PAGE, T), or NULL when the hash has none |
| SwappingVm.Vm.FindEmpty | src/pintos/src/vm/swap.c:21-31 | `find_empty` marks the lowest free index i in use and returns `i * 8`, changing no other index. With every slot in use the source panics; the model returns -1 and changes nothing. |
| SwappingVm.Vm.SwapDiskWrite | src/pintos/src/vm/swap.c:4-11 | `swap_d_write` leaves the disk as WriteSlot describes |
| SwappingVm.Vm.SwapDiskRead | src/pintos/src/vm/swap.c:13-20 | `swap_d_read` gives the page the eight sectors from SEC hold |
| SwappingVm.Vm.SwapOut | src/pintos/src/vm/swap.c:33-44 | `swap_out` claims the lowest free slot and records its sector in `swp`, with `swap` true and `kpage` NULL. The slot then reads back as the page, every other slot is unchanged, and the slot bookkeeping of the layer stays sound. |
| SwappingVm.Vm.Victim | src/pintos/src/vm/frame.c:88-117 | `victim` takes the front of `frame_list` (FIFO) out of the list and the hash. The entry inherits the hardware dirty bit and the translation is cleared. The page goes to the lowest free slot and reads back from it. The freed kernel page is returned. |
| SwappingVm.Vm.MakeFrameTable | src/pintos/src/vm/frame.c:35-50 | `make_frame_table` appends (PAGE, T) to the list and adds it to the hash, keeping them in step |
| SwappingVm.Vm.FrameTableFree | src/pintos/src/vm/frame.c:67-86 | `frame_table_free (t)` leaves the list without T's entries, others in order, and the hash without them |
| SwappingVm.Vm.PageSetEntry | src/pintos/src/vm/page.c:110-125 | `page_set_entry` adds for UPAGE an entry with `swap`, `dirty` and `is_loaded` false and the given page, writability and kernel page; an existing key drops the insert; no other entry changes, and the invariant of the layer is kept |
| SwappingVm.Vm.PageTableEntryFree | src/pintos/src/vm/page.c:156-169 | `page_table_entry_free` removes the entry, then frees slot `swp / 8` if swapped, or else clears the translation if loaded; the invariant of the layer is kept |
| SwappingVm.Vm.PageDestructor | src/pintos/src/vm/page.c:140-149 | a swapped-out entry frees its slot `swp / 8`, and nothing else changes |
| SwappingVm.Vm.DestroyEntries | src/pintos/src/vm/page.c:151-154 | `hash_destroy` with `page_destructor` frees exactly the slots of the table's swapped-out entries |
| SwappingVm.Vm.PageTableFree | src/pintos/src/vm/page.c:151-154 | `page_table_free` discards T's table and frees exactly the slots its swapped-out entries used |
| SwappingVm.Vm.PallocOrVictim | src/pintos/src/vm/swap.c:52-54 | with a free page, it is the first of the pool, comes zeroed, and nothing else changes. Otherwise `victim` evicts the oldest frame V: V leaves the list and hash, loses its translation, and its entry holds the lowest free slot, which now holds V's page and is in use. No other entry and no other slot changes, and the returned page is V's, contents kept (Obtained). |
| SwappingVm.Vm.SwapIn | src/pintos/src/vm/swap.c:46-63 | after `swap_in` the entry is its old self made resident on the returned page, and that page holds what the slot held on entry, with or without an eviction. ADDR is mapped writable, its slot is free, and its frame is appended. Beyond that, the only change is the eviction that PallocOrVictim describes (FaultServed, SwappedBack). |
| SwappingVm.Vm.SwapInto | src/pintos/src/vm/swap.c:55-62 | the page is zeroed and then filled from slot `swp`; `d_use[swp / 8]` is freed, the entry updated, the frame registered and the mapping installed; the invariant of the layer is kept |
| SwappingVm.Vm.CheckFault | src/pintos/src/vm/page.c:4-80 | `check_fault` returns true exactly for a fatal fault, and then the whole state is unchanged. Otherwise the faulting page ends up resident and mapped writable, and the rest of the state changes only as FaultServed describes. A swapped page gets back what its slot held. Stack growth adds one page entry (writable, clean, not loaded) and one frame for it; its page is zeroed when the pool had one, and otherwise keeps the evicted contents. |
| SwappingVm.Vm.GrowStackPage | src/pintos/src/vm/page.c:64-70 | the stack-growth branch adds UPAGE's entry (not swapped, writable, clean, not loaded, on the page obtained) and no other key, maps UPAGE writable to it, and otherwise changes the state only as FaultServed describes |
| SwappingVm.Vm.MapNewPage | src/pintos/src/vm/page.c:68-70 | `pagedir_set_page`, `make_frame_table` and `page_set_entry` on an unused page map it writable, register its frame and add its entry, and nothing else (StackGrown) |
| SwappingVm.Vm.FillFromSlot | src/pintos/src/vm/swap.c:55-57 | after the `memset` and `swap_d_read`, the page holds exactly what the slot holds and no other page changes |
| FileBackedVm.PageHashLessKey | vm/page_table.c:40-48 | page entries are the same key exactly when their user pages agree |
| FileBackedVm.FrameHashLessKey | vm/frame_table.c:40-48 | frames are the same key exactly when their `order` agrees, whatever else differs |
| FileBackedVm.DenseOrdersInsert | vm/frame_table.c:72-73 | while orders are 0 .. size-1, `order = hash_size` is fresh and the insert succeeds |
| FileBackedVm.OrderCollisionDropsFrame | vm/frame_table.c:72-73 | after a removal `hash_size` can equal a surviving order; the insert is then dropped and the new frame is not in the table |
| FileBackedVm.FileWriteRead | vm/frame_table.c:153 | a range written by `file_write_at` reads back as written |
| FileBackedVm.FileWriteElsewhere | vm/frame_table.c:153 | `file_write_at` leaves every byte outside its range alone |
| FileBackedVm.FileWrite | vm/frame_table.c:153 | `file_write_at` never changes the length of the file |
| FileBackedVm.DirtyQueryIgnoresUserPage | vm/frame_table.c:150-151 | as written, `pagedir_is_dirty` gets the page entry's kernel address, so whether the user page was written does not affect the write-back decision |
| FileBackedVm.WriteBackReadable | vm/frame_table.c:151-154 | a dirty frame's `read_bytes` bytes can be read back from its file at `ofs` after eviction |
| FileBackedVm.WriteBack | vm/frame_table.c:150-154 | the write-back keeps the set of files and changes nothing for a clean frame |
| FileBackedVm.FilledLayout | vm/page_table.c:137-147 | a loaded frame holds the bytes read, then `zero_bytes` zeros, then what the page held before |
| FileBackedVm.EvictionShrinks | vm/frame_table.c:157-158 | clearing the translation of one frame of the table keeps every removed translation accounted for by a frame of the table |
| FileBackedVm.CalcSizeBound | vm/page_table.c:175 | `CALC_SIZE (uaddr) < MAX_STACK_SIZE` holds exactly for addresses above `PHYS_BASE - 1 MiB` and up to PHYS_BASE |
| FileBackedVm.Vm.constructor | vm/frame_table.c:23-27 | no page tables and an empty frame table |
| FileBackedVm.Vm.RetrieveEntry | vm/page_table.c:104-120 | `retrieve_entry` returns the current thread's entry keyed UPAGE, or NULL, without changing anything |
| FileBackedVm.Vm.CreatePageEntry | vm/page_table.c:72-102 | `create_page_entry` fails with NULL exactly when UPAGE has an entry, and then nothing changes. Otherwise it stores the given fields exactly, and only the current thread's table gains the entry. |
| FileBackedVm.Vm.DestroyPageEntry | vm/page_table.c:164-168 | `destroy_page_entry` deletes the current thread's entry for the page and nothing else |
| FileBackedVm.Vm.DestroyFrame | vm/frame_table.c:90-108 | `destroy_frame` deletes the entry with F's order and frees F's page only when such an entry exists and `frame_ptr` is non-null; otherwise nothing changes |
| FileBackedVm.Vm.RetrieveFrame | vm/frame_table.c:110-129 | `retrieve_frame` returns an entry of the table holding PAGE, or NULL when none holds it |
| FileBackedVm.Vm.FrameEviction | vm/frame_table.c:132-164 | on a non-empty table `frame_eviction` removes exactly one entry and writes it back to its file when the dirty query says so. Its translation is cleared and its page freed. An empty table is left alone. |
| FileBackedVm.Vm.CreateFrame | vm/frame_table.c:55-84 | `create_frame` returns a non-null frame for PAGE and the current thread. The table ends as some of its old entries (evictions having removed the others) with the new frame inserted: its `order` is the size of that table just before the insert, and a colliding order drops the insert. Memory contents are unchanged. |
| FileBackedVm.Vm.LoadPageFromFile | vm/page_table.c:122-162 | `load_page_from_file`: a NULL page succeeds and does nothing. Otherwise it succeeds exactly when the read is complete and the page was not already mapped; then the page is mapped with its writability onto a frame holding the `read_bytes` file bytes, then `zero_bytes` zeros. A failure leaves the frame out of the table, with its page back in the pool. |
| FileBackedVm.Vm.LoadIntoNewFrame | vm/page_table.c:131-155 | the non-NULL case of `load_page_from_file`: success exactly for a complete read onto an unmapped page, with the same guarantees |
| FileBackedVm.Vm.ReadIntoFrame | vm/page_table.c:135-147 | the read is complete exactly when the file holds `read_bytes` bytes at `ofs`; the frame then holds them followed by `zero_bytes` zeros |
| FileBackedVm.Vm.ExpandStack | vm/page_table.c:170-204 | `expand_stack` returns NULL and changes nothing beyond the limit or for an existing entry. Otherwise it succeeds exactly when UADDR was not already mapped: a writable STACK entry with no file is added and mapped onto the returned page. On failure the entry is removed again. Other threads' tables never change. |
| BufferCache.LookupFrom | src/pintos/src/filesys/cache.c:100-107 | the lookup loop finds the first valid block holding the sector, and -1 exactly when none does |
| BufferCache.LookupFindsHolder | src/pintos/src/filesys/cache.c:100-107 | a valid block is the one the lookup finds for its sector (valid sectors are unique) |
| BufferCache.FlushTwice | src/pintos/src/filesys/cache.c:66-70 | a second `cache_flush` changes neither the block nor the disk |
| BufferCache.FlushKeepsViews | src/pintos/src/filesys/cache.c:61-73 | `cache_flush` writes back only a loaded dirty block and clears `dirty`; what every sector reads as through the cache does not change |
| BufferCache.Flushed | src/pintos/src/filesys/cache.c:66-70 | a flushed block is not both loaded and dirty, and differs from the old block at most in `dirty` |
| BufferCache.FlushDisk | src/pintos/src/filesys/cache.c:66-69 | `disk_write` adds the block's sector to the disk exactly when the block is loaded and dirty |
| BufferCache.Loaded | src/pintos/src/filesys/cache.c:190-199 | `cache_load` reads the disk only when not loaded, and then `loaded` is true and `dirty` false |
| BufferCache.LoadKeepsViews | src/pintos/src/filesys/cache.c:190-199 | loading changes no sector's contents as seen through the cache |
| BufferCache.ReadSeesView | src/pintos/src/filesys/cache.c:201-208 | after the load, a block's data is what its sector reads as through the cache |
| BufferCache.Written | src/pintos/src/filesys/cache.c:210-225 | the written block is loaded and dirty and still holds the same sector |
| BufferCache.WriteUpdatesView | src/pintos/src/filesys/cache.c:210-225 | `cache_write` changes exactly the block's sector, whose contents become the old contents with the buffer copied in at OFFSET |
| BufferCache.Zeroed | src/pintos/src/filesys/cache.c:227-233 | `cache_fillzero` leaves all bytes zero with `loaded` and `dirty` set |
| BufferCache.FillZeroView | src/pintos/src/filesys/cache.c:227-233 | after `cache_fillzero` the sector reads as zeros and every other sector is unchanged |
| BufferCache.Evicted | src/pintos/src/filesys/cache.c:258-260 | the victim is returned with `valid`, `loaded` and `dirty` all false |
| BufferCache.EvictKeepsViews | src/pintos/src/filesys/cache.c:253-260 | evicting a flushed, idle block changes no sector's contents as seen through the cache |
| BufferCache.Claimed | src/pintos/src/filesys/cache.c:113-114 | the victim takes the requested sector and becomes valid |
| BufferCache.EvictedHoldsNothing | src/pintos/src/filesys/cache.c:109-115 | on a miss, the flushed and evicted victim does not hold the sector either |
| BufferCache.ClaimKeepsViews | src/pintos/src/filesys/cache.c:109-115 | giving an unloaded victim a sector no block holds changes no sector's contents as seen through the cache |
| BufferCache.CleanCacheIsDisk | src/pintos/src/filesys/cache.c:75-89 | once no block is loaded and dirty, the disk holds what the cache shows |
| BufferCache.Acquired | src/pintos/src/filesys/cache.c:123-148 | a READ_ONLY grant adds a reader and a READ_WRITE grant sets `writers` to 1, changing nothing else |
| BufferCache.Waiting | src/pintos/src/filesys/cache.c:123-148 | a caller that must wait is counted as a read or write waiter |
| BufferCache.Taken | src/pintos/src/filesys/cache.c:123-148 | acquiring changes only the reader, writer and waiter counters, keeping the reader/writer discipline |
| BufferCache.Released | src/pintos/src/filesys/cache.c:165-184 | `cache_release` removes a reader if there is one and clears `writers` otherwise, keeping the reader/writer discipline |
| BufferCache.ReleaseUndoesAcquire | src/pintos/src/filesys/cache.c:123-184 | releasing right after a granted acquire gives back the block as it was |
| BufferCache.WriterExcludes | src/pintos/src/filesys/cache.c:123-148 | while a writer holds a block, every other reader and writer must wait |
| BufferCache.ReadersShare | src/pintos/src/filesys/cache.c:123-148 | readers share a block, and a writer must wait for them |
| BufferCache.Scan | src/pintos/src/filesys/cache.c:241-256 | the scan finds nothing (-1) or a block that is invalid or idle |
| BufferCache.ScanStep | src/pintos/src/filesys/cache.c:241-255 | passing over a block advances `victim_idx` modulo CACHE_SIZE to the next position the scan examines |
| BufferCache.ScanFirstRound | src/pintos/src/filesys/cache.c:245-248 | in the first lap the scan takes the first invalid block it meets |
| BufferCache.ScanSecondRound | src/pintos/src/filesys/cache.c:250-255 | with every block valid, the second lap takes the first idle block it meets |
| BufferCache.ScanAllBusy | src/pintos/src/filesys/cache.c:241-256 | with every block valid and busy, the second lap finds nothing |
| BufferCache.ScanNothing | src/pintos/src/filesys/cache.c:241-256 | a scan that finds nothing met only valid blocks, and only busy ones in the second lap |
| BufferCache.VictimTakesFirstInvalid | src/pintos/src/filesys/cache.c:241-248 | the victim is the first invalid block at or after `victim_idx`, going round |
| BufferCache.VictimTakesFirstIdle | src/pintos/src/filesys/cache.c:250-255 | when all blocks are valid, the victim is the first idle block from `victim_idx`, taken in the second lap |
| BufferCache.VictimNoneMeansAllBusy | src/pintos/src/filesys/cache.c:241-256 | the scan finds nothing within two laps exactly when every block is valid and busy |
| BufferCache.Target | src/pintos/src/filesys/cache.c:100-115 | the block `cache_acquire` settles on is an index within the cache |
| BufferCache.Located | src/pintos/src/filesys/cache.c:100-121 | the block `cache_acquire` works on holds the requested sector: the block found on a hit, the flushed, evicted and claimed victim on a miss |
| BufferCache.Cache.constructor | src/pintos/src/filesys/cache.c:40-59 | `cache_init`: every block invalid and idle, `victim_idx` 0; every sector reads as the disk |
| BufferCache.Cache.Flush | src/pintos/src/filesys/cache.c:61-73 | `cache_flush` of block I as Flushed and FlushDisk describe, with contents as seen through the cache unchanged |
| BufferCache.Cache.FlushAll | src/pintos/src/filesys/cache.c:75-89 | `cache_flush_all` leaves the disk equal to what the cache showed, with no loaded dirty block left |
| BufferCache.Cache.Victim | src/pintos/src/filesys/cache.c:235-263 | `cache_victim` returns the scan's choice, stores it in `victim_idx`, flushes it if valid and clears its flags; cache contents are unchanged |
| BufferCache.Cache.FindVictim | src/pintos/src/filesys/cache.c:241-256 | the scan loop finds VictimChoice; a valid victim is idle, and the flag says to flush it |
| BufferCache.Cache.Acquire | src/pintos/src/filesys/cache.c:91-157 | `cache_acquire` settles on Target: the block holding SECTOR, or else the victim, claimed for SECTOR. It takes the lock when free, and otherwise counts the caller as waiting (`granted` false). Contents as seen through the cache do not change. |
| BufferCache.Cache.Find | src/pintos/src/filesys/cache.c:100-107 | the lookup loop returns the block holding SECTOR, or -1 exactly when none does |
| BufferCache.Cache.Miss | src/pintos/src/filesys/cache.c:109-115 | on a miss the victim is flushed, evicted and claimed for SECTOR |
| BufferCache.Cache.Locate | src/pintos/src/filesys/cache.c:100-121 | the block `cache_acquire` settles on is Target, and it ends as Located; contents are unchanged |
| BufferCache.Cache.ClaimVictim | src/pintos/src/filesys/cache.c:113-114 | the victim takes SECTOR and becomes valid; contents are unchanged |
| BufferCache.Cache.TakeLock | src/pintos/src/filesys/cache.c:123-148 | the lock is granted exactly when the caller need not wait |
| BufferCache.Cache.Release | src/pintos/src/filesys/cache.c:159-188 | `cache_release` updates the counters as Released describes; the contents are unchanged |
| BufferCache.Cache.Load | src/pintos/src/filesys/cache.c:190-199 | `cache_load` as Loaded describes; the contents are unchanged |
| BufferCache.Cache.Read | src/pintos/src/filesys/cache.c:201-208 | `cache_read` returns SIZE bytes at OFFSET of what the sector reads as through the cache |
| BufferCache.Cache.Write | src/pintos/src/filesys/cache.c:210-225 | `cache_write` copies BUF into the sector at OFFSET, as seen through the cache, and changes no other sector |
| BufferCache.Cache.PrepareWrite | src/pintos/src/filesys/cache.c:214-221 | a write of a whole sector at offset 0 marks the block loaded without reading the disk; any other write loads it first |
| BufferCache.Cache.FillZero | src/pintos/src/filesys/cache.c:227-233 | `cache_fillzero` makes the sector read as zeros and changes no other sector |

## Left out

- Locks, condition variables and interrupts are not modelled: `lock_ft`, `locker`, `gl_file_lock`, `cache_lock`, the blocks' `data_lock` and `rw_lock`, the cache's condition variables, and `thread_current`. Each operation is one sequential step. `cache_acquire` does not sleep; it returns `granted` false with the caller counted as a waiter (`cond_wait`, `cond_signal` and `cond_broadcast` are not modelled).
- The lock ownership of `create_frame`, which holds `locker` while `frame_eviction` acquires it again (vm/frame_table.c:60,138), is not modelled.
- The cache daemons `cache_flushd`, `cache_readd` and `cache_read_request` (src/pintos/src/filesys/cache.c:265-310) are background threads with timer sleeps. They are left out.
- devices/disk.h and devices/disk.c are not part of this model. Every disk is a map from sector numbers to 512-byte sectors (DISK_SECTOR_SIZE).
- The hash library, `pagedir_*`, `palloc_*`, `file_*`, `filesys_open` and `dir_open` are not part of this model. They become the functions of `Machine.Hw`, byte sequences for files, and parameters (`isDir`, `dirOpen` of FdAcquire).
- Hash iteration order is not modelled. `victim`'s FIFO order is; `frame_eviction`, `retrieve_frame` and `hash_destroy` may take any entry.
- `malloc` failure is not modelled (`make_frame_table` and `page_set_entry` assert it away).
- The failure of `pagedir_create` and of `filesys_open` in `load`, `process_activate`, `file_close` and the messages `load` prints are left out.
- The tokenising by `strtok_r` is left out: `setup_arguments` gets the list of tokens.
- The stack page is a `UserStack` value. `ElfLoad.Process.SetupProcessStack` copies it into the mapped page in one store.
- `FDSIZE` is a constructor parameter, since its header is not part of this model.
- `file_close` in `fd_release` and the closing of files in `remove_file`'s callers are not tracked.
- ElfLoad.Process.Load: requires the argument image to fit in the stack page and at most MAX_ARG arguments. The source writes past the page or past `args[MAX_ARG]` then.
- ElfLoad.Process.LoadSegment: says nothing about the pages of a failed call, which the source leaves mapped.
- ArgStack.UserStack.SetupArguments: requires the image to fit in the page and at most MAX_ARG arguments, as the C code silently assumes.
- BufferCache.Cache.Acquire: requires a block it can take (a hit or a victim). The source spins in `cache_victim` forever when every block is busy, which VictimNoneMeansAllBusy characterises.
- BufferCache.Cache.Victim: requires the scan to find a block, for the same reason.
- BufferCache.Cache.FindVictim: advances `victim_idx` in a local variable and stores it once, after the loop. The source updates the global in every round; no other code runs in between.
- BufferCache.Cache.Read: requires `offset + size <= DISK_SECTOR_SIZE`, the bounds of the `memcpy`.
- BufferCache.Cache.Write: requires `offset + size <= DISK_SECTOR_SIZE`, the bounds of the `memcpy`.
- FdList.Fds.FdAcquire: when no id was released and all FDSIZE ids are handed out, the source takes id FDSIZE and writes past `fd_list` and `empty_fd_list`, which is undefined behaviour; the model returns -1 and changes nothing instead.
- FdList.Fds.FdRelease: requires a live, handed-out slot. The source does not check; releasing a dead slot would push its id twice.
- FdTable.FileTable.AddFile: requires fewer than FD_TABLE_SIZE elements and no overflow of `fd_gl`, which the callers must ensure.
- SwappingVm.Vm.CheckFault: requires the classification not to be the `NOT_REACHED` case. When the pool is empty, it also requires `victim`'s assertions to hold.
- SwappingVm.Vm.SwapOut: requires a free slot, which `swap_out` asserts. It also requires the page to be unmapped already; `victim`, its only caller, clears the translation just before.
- SwappingVm.Vm.FindEmpty: with every slot in use the source panics (`ASSERT (1 == 0)`, src/pintos/src/vm/swap.c:29); the model returns -1 and changes nothing, and its callers never reach that case because SwapOut requires a free slot.
- SwappingVm.Vm.PageTableEntryFree: requires E to be the entry stored for its page in the current table, as the C code receives a pointer into that table.
- Machine.SetPage: does not check that UPAGE is page-aligned. `pagedir_set_page` (userprog/pagedir.c, not part of this model) asserts it and panics on an unaligned address.
- FileBackedVm.Vm.ExpandStack: when the size check passes and UADDR has no entry, requires UADDR below PHYS_BASE. `CALC_SIZE` lets UADDR == PHYS_BASE through, and `pagedir_get_page` in `setup_page` (vm/page_table.c:206-215) then panics on a kernel address. An unaligned UADDR, on which `pagedir_set_page` would panic, is mapped as given.
- Machine.Palloc: the user pool is a FIFO queue, and freed pages go to its back. palloc's bitmap hands out the lowest free page instead, so which free page a call returns is not modelled; no property here depends on it.
- FileBackedVm.Vm.CreateFrame: requires a free page or a frame to evict. Otherwise the source loops forever.
- Real.RealDiv: requires a non-zero divisor magnitude, because C division by zero is undefined behaviour.
- Machine.InstallPage: fails only when UPAGE is already mapped. The failure of `pagedir_set_page` to allocate a page table (userprog/process.c:765-766) is not modelled, so LoadPage, SetupStack, LoadIntoNewFrame and ExpandStack never fail for that reason.
- FileBackedVm.WriteBack: a dirty frame whose page has no file in the file store (a STACK page, whose `file` is NULL) is not written. The source passes that NULL to `file_write_at` (vm/frame_table.c:151-153), whose behaviour lies outside this model.
- FileBackedVm.Vm.FrameEviction: inherits WriteBack's treatment of a dirty frame without a file; the source calls `file_write_at` with a NULL file there.
- The argument strings on the stack are the bytes `write_arg_to_stack` copies as written (ArgBytesAsWritten). ArgStack.StackImage, ArgStack.UserStack.WriteArgs, ArgStack.UserStack.SetupArguments, ElfLoad.Process.SetupProcessStack and ElfLoad.Process.Load therefore leave a token longer than 30 characters without a NUL (StackImageStringLong). The corrected copy, ArgBytes, is stated beside it and agrees for shorter tokens (ArgBytesAgreeShort).

## Findings

| source | as written | input that shows it | evidently intended | confidence | as-written member | corrected member |
|---|---|---|---|---|---|---|
| src/pintos/src/lib/kernel/real.c:93 | for two negative operands `(value (lhs) < value (rhs)) ^ 1` computes `value (lhs) >= value (rhs)`, so every negative Real is less than itself | `real_less_func (real_of_int (0), real_of_int (0))` is true | for two negatives, the larger magnitude is the smaller number: `value (rhs) < value (lhs)` | not executed | Real.RealLessReflexiveOnNegatives | Real.RealLessCorrected |
| userprog/process.c:704-706 | `len = strnlen (token, ARGLEN)` and then `len + 1` bytes are copied; for a token longer than 30 characters those bytes are the first 31 characters, with no NUL | a 31-character command-line argument | the token cut to 30 characters followed by a NUL | not executed | ArgStack.ArgBytesAsWrittenUnterminated | ArgStack.ArgBytesTerminated |
