/** The first virtual-memory layer (src/pintos/src/vm: page.c, frame.c,
    swap.c): a per-thread supplemental page table, a FIFO frame table kept
    both as a list and as a hash keyed on (page, thread), the swap store,
    and the page-fault classifier that ties them together. */
module SwappingVm {
  import opened Machine
  import opened Wrappers
  import opened SwapSlots

  /** Page-table index bound above which a fault is refused (`DENY_PAGE_NUM`). */
  const DENY_PAGE_NUM: int := 1024
  /** Size of the region below PHYS_BASE where the stack may grow (`DENY_USER_MEM`). */
  const DENY_USER_MEM: int := 512 * 4096

  /** A supplemental page-table entry (`struct page_table`). */
  datatype PageEntry = PageEntry(
    swap: bool, writable: bool, page: int, kpage: int, swp: int, dirty: bool, isLoaded: bool)

  /** A frame-table entry (`struct frame_table`): the user page and the
      owning thread, which together are its key. */
  datatype FrameKey = FrameKey(page: int, tid: Tid)

  /** What `check_fault` decides to do with a fault. */
  datatype Decision = Fatal | FromSwap | GrowStack | Unreachable

  /** `frame_less_func`: by page, then by thread id. */
  function FrameLess(a: FrameKey, b: FrameKey): (r: bool)
    ensures r ==> a != b
  {
    if a.page == b.page then a.tid < b.tid else a.page < b.page
  }

  /** Two frame entries are the same hash element exactly when they have
      the same page and the same thread: the ordering is total on pairs. */
  lemma FrameLessKey(a: FrameKey, b: FrameKey)
    ensures !FrameLess(a, b) && !FrameLess(b, a) <==> a == b
    ensures FrameLess(a, b) ==> !FrameLess(b, a)
  {
  }

  /** `page_less_func`: entries are ordered by their user page alone. */
  function PageLess(a: PageEntry, b: PageEntry): (r: bool)
    ensures r ==> a.page != b.page
  {
    a.page < b.page
  }

  lemma PageLessKey(a: PageEntry, b: PageEntry)
    ensures !PageLess(a, b) && !PageLess(b, a) <==> a.page == b.page
  {
  }

  /** Index into the page table of a page directory: bits 12..21 of the
      address.  threads/pte.h, where `pt_no` is defined, is not part of
      this model; this is the definition assumed for it. */
  function PtNo(a: int): (r: int)
    ensures 0 <= r < 1024
  {
    (a / PGSIZE) % 1024
  }

  /** Since `pt_no` keeps only ten bits, the `pt_no (fault_pg) >= DENY_PAGE_NUM`
      refusal never applies. */
  lemma PtNoNeverDenied(a: int)
    ensures !(PtNo(a) >= DENY_PAGE_NUM)
  {
  }

  /** `f->esp - 32` on 32-bit pointers. */
  function StackSlack(esp: int): (r: int)
    requires 0 <= esp < ADDR_LIMIT
    ensures 0 <= r < ADDR_LIMIT
    ensures esp >= 32 ==> r == esp - 32
  {
    (esp - 32) % ADDR_LIMIT
  }

  /** The decision `check_fault` takes for a fault at ADDR, given whether the
      page was not present, the current thread's entry for the page (if
      any) and the saved stack pointer. */
  function Classify(addr: int, notPresent: bool, entry: Option<PageEntry>, esp: int): (d: Decision)
    requires 0 <= addr < ADDR_LIMIT && 0 <= esp < ADDR_LIMIT
    ensures d == Fatal <==>
      || addr >= PHYS_BASE || addr == 0 || !notPresent
      || (entry.None? && (addr < PHYS_BASE - DENY_USER_MEM || addr < StackSlack(esp)))
    ensures d == FromSwap <==> 0 < addr < PHYS_BASE && notPresent && entry.Some? && entry.value.swap
    ensures d == Unreachable <==> 0 < addr < PHYS_BASE && notPresent && entry.Some? && !entry.value.swap
    ensures d == GrowStack ==> entry.None? && PHYS_BASE - DENY_USER_MEM <= addr < PHYS_BASE && addr >= StackSlack(esp)
  {
    if addr >= PHYS_BASE || addr == 0 then Fatal
    else if !notPresent then Fatal
    else if PtNo(PgRoundDown(addr)) >= DENY_PAGE_NUM then Fatal
    else if entry.Some? then (if entry.value.swap then FromSwap else Unreachable)
    else if addr < PHYS_BASE - DENY_USER_MEM then Fatal
    else if addr < StackSlack(esp) then Fatal
    else GrowStack
  }

  /** Every entry is stored under its own user page, and a swapped-out
      entry names the first sector of a swap slot. */
  ghost predicate EntriesValid(pts: map<Tid, map<int, PageEntry>>)
  {
    forall t, p :: t in pts && p in pts[t] ==>
      pts[t][p].page == p && (pts[t][p].swap ==> IsSlotSector(pts[t][p].swp))
  }

  /** Storing an entry under its own page, with a slot sector if it is
      swapped out, keeps the tables well formed. */
  lemma EntriesValidUpdate(pts: map<Tid, map<int, PageEntry>>, t: Tid, e: PageEntry)
    requires EntriesValid(pts) && (e.swap ==> IsSlotSector(e.swp))
    ensures EntriesValid(pts[t := (if t in pts then pts[t] else map[])[e.page := e]])
  {
  }

  /** Two stores to the same entry of the same table leave the second. */
  lemma UpdateTwice(pts: map<Tid, map<int, PageEntry>>, t: Tid, page: int, a: PageEntry, b: PageEntry)
    ensures var once := pts[t := (if t in pts then pts[t] else map[])[page := a]];
      once[t := once[t][page := b]] == pts[t := (if t in pts then pts[t] else map[])[page := b]]
  {
    var tbl: map<int, PageEntry> := if t in pts then pts[t] else map[];
    assert tbl[page := a][page := b] == tbl[page := b];
  }

  lemma EntriesValidRemove(pts: map<Tid, map<int, PageEntry>>, t: Tid)
    requires EntriesValid(pts)
    ensures EntriesValid(pts - {t})
  {
  }

  /** The in-use table with every slot in S marked free. */
  function FreeSlots(used: seq<bool>, s: set<int>): (r: seq<bool>)
    ensures |r| == |used|
    ensures forall i :: 0 <= i < |used| ==> r[i] == (used[i] && i !in s)
  {
    seq(|used|, i requires 0 <= i < |used| => used[i] && i !in s)
  }

  lemma FreeSlotsStep(used: seq<bool>, s: set<int>, x: int)
    requires 0 <= x < |used|
    ensures FreeSlots(used, s)[x := false] == FreeSlots(used, s + {x})
  {
  }

  lemma FreeSlotsNone(used: seq<bool>)
    ensures FreeSlots(used, {}) == used
  {
  }

  lemma FreeSlotsUnion(used: seq<bool>, s1: set<int>, s2: set<int>)
    ensures FreeSlots(FreeSlots(used, s1), s2) == FreeSlots(used, s1 + s2)
  {
  }

  /** Some key of a non-empty table, as a walk over its buckets would
      reach first. */
  method PickKey(m: map<int, PageEntry>) returns (p: int)
    requires m.Keys != {}
    ensures p in m
  {
    if forall q :: q !in m.Keys {
      assert false;
    }
    var q :| q in m.Keys;
    p := q;
  }

  predicate NoDup<T(==)>(s: seq<T>)
  {
    forall i, j :: 0 <= i < j < |s| ==> s[i] != s[j]
  }

  /** `frame_list` and `frame_hash` hold the same entries, once each. */
  ghost predicate FrameInv(list: seq<FrameKey>, hash: set<FrameKey>)
  {
    NoDup(list) && (set k | k in list) == hash
  }

  /** `frame_table_insert` of a new key keeps the list and the hash in step. */
  lemma PushBackKeepsFrameInv(list: seq<FrameKey>, hash: set<FrameKey>, k: FrameKey)
    requires FrameInv(list, hash) && k !in hash
    ensures FrameInv(list + [k], hash + {k})
  {
    var l := list + [k];
    assert forall x :: x in l <==> x in list || x == k;
    forall i, j | 0 <= i < j < |l|
      ensures l[i] != l[j]
    {
      if j == |list| {
        assert l[i] in list;
      }
    }
  }

  /** `victim`'s pop of the front of the list and delete from the hash keep
      the two in step. */
  lemma PopFrontKeepsFrameInv(list: seq<FrameKey>, hash: set<FrameKey>)
    requires FrameInv(list, hash) && list != []
    ensures FrameInv(list[1..], hash - {list[0]})
  {
    var l := list[1..];
    forall x | x in l
      ensures x != list[0]
    {
      var j :| 0 <= j < |l| && l[j] == x;
      assert list[j + 1] == x;
    }
    assert forall x :: x in list <==> x == list[0] || x in l;
  }

  /** The list with every entry owned by thread T taken out, the others in
      their original order. */
  function RemoveOwned(s: seq<FrameKey>, t: Tid): (r: seq<FrameKey>)
    ensures |r| <= |s|
  {
    if s == [] then []
    else RemoveOwned(s[..|s| - 1], t) + (if s[|s| - 1].tid == t then [] else [s[|s| - 1]])
  }

  /** The entries of S owned by T. */
  ghost function Owned(s: seq<FrameKey>, t: Tid): set<FrameKey>
  {
    set k | k in s && k.tid == t
  }

  lemma RemoveOwnedSnoc(s: seq<FrameKey>, x: FrameKey, t: Tid)
    ensures RemoveOwned(s + [x], t) == RemoveOwned(s, t) + (if x.tid == t then [] else [x])
    ensures Owned(s + [x], t) == Owned(s, t) + (if x.tid == t then {x} else {})
  {
    assert (s + [x])[..|s|] == s;
    assert forall k :: k in s + [x] <==> k in s || k == x;
  }

  /** Taking out the element at the seam of R + REST leaves R + REST[1..];
      stepping over it leaves (R + [REST[0]]) + REST[1..]. */
  lemma Splice(r: seq<FrameKey>, rest: seq<FrameKey>)
    requires rest != []
    ensures (r + rest)[|r|] == rest[0]
    ensures (r + rest)[..|r|] + (r + rest)[|r| + 1..] == r + rest[1..]
    ensures r + rest == (r + [rest[0]]) + rest[1..]
  {
    assert (r + rest)[..|r|] == r;
    assert (r + rest)[|r| + 1..] == rest[1..];
  }

  /** One step of `frame_table_free` over LIST == RemoveOwned(DONE) + REST
      at index I, the seam: the element there is REST[0]; deleting it (when
      T owns it) or stepping over it (when not) gives the same shape with
      REST[0] moved to DONE. */
  lemma FreeStep(done: seq<FrameKey>, rest: seq<FrameKey>, list: seq<FrameKey>, i: int, t: Tid)
    requires rest != [] && list == RemoveOwned(done, t) + rest && i == |RemoveOwned(done, t)|
    ensures 0 <= i < |list| && list[i] == rest[0]
    ensures done + rest == (done + [rest[0]]) + rest[1..]
    ensures Owned(done + [rest[0]], t) == Owned(done, t) + (if rest[0].tid == t then {rest[0]} else {})
    ensures rest[0].tid == t ==>
      list[..i] + list[i + 1..] == RemoveOwned(done + [rest[0]], t) + rest[1..] &&
      i == |RemoveOwned(done + [rest[0]], t)|
    ensures rest[0].tid != t ==>
      list == RemoveOwned(done + [rest[0]], t) + rest[1..] &&
      i + 1 == |RemoveOwned(done + [rest[0]], t)|
  {
    Splice(RemoveOwned(done, t), rest);
    Splice(done, rest);
    RemoveOwnedSnoc(done, rest[0], t);
  }

  /** An entry survives `frame_table_free (t)` exactly when it was there and
      is not owned by T. */
  lemma {:induction false} RemoveOwnedMembers(s: seq<FrameKey>, t: Tid, x: FrameKey)
    ensures x in RemoveOwned(s, t) <==> x in s && x.tid != t
    decreases |s|
  {
    if s != [] {
      var init := s[..|s| - 1];
      RemoveOwnedMembers(init, t, x);
      assert s == init + [s[|s| - 1]];
    }
  }

  /** Removal works piece by piece, so the survivors keep their relative
      order. */
  lemma {:induction false} RemoveOwnedAppend(s1: seq<FrameKey>, s2: seq<FrameKey>, t: Tid)
    ensures RemoveOwned(s1 + s2, t) == RemoveOwned(s1, t) + RemoveOwned(s2, t)
    decreases |s2|
  {
    if s2 == [] {
      assert s1 + s2 == s1;
    } else {
      var init := s2[..|s2| - 1];
      var last := s2[|s2| - 1];
      assert (s1 + s2)[..|s1 + s2| - 1] == s1 + init;
      RemoveOwnedAppend(s1, init, t);
    }
  }

  /** A list with no entry of T is left as it is. */
  lemma {:induction false} RemoveOwnedNone(s: seq<FrameKey>, t: Tid)
    requires forall i :: 0 <= i < |s| ==> s[i].tid != t
    ensures RemoveOwned(s, t) == s
    decreases |s|
  {
    if s != [] {
      var init := s[..|s| - 1];
      RemoveOwnedNone(init, t);
      assert s == init + [s[|s| - 1]];
    }
  }

  /** Removal keeps the entries distinct. */
  lemma {:induction false} RemoveOwnedNoDup(s: seq<FrameKey>, t: Tid)
    requires NoDup(s)
    ensures NoDup(RemoveOwned(s, t))
    decreases |s|
  {
    if s != [] {
      var init := s[..|s| - 1];
      var last := s[|s| - 1];
      assert NoDup(init);
      RemoveOwnedNoDup(init, t);
      if last.tid != t {
        var r := RemoveOwned(init, t);
        var l := r + [last];
        forall i, j | 0 <= i < j < |l|
          ensures l[i] != l[j]
        {
          if j == |r| {
            RemoveOwnedMembers(init, t, l[i]);
            var k :| 0 <= k < |init| && init[k] == l[i];
            assert s[k] == l[i] && s[|s| - 1] == last;
          }
        }
      }
    }
  }

  /** `frame_table_free (t)` keeps the list and the hash in step. */
  lemma RemoveOwnedKeepsFrameInv(list: seq<FrameKey>, hash: set<FrameKey>, t: Tid)
    requires FrameInv(list, hash)
    ensures FrameInv(RemoveOwned(list, t), hash - Owned(list, t))
  {
    RemoveOwnedNoDup(list, t);
    forall x
      ensures x in RemoveOwned(list, t) <==> x in hash - Owned(list, t)
    {
      RemoveOwnedMembers(list, t, x);
    }
  }

  /** The swap slots (`d_use` indices) of the swapped-out entries of a page
      table. */
  ghost function SwappedSlots(tbl: map<int, PageEntry>): set<int>
  {
    set p | p in tbl && tbl[p].swap :: tbl[p].swp / SECTORS_PER_PAGE
  }

  lemma SwappedSlotsStep(tbl: map<int, PageEntry>, p: int, e: PageEntry)
    requires p !in tbl
    ensures SwappedSlots(tbl[p := e])
         == SwappedSlots(tbl) + (if e.swap then {e.swp / SECTORS_PER_PAGE} else {})
  {
    var a := tbl[p := e];
    forall i
      ensures i in SwappedSlots(a) <==>
        i in SwappedSlots(tbl) || (e.swap && i == e.swp / SECTORS_PER_PAGE)
    {
      if i in SwappedSlots(a) {
        var q :| q in a && a[q].swap && a[q].swp / SECTORS_PER_PAGE == i;
        if q != p {
          assert q in tbl && tbl[q] == a[q];
        }
      }
      if i in SwappedSlots(tbl) {
        var q :| q in tbl && tbl[q].swap && tbl[q].swp / SECTORS_PER_PAGE == i;
        assert q in a && a[q] == tbl[q];
      }
      if e.swap && i == e.swp / SECTORS_PER_PAGE {
        assert p in a;
      }
    }
  }

  /** The page table of thread T in tables PTS. */
  function TableOf(pts: map<Tid, map<int, PageEntry>>, t: Tid): map<int, PageEntry>
  {
    if t in pts then pts[t] else map[]
  }

  /** The entry of page P in thread T's table, if it has one. */
  function EntryOf(pts: map<Tid, map<int, PageEntry>>, t: Tid, p: int): Option<PageEntry>
  {
    if t in pts && p in pts[t] then Some(pts[t][p]) else None
  }

  /** The translation of user page U in thread T's page directory, if any. */
  function MappingOf(hw: Hw, t: Tid, u: int): Option<Mapping>
  {
    if u in Dir(hw, t) then Some(Dir(hw, t)[u]) else None
  }

  /** Page tables A and B hold the same entries, present or absent, for
      every (page, thread) outside X. */
  ghost predicate EntriesAgreeExcept(a: map<Tid, map<int, PageEntry>>, b: map<Tid, map<int, PageEntry>>, x: set<FrameKey>)
  {
    forall t, p :: FrameKey(p, t) !in x ==> EntryOf(a, t, p) == EntryOf(b, t, p)
  }

  /** Machines A and B have the same translations for every (page, thread)
      outside X. */
  ghost predicate MappingsAgreeExcept(a: Hw, b: Hw, x: set<FrameKey>)
  {
    forall t, u :: FrameKey(u, t) !in x ==> MappingOf(a, t, u) == MappingOf(b, t, u)
  }

  /** The swap slot (`d_use` index) held by the entry of page P of thread
      T, when that entry exists and is swapped out. */
  function SlotHeld(pts: map<Tid, map<int, PageEntry>>, t: Tid, p: int): Option<int>
  {
    if t in pts && p in pts[t] && pts[t][p].swap then Some(pts[t][p].swp / SECTORS_PER_PAGE) else None
  }

  /** Storing an entry for (P, T) changes no other entry. */
  lemma EntriesAgreeStore(pts: map<Tid, map<int, PageEntry>>, t: Tid, p: int, e: PageEntry)
    ensures EntriesAgreeExcept(pts, pts[t := (if t in pts then pts[t] else map[])[p := e]], {FrameKey(p, t)})
  {
  }

  lemma EntriesAgreeTrans(a: map<Tid, map<int, PageEntry>>, b: map<Tid, map<int, PageEntry>>,
                          c: map<Tid, map<int, PageEntry>>, x: set<FrameKey>, y: set<FrameKey>)
    requires EntriesAgreeExcept(a, b, x) && EntriesAgreeExcept(b, c, y)
    ensures EntriesAgreeExcept(a, c, x + y)
  {
    forall t, p | FrameKey(p, t) !in x + y
      ensures EntryOf(a, t, p) == EntryOf(c, t, p)
    {
      assert EntryOf(a, t, p) == EntryOf(b, t, p);
    }
  }

  /** Installing or clearing the translation of (U, T) changes no other
      translation. */
  lemma MappingsAgreeSet(hw: Hw, t: Tid, u: int, kpage: int, writable: bool)
    requires IsUserVaddr(u)
    ensures MappingsAgreeExcept(hw, SetPage(hw, t, u, kpage, writable), {FrameKey(u, t)})
  {
  }

  lemma MappingsAgreeClear(hw: Hw, t: Tid, u: int)
    ensures MappingsAgreeExcept(hw, ClearPage(hw, t, u), {FrameKey(u, t)})
  {
  }

  lemma MappingsAgreeTrans(a: Hw, b: Hw, c: Hw, x: set<FrameKey>, y: set<FrameKey>)
    requires MappingsAgreeExcept(a, b, x) && MappingsAgreeExcept(b, c, y)
    ensures MappingsAgreeExcept(a, c, x + y)
  {
    forall t, u | FrameKey(u, t) !in x + y
      ensures MappingOf(a, t, u) == MappingOf(c, t, u)
    {
      assert MappingOf(a, t, u) == MappingOf(b, t, u);
    }
  }

  /** `d_use` bookkeeping: the slot of every swapped-out entry is marked in
      use, and no two swapped-out entries share a slot, since `find_empty`
      hands a slot to one page at a time and only freeing the entry gives it
      back. */
  ghost predicate SlotsReserved(pts: map<Tid, map<int, PageEntry>>, used: seq<bool>)
  {
    && (forall t, p :: SlotHeld(pts, t, p).Some? ==>
          0 <= SlotHeld(pts, t, p).value < |used| && used[SlotHeld(pts, t, p).value])
    && (forall t1, p1, t2, p2 ::
          SlotHeld(pts, t1, p1).Some? && SlotHeld(pts, t2, p2).Some? && (t1 != t2 || p1 != p2)
          ==> SlotHeld(pts, t1, p1) != SlotHeld(pts, t2, p2))
  }

  /** A swapped-out page has no translation: `victim` clears it before
      `swap_out`, and only `swap_in`, which marks the entry resident,
      installs one again. */
  ghost predicate SwappedUnmapped(pts: map<Tid, map<int, PageEntry>>, hw: Hw)
  {
    forall t, p {:trigger SlotHeld(pts, t, p)} :: SlotHeld(pts, t, p).Some? ==> p !in Dir(hw, t)
  }

  /** `swap_out` claims a free slot I for the entry (T, P): every slot
      stays reserved, since no swapped-out entry held I. */
  lemma SlotsReservedClaim(pts: map<Tid, map<int, PageEntry>>, used: seq<bool>, t: Tid, p: int, e: PageEntry, i: int)
    requires SlotsReserved(pts, used) && 0 <= i < |used| && !used[i]
    requires e.swap && e.swp / SECTORS_PER_PAGE == i
    ensures SlotsReserved(pts[t := (if t in pts then pts[t] else map[])[p := e]], used[i := true])
  {
    var b: map<Tid, map<int, PageEntry>> := pts[t := (if t in pts then pts[t] else map[])[p := e]];
    forall t1, p1 | t1 != t || p1 != p
      ensures SlotHeld(b, t1, p1) == SlotHeld(pts, t1, p1)
    {
    }
    assert SlotHeld(b, t, p) == Some(i);
  }

  /** Marking the swapped-out entry (T, P) resident and freeing its slot
      keeps every other slot reserved: no other entry held that slot. */
  lemma SlotsReservedRelease(pts: map<Tid, map<int, PageEntry>>, used: seq<bool>, t: Tid, p: int, e: PageEntry)
    requires SlotsReserved(pts, used) && SlotHeld(pts, t, p).Some? && !e.swap
    ensures SlotsReserved(pts[t := pts[t][p := e]], used[SlotHeld(pts, t, p).value := false])
  {
    var b: map<Tid, map<int, PageEntry>> := pts[t := pts[t][p := e]];
    forall t1, p1
      ensures SlotHeld(b, t1, p1) == if t1 == t && p1 == p then None else SlotHeld(pts, t1, p1)
    {
    }
  }

  /** Tables B whose swapped-out entries are swapped-out entries of A, on
      the same slots, keep A's reservations. */
  lemma SlotsReservedSub(a: map<Tid, map<int, PageEntry>>, b: map<Tid, map<int, PageEntry>>, used: seq<bool>)
    requires SlotsReserved(a, used)
    requires forall t, p :: SlotHeld(b, t, p).Some? ==> SlotHeld(b, t, p) == SlotHeld(a, t, p)
    ensures SlotsReserved(b, used)
  {
  }

  /** Dropping thread T's table and freeing every slot its entries held
      keeps the other threads' slots reserved. */
  lemma SlotsReservedDropTable(pts: map<Tid, map<int, PageEntry>>, used: seq<bool>, t: Tid)
    requires SlotsReserved(pts, used)
    ensures SlotsReserved(pts - {t}, FreeSlots(used, SwappedSlots(if t in pts then pts[t] else map[])))
  {
    var tbl: map<int, PageEntry> := if t in pts then pts[t] else map[];
    var b: map<Tid, map<int, PageEntry>> := pts - {t};
    forall t1, p1 | SlotHeld(b, t1, p1).Some?
      ensures SlotHeld(b, t1, p1) == SlotHeld(pts, t1, p1)
      ensures SlotHeld(b, t1, p1).value !in SwappedSlots(tbl)
    {
      forall q | q in tbl && tbl[q].swap
        ensures tbl[q].swp / SECTORS_PER_PAGE != SlotHeld(pts, t1, p1).value
      {
        assert SlotHeld(pts, t, q) == Some(tbl[q].swp / SECTORS_PER_PAGE);
      }
    }
  }

  /** Removing the entry (T, P), and freeing its slot when it is swapped
      out, keeps every other slot reserved. */
  lemma SlotsReservedRemove(pts: map<Tid, map<int, PageEntry>>, used: seq<bool>, t: Tid, p: int)
    requires SlotsReserved(pts, used) && t in pts && p in pts[t]
    ensures SlotsReserved(pts[t := pts[t] - {p}],
      if SlotHeld(pts, t, p).Some? then used[SlotHeld(pts, t, p).value := false] else used)
  {
    var b: map<Tid, map<int, PageEntry>> := pts[t := pts[t] - {p}];
    forall t1, p1
      ensures SlotHeld(b, t1, p1) == if t1 == t && p1 == p then None else SlotHeld(pts, t1, p1)
    {
    }
  }

  /** A translation removed cannot break `SwappedUnmapped`. */
  lemma SwappedUnmappedClear(pts: map<Tid, map<int, PageEntry>>, hw: Hw, t: Tid, u: int)
    requires SwappedUnmapped(pts, hw)
    ensures SwappedUnmapped(pts, ClearPage(hw, t, u))
  {
  }

  /** A translation installed for a page that is not swapped out keeps
      `SwappedUnmapped`. */
  lemma SwappedUnmappedSet(pts: map<Tid, map<int, PageEntry>>, hw: Hw, t: Tid, u: int, kpage: int, writable: bool)
    requires SwappedUnmapped(pts, hw) && IsUserVaddr(u) && SlotHeld(pts, t, u).None?
    ensures SwappedUnmapped(pts, SetPage(hw, t, u, kpage, writable))
  {
  }

  /** An entry stored for an unmapped page, or one that is not swapped out,
      keeps `SwappedUnmapped`. */
  lemma SwappedUnmappedStore(pts: map<Tid, map<int, PageEntry>>, hw: Hw, t: Tid, p: int, e: PageEntry)
    requires SwappedUnmapped(pts, hw) && (e.swap ==> p !in Dir(hw, t))
    ensures SwappedUnmapped(pts[t := (if t in pts then pts[t] else map[])[p := e]], hw)
  {
    var b: map<Tid, map<int, PageEntry>> := pts[t := (if t in pts then pts[t] else map[])[p := e]];
    forall t1, p1 | t1 != t || p1 != p
      ensures SlotHeld(b, t1, p1) == SlotHeld(pts, t1, p1)
    {
    }
  }

  /** Tables B whose swapped-out pages are swapped out in A keep
      `SwappedUnmapped`. */
  lemma SwappedUnmappedSub(a: map<Tid, map<int, PageEntry>>, b: map<Tid, map<int, PageEntry>>, hw: Hw)
    requires SwappedUnmapped(a, hw)
    requires forall t, p :: SlotHeld(b, t, p).Some? ==> SlotHeld(a, t, p).Some?
    ensures SwappedUnmapped(b, hw)
  {
  }

  /** A snapshot of the whole layer: `d_use`, the swap disk, `frame_list`,
      `frame_hash`, every page table and the machine. */
  datatype VmState = VmState(
    used: seq<bool>, disk: Disk, frameList: seq<FrameKey>, frameHash: set<FrameKey>,
    pageTables: map<Tid, map<int, PageEntry>>, hw: Hw)

  /** The invariant of the layer, on a snapshot. */
  ghost predicate StateInv(s: VmState)
  {
    && |s.used| == MAXDD
    && DiskValid(s.disk)
    && HwValid(s.hw)
    && EntriesValid(s.pageTables)
    && SlotsReserved(s.pageTables, s.used)
    && SwappedUnmapped(s.pageTables, s.hw)
  }

  /** `d_use` once a page has been obtained for a fault: unchanged when the
      pool had a page, otherwise with the slot `victim` claimed marked. */
  function UsedAfterObtain(s: VmState): seq<bool>
  {
    if s.hw.pool == [] && FirstFree(s.used) < |s.used| then s.used[FirstFree(s.used) := true] else s.used
  }

  /** What `palloc_get_page (PAL_USER | PAL_ZERO)`, falling back on
      `victim`, did to state S, giving R and the page KPAGE. With a free
      page: it is the first of the pool, comes cleared, and nothing else
      changes. Without one: the oldest frame V leaves the frame list and
      hash, its page goes to the lowest free slot I and loses its
      translation, its entry records I, no other entry changes, every other
      slot keeps its contents, and KPAGE is V's old page, contents kept. */
  ghost predicate Obtained(s: VmState, r: VmState, kpage: int)
  {
    if s.hw.pool != [] then
      && kpage == s.hw.pool[0]
      && r == s.(hw := s.hw.(pool := s.hw.pool[1..], memory := s.hw.memory[kpage := Zeros(PGSIZE)]))
    else
      && s.frameList != [] && |s.used| == MAXDD && FirstFree(s.used) < MAXDD
      && DiskValid(s.disk) && DiskValid(r.disk)
      && (var v := s.frameList[0]; var i := FirstFree(s.used);
          && kpage == GetPage(s.hw, v.tid, v.page) && kpage in s.hw.memory
          && r.hw == ClearPage(s.hw, v.tid, v.page)
          && r.used == s.used[i := true]
          && EntriesAgreeExcept(s.pageTables, r.pageTables, {v})
          && SlotHeld(r.pageTables, v.tid, v.page) == Some(i)
          && ReadSlot(r.disk, i * SECTORS_PER_PAGE) == s.hw.memory[kpage]
          && (forall sec :: IsSlotSector(sec) && sec != i * SECTORS_PER_PAGE ==>
                ReadSlot(r.disk, sec) == ReadSlot(s.disk, sec))
          && r.frameList == s.frameList[1..] && r.frameHash == s.frameHash - {v})
  }

  /** What serving a fault on page UPAGE of thread CUR did to the rest of
      the state S, giving R. With a free page: no other entry and no other
      translation changed, the disk is untouched, and the frame of UPAGE was
      appended. Without one: the oldest frame V, which is not UPAGE's, was
      evicted to the lowest free slot I (its entry records I, its
      translation is gone, the slot holds its page, every other slot keeps
      its contents), no entry or translation other than UPAGE's and V's
      changed, and V's frame was replaced by UPAGE's at the back. */
  ghost predicate FaultServed(s: VmState, r: VmState, cur: Tid, upage: int)
  {
    var k := FrameKey(upage, cur);
    if s.hw.pool != [] then
      && r.hw.pool == s.hw.pool[1..]
      && EntriesAgreeExcept(s.pageTables, r.pageTables, {k})
      && MappingsAgreeExcept(s.hw, r.hw, {k})
      && r.disk == s.disk
      && r.frameList == s.frameList + [k]
      && r.frameHash == s.frameHash + {k}
    else
      && s.frameList != [] && FirstFree(s.used) < MAXDD
      && DiskValid(s.disk) && DiskValid(r.disk)
      && (var v := s.frameList[0]; var i := FirstFree(s.used);
          && v != k
          && GetPage(s.hw, v.tid, v.page) in s.hw.memory
          && r.hw.pool == s.hw.pool
          && EntriesAgreeExcept(s.pageTables, r.pageTables, {k, v})
          && MappingsAgreeExcept(s.hw, r.hw, {k, v})
          && SlotHeld(r.pageTables, v.tid, v.page) == Some(i)
          && v.page !in Dir(r.hw, v.tid)
          && ReadSlot(r.disk, i * SECTORS_PER_PAGE) == s.hw.memory[GetPage(s.hw, v.tid, v.page)]
          && (forall sec :: IsSlotSector(sec) && sec != i * SECTORS_PER_PAGE ==>
                ReadSlot(r.disk, sec) == ReadSlot(s.disk, sec))
          && r.frameList == s.frameList[1..] + [k]
          && r.frameHash == s.frameHash - {v} + {k})
  }

  /** The rest of `swap_in` once it has the page KPAGE, on snapshots: S2 is
      S1 with ADDR's slot read into KPAGE, the slot freed, the entry marked
      resident on KPAGE, a frame registered for ADDR and ADDR mapped to
      KPAGE writable. */
  ghost predicate SwappedInto(s1: VmState, s2: VmState, cur: Tid, addr: int, kpage: int)
  {
    && IsUserVaddr(addr) && DiskValid(s1.disk) && |s1.used| == MAXDD
    && cur in s1.pageTables && addr in s1.pageTables[cur]
    && (var e := s1.pageTables[cur][addr];
        && IsSlotSector(e.swp)
        && s2.pageTables == s1.pageTables[cur := s1.pageTables[cur][addr := e.(swap := false, kpage := kpage)]]
        && s2.hw == SetPage(s1.hw.(memory := s1.hw.memory[kpage := ReadSlot(s1.disk, e.swp)]), cur, addr, kpage, true)
        && s2.frameList == s1.frameList + [FrameKey(addr, cur)]
        && s2.frameHash == s1.frameHash + {FrameKey(addr, cur)}
        && s2.disk == s1.disk
        && s2.used == s1.used[e.swp / SECTORS_PER_PAGE := false])
  }

  /** What `swap_in` promises about the faulting page itself: its entry in
      S2 is its entry in S0 made resident on KPAGE, and KPAGE holds what
      its slot held in S0. */
  ghost predicate SwappedBack(s0: VmState, s2: VmState, cur: Tid, addr: int, kpage: int)
  {
    && DiskValid(s0.disk) && |s0.used| == MAXDD
    && cur in s0.pageTables && addr in s0.pageTables[cur]
    && (var e := s0.pageTables[cur][addr];
        && IsSlotSector(e.swp)
        && cur in s2.pageTables && addr in s2.pageTables[cur]
        && s2.pageTables[cur][addr] == e.(swap := false, kpage := kpage)
        && kpage in s2.hw.memory && s2.hw.memory[kpage] == ReadSlot(s0.disk, e.swp)
        && s2.used == UsedAfterObtain(s0)[e.swp / SECTORS_PER_PAGE := false])
  }

  /** Installing the translation of (U, T) on top of a machine H1 that
      agrees with H0 outside X gives one that agrees with H0 outside X and
      (U, T); the page contents play no part. */
  lemma MappingsAgreeThenSet(h0: Hw, h1: Hw, x: set<FrameKey>, t: Tid, u: int, kpage: int, m: map<int, seq<Byte>>)
    requires IsUserVaddr(u) && MappingsAgreeExcept(h0, h1, x)
    ensures MappingsAgreeExcept(h0, SetPage(h1.(memory := m), t, u, kpage, true), x + {FrameKey(u, t)})
  {
    MappingsAgreeSet(h1.(memory := m), t, u, kpage, true);
    assert MappingsAgreeExcept(h1, h1.(memory := m), {});
    MappingsAgreeTrans(h1, h1.(memory := m), SetPage(h1.(memory := m), t, u, kpage, true), {}, {FrameKey(u, t)});
    MappingsAgreeTrans(h0, h1, SetPage(h1.(memory := m), t, u, kpage, true), x, {} + {FrameKey(u, t)});
    assert x + ({} + {FrameKey(u, t)}) == x + {FrameKey(u, t)};
  }

  /** Storing the entry of (U, T) on top of tables P1 that agree with P0
      outside X gives tables that agree with P0 outside X and (U, T). */
  lemma EntriesAgreeThenStore(p0: map<Tid, map<int, PageEntry>>, p1: map<Tid, map<int, PageEntry>>,
                              x: set<FrameKey>, t: Tid, u: int, e: PageEntry)
    requires EntriesAgreeExcept(p0, p1, x) && t in p1
    ensures EntriesAgreeExcept(p0, p1[t := p1[t][u := e]], x + {FrameKey(u, t)})
  {
    EntriesAgreeStore(p1, t, u, e);
    EntriesAgreeTrans(p0, p1, p1[t := p1[t][u := e]], x, {FrameKey(u, t)});
  }

  /** `swap_in` with a free page in the pool. */
  lemma SwapInFromPool(s0: VmState, s1: VmState, s2: VmState, cur: Tid, addr: int, kpage: int)
    requires s0.hw.pool != [] && Obtained(s0, s1, kpage)
    requires SwappedInto(s1, s2, cur, addr, kpage)
    ensures FaultServed(s0, s2, cur, addr) && SwappedBack(s0, s2, cur, addr, kpage)
  {
    var e := s1.pageTables[cur][addr];
    assert EntriesAgreeExcept(s0.pageTables, s1.pageTables, {});
    EntriesAgreeThenStore(s0.pageTables, s1.pageTables, {}, cur, addr, e.(swap := false, kpage := kpage));
    assert MappingsAgreeExcept(s0.hw, s1.hw, {});
    MappingsAgreeThenSet(s0.hw, s1.hw, {}, cur, addr, kpage, s1.hw.memory[kpage := ReadSlot(s1.disk, e.swp)]);
    assert {} + {FrameKey(addr, cur)} == {FrameKey(addr, cur)};
  }

  /** `swap_in` when the pool is empty and `victim` evicts the oldest frame
      V: V is mapped and ADDR is not, so they differ, and only their
      entries and translations change. */
  lemma SwapInFromVictim(s0: VmState, s1: VmState, s2: VmState, cur: Tid, addr: int, kpage: int)
    requires s0.hw.pool == [] && Obtained(s0, s1, kpage)
    requires SwappedInto(s1, s2, cur, addr, kpage)
    requires s0.frameList[0].page in Dir(s0.hw, s0.frameList[0].tid) && addr !in Dir(s0.hw, cur)
    ensures FaultServed(s0, s2, cur, addr)
  {
    var k := FrameKey(addr, cur);
    var v := s0.frameList[0];
    assert v != k;
    var e := s1.pageTables[cur][addr];
    EntriesAgreeThenStore(s0.pageTables, s1.pageTables, {v}, cur, addr, e.(swap := false, kpage := kpage));
    MappingsAgreeClear(s0.hw, v.tid, v.page);
    MappingsAgreeThenSet(s0.hw, s1.hw, {v}, cur, addr, kpage, s1.hw.memory[kpage := ReadSlot(s1.disk, e.swp)]);
    assert {v} + {k} == {k, v};
    assert SlotHeld(s2.pageTables, v.tid, v.page) == SlotHeld(s1.pageTables, v.tid, v.page);
  }

  /** The page `swap_in` reads after `victim` ran holds what ADDR's slot
      held before: `victim` evicts a mapped page, so not ADDR's entry, and
      writes a free slot, so not the one ADDR's entry holds. */
  lemma SwappedBackAfterVictim(s0: VmState, s1: VmState, s2: VmState, cur: Tid, addr: int, kpage: int)
    requires s0.hw.pool == [] && Obtained(s0, s1, kpage)
    requires SwappedInto(s1, s2, cur, addr, kpage)
    requires s0.frameList[0].page in Dir(s0.hw, s0.frameList[0].tid) && addr !in Dir(s0.hw, cur)
    requires cur in s0.pageTables && addr in s0.pageTables[cur]
    requires var e := s0.pageTables[cur][addr];
      IsSlotSector(e.swp) && s0.used[e.swp / SECTORS_PER_PAGE]
    ensures SwappedBack(s0, s2, cur, addr, kpage)
  {
    var v := s0.frameList[0];
    var i := FirstFree(s0.used);
    assert v != FrameKey(addr, cur);
    assert EntryOf(s0.pageTables, cur, addr) == EntryOf(s1.pageTables, cur, addr);
    var e := s1.pageTables[cur][addr];
    SlotIndex(e.swp);
    assert e.swp != i * SECTORS_PER_PAGE by {
      assert !s0.used[i];
    }
  }

  /** `swap_in` composed: obtaining a page (S0 to S1) and reading ADDR's
      slot into it (S1 to S2) serves the fault, and the page ends up with
      what the slot held in S0. */
  lemma SwapInComposed(s0: VmState, s1: VmState, s2: VmState, cur: Tid, addr: int, kpage: int)
    requires StateInv(s0) && SlotHeld(s0.pageTables, cur, addr).Some?
    requires s0.hw.pool == [] ==>
      s0.frameList != [] && GetPage(s0.hw, s0.frameList[0].tid, s0.frameList[0].page) != NULL
    requires Obtained(s0, s1, kpage) && SwappedInto(s1, s2, cur, addr, kpage)
    ensures FaultServed(s0, s2, cur, addr) && SwappedBack(s0, s2, cur, addr, kpage)
  {
    if s0.hw.pool == [] {
      assert addr !in Dir(s0.hw, cur);
      assert s0.used[SlotHeld(s0.pageTables, cur, addr).value];
      SwapInFromVictim(s0, s1, s2, cur, addr, kpage);
      SwappedBackAfterVictim(s0, s1, s2, cur, addr, kpage);
    } else {
      SwapInFromPool(s0, s1, s2, cur, addr, kpage);
    }
  }

  /** The swap round trip: `victim` swaps out the oldest frame V (S0 to
      S1), and a later `swap_in` of V's page (S1 to S2 to S3), whichever
      page it obtains, brings back exactly the contents V's page had when
      it was evicted, resident and mapped writable again. */
  lemma SwapOutThenIn(s0: VmState, s1: VmState, s2: VmState, s3: VmState, kpage: int, kpage2: int)
    requires StateInv(s0) && StateInv(s1)
    requires s0.hw.pool == [] && s0.frameList != []
    requires s0.frameList[0].page in Dir(s0.hw, s0.frameList[0].tid)
    requires Obtained(s0, s1, kpage)
    requires s1.hw.pool == [] ==>
      s1.frameList != [] && GetPage(s1.hw, s1.frameList[0].tid, s1.frameList[0].page) != NULL
    requires Obtained(s1, s2, kpage2)
    requires SwappedInto(s2, s3, s0.frameList[0].tid, s0.frameList[0].page, kpage2)
    ensures var v := s0.frameList[0];
      && kpage2 in s3.hw.memory
      && s3.hw.memory[kpage2] == s0.hw.memory[GetPage(s0.hw, v.tid, v.page)]
      && EntryOf(s3.pageTables, v.tid, v.page).Some?
      && !s3.pageTables[v.tid][v.page].swap && s3.pageTables[v.tid][v.page].kpage == kpage2
      && MappingOf(s3.hw, v.tid, v.page) == Some(Mapping(kpage2, true, false))
  {
    var v := s0.frameList[0];
    var i := FirstFree(s0.used);
    assert SlotHeld(s1.pageTables, v.tid, v.page) == Some(i);
    SwapInComposed(s1, s2, s3, v.tid, v.page, kpage2);
    var e := s1.pageTables[v.tid][v.page];
    SlotIndex(e.swp);
    assert e.swp == i * SECTORS_PER_PAGE;
  }

  /** The stack-growth branch of `check_fault` on snapshots: S2 is S1 with
      UPAGE mapped writable to KPAGE, a frame registered for UPAGE and no
      entry but UPAGE's changed. */
  ghost predicate StackGrown(s1: VmState, s2: VmState, cur: Tid, upage: int, kpage: int)
  {
    && IsUserVaddr(upage)
    && s2.hw == SetPage(s1.hw, cur, upage, kpage, true)
    && EntriesAgreeExcept(s1.pageTables, s2.pageTables, {FrameKey(upage, cur)})
    && s2.frameList == s1.frameList + [FrameKey(upage, cur)]
    && s2.frameHash == s1.frameHash + {FrameKey(upage, cur)}
    && s2.disk == s1.disk && s2.used == s1.used
  }

  /** The stack-growth branch of `check_fault` composed: obtaining a page
      (S0 to S1) and mapping UPAGE, which had no translation, to it (S1 to
      S2) serves the fault. */
  lemma GrowComposed(s0: VmState, s1: VmState, s2: VmState, cur: Tid, upage: int, kpage: int)
    requires s0.hw.pool == [] ==>
      s0.frameList != [] && FrameKey(upage, cur) != s0.frameList[0]
    requires Obtained(s0, s1, kpage) && StackGrown(s1, s2, cur, upage, kpage)
    ensures FaultServed(s0, s2, cur, upage)
    ensures s2.used == UsedAfterObtain(s0)
    ensures s0.hw.pool != [] ==> kpage == s0.hw.pool[0] && kpage in s2.hw.memory && s2.hw.memory[kpage] == Zeros(PGSIZE)
    ensures s0.hw.pool == [] ==>
      && kpage == GetPage(s0.hw, s0.frameList[0].tid, s0.frameList[0].page)
      && kpage in s0.hw.memory && kpage in s2.hw.memory && s2.hw.memory[kpage] == s0.hw.memory[kpage]
  {
    var k := FrameKey(upage, cur);
    MappingsAgreeSet(s1.hw, cur, upage, kpage, true);
    if s0.hw.pool == [] {
      var v := s0.frameList[0];
      EntriesAgreeTrans(s0.pageTables, s1.pageTables, s2.pageTables, {v}, {k});
      MappingsAgreeClear(s0.hw, v.tid, v.page);
      MappingsAgreeTrans(s0.hw, s1.hw, s2.hw, {v}, {k});
      assert {v} + {k} == {k, v};
      assert EntryOf(s2.pageTables, v.tid, v.page) == EntryOf(s1.pageTables, v.tid, v.page);
      assert SlotHeld(s2.pageTables, v.tid, v.page) == SlotHeld(s1.pageTables, v.tid, v.page);
    } else {
      assert MappingsAgreeExcept(s0.hw, s1.hw, {});
      MappingsAgreeTrans(s0.hw, s1.hw, s2.hw, {}, {k});
      assert {} + {k} == {k};
    }
  }

  /** After the stack grows by UPAGE, the table of CUR has exactly its old
      keys and UPAGE: the evicted frame, if any, keeps its entry. */
  lemma KeysAfterGrow(s0: VmState, s2: VmState, cur: Tid, upage: int)
    requires s0.hw.pool == [] ==>
      s0.frameList != [] && EntryOf(s0.pageTables, s0.frameList[0].tid, s0.frameList[0].page).Some?
    requires FaultServed(s0, s2, cur, upage) && EntryOf(s2.pageTables, cur, upage).Some?
    ensures TableOf(s2.pageTables, cur).Keys == TableOf(s0.pageTables, cur).Keys + {upage}
  {
    forall p
      ensures p in TableOf(s2.pageTables, cur) <==> p in TableOf(s0.pageTables, cur).Keys + {upage}
    {
      assert p in TableOf(s2.pageTables, cur) <==> EntryOf(s2.pageTables, cur, p).Some?;
      assert p in TableOf(s0.pageTables, cur) <==> EntryOf(s0.pageTables, cur, p).Some?;
    }
  }

  /** The state of the first virtual-memory layer: the swap in-use table
      `d_use`, the swap disk, `frame_list` and `frame_hash`, the page table
      of every thread, and the machine. */
  class Vm {
    const dUse: array<bool>
    var disk: Disk
    var frameList: seq<FrameKey>
    var frameHash: set<FrameKey>
    var pageTables: map<Tid, map<int, PageEntry>>
    var hw: Hw

    ghost predicate Valid()
      reads this, dUse
    {
      && dUse.Length == MAXDD
      && DiskValid(disk)
      && HwValid(hw)
      && EntriesValid(pageTables)
      && SlotsReserved(pageTables, dUse[..])
      && SwappedUnmapped(pageTables, hw)
    }

    /** A snapshot of the whole layer. */
    ghost function State(): VmState
      reads this, dUse
    {
      VmState(dUse[..], disk, frameList, frameHash, pageTables, hw)
    }

    /** The page table of thread T (`t->pagetable`). */
    function Table(t: Tid): (table: map<int, PageEntry>)
      reads this
    {
      TableOf(pageTables, t)
    }

    predicate HasFreeSlot()
      reads this, dUse
    {
      false in dUse[..]
    }

    /** What `victim` asserts: there is a frame to evict, its page entry
        exists, the page is mapped, and there is a free swap slot for it. */
    predicate VictimReady()
      reads this, dUse
    {
      && frameList != []
      && frameList[0].page in Table(frameList[0].tid)
      && GetPage(hw, frameList[0].tid, frameList[0].page) != NULL
      && HasFreeSlot()
    }

    constructor (machine: Hw, swapDisk: Disk)
      requires HwValid(machine) && DiskValid(swapDisk)
      ensures Valid()
      ensures frameList == [] && frameHash == {} && pageTables == map[] && hw == machine && disk == swapDisk
      ensures forall i :: 0 <= i < MAXDD ==> !dUse[i]
      ensures fresh(dUse)
    {
      dUse := new bool[MAXDD](_ => false);
      disk := swapDisk;
      frameList := [];
      frameHash := {};
      pageTables := map[];
      hw := machine;
    }

    /** `page_table_find`: the entry of thread T whose key is exactly PAGE. */
    function PageTableFind(t: Tid, page: int): (r: Option<PageEntry>)
      reads this
      ensures r.Some? <==> t in pageTables && page in pageTables[t]
      ensures r.Some? ==> r.value == pageTables[t][page]
    {
      if page in Table(t) then Some(Table(t)[page]) else None
    }

    /** `frame_table_find`: the entry keyed (PAGE, T), if the hash holds one. */
    function FrameTableFind(t: Tid, page: int): (r: Option<FrameKey>)
      reads this
      ensures r.Some? <==> FrameKey(page, t) in frameHash
      ensures r.Some? ==> r.value.page == page && r.value.tid == t
    {
      if FrameKey(page, t) in frameHash then Some(FrameKey(page, t)) else None
    }

    /** `find_empty`: claim the lowest free slot and return its first sector,
        or -1 when every slot is in use. */
    method FindEmpty() returns (sec: int)
      requires dUse.Length == MAXDD
      modifies dUse
      ensures var i := FirstFree(old(dUse[..]));
        if i < MAXDD then sec == i * SECTORS_PER_PAGE && dUse[..] == old(dUse[..])[i := true]
        else sec == -1 && dUse[..] == old(dUse[..])
    {
      var i := 0;
      while i < MAXDD
        invariant 0 <= i <= MAXDD
        invariant forall j :: 0 <= j < i ==> dUse[j]
        invariant dUse[..] == old(dUse[..])
      {
        if !dUse[i] {
          dUse[i] := true;
          return i * SECTORS_PER_PAGE;
        }
        i := i + 1;
      }
      return -1;
    }

    /** `swap_d_write`: eight sector writes from SEC on, 512 bytes of the
        page each. */
    method SwapDiskWrite(sec: int, page: seq<Byte>)
      requires DiskValid(disk) && IsSlotSector(sec) && |page| == PGSIZE
      modifies this`disk
      ensures disk == WriteSlot(old(disk), sec, page)
      ensures DiskValid(disk)
    {
      var i := 0;
      while i < SECTORS_PER_PAGE
        invariant 0 <= i <= SECTORS_PER_PAGE
        invariant disk == WriteSectors(old(disk), sec, page, i)
      {
        disk := disk[sec + i := Chunk(page, i)];
        i := i + 1;
      }
      WriteSlotValid(old(disk), sec, page);
    }

    /** `swap_d_read`: the page assembled from eight sector reads from SEC
        on. */
    method SwapDiskRead(sec: int) returns (page: seq<Byte>)
      requires DiskValid(disk) && IsSlotSector(sec)
      ensures page == ReadSlot(disk, sec)
    {
      page := [];
      var i := 0;
      while i < SECTORS_PER_PAGE
        invariant 0 <= i <= SECTORS_PER_PAGE
        invariant page == ReadSlot(disk, sec)[..SECTOR_SIZE * i]
      {
        ReadSlotPrefix(disk, sec, i);
        page := page + disk[sec + i];
        i := i + 1;
      }
    }

    /** `swap_out`: claim a slot, record it in the entry of UPAGE of thread
        T, mark the entry swapped with no kernel page, and write the
        contents of KPAGE to the slot. Its one caller, `victim`, has just
        cleared the translation of UPAGE, which is required here. */
    method SwapOut(t: Tid, upage: int, kpage: int)
      requires Valid() && upage in Table(t) && kpage in hw.memory && HasFreeSlot()
      requires upage !in Dir(hw, t)
      modifies this`pageTables, this`disk, dUse
      ensures Valid()
      ensures var i := FirstFree(old(dUse[..]));
        && i < MAXDD
        && dUse[..] == old(dUse[..])[i := true]
        && pageTables == old(pageTables)[t := old(Table(t))[upage :=
             old(Table(t)[upage]).(swp := i * SECTORS_PER_PAGE, swap := true, kpage := NULL)]]
        && disk == WriteSlot(old(disk), i * SECTORS_PER_PAGE, old(hw.memory[kpage]))
      ensures ReadSlot(disk, FirstFree(old(dUse[..])) * SECTORS_PER_PAGE) == old(hw.memory[kpage])
      ensures forall sec :: IsSlotSector(sec) && sec != FirstFree(old(dUse[..])) * SECTORS_PER_PAGE ==>
        ReadSlot(disk, sec) == old(ReadSlot(disk, sec))
    {
      ghost var i := FirstFree(dUse[..]);
      ghost var d0 := disk;
      var sec := FindEmpty();
      var e := Table(t)[upage];
      EntriesValidUpdate(pageTables, t, e.(swp := sec, swap := true, kpage := NULL));
      SlotsReservedClaim(pageTables, old(dUse[..]), t, upage, e.(swp := sec, swap := true, kpage := NULL), i);
      SwappedUnmappedStore(pageTables, hw, t, upage, e.(swp := sec, swap := true, kpage := NULL));
      pageTables := pageTables[t := Table(t)[upage := e.(swp := sec, swap := true, kpage := NULL)]];
      SwapDiskWrite(sec, hw.memory[kpage]);
      SlotRoundTrip(d0, sec, hw.memory[kpage]);
      forall other | IsSlotSector(other) && other != sec
        ensures ReadSlot(disk, other) == ReadSlot(d0, other)
      {
        SlotWriteDisjoint(d0, other, sec, hw.memory[kpage]);
      }
    }

    /** The page tables once `victim` has moved the front frame's page to
        the swap slot starting at sector SEC: the entry records the slot,
        is swapped, has no kernel page, and has picked up the hardware dirty
        bit. */
    function Evicted(sec: int): map<Tid, map<int, PageEntry>>
      requires frameList != [] && frameList[0].page in Table(frameList[0].tid)
      reads this
    {
      var k := frameList[0];
      var e := Table(k.tid)[k.page];
      pageTables[k.tid := Table(k.tid)[k.page :=
        e.(dirty := e.dirty || IsDirty(hw, k.tid, k.page), swp := sec, swap := true, kpage := NULL)]]
    }

    /** `victim`: evict the oldest frame. Its entry leaves both `frame_list`
        and `frame_hash`; the page entry inherits the hardware dirty bit; the
        translation is cleared; the page goes to the lowest free swap slot;
        the freed kernel page is returned. */
    method Victim() returns (kpage: int)
      requires Valid() && VictimReady()
      modifies this, dUse
      ensures Valid()
      ensures frameList == old(frameList[1..]) && frameHash == old(frameHash) - {old(frameList[0])}
      ensures old(FrameInv(frameList, frameHash)) ==> FrameInv(frameList, frameHash)
      ensures kpage == old(GetPage(hw, frameList[0].tid, frameList[0].page))
      ensures kpage != NULL && kpage in hw.memory
      ensures FirstFree(old(dUse[..])) < MAXDD
      ensures dUse[..] == old(dUse[..])[FirstFree(old(dUse[..])) := true]
      ensures pageTables == old(Evicted(FirstFree(dUse[..]) * SECTORS_PER_PAGE))
      ensures hw == old(ClearPage(hw, frameList[0].tid, frameList[0].page))
      ensures ReadSlot(disk, FirstFree(old(dUse[..])) * SECTORS_PER_PAGE) == old(hw.memory[kpage])
      ensures forall sec :: IsSlotSector(sec) && sec != FirstFree(old(dUse[..])) * SECTORS_PER_PAGE ==>
        ReadSlot(disk, sec) == old(ReadSlot(disk, sec))
    {
      var k := frameList[0];
      ghost var i := FirstFree(dUse[..]);
      ghost var e := Table(k.tid)[k.page];
      ghost var pts0 := pageTables;
      PopFrontKeepsFrameInvIf(frameList, frameHash);
      frameList := frameList[1..];
      frameHash := frameHash - {k};
      var p := Table(k.tid)[k.page];
      kpage := GetPage(hw, k.tid, k.page);
      MappedIsReal(hw, k.tid, k.page);
      assert SlotHeld(pageTables, k.tid, k.page).None?;
      ghost var dirty := IsDirty(hw, k.tid, k.page);
      if IsDirty(hw, k.tid, k.page) {
        p := p.(dirty := true);
        EntriesValidUpdate(pageTables, k.tid, p);
        SlotsReservedSub(pageTables, pageTables[k.tid := Table(k.tid)[k.page := p]], dUse[..]);
        SwappedUnmappedStore(pageTables, hw, k.tid, k.page, p);
        pageTables := pageTables[k.tid := Table(k.tid)[k.page := p]];
      }
      ghost var tbl := Table(k.tid);
      SwappedUnmappedClear(pageTables, hw, k.tid, k.page);
      hw := ClearPage(hw, k.tid, k.page);
      SwapOut(k.tid, k.page, kpage);
      UpdateTwice(pts0, k.tid, k.page, p, p.(swp := i * SECTORS_PER_PAGE, swap := true, kpage := NULL));
    }

    /** The frame invariant survives popping the front, when it held. */
    lemma PopFrontKeepsFrameInvIf(list: seq<FrameKey>, hash: set<FrameKey>)
      requires list != []
      ensures FrameInv(list, hash) ==> FrameInv(list[1..], hash - {list[0]})
    {
      if FrameInv(list, hash) {
        PopFrontKeepsFrameInv(list, hash);
      }
    }

    /** `make_frame_table` and `frame_table_insert`: append the entry
        (PAGE, T) to `frame_list` and add it to `frame_hash`. */
    method MakeFrameTable(page: int, t: Tid)
      modifies this`frameList, this`frameHash
      ensures frameList == old(frameList) + [FrameKey(page, t)]
      ensures frameHash == old(frameHash) + {FrameKey(page, t)}
      ensures old(FrameInv(frameList, frameHash)) && FrameKey(page, t) !in old(frameHash) ==>
        FrameInv(frameList, frameHash)
    {
      var k := FrameKey(page, t);
      if FrameInv(frameList, frameHash) && k !in frameHash {
        PushBackKeepsFrameInv(frameList, frameHash, k);
      }
      frameList := frameList + [k];
      frameHash := frameHash + {k};
    }

    /** `frame_table_free`: walk `frame_list`, removing every entry owned by
        T from the list and the hash and stepping over the others. */
    method FrameTableFree(t: Tid)
      modifies this`frameList, this`frameHash
      ensures frameList == RemoveOwned(old(frameList), t)
      ensures frameHash == old(frameHash) - Owned(old(frameList), t)
      ensures old(FrameInv(frameList, frameHash)) ==> FrameInv(frameList, frameHash)
    {
      ghost var done: seq<FrameKey> := [];
      ghost var rest := frameList;
      var i := 0;
      while i < |frameList|
        invariant old(frameList) == done + rest
        invariant frameList == RemoveOwned(done, t) + rest
        invariant i == |RemoveOwned(done, t)|
        invariant frameHash == old(frameHash) - Owned(done, t)
        decreases |frameList| - i
      {
        FreeStep(done, rest, frameList, i, t);
        var f := frameList[i];
        if f.tid == t {
          frameList := frameList[..i] + frameList[i + 1..];
          frameHash := frameHash - {f};
        } else {
          i := i + 1;
        }
        done, rest := done + [rest[0]], rest[1..];
      }
      assert done == old(frameList);
      if FrameInv(old(frameList), old(frameHash)) {
        RemoveOwnedKeepsFrameInv(old(frameList), old(frameHash), t);
      }
    }

    /** `page_set_entry`: add an entry for UPAGE to the current thread's
        table, resident and clean; the insert is dropped if UPAGE already
        has an entry. The slot field is not set and keeps an arbitrary value. */
    method PageSetEntry(cur: Tid, upage: int, writable: bool, kpage: int)
      requires Valid()
      modifies this`pageTables
      ensures Valid()
      ensures EntriesAgreeExcept(old(pageTables), pageTables, {FrameKey(upage, cur)})
      ensures upage in old(Table(cur)) ==> pageTables == old(pageTables)
      ensures upage !in old(Table(cur)) ==>
        && pageTables.Keys == old(pageTables.Keys) + {cur}
        && (forall t :: t != cur ==> Table(t) == old(Table(t)))
        && Table(cur).Keys == old(Table(cur).Keys) + {upage}
        && (forall p :: p in old(Table(cur)) ==> Table(cur)[p] == old(Table(cur)[p]))
        && var e := Table(cur)[upage];
           !e.swap && e.writable == writable && e.page == upage && e.kpage == kpage && !e.dirty && !e.isLoaded
    {
      var garbage: int :| true;
      if upage !in Table(cur) {
        var e := PageEntry(false, writable, upage, kpage, garbage, false, false);
        EntriesValidUpdate(pageTables, cur, e);
        EntriesAgreeStore(pageTables, cur, upage, e);
        SwappedUnmappedStore(pageTables, hw, cur, upage, e);
        SlotsReservedSub(pageTables, pageTables[cur := Table(cur)[upage := e]], dUse[..]);
        pageTables := pageTables[cur := Table(cur)[upage := e]];
      }
    }

    /** `page_table_entry_free`: remove the entry from the current thread's
        table, then free its swap slot if it is swapped out, or else clear its
        translation if it is loaded. E is the entry itself, as the C code
        receives a pointer into the table. */
    method PageTableEntryFree(cur: Tid, e: PageEntry)
      requires Valid() && e.page in Table(cur) && Table(cur)[e.page] == e
      modifies this`pageTables, this`hw, dUse
      ensures Valid()
      ensures pageTables == old(pageTables)[cur := old(Table(cur)) - {e.page}]
      ensures e.swap ==> dUse[..] == old(dUse[..])[e.swp / SECTORS_PER_PAGE := false] && hw == old(hw)
      ensures !e.swap && e.isLoaded ==> hw == old(ClearPage(hw, cur, e.page)) && dUse[..] == old(dUse[..])
      ensures !e.swap && !e.isLoaded ==> hw == old(hw) && dUse[..] == old(dUse[..])
    {
      SlotsReservedRemove(pageTables, dUse[..], cur, e.page);
      SwappedUnmappedSub(pageTables, pageTables[cur := Table(cur) - {e.page}], hw);
      SwappedUnmappedClear(pageTables[cur := Table(cur) - {e.page}], hw, cur, e.page);
      pageTables := pageTables[cur := Table(cur) - {e.page}];
      if e.swap {
        dUse[e.swp / SECTORS_PER_PAGE] := false;
      } else if e.isLoaded {
        hw := ClearPage(hw, cur, e.page);
      }
    }

    /** `page_destructor`: a swapped-out entry gives its slot back. */
    method PageDestructor(e: PageEntry)
      requires dUse.Length == MAXDD && (e.swap ==> IsSlotSector(e.swp))
      modifies dUse
      ensures dUse[..] == FreeSlots(old(dUse[..]), if e.swap then {e.swp / SECTORS_PER_PAGE} else {})
    {
      if e.swap {
        SlotIndex(e.swp);
        FreeSlotsStep(dUse[..], {}, e.swp / SECTORS_PER_PAGE);
        FreeSlotsNone(dUse[..]);
        dUse[e.swp / SECTORS_PER_PAGE] := false;
      } else {
        FreeSlotsNone(dUse[..]);
      }
    }

    /** `hash_destroy` of a page table with `page_destructor`: every entry
        is visited once, in no particular order, and gives back its slot if
        it is swapped out. */
    method DestroyEntries(tbl: map<int, PageEntry>)
      requires dUse.Length == MAXDD
      requires forall p :: p in tbl && tbl[p].swap ==> IsSlotSector(tbl[p].swp)
      modifies dUse
      ensures dUse[..] == FreeSlots(old(dUse[..]), SwappedSlots(tbl))
    {
      var rest := tbl;
      FreeSlotsNone(dUse[..]);
      while rest.Keys != {}
        invariant forall q :: q in rest ==> q in tbl && rest[q] == tbl[q]
        invariant FreeSlots(dUse[..], SwappedSlots(rest)) == FreeSlots(old(dUse[..]), SwappedSlots(tbl))
        decreases |rest|
      {
        var p := PickKey(rest);
        var e := rest[p];
        var others := rest - {p};
        assert others[p := e] == rest;
        SwappedSlotsStep(others, p, e);
        FreeSlotsUnion(dUse[..], if e.swap then {e.swp / SECTORS_PER_PAGE} else {}, SwappedSlots(others));
        PageDestructor(e);
        rest := others;
      }
      assert SwappedSlots(rest) == {};
      FreeSlotsNone(dUse[..]);
    }

    /** `page_table_free`: T's table is discarded and every slot one of its
        entries had swapped out to is freed; every other slot keeps its
        state. */
    method PageTableFree(t: Tid)
      requires Valid()
      modifies this`pageTables, dUse
      ensures Valid()
      ensures pageTables == old(pageTables) - {t}
      ensures dUse[..] == FreeSlots(old(dUse[..]), SwappedSlots(old(Table(t))))
    {
      SlotsReservedDropTable(pageTables, dUse[..], t);
      SwappedUnmappedSub(pageTables, pageTables - {t}, hw);
      DestroyEntries(Table(t));
      EntriesValidRemove(pageTables, t);
      pageTables := pageTables - {t};
    }

    /** `palloc_get_page (PAL_USER | PAL_ZERO)`, falling back on `victim`
        when the user pool is exhausted. Only a page from the pool comes
        cleared; the page `victim` frees keeps the evicted contents. */
    method PallocOrVictim() returns (kpage: int)
      requires Valid() && (hw.pool == [] ==> VictimReady())
      modifies this, dUse
      ensures Valid() && kpage != NULL && kpage in hw.memory
      ensures Obtained(old(State()), State(), kpage)
    {
      if hw.pool != [] {
        kpage := NextFree(hw);
        hw := Palloc(hw, true);
      } else {
        var v := frameList[0];
        ghost var i := FirstFree(dUse[..]);
        var e := Table(v.tid)[v.page];
        EntriesAgreeStore(pageTables, v.tid, v.page,
          e.(dirty := e.dirty || IsDirty(hw, v.tid, v.page), swp := i * SECTORS_PER_PAGE, swap := true, kpage := NULL));
        kpage := Victim();
      }
    }

    /** `swap_in`: obtain a page from the allocator or from `victim`; clear
        it; read the slot into it; free the slot; mark the entry resident on
        that page; register a frame for ADDR and map ADDR to it writable.
        The page ends up holding what the slot held on entry: `victim`
        evicts a mapped page, so never ADDR, and writes a free slot, so
        never ADDR's. */
    method SwapIn(cur: Tid, addr: int) returns (kpage: int)
      requires Valid() && IsUserVaddr(addr) && addr in Table(cur) && Table(cur)[addr].swap
      requires hw.pool == [] ==> VictimReady()
      modifies this, dUse
      ensures Valid() && kpage != NULL
      ensures addr in Table(cur) && Table(cur)[addr] == old(Table(cur)[addr]).(swap := false, kpage := kpage)
      ensures kpage in hw.memory && hw.memory[kpage] == old(ReadSlot(disk, Table(cur)[addr].swp))
      ensures addr in Dir(hw, cur) && Dir(hw, cur)[addr] == Mapping(kpage, true, false)
      ensures SwappedBack(old(State()), State(), cur, addr, kpage)
      ensures FaultServed(old(State()), State(), cur, addr)
      ensures old(hw.pool) != [] ==> kpage == old(hw.pool[0])
      ensures old(hw.pool) == [] ==> kpage == old(GetPage(hw, frameList[0].tid, frameList[0].page))
    {
      ghost var s0 := State();
      ghost var e := Table(cur)[addr];
      assert SlotHeld(pageTables, cur, addr) == Some(e.swp / SECTORS_PER_PAGE);
      if hw.pool == [] {
        assert frameList[0] != FrameKey(addr, cur);
      }
      kpage := PallocOrVictim();
      assert EntryOf(pageTables, cur, addr) == EntryOf(s0.pageTables, cur, addr);
      ghost var s1 := State();
      SwapInto(cur, addr, kpage);
      SwapInComposed(s0, s1, State(), cur, addr, kpage);
    }

    /** The rest of `swap_in` once it has the page KPAGE: clear it, read
        the slot of ADDR's entry into it, free the slot, mark the entry
        resident on KPAGE, register a frame for ADDR and map ADDR to KPAGE
        writable. */
    method SwapInto(cur: Tid, addr: int, kpage: int)
      requires Valid() && IsUserVaddr(addr) && addr in Table(cur) && Table(cur)[addr].swap
      requires kpage != NULL && kpage in hw.memory
      modifies this`hw, this`pageTables, this`frameList, this`frameHash, dUse
      ensures Valid()
      ensures var e := old(Table(cur)[addr]);
        && IsSlotSector(e.swp)
        && pageTables == old(pageTables)[cur := old(Table(cur))[addr := e.(swap := false, kpage := kpage)]]
        && hw == SetPage(old(hw).(memory := old(hw.memory)[kpage := ReadSlot(disk, e.swp)]), cur, addr, kpage, true)
        && frameList == old(frameList) + [FrameKey(addr, cur)]
        && frameHash == old(frameHash) + {FrameKey(addr, cur)}
        && dUse[..] == old(dUse[..])[e.swp / SECTORS_PER_PAGE := false]
    {
      var e := Table(cur)[addr];
      assert e.swap && e.page == addr && IsSlotSector(e.swp);
      FillFromSlot(e.swp, kpage);
      SlotIndex(e.swp);
      assert SlotHeld(pageTables, cur, addr) == Some(e.swp / SECTORS_PER_PAGE);
      SlotsReservedRelease(pageTables, dUse[..], cur, addr, e.(swap := false, kpage := kpage));
      dUse[e.swp / SECTORS_PER_PAGE] := false;
      EntriesValidUpdate(pageTables, cur, e.(swap := false, kpage := kpage));
      SwappedUnmappedStore(pageTables, hw, cur, addr, e.(swap := false, kpage := kpage));
      pageTables := pageTables[cur := Table(cur)[addr := e.(swap := false, kpage := kpage)]];
      MakeFrameTable(addr, cur);
      SwappedUnmappedSet(pageTables, hw, cur, addr, kpage, true);
      hw := SetPage(hw, cur, addr, kpage, true);
    }

    /** The `memset` and `swap_d_read` of `swap_in`: KPAGE is cleared, then
        overwritten with the slot starting at sector SEC. */
    method FillFromSlot(sec: int, kpage: int)
      requires HwValid(hw) && DiskValid(disk) && IsSlotSector(sec)
      modifies this`hw
      ensures hw == old(hw).(memory := old(hw.memory)[kpage := ReadSlot(disk, sec)])
      ensures HwValid(hw)
    {
      ghost var start := hw;
      hw := Store(hw, kpage, Zeros(PGSIZE));
      var data := SwapDiskRead(sec);
      hw := Store(hw, kpage, data);
      StoreTwice(start, kpage, Zeros(PGSIZE), data);
    }

    /** The stack-growth branch of `check_fault`: obtain a page, map UPAGE
        to it writable, register a frame for UPAGE and add UPAGE's entry. A
        page from the pool comes cleared; one from `victim` keeps the
        evicted contents. */
    method GrowStackPage(cur: Tid, upage: int) returns (kpage: int)
      requires Valid() && IsUserVaddr(upage) && upage !in Table(cur)
      requires hw.pool == [] ==> VictimReady()
      modifies this, dUse
      ensures Valid() && kpage != NULL
      ensures upage in Table(cur) && var e := Table(cur)[upage];
        && !e.swap && e.writable && !e.dirty && !e.isLoaded && e.page == upage && e.kpage == kpage
      ensures Table(cur).Keys == old(Table(cur).Keys) + {upage}
      ensures upage in Dir(hw, cur) && Dir(hw, cur)[upage] == Mapping(kpage, true, false)
      ensures kpage in hw.memory
      ensures old(hw.pool) != [] ==> kpage == old(hw.pool[0]) && hw.memory[kpage] == Zeros(PGSIZE)
      ensures old(hw.pool) == [] ==>
        && kpage == old(GetPage(hw, frameList[0].tid, frameList[0].page))
        && kpage in old(hw.memory) && hw.memory[kpage] == old(hw.memory[kpage])
      ensures FaultServed(old(State()), State(), cur, upage)
      ensures dUse[..] == old(UsedAfterObtain(State()))
    {
      ghost var s0 := State();
      kpage := PallocOrVictim();
      ghost var s1 := State();
      assert EntryOf(pageTables, cur, upage) == EntryOf(s0.pageTables, cur, upage);
      MapNewPage(cur, upage, kpage);
      GrowComposed(s0, s1, State(), cur, upage, kpage);
      KeysAfterGrow(s0, State(), cur, upage);
    }

    /** The rest of the stack-growth branch once it has the page KPAGE:
        map UPAGE to it writable, register a frame for UPAGE and add
        UPAGE's entry. */
    method MapNewPage(cur: Tid, upage: int, kpage: int)
      requires Valid() && IsUserVaddr(upage) && EntryOf(pageTables, cur, upage).None?
      requires kpage != NULL && kpage in hw.memory
      modifies this`hw, this`pageTables, this`frameList, this`frameHash
      ensures Valid()
      ensures StackGrown(old(State()), State(), cur, upage, kpage)
      ensures upage in Table(cur) && var e := Table(cur)[upage];
        && !e.swap && e.writable && !e.dirty && !e.isLoaded && e.page == upage && e.kpage == kpage
    {
      SwappedUnmappedSet(pageTables, hw, cur, upage, kpage, true);
      hw := SetPage(hw, cur, upage, kpage, true);
      MakeFrameTable(upage, cur);
      PageSetEntry(cur, upage, true, kpage);
    }

    /** `check_fault`: returns whether the fault is fatal to the process.
        A swapped-out page is brought back in; a fault with no entry close
        enough below the stack pointer grows the stack by the faulting
        page, mapped writable. The kernel's `NOT_REACHED` for a present
        non-swapped entry is a precondition. */
    method CheckFault(esp: int, addr: int, notPresent: bool, cur: Tid) returns (fatal: bool)
      requires Valid() && 0 <= addr < ADDR_LIMIT && 0 <= esp < ADDR_LIMIT
      requires Classify(addr, notPresent, PageTableFind(cur, PgRoundDown(addr)), esp) != Unreachable
      requires Classify(addr, notPresent, PageTableFind(cur, PgRoundDown(addr)), esp) != Fatal && hw.pool == []
        ==> VictimReady()
      modifies this, dUse
      ensures Valid()
      ensures var d := old(Classify(addr, notPresent, PageTableFind(cur, PgRoundDown(addr)), esp));
        var upage := PgRoundDown(addr);
        && (fatal <==> d == Fatal)
        && (d == Fatal ==> State() == old(State()))
        && (d != Fatal ==>
              && upage in Table(cur)
              && !Table(cur)[upage].swap
              && upage in Dir(hw, cur) && Dir(hw, cur)[upage] == Mapping(Table(cur)[upage].kpage, true, false)
              && FaultServed(old(State()), State(), cur, upage))
        && (d == FromSwap ==> SwappedBack(old(State()), State(), cur, upage, Table(cur)[upage].kpage))
        && (d == GrowStack ==> var e := Table(cur)[upage];
              && e.writable && !e.dirty && !e.isLoaded && e.page == upage
              && Table(cur).Keys == old(Table(cur).Keys) + {upage}
              && e.kpage in hw.memory
              && (old(hw.pool) != [] ==> hw.memory[e.kpage] == Zeros(PGSIZE))
              && (old(hw.pool) == [] ==> e.kpage in old(hw.memory) && hw.memory[e.kpage] == old(hw.memory[e.kpage]))
              && dUse[..] == old(UsedAfterObtain(State())))
    {
      var upage := PgRoundDown(addr);
      var d := Classify(addr, notPresent, PageTableFind(cur, upage), esp);
      if d == Fatal {
        return true;
      }
      if d == FromSwap {
        var _ := SwapIn(cur, upage);
        return false;
      }
      var _ := GrowStackPage(cur, upage);
      return false;
    }
  }
}
