/** The file-descriptor allocator of src/pintos/src/userprog/fd.c: one
    global array of descriptor slots shared by all threads, a counter of
    the ids handed out so far (0, 1 and 2 are the console), and a stack of
    released ids that are handed out again before new ones. */
module FdList {
  import opened Machine

  /** The first id the allocator hands out. */
  const FIRST_FD: int := 3

  /** A descriptor slot (`struct file_descriptor`): the open file, the open
      directory or NULL, the owning thread and whether the slot is live. */
  datatype Slot = Slot(file: int, dir: int, owner: Tid, status: bool)

  predicate Distinct(s: seq<int>)
  {
    forall i, j :: 0 <= i < j < |s| ==> s[i] != s[j]
  }

  /** Distinct numbers drawn from [LO, HI) are at most HI - LO of them. */
  lemma {:induction false} DistinctBound(s: seq<int>, lo: int, hi: int)
    requires Distinct(s) && forall i :: 0 <= i < |s| ==> lo <= s[i] < hi
    ensures |s| <= if hi >= lo then hi - lo else 0
    decreases |s|
  {
    if s != [] {
      var x := s[|s| - 1];
      var init := s[..|s| - 1];
      // Rename the value hi - 1 (if it occurs) to x, which init lacks.
      var moved := seq(|init|, i requires 0 <= i < |init| => if init[i] == hi - 1 then x else init[i]);
      forall i, j | 0 <= i < j < |moved|
        ensures moved[i] != moved[j]
      {
        assert init[i] != init[j] && init[i] != x && init[j] != x;
      }
      forall i | 0 <= i < |moved|
        ensures lo <= moved[i] < hi - 1
      {
        assert init[i] != x;
      }
      DistinctBound(moved, lo, hi - 1);
    }
  }

  class Fds {
    /** `FDSIZE`, the length of both arrays. */
    const capacity: int
    /** `fd_list`. */
    const slots: array<Slot>
    /** `empty_fd_list`, the stack of released ids. */
    const emptyList: array<int>
    /** `fd_cnt`: ids below it have been handed out. */
    var fdCnt: int
    /** `empty_fd_cnt`: the height of the stack. */
    var emptyCnt: int

    /** The stack of released ids, bottom first. */
    ghost function Free(): seq<int>
      reads this, emptyList
      requires 0 <= emptyCnt <= emptyList.Length
    {
      emptyList[..emptyCnt]
    }

    /** The stack holds distinct ids that were handed out and are now dead. */
    ghost predicate Valid()
      reads this, slots, emptyList
    {
      && slots.Length == capacity && emptyList.Length == capacity
      && FIRST_FD <= fdCnt <= capacity && 0 <= emptyCnt <= capacity
      && Distinct(Free())
      && forall j :: 0 <= j < emptyCnt ==> FIRST_FD <= emptyList[j] < fdCnt && !slots[emptyList[j]].status
    }

    /** The zero-initialised arrays followed by `fd_init`. */
    constructor (size: int)
      requires size >= FIRST_FD
      ensures Valid() && capacity == size
      ensures fdCnt == FIRST_FD && emptyCnt == 0
      ensures forall i :: 0 <= i < size ==> !slots[i].status
    {
      capacity := size;
      slots := new Slot[size](_ => Slot(NULL, NULL, 0, false));
      emptyList := new int[size](_ => 0);
      fdCnt := FIRST_FD;
      emptyCnt := 0;
    }

    /** `fd_init`: ids restart at 3 and the stack is emptied; the slots are
        left as they are. */
    method FdInit()
      requires Valid()
      modifies this
      ensures Valid()
      ensures fdCnt == FIRST_FD && Free() == []
    {
      fdCnt := FIRST_FD;
      emptyCnt := 0;
    }

    /** `fd_is_valid`: FD is a handed-out id whose slot is live and owned by
        thread CUR. */
    predicate FdIsValid(cur: Tid, fd: int)
      reads this, slots
      requires slots.Length == capacity
      ensures FdIsValid(cur, fd) ==> FIRST_FD <= fd < slots.Length
    {
      FIRST_FD <= fd < fdCnt && fd < capacity && slots[fd].status && slots[fd].owner == cur
    }

    /** A descriptor that passes `fd_is_valid` is never waiting on the stack
        of released ids, and it names a console-free slot. */
    lemma ValidFdNotFree(cur: Tid, fd: int)
      requires Valid() && FdIsValid(cur, fd)
      ensures fd !in Free()
      ensures fd >= FIRST_FD
    {
    }

    /** `fd_get`. */
    function FdGet(fd: int): (file: int)
      reads slots
      requires 0 <= fd < slots.Length
    {
      slots[fd].file
    }

    /** `fd_get_dir`. */
    function FdGetDir(fd: int): (dir: int)
      reads slots
      requires 0 <= fd < slots.Length
    {
      slots[fd].dir
    }

    /** `fd_acquire`: pop the most recently released id if there is one,
        otherwise take the next new id, and make its slot live for thread
        CUR holding FILE.  ISDIR is whether FILE's inode is a directory and
        DIROPEN what `dir_open` gives back for it.  When no id was released
        and all FDSIZE ids are handed out, the source takes id FDSIZE and
        writes past `fd_list`; here that call returns -1 and changes
        nothing. */
    method FdAcquire(cur: Tid, file: int, isDir: bool, dirOpen: int) returns (fd: int)
      requires Valid()
      modifies this, slots
      ensures Valid()
      ensures old(emptyCnt) > 0 ==> fd == old(Free())[old(emptyCnt) - 1] && Free() == old(Free())[..old(emptyCnt) - 1]
                                    && fdCnt == old(fdCnt)
      ensures old(emptyCnt) == 0 && old(fdCnt) < capacity ==> fd == old(fdCnt) && fdCnt == old(fdCnt) + 1 && Free() == []
      ensures old(emptyCnt) == 0 && old(fdCnt) == capacity ==>
        fd == -1 && fdCnt == old(fdCnt) && Free() == old(Free()) && slots[..] == old(slots[..])
      ensures fd != -1 ==>
                && FIRST_FD <= fd < fdCnt
                && slots[..] == old(slots[..])[fd := Slot(file, if isDir then dirOpen else NULL, cur, true)]
                && FdIsValid(cur, fd) && FdGet(fd) == file && FdGetDir(fd) == (if isDir then dirOpen else NULL)
    {
      if emptyCnt > 0 {
        emptyCnt := emptyCnt - 1;
        fd := emptyList[emptyCnt];
        assert Free() == old(Free())[..emptyCnt];
      } else if fdCnt < capacity {
        fd := fdCnt;
        fdCnt := fdCnt + 1;
      } else {
        return -1;
      }
      var dir := if isDir then dirOpen else NULL;
      slots[fd] := Slot(file, dir, cur, true);
      forall j | 0 <= j < emptyCnt
        ensures emptyList[j] != fd
      {
        assert old(Free())[j] != old(Free())[old(emptyCnt) - 1];
      }
    }

    /** `fd_release`: mark the slot dead and push its id on the stack.  The
        file is closed as well, which this model does not track. */
    method FdRelease(fd: int)
      requires Valid() && FIRST_FD <= fd < fdCnt && slots[fd].status
      modifies this, slots, emptyList
      ensures Valid()
      ensures Free() == old(Free()) + [fd] && fdCnt == old(fdCnt)
      ensures slots[..] == old(slots[..])[fd := old(slots[fd]).(status := false)]
      ensures forall cur: Tid :: !FdIsValid(cur, fd)
    {
      DistinctBound(Free() + [fd], FIRST_FD, fdCnt);
      slots[fd] := slots[fd].(status := false);
      emptyList[emptyCnt] := fd;
      emptyCnt := emptyCnt + 1;
      assert Free() == old(Free()) + [fd];
    }

    /** The ids of live slots in [LO, HI) owned by T, in increasing order. */
    ghost function OwnedLive(s: seq<Slot>, t: Tid, lo: int, hi: int): seq<int>
      requires 0 <= lo <= hi <= |s|
      decreases hi - lo
    {
      if lo == hi then []
      else OwnedLive(s, t, lo, hi - 1) + (if s[hi - 1].owner == t && s[hi - 1].status then [hi - 1] else [])
    }

    /** `fd_process_exit`: release, in increasing order, every live slot of
        thread T; every other slot stays as it was. */
    method FdProcessExit(t: Tid)
      requires Valid()
      modifies this, slots, emptyList
      ensures Valid()
      ensures fdCnt == old(fdCnt)
      ensures Free() == old(Free()) + OwnedLive(old(slots[..]), t, FIRST_FD, fdCnt)
      ensures forall i :: 0 <= i < slots.Length ==>
        slots[i] == if FIRST_FD <= i < fdCnt && old(slots[i]).owner == t && old(slots[i]).status
                    then old(slots[i]).(status := false) else old(slots[i])
      ensures forall fd :: !FdIsValid(t, fd)
    {
      var i := FIRST_FD;
      while i < fdCnt
        invariant Valid() && fdCnt == old(fdCnt)
        invariant FIRST_FD <= i <= fdCnt
        invariant Free() == old(Free()) + OwnedLive(old(slots[..]), t, FIRST_FD, i)
        invariant forall k :: 0 <= k < slots.Length ==>
          slots[k] == if FIRST_FD <= k < i && old(slots[k]).owner == t && old(slots[k]).status
                      then old(slots[k]).(status := false) else old(slots[k])
      {
        ghost var before := slots[..];
        assert before[i] == old(slots[i]);
        if slots[i].owner == t && slots[i].status {
          FdRelease(i);
        }
        assert forall k :: 0 <= k < slots.Length && k != i ==> slots[k] == before[k];
        i := i + 1;
      }
    }
  }
}
