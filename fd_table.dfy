/** The open-file table of userprog/syscall.c: one global array of
    (file, fd, owner) elements of which the first `size` are in use, kept
    in the order they were added, and a global counter `fd_gl` from which
    every new descriptor is drawn.  Removal shifts the later elements down
    one place. */
module FdTable {
  import opened Machine

  /** `FD_TABLE_SIZE`. */
  const FD_TABLE_SIZE: int := 256
  /** Initial value of `fd_gl`; the first descriptor handed out is one more. */
  const FD_GL_START: int := 3
  const INT_MAX: int := 0x7fff_ffff

  /** `struct file_element`. */
  datatype FileElement = FileElement(filePtr: int, fd: int, owner: Tid)

  /** The descriptors of S rise strictly from left to right. */
  predicate Increasing(s: seq<FileElement>)
  {
    forall i, j :: 0 <= i < j < |s| ==> s[i].fd < s[j].fd
  }

  /** The index of the first element of S with descriptor FD, or -1. */
  function IndexOf(s: seq<FileElement>, fd: int): (i: int)
    ensures -1 <= i < |s|
    ensures i == -1 <==> forall k :: 0 <= k < |s| ==> s[k].fd != fd
    ensures i >= 0 ==> s[i].fd == fd && forall k :: 0 <= k < i ==> s[k].fd != fd
    decreases |s|
  {
    if s == [] then -1
    else if s[|s| - 1].fd == fd && IndexOf(s[..|s| - 1], fd) == -1 then |s| - 1
    else IndexOf(s[..|s| - 1], fd)
  }

  /** Taking one element out keeps the descriptors rising. */
  lemma RemoveKeepsIncreasing(s: seq<FileElement>, i: int)
    requires Increasing(s) && 0 <= i < |s|
    ensures Increasing(s[..i] + s[i + 1..])
  {
    var r := s[..i] + s[i + 1..];
    forall a, b | 0 <= a < b < |r|
      ensures r[a].fd < r[b].fd
    {
      var a', b' := if a < i then a else a + 1, if b < i then b else b + 1;
      assert r[a] == s[a'] && r[b] == s[b'];
    }
  }

  class FileTable {
    /** `fd_list.files`. */
    const files: array<FileElement>
    /** `fd_list.size`. */
    var size: int
    /** `fd_gl`, the last descriptor handed out. */
    var fdGl: int

    /** The elements in use, in table order. */
    ghost function Entries(): seq<FileElement>
      reads this, files
      requires 0 <= size <= files.Length
    {
      files[..size]
    }

    /** Descriptors in the table rise strictly with the index and lie in
        (3, fd_gl], so a descriptor never appears twice and every new one is
        larger than all present. */
    ghost predicate Valid()
      reads this, files
    {
      && files.Length == FD_TABLE_SIZE && 0 <= size <= FD_TABLE_SIZE && fdGl >= FD_GL_START
      && Increasing(Entries())
      && forall k :: 0 <= k < size ==> FD_GL_START < files[k].fd <= fdGl
    }

    /** The zero-initialised table with `fd_gl` at 3. */
    constructor ()
      ensures Valid() && Entries() == [] && fdGl == FD_GL_START
    {
      files := new FileElement[FD_TABLE_SIZE](_ => FileElement(NULL, 0, 0));
      size := 0;
      fdGl := FD_GL_START;
    }

    /** `init_fd_table`: empty the table; `fd_gl` keeps counting. */
    method InitFdTable()
      requires Valid()
      modifies this
      ensures Valid() && Entries() == [] && fdGl == old(fdGl)
    {
      size := 0;
    }

    /** `add_file`: draw the next descriptor from `fd_gl` and append an
        element for FILE owned by CUR.  The caller keeps the table below
        FD_TABLE_SIZE elements, and `fd_gl` must not overflow. */
    method AddFile(cur: Tid, file: int) returns (fd: int)
      requires Valid() && size < FD_TABLE_SIZE && fdGl < INT_MAX
      modifies this, files
      ensures Valid()
      ensures fd == old(fdGl) + 1 && fdGl == fd
      ensures Entries() == old(Entries()) + [FileElement(file, fd, cur)]
      ensures forall k :: 0 <= k < |old(Entries())| ==> old(Entries())[k].fd < fd
    {
      fdGl := fdGl + 1;
      fd := fdGl;
      files[size] := FileElement(file, fd, cur);
      size := size + 1;
      assert Entries() == old(Entries()) + [FileElement(file, fd, cur)];
    }

    /** `get_file`: the file of the first element with descriptor FD, or
        NULL. */
    method GetFile(fd: int) returns (r: int)
      requires Valid()
      ensures var i := IndexOf(Entries(), fd);
        r == if i >= 0 then Entries()[i].filePtr else NULL
    {
      var i := 0;
      while i < size
        invariant 0 <= i <= size
        invariant forall k :: 0 <= k < i ==> files[k].fd != fd
      {
        if files[i].fd == fd {
          return files[i].filePtr;
        }
        i := i + 1;
      }
      return NULL;
    }

    /** `get_file_owner`: the owner of the first element with descriptor
        FD, or -1. */
    method GetFileOwner(fd: int) returns (r: Tid)
      requires Valid()
      ensures var i := IndexOf(Entries(), fd);
        r == if i >= 0 then Entries()[i].owner else -1
    {
      var i := 0;
      while i < size
        invariant 0 <= i <= size
        invariant forall k :: 0 <= k < i ==> files[k].fd != fd
      {
        if files[i].fd == fd {
          return files[i].owner;
        }
        i := i + 1;
      }
      return -1;
    }

    /** `remove_file`: take out the first element with descriptor FD,
        shifting the later ones down one place, and return its file; when
        there is none, return NULL and change nothing. */
    method RemoveFile(fd: int) returns (r: int)
      requires Valid()
      modifies this, files
      ensures Valid() && fdGl == old(fdGl)
      ensures var i := IndexOf(old(Entries()), fd);
        if i >= 0 then
          r == old(Entries())[i].filePtr && Entries() == old(Entries())[..i] + old(Entries())[i + 1..]
        else
          r == NULL && Entries() == old(Entries())
    {
      var i := 0;
      while i < size
        invariant 0 <= i <= size
        invariant forall k :: 0 <= k < i ==> files[k].fd != fd
      {
        if files[i].fd == fd {
          r := files[i].filePtr;
          ShiftDown(i);
          return;
        }
        i := i + 1;
      }
      return NULL;
    }

    /** The shifting loop of `remove_file`: move every element after index
        I one place down and shrink the table by one. */
    method ShiftDown(i: int)
      requires Valid() && 0 <= i < size
      modifies this, files
      ensures Valid() && fdGl == old(fdGl)
      ensures Entries() == old(Entries())[..i] + old(Entries())[i + 1..]
    {
      ghost var s := Entries();
      var j := i;
      while j < size - 1
        invariant i <= j <= size - 1
        invariant size == |s| && fdGl == old(fdGl)
        invariant forall k :: 0 <= k < i ==> files[k] == s[k]
        invariant forall k :: i <= k < j ==> files[k] == s[k + 1]
        invariant forall k :: j <= k < size ==> files[k] == s[k]
      {
        files[j] := files[j + 1];
        j := j + 1;
      }
      size := size - 1;
      ghost var r := s[..i] + s[i + 1..];
      assert |Entries()| == |r|;
      forall k | 0 <= k < size
        ensures Entries()[k] == r[k]
      {
        if k >= i {
          assert r[k] == s[k + 1];
        }
      }
      assert Entries() == r;
      RemoveKeepsIncreasing(s, i);
      forall k | 0 <= k < size
        ensures FD_GL_START < files[k].fd <= fdGl
      {
        assert files[k] in s;
      }
    }
  }
}
