/** The initial user stack of userprog/process.c.  `setup_stack` maps one
    zeroed page just below PHYS_BASE and points `esp` at PHYS_BASE;
    `setup_arguments` then lays out the command line in that page, each
    helper moving `esp` down and copying its bytes to the new `esp`.  From
    the final `esp` upwards the page holds: a zero return address, `argc`,
    `argv`, the `argc` argument pointers, a NULL pointer, padding to a word
    boundary, and the argument strings. */
module ArgStack {
  import opened Machine

  /** Arguments longer than this are cut down (userprog/process.h). */
  const ARGLEN: int := 30
  /** The capacity of the `args` array of `setup_arguments`. */
  const MAX_ARG: int := 128
  /** The lowest address of the stack page. */
  const STACK_PAGE: int := PHYS_BASE - PGSIZE

  /** A command-line token as `strtok_r` delivers it: its characters, none
      of which is NUL. */
  predicate IsToken(tok: seq<Byte>)
  {
    forall i :: 0 <= i < |tok| ==> tok[i] != 0
  }

  /** `strnlen (token, ARGLEN)` for a token without NUL characters. */
  function StrnLen(tok: seq<Byte>): (n: int)
    ensures 0 <= n <= ARGLEN && n <= |tok|
    ensures n < ARGLEN ==> n == |tok|
  {
    if |tok| < ARGLEN then |tok| else ARGLEN
  }

  /** The bytes `write_arg_to_stack` copies for one token, as written: the
      first `len + 1` bytes of the NUL-terminated token, with `len` capped
      at ARGLEN. */
  function ArgBytesAsWritten(tok: seq<Byte>): (r: seq<Byte>)
    ensures |r| == StrnLen(tok) + 1
  {
    (tok + [0])[..StrnLen(tok) + 1]
  }

  /** For a token longer than ARGLEN the copied bytes hold no NUL, so the
      string the user program sees at `argv[i]` runs on into whatever lies
      above it on the stack. */
  lemma ArgBytesAsWrittenUnterminated(tok: seq<Byte>)
    requires IsToken(tok) && |tok| > ARGLEN
    ensures |ArgBytesAsWritten(tok)| == ARGLEN + 1
    ensures forall i :: 0 <= i < |ArgBytesAsWritten(tok)| ==> ArgBytesAsWritten(tok)[i] != 0
  {
    var r := ArgBytesAsWritten(tok);
    forall i | 0 <= i < |r|
      ensures r[i] != 0
    {
      assert r[i] == tok[i];
    }
  }

  /** The bytes one token occupies on the stack: the token cut to ARGLEN
      characters and a terminating NUL. */
  function ArgBytes(tok: seq<Byte>): (r: seq<Byte>)
    ensures |r| == StrnLen(tok) + 1
  {
    tok[..StrnLen(tok)] + [0]
  }

  /** The bytes of a token on the stack form a C string: the first
      (at most ARGLEN) characters of the token followed by its only NUL. */
  lemma ArgBytesTerminated(tok: seq<Byte>)
    requires IsToken(tok)
    ensures var r := ArgBytes(tok);
      && r[|r| - 1] == 0
      && (forall i :: 0 <= i < |r| - 1 ==> r[i] == tok[i] && r[i] != 0)
  {
  }

  /** Up to ARGLEN characters both versions copy the same bytes. */
  lemma ArgBytesAgreeShort(tok: seq<Byte>)
    requires |tok| <= ARGLEN
    ensures ArgBytesAsWritten(tok) == ArgBytes(tok) == tok + [0]
  {
    assert (tok + [0])[..|tok| + 1] == tok + [0];
  }

  /** The strings of the arguments from index I on, one after the other,
      as they lie on the stack from low to high addresses. */
  function ArgsArea(args: seq<seq<Byte>>, i: int): (r: seq<Byte>)
    requires 0 <= i <= |args|
    decreases |args| - i
  {
    if i == |args| then [] else ArgBytesAsWritten(args[i]) + ArgsArea(args, i + 1)
  }

  /** The strings from index I on end the strings from index K <= I on. */
  lemma {:induction false} ArgsAreaSuffix(args: seq<seq<Byte>>, k: int, i: int)
    requires 0 <= k <= i <= |args|
    ensures |ArgsArea(args, i)| <= |ArgsArea(args, k)|
    ensures forall n :: 0 <= n < |ArgsArea(args, i)| ==>
      ArgsArea(args, k)[|ArgsArea(args, k)| - |ArgsArea(args, i)| + n] == ArgsArea(args, i)[n]
    decreases i - k
  {
    if k < i {
      ArgsAreaSuffix(args, k + 1, i);
    }
  }

  /** Fewer arguments take no more room. */
  lemma {:induction false} ArgsAreaShrinks(args: seq<seq<Byte>>, k: int, i: int)
    requires 0 <= k <= i <= |args|
    ensures |ArgsArea(args, i)| <= |ArgsArea(args, k)|
    decreases i - k
  {
    if k < i {
      ArgsAreaShrinks(args, k + 1, i);
    }
  }

  /** The address `write_arg_to_stack` records for argument I when it
      starts below TOP: every later string lies above it. */
  function ArgAddr(args: seq<seq<Byte>>, top: int, i: int): int
    requires 0 <= i <= |args|
  {
    top - |ArgsArea(args, i)|
  }

  /** The 4-byte little-endian words of WS from index I on. */
  function Words(ws: seq<int>, i: int): (r: seq<Byte>)
    requires 0 <= i <= |ws|
    ensures |r| == 4 * (|ws| - i)
    decreases |ws| - i
  {
    if i == |ws| then [] else Le32(ws[i]) + Words(ws, i + 1)
  }

  /** Reading a word past a prefix P reads it in what follows P. */
  lemma Le32AtShift(p: seq<Byte>, s: seq<Byte>, off: int)
    requires 0 <= off && off + 4 <= |s|
    ensures Le32At(p + s, |p| + off) == Le32At(s, off)
  {
    assert (p + s)[|p| + off] == s[off] && (p + s)[|p| + off + 1] == s[off + 1];
    assert (p + s)[|p| + off + 2] == s[off + 2] && (p + s)[|p| + off + 3] == s[off + 3];
  }

  /** The word at the front of `Le32(v) + q` is V, taken modulo 2^32. */
  lemma Le32AtFront(v: int, q: seq<Byte>)
    ensures Le32At(Le32(v) + q, 0) == v % ADDR_LIMIT
  {
    var s := Le32(v) + q;
    assert s[0] == Le32(v)[0] && s[1] == Le32(v)[1] && s[2] == Le32(v)[2] && s[3] == Le32(v)[3];
    Le32RoundTrip(v);
  }

  /** Within `Words(ws, k) + q`, word I - K reads back as WS[I]. */
  lemma {:induction false} WordsLe32At(ws: seq<int>, k: int, i: int, q: seq<Byte>)
    requires 0 <= k <= i < |ws|
    ensures Le32At(Words(ws, k) + q, 4 * (i - k)) == ws[i] % ADDR_LIMIT
    decreases i - k
  {
    var rest := Words(ws, k + 1) + q;
    assert Words(ws, k) + q == Le32(ws[k]) + rest;
    if k == i {
      Le32AtFront(ws[k], rest);
    } else {
      Le32AtShift(Le32(ws[k]), rest, 4 * (i - k - 1));
      WordsLe32At(ws, k + 1, i, q);
    }
  }

  /** A word already below 2^32 is its own value modulo 2^32. */
  lemma ModSmall(x: int)
    requires 0 <= x < ADDR_LIMIT
    ensures x % ADDR_LIMIT == x
  {
  }

  /** The addresses `write_arg_to_stack` records for all of ARGS. */
  function ArgAddrs(args: seq<seq<Byte>>, top: int): (r: seq<int>)
    ensures |r| == |args|
  {
    seq(|args|, i requires 0 <= i < |args| => ArgAddr(args, top, i))
  }

  /** The number of zero bytes `word_alignment` adds below the strings. */
  function Padding(args: seq<seq<Byte>>, top: int): int
  {
    (top - |ArgsArea(args, 0)|) % 4
  }

  /** The value of `argv`: the address of the first argument pointer. */
  function ArgvAddr(args: seq<seq<Byte>>, top: int): int
  {
    top - |ArgsArea(args, 0)| - Padding(args, top) - 4 - 4 * |args|
  }

  /** Lowering X to a multiple of 4 and then by K more words leaves a
      multiple of 4. */
  lemma AlignedDown(x: int, k: int)
    ensures (x - x % 4 - 4 * k) % 4 == 0
  {
    assert x - x % 4 - 4 * k == 4 * (x / 4 - k);
  }

  /** Everything `setup_arguments` writes when `esp` starts at TOP, from
      the final `esp` upwards. */
  function StackImage(args: seq<seq<Byte>>, top: int): (img: seq<Byte>)
    ensures |img| == 4 * 4 + 4 * |args| + Padding(args, top) + |ArgsArea(args, 0)|
  {
    Le32(0) + (Le32(|args|) + (Le32(ArgvAddr(args, top)) + (Words(ArgAddrs(args, top), 0)
      + (Le32(NULL) + (Zeros(Padding(args, top)) + ArgsArea(args, 0))))))
  }

  /** The stack pointer `setup_arguments` leaves when it starts at TOP. */
  function FinalEsp(args: seq<seq<Byte>>, top: int): (esp: int)
    ensures esp == ArgvAddr(args, top) - 3 * 4
  {
    top - |StackImage(args, top)|
  }

  /** What the user program finds at its initial stack pointer: it is
      word-aligned, and above it lie a zero return address, then `argc`,
      then `argv` pointing at the word right above it. */
  lemma StackImageHeader(args: seq<seq<Byte>>, top: int)
    requires top <= PHYS_BASE && |StackImage(args, top)| <= top
    ensures var img := StackImage(args, top);
      && FinalEsp(args, top) % 4 == 0
      && Le32At(img, 0) == 0
      && Le32At(img, 4) == |args| % ADDR_LIMIT
      && Le32At(img, 2 * 4) == FinalEsp(args, top) + 3 * 4
  {
    var argv := ArgvAddr(args, top);
    var r3 := Words(ArgAddrs(args, top), 0) + (Le32(NULL) + (Zeros(Padding(args, top)) + ArgsArea(args, 0)));
    var r2 := Le32(argv) + r3;
    var r1 := Le32(|args|) + r2;
    Le32AtFront(0, r1);
    Le32AtShift(Le32(0), r1, 0);
    Le32AtFront(|args|, r2);
    Le32AtShift(Le32(0), r1, 4);
    Le32AtShift(Le32(|args|), r2, 0);
    Le32AtFront(argv, r3);
    ModSmall(argv);
    AlignedDown(top - |ArgsArea(args, 0)|, |args| + 4);
  }

  /** Reading past three leading words reads in what follows them. */
  lemma Le32AtPastThree(a: int, b: int, c: int, r: seq<Byte>, off: int)
    requires 0 <= off && off + 4 <= |r|
    ensures Le32At(Le32(a) + (Le32(b) + (Le32(c) + r)), 12 + off) == Le32At(r, off)
  {
    Le32AtShift(Le32(a), Le32(b) + (Le32(c) + r), 8 + off);
    Le32AtShift(Le32(b), Le32(c) + r, 4 + off);
    Le32AtShift(Le32(c), r, off);
  }

  /** `argv[i]` holds the address of argument I's string and `argv[argc]`
      is NULL. */
  lemma StackImagePointers(args: seq<seq<Byte>>, top: int)
    requires top <= PHYS_BASE && |StackImage(args, top)| <= top
    ensures var img := StackImage(args, top);
      && (forall i :: 0 <= i < |args| ==> Le32At(img, 3 * 4 + 4 * i) == ArgAddr(args, top, i))
      && Le32At(img, 3 * 4 + 4 * |args|) == NULL
  {
    var addrs := ArgAddrs(args, top);
    var r4 := Le32(NULL) + (Zeros(Padding(args, top)) + ArgsArea(args, 0));
    forall i | 0 <= i < |args|
      ensures Le32At(StackImage(args, top), 3 * 4 + 4 * i) == ArgAddr(args, top, i)
    {
      Le32AtPastThree(0, |args|, ArgvAddr(args, top), Words(addrs, 0) + r4, 4 * i);
      WordsLe32At(addrs, 0, i, r4);
      ArgsAreaShrinks(args, 0, i);
      ModSmall(addrs[i]);
    }
    Le32AtPastThree(0, |args|, ArgvAddr(args, top), Words(addrs, 0) + r4, 4 * |args|);
    Le32AtShift(Words(addrs, 0), r4, 0);
    Le32AtFront(NULL, Zeros(Padding(args, top)) + ArgsArea(args, 0));
  }

  /** The last of seven right-nested pieces sits after the other six. */
  lemma LastPieceAt<T>(a: seq<T>, b: seq<T>, c: seq<T>, d: seq<T>, e: seq<T>, f: seq<T>, g: seq<T>, m: int)
    requires 0 <= m < |g|
    ensures (a + (b + (c + (d + (e + (f + g))))))[|a| + |b| + |c| + |d| + |e| + |f| + m] == g[m]
  {
  }

  /** Byte J of argument I's string, located in StackImage. */
  lemma StringByte(args: seq<seq<Byte>>, top: int, i: int, j: int)
    requires 0 <= i < |args| && 0 <= j < |ArgBytesAsWritten(args[i])|
    ensures var img := StackImage(args, top);
      0 <= ArgAddr(args, top, i) - FinalEsp(args, top) + j < |img|
      && img[ArgAddr(args, top, i) - FinalEsp(args, top) + j] == ArgBytesAsWritten(args[i])[j]
  {
    var strings := ArgsArea(args, 0);
    var rest := ArgsArea(args, i);
    ArgsAreaSuffix(args, 0, i);
    assert rest == ArgBytesAsWritten(args[i]) + ArgsArea(args, i + 1);
    assert strings[|strings| - |rest| + j] == rest[j];
    LastPieceAt(Le32(0), Le32(|args|), Le32(ArgvAddr(args, top)), Words(ArgAddrs(args, top), 0),
                Le32(NULL), Zeros(Padding(args, top)), strings, |strings| - |rest| + j);
  }

  /** At `argv[i]` lie the bytes `setup_arguments` copies for argument I:
      the first `strnlen(token, ARGLEN) + 1` bytes of the token and the NUL
      after it. */
  lemma StackImageString(args: seq<seq<Byte>>, top: int, i: int)
    requires 0 <= i < |args|
    ensures var off := ArgAddr(args, top, i) - FinalEsp(args, top);
      0 <= off && off + |ArgBytesAsWritten(args[i])| <= |StackImage(args, top)|
      && StackImage(args, top)[off..off + |ArgBytesAsWritten(args[i])|] == ArgBytesAsWritten(args[i])
  {
    var off := ArgAddr(args, top, i) - FinalEsp(args, top);
    var arg := ArgBytesAsWritten(args[i]);
    StringByte(args, top, i, 0);
    StringByte(args, top, i, |arg| - 1);
    forall j | 0 <= j < |arg|
      ensures StackImage(args, top)[off + j] == arg[j]
    {
      StringByte(args, top, i, j);
    }
  }

  /** A token of at most ARGLEN characters is found at `argv[i]` as the
      token itself followed by its NUL. */
  lemma StackImageStringShort(args: seq<seq<Byte>>, top: int, i: int)
    requires 0 <= i < |args| && |args[i]| <= ARGLEN
    ensures var off := ArgAddr(args, top, i) - FinalEsp(args, top);
      0 <= off && off + |args[i]| + 1 <= |StackImage(args, top)|
      && StackImage(args, top)[off..off + |args[i]| + 1] == args[i] + [0]
  {
    ArgBytesAgreeShort(args[i]);
    StackImageString(args, top, i);
  }

  /** A token longer than ARGLEN leaves ARGLEN + 1 of its own non-NUL bytes
      at `argv[i]` and no terminator among them. */
  lemma StackImageStringLong(args: seq<seq<Byte>>, top: int, i: int)
    requires 0 <= i < |args| && IsToken(args[i]) && |args[i]| > ARGLEN
    ensures var off := ArgAddr(args, top, i) - FinalEsp(args, top);
      var img := StackImage(args, top);
      0 <= off && off + ARGLEN + 1 <= |img|
      && (forall j :: off <= j < off + ARGLEN + 1 ==> img[j] == args[i][j - off] && img[j] != 0)
  {
    ArgBytesAsWrittenUnterminated(args[i]);
    StackImageString(args, top, i);
    var off := ArgAddr(args, top, i) - FinalEsp(args, top);
    var img := StackImage(args, top);
    forall j | off <= j < off + ARGLEN + 1
      ensures img[j] == args[i][j - off] && img[j] != 0
    {
      assert img[j] == img[off..off + ARGLEN + 1][j - off];
    }
  }

  /** One step of `write_arg_to_stack`: pushing argument I in front of the
      later ones extends the strings area to I and records ArgAddr. */
  lemma ArgPushed(args: seq<seq<Byte>>, top: int, i: int, below: seq<Byte>)
    requires 0 <= i < |args|
    ensures ArgBytesAsWritten(args[i]) + (ArgsArea(args, i + 1) + below) == ArgsArea(args, i) + below
    ensures top - |ArgsArea(args, i + 1)| - |ArgBytesAsWritten(args[i])| == ArgAddr(args, top, i)
    ensures [ArgAddr(args, top, i)] + ArgAddrs(args, top)[i + 1..] == ArgAddrs(args, top)[i..]
  {
  }

  /** One step of `write_add_to_stack`: pushing pointer I in front of the
      later ones extends the pointer words to I. */
  lemma WordPushed(ws: seq<int>, i: int, below: seq<Byte>)
    requires 0 <= i < |ws|
    ensures Le32(ws[i]) + (Words(ws, i + 1) + below) == Words(ws, i) + below
  {
  }

  /** Where `esp` stands after each helper of `setup_arguments` that starts
      at TOP: below the strings, then aligned just above the pointer array,
      and finally at FinalEsp. */
  lemma StackPointers(args: seq<seq<Byte>>, top: int)
    ensures var below := top - |ArgsArea(args, 0)|;
      && Padding(args, top) == below % 4
      && below - below % 4 == ArgvAddr(args, top) + 4 + 4 * |args|
      && ArgvAddr(args, top) - 12 == top - |StackImage(args, top)|
  {
  }

  /** Bytes pushed in front of each other, piece by piece, end up in the
      order of the pieces. */
  lemma PushedInOrder<T>(a: seq<T>, b: seq<T>, c: seq<T>, d: seq<T>, e: seq<T>, f: seq<T>, g: seq<T>,
                         s0: seq<T>, s1: seq<T>, s2: seq<T>, s3: seq<T>, s4: seq<T>)
    requires s1 == g + s0 && s2 == f + s1 && s3 == c + (d + (e + s2))
    requires s4 == a + (b + s3)
    ensures s4 == (a + (b + (c + (d + (e + (f + g)))))) + s0
  {
  }

  class UserStack {
    /** The stack page: byte K sits at user address STACK_PAGE + K. */
    var page: seq<Byte>
    /** The user stack pointer. */
    var esp: int

    ghost predicate Valid()
      reads this
    {
      |page| == PGSIZE && STACK_PAGE <= esp <= PHYS_BASE
    }

    /** The bytes from `esp` up to PHYS_BASE. */
    function Contents(): (c: seq<Byte>)
      reads this
      requires Valid()
      ensures |c| == PHYS_BASE - esp
    {
      page[esp - STACK_PAGE..]
    }

    /** `setup_stack`: a zeroed page with `esp` at PHYS_BASE. */
    constructor ()
      ensures Valid() && esp == PHYS_BASE && page == Zeros(PGSIZE)
    {
      page := Zeros(PGSIZE);
      esp := PHYS_BASE;
    }

    /** The idiom of every stack-writing helper: `*esp -= n` followed by a
        `memcpy` or `memset` of N bytes to the new `esp`. */
    method Push(data: seq<Byte>)
      requires Valid() && |data| <= esp - STACK_PAGE
      modifies this
      ensures Valid() && esp == old(esp) - |data|
      ensures Contents() == data + old(Contents())
      ensures page[..esp - STACK_PAGE] == old(page)[..esp - STACK_PAGE]
    {
      var base := esp - |data| - STACK_PAGE;
      page := page[..base] + data + page[esp - STACK_PAGE..];
      esp := esp - |data|;
      assert Contents() == data + old(Contents());
    }

    /** `write_arg_to_stack`: push the strings of ARGS last to first,
        recording where each one starts. */
    method WriteArgs(args: seq<seq<Byte>>) returns (addrs: seq<int>)
      requires Valid() && |ArgsArea(args, 0)| <= esp - STACK_PAGE
      modifies this
      ensures Valid() && esp == old(esp) - |ArgsArea(args, 0)|
      ensures Contents() == ArgsArea(args, 0) + old(Contents())
      ensures addrs == ArgAddrs(args, old(esp))
      ensures forall i :: 0 <= i < esp - STACK_PAGE ==> page[i] == old(page)[i]
    {
      ghost var top := esp;
      ghost var below := Contents();
      var i := |args|;
      addrs := [];
      while i > 0
        invariant 0 <= i <= |args|
        invariant Valid() && Contents() == ArgsArea(args, i) + below
        invariant |ArgsArea(args, 0)| <= top - STACK_PAGE && esp == top - |ArgsArea(args, i)|
        invariant addrs == ArgAddrs(args, top)[i..]
        invariant forall i :: 0 <= i < esp - STACK_PAGE ==> page[i] == old(page)[i]
      {
        ArgsAreaShrinks(args, 0, i - 1);
        ArgPushed(args, top, i - 1, below);
        Push(ArgBytesAsWritten(args[i - 1]));
        addrs := [esp] + addrs;
        i := i - 1;
      }
    }

    /** `word_alignment`: lower `esp` to a multiple of four, zeroing the
        bytes passed over. */
    method WordAlignment()
      requires Valid()
      modifies this
      ensures Valid() && esp == old(esp) - old(esp) % 4 && esp % 4 == 0
      ensures Contents() == Zeros(old(esp) % 4) + old(Contents())
      ensures forall i :: 0 <= i < esp - STACK_PAGE ==> page[i] == old(page)[i]
    {
      var align := esp % 4;
      if align != 0 {
        Push(Zeros(align));
      } else {
        assert Zeros(0) + Contents() == Contents();
      }
    }

    /** `write_add_to_stack`: push a NULL pointer, the addresses ADDRS last
        to first, and then the address of the first of them (`argv`). */
    method WriteAddrs(addrs: seq<int>)
      requires Valid() && 2 * 4 + 4 * |addrs| <= esp - STACK_PAGE
      modifies this
      ensures Valid() && esp == old(esp) - 2 * 4 - 4 * |addrs|
      ensures Contents() == Le32(old(esp) - 4 - 4 * |addrs|) + (Words(addrs, 0) + (Le32(NULL) + old(Contents())))
      ensures forall i :: 0 <= i < esp - STACK_PAGE ==> page[i] == old(page)[i]
    {
      Push(Le32(NULL));
      ghost var below := Contents();
      var i := |addrs|;
      while i > 0
        invariant 0 <= i <= |addrs|
        invariant Valid() && Contents() == Words(addrs, i) + below
        invariant esp == old(esp) - 4 - 4 * (|addrs| - i)
        invariant forall i :: 0 <= i < esp - STACK_PAGE ==> page[i] == old(page)[i]
      {
        WordPushed(addrs, i - 1, below);
        Push(Le32(addrs[i - 1]));
        i := i - 1;
      }
      var argv := esp;
      Push(Le32(argv));
    }

    /** `write_argc_to_stack`. */
    method WriteArgc(argc: int)
      requires Valid() && 4 <= esp - STACK_PAGE
      modifies this
      ensures Valid() && esp == old(esp) - 4 && Contents() == Le32(argc) + old(Contents())
      ensures forall i :: 0 <= i < esp - STACK_PAGE ==> page[i] == old(page)[i]
    {
      Push(Le32(argc));
    }

    /** `write_ret_add_to_stack`: a zero return address. */
    method WriteRetAddr()
      requires Valid() && 4 <= esp - STACK_PAGE
      modifies this
      ensures Valid() && esp == old(esp) - 4 && Contents() == Le32(0) + old(Contents())
      ensures forall i :: 0 <= i < esp - STACK_PAGE ==> page[i] == old(page)[i]
    {
      Push(Le32(0));
    }

    /** `setup_arguments`: the strings, the alignment padding, the pointer
        array with its NULL and `argv`, `argc` and the return address, as
        StackImage describes (StackImageHeader, StackImagePointers and
        StackImageString say what they mean to the user program).  The command line must fit in the page and in
        the `args` array. */
    method SetupArguments(args: seq<seq<Byte>>)
      requires Valid() && |args| <= MAX_ARG
      requires |StackImage(args, esp)| <= esp - STACK_PAGE
      modifies this
      ensures Valid() && esp == old(esp) - |StackImage(args, old(esp))|
      ensures Contents() == StackImage(args, old(esp)) + old(Contents())
      ensures forall i :: 0 <= i < esp - STACK_PAGE ==> page[i] == old(page)[i]
    {
      ghost var top := esp;
      ghost var c0 := Contents();
      ghost var strings := ArgsArea(args, 0);
      ghost var pad := Padding(args, top);
      ghost var argv := ArgvAddr(args, top);
      StackPointers(args, top);
      var addrs := WriteArgs(args);
      ghost var c1 := Contents();
      WordAlignment();
      ghost var c2 := Contents();
      WriteAddrs(addrs);
      ghost var c3 := Contents();
      WriteArgc(|args|);
      WriteRetAddr();
      PushedInOrder(Le32(0), Le32(|args|), Le32(argv), Words(addrs, 0), Le32(NULL), Zeros(pad), strings,
                    c0, c1, c2, c3, Contents());
    }
  }
}
