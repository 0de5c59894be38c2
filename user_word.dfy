/** Reading system-call arguments from the user stack (userprog/syscall.c):
    `get_user` reads one byte of user memory, `get_user_word` puts four of
    them together into an `int`, least significant byte first, and
    `fetch_argument` reads the word of argument N above the stack
    pointer.  An address at or above PHYS_BASE terminates the process,
    which is modelled by the result None. */
module UserWord {
  import opened Machine
  import opened Wrappers

  /** The bytes of user memory that can be read without a fault. */
  type UserMemory = map<int, Byte>

  /** `get_user`: the byte at UADDR, or -1 when reading it faults. */
  function GetUser(mem: UserMemory, uaddr: int): (r: Option<int>)
    ensures r.None? <==> !IsUserVaddr(uaddr)
    ensures r.Some? ==> -1 <= r.value < 256
  {
    if !IsUserVaddr(uaddr) then None
    else if uaddr in mem then Some(mem[uaddr] as int)
    else Some(-1)
  }

  /** `get_user_word`: `b0 + (b1 << 8) + (b2 << 16) + (b3 << 24)` over the
      four bytes from UADDR up, in 32-bit two's complement. */
  function GetUserWord(mem: UserMemory, uaddr: int): (r: Option<Int32>)
    requires 0 <= uaddr
    ensures r.None? <==> !IsUserVaddr(uaddr + 3)
  {
    var b0 := GetUser(mem, uaddr);
    if b0.None? then None else
    var b1 := GetUser(mem, uaddr + 1);
    if b1.None? then None else
    var b2 := GetUser(mem, uaddr + 2);
    if b2.None? then None else
    var b3 := GetUser(mem, uaddr + 3);
    if b3.None? then None else
    Some(Wrap32(b3.value * 0x100_0000 + b2.value * 0x1_0000 + b1.value * 0x100 + b0.value))
  }

  /** Reading back a word the user stored gives the stored value. */
  lemma GetUserWordRoundTrip(mem: UserMemory, uaddr: int, v: Int32)
    requires 0 <= uaddr && uaddr + 3 < PHYS_BASE
    requires forall k :: 0 <= k < 4 ==> uaddr + k in mem && mem[uaddr + k] == Le32(v)[k]
    ensures GetUserWord(mem, uaddr) == Some(v)
  {
    var b := Le32(v);
    assert Le32(v)[0] == b[0] && Le32(v)[1] == b[1] && Le32(v)[2] == b[2] && Le32(v)[3] == b[3];
    assert mem[uaddr] == b[0] && mem[uaddr + 1] == b[1] && mem[uaddr + 2] == b[2] && mem[uaddr + 3] == b[3];
    Le32RoundTrip(v);
    assert v < 0 ==> v % 0x1_0000_0000 == v + 0x1_0000_0000;
  }

  /** `fetch_argument`: the word at `esp + 4 * arg_num`, where the offset is
      computed in 32-bit unsigned arithmetic. */
  function FetchArgument(mem: UserMemory, esp: int, argNum: int): (r: Option<Int32>)
    requires 0 <= esp < ADDR_LIMIT && 0 <= argNum < ADDR_LIMIT
  {
    var ptr := (esp + argNum * 4 % ADDR_LIMIT) % ADDR_LIMIT;
    if !IsUserVaddr(ptr) then None else GetUserWord(mem, ptr)
  }

  /** Argument N lies N words above the stack pointer: when that word is
      below PHYS_BASE, `fetch_argument` returns what `get_user_word` reads
      there, and the user's stored value when it was stored there. */
  lemma FetchArgumentReadsWord(mem: UserMemory, esp: int, argNum: int)
    requires 0 <= esp && 0 <= argNum && esp + 4 * argNum + 3 < PHYS_BASE
    ensures FetchArgument(mem, esp, argNum) == GetUserWord(mem, esp + 4 * argNum)
    ensures FetchArgument(mem, esp, argNum).Some?
  {
  }

  /** Past the top of user memory the process is terminated instead. */
  lemma FetchArgumentAbovePhysBase(mem: UserMemory, esp: int, argNum: int)
    requires 0 <= esp && 0 <= argNum && PHYS_BASE <= esp + 4 * argNum < ADDR_LIMIT
    ensures FetchArgument(mem, esp, argNum) == None
  {
  }
}
