/** What each single call does, for all arguments: contents bit by bit, result and bus accesses, stated on
    addresses modulo 2^32 and on page numbers. */
module FlashCalls {
  import opened Arithmetic32
  import opened FlashLayout
  import opened FlashWords
  import opened NvmcDevice
  import opened FlashDriver
  import opened FlashSafety

  /** A `size_t` as the caller sees it in the `int` result. */
  function Returned(size: u32): (r: int)
    ensures -0x8000_0000 <= r < 0x8000_0000 && (r == size || r == size - 0x1_0000_0000)
  {
    if size < 0x8000_0000 then size else size - 0x1_0000_0000
  }

  /** A read delivers `size` bytes, byte `i` from address `addr + i`, or is rejected with the error and
      nothing delivered. It never changes the flash. */
  lemma ReadExactly(env: Environment, s: Flash, addr: u32, size: u32, i: nat)
    requires WellFormed(s)
    ensures After(env, s, Read(addr, size)) == s
    ensures var r, at := Result(env, s, Read(addr, size)), (addr + i) % 0x1_0000_0000;
      if (addr + size) % 0x1_0000_0000 > MCU_FLASH_END_ADDRESS then r == Outcome(-RT_EINVAL, [])
      else
        && r.ret == Returned(size) && |r.data| == size
        && (i < size ==> r.data[i] == if at < MCU_FLASH_SIZE then s.mem[at] else env.outside(at))
  {
    assert i < size ==> Add(addr, i) == (addr + i) % 0x1_0000_0000;
  }

  /** It loads those bytes one by one, in order; a rejected read loads nothing. */
  lemma ReadLoads(env: Environment, s: Flash, addr: u32, size: u32, i: nat)
    ensures var t := Trace(env, s, Read(addr, size));
      && |t| == (if (addr + size) % 0x1_0000_0000 > MCU_FLASH_END_ADDRESS then 0 else size)
      && (i < |t| ==> t[i] == Access((addr + i) % 0x1_0000_0000, 1))
  {
    if size > 0 { ByteAccessAt(addr, size, if i < size then i else 0); }
  }

  /** The condition for a write to be accepted. */
  predicate Writable(addr: u32, size: u32) {
    size >= 1 && addr % 4 == 0 && (addr + size) % 0x1_0000_0000 <= MCU_FLASH_END_ADDRESS
  }

  /** An accepted write ANDs byte `i` of the buffer into the byte at `addr + i` and changes no other byte;
      any other write does nothing and returns the error of the check it fails. */
  lemma WriteExactly(env: Environment, s: Flash, addr: u32, data: Buffer, j: u32)
    requires WellFormed(s) && j < MCU_FLASH_SIZE
    ensures var s', at := After(env, s, Write(addr, data)), (j - addr) % 0x1_0000_0000;
      if Writable(addr, |data|) then
        s'.mem[j] == (if at < |data| then And(s.mem[j], data[at]) else s.mem[j]) && s'.attempts == s.attempts
      else s' == s
    ensures Result(env, s, Write(addr, data)) == Outcome(
      if Writable(addr, |data|) then Returned(|data|)
      else if addr % 4 == 0 && (addr + |data|) % 0x1_0000_0000 <= MCU_FLASH_END_ADDRESS then -RT_ERROR
      else -RT_EINVAL, [])
  {
    Distance(j, addr);
  }

  lemma Distance(a: u32, b: u32)
    ensures (a - b) % 0x1_0000_0000 == Sub(a, b)
  {
  }

  /** An accepted write stores the words of its range in order, any other none. */
  lemma WriteStores(env: Environment, s: Flash, addr: u32, data: Buffer, i: nat)
    ensures var t := Trace(env, s, Write(addr, data));
      && |t| == (if Writable(addr, |data|) then (|data| + 3) / 4 else 0)
      && (i < |t| ==> t[i] == Access((addr + 4 * i) % 0x1_0000_0000, 4))
  {
    WriteAcceptedIff(addr, |data|);
    if Writable(addr, |data|) { WordsStored(addr, |data|, WordCount(|data|), i); }
  }

  lemma WriteAcceptedIff(addr: u32, size: u32)
    ensures WriteAccepted(addr, size) <==> Writable(addr, size)
  {
  }

  lemma WordsStored(addr: u32, size: u32, n: nat, i: nat)
    requires n == (size + 3) / 4 >= 1
    ensures |WordAccesses(addr, n)| == n
    ensures i < n ==> WordAccesses(addr, n)[i] == Access((addr + 4 * i) % 0x1_0000_0000, 4)
  {
    WordAccessAt(addr, n, if i < n then i else 0);
  }

  /** Bit by bit: after an accepted write a bit is set exactly when it was set before and, if the write
      reaches the byte, is set in the buffer. */
  lemma WriteBits(env: Environment, s: Flash, addr: u32, data: Buffer, j: u32, k: nat)
    requires WellFormed(s) && j < MCU_FLASH_SIZE && k < 8 && Writable(addr, |data|)
    ensures Bit(After(env, s, Write(addr, data)).mem[j], k) <==>
      && Bit(s.mem[j], k)
      && forall i :: 0 <= i < |data| && (addr + i) % 0x1_0000_0000 == j ==> Bit(data[i], k)
  {
    var at := (j - addr) % 0x1_0000_0000;
    WriteExactly(env, s, addr, data, j);
    OnlyDistance(addr, j, at);
    forall i | 0 <= i < |data| && (addr + i) % 0x1_0000_0000 == j
      ensures at < |data| && data[i] == data[at]
    {
      OnlyDistance(addr, j, i);
    }
    if at < |data| { AndBit(s.mem[j], data[at], k); }
  }

  /** Byte `j` is reached from `addr` by one distance below 2^32. */
  lemma OnlyDistance(addr: u32, j: u32, i: u32)
    ensures (addr + i) % 0x1_0000_0000 == j <==> i == (j - addr) % 0x1_0000_0000
  {
  }

  // ---------------------------------------------------------------- erase

  /** The number of the last page of the range; -1 if the range ends right at the end of the address space. */
  function LastPage(addr: u32, size: u32): int {
    ((addr + size) % 0x1_0000_0000 - 1) / 0x1000
  }

  /** The pages of an accepted erase are all there: it starts in the flash, and the last page, as far as the
      addition of 32 bits tells, is not more than one before the first. */
  predicate AllPagesThere(addr: u32, size: u32) {
    addr < MCU_FLASH_END_ADDRESS && LastPage(addr, size) >= addr / 0x1000 - 1
  }

  /** How many pages it erases if none fails: otherwise it runs on to the end of the flash, or finds no page
      to start with. */
  function PagesReached(addr: u32, size: u32): nat {
    if AllPagesThere(addr, size) then LastPage(addr, size) - addr / 0x1000 + 1
    else if addr < MCU_FLASH_END_ADDRESS then PAGES - addr / 0x1000
    else 0
  }

  lemma PagesReachedAre(addr: u32, size: u32)
    requires (addr + size) % 0x1_0000_0000 <= MCU_FLASH_END_ADDRESS
    ensures !OutOfRange(addr, size)
    ensures ExistingPages(GetPage(addr), NbOfPages(addr, size)) == PagesReached(addr, size)
    ensures NbOfPages(addr, size) == PagesReached(addr, size) <==> AllPagesThere(addr, size)
  {
    var end := Add(addr, size);
    assert end == (addr + size) % 0x1_0000_0000;
    LastPageOf(end);
  }

  /** The driver computes the last page of a range that ends at address 0 as `NO_PAGE`. */
  lemma LastPageOf(end: u32)
    requires end <= MCU_FLASH_END_ADDRESS
    ensures GetPage(Sub(end, 1)) == if end == 0 then NO_PAGE else (end - 1) / 0x1000
    ensures -1 <= (end - 1) / 0x1000 < PAGES && (end == 0 <==> (end - 1) / 0x1000 == -1)
  {
  }

  /** A rejected erase does nothing and returns the error. */
  lemma EraseRejected(env: Environment, s: Flash, addr: u32, size: u32)
    requires WellFormed(s) && (addr + size) % 0x1_0000_0000 > MCU_FLASH_END_ADDRESS
    ensures After(env, s, Erase(addr, size)) == s
    ensures Result(env, s, Erase(addr, size)) == Outcome(-RT_EINVAL, [])
    ensures Trace(env, s, Erase(addr, size)) == []
  {
  }

  /** An accepted erase whose `k` first page erases work and whose next one, if there is one, fails. */
  ghost predicate ErasesPages(env: Environment, s: Flash, addr: u32, size: u32, k: nat) {
    && WellFormed(s) && (addr + size) % 0x1_0000_0000 <= MCU_FLASH_END_ADDRESS
    && k <= PagesReached(addr, size) && (k < PagesReached(addr, size) ==> !env.eraseSucceeds(s.attempts + k))
    && forall i :: s.attempts <= i < s.attempts + k ==> env.eraseSucceeds(i)
  }

  /** The size is returned. */
  predicate Complete(addr: u32, size: u32, k: nat) {
    AllPagesThere(addr, size) && k == PagesReached(addr, size)
  }

  /** Exactly the first `k` pages are ones afterwards and every other byte is as before; the size is returned
      exactly when those are all the pages. */
  lemma EraseExactly(env: Environment, s: Flash, addr: u32, size: u32, k: nat, j: nat)
    requires ErasesPages(env, s, addr, size, k) && j < MCU_FLASH_SIZE
    ensures var s', first := After(env, s, Erase(addr, size)), addr / 0x1000;
      && s'.mem[j] == (if first <= j / 0x1000 < first + k then ALL_ONES else s.mem[j])
      && s'.attempts == s.attempts + if k < PagesReached(addr, size) then k + 1 else k
    ensures Result(env, s, Erase(addr, size)) == Outcome(if Complete(addr, size, k) then Returned(size) else -RT_EINVAL, [])
  {
    PagesReachedAre(addr, size);
    SuccessesAre(env, s.attempts, PagesReached(addr, size), k);
    InPages(GetPage(addr), GetPage(addr) + k, j);
  }

  /** It accesses each page once, in order, up to the first that fails. */
  lemma EraseAccesses(env: Environment, s: Flash, addr: u32, size: u32, k: nat, i: nat)
    requires ErasesPages(env, s, addr, size, k)
    ensures var t := Trace(env, s, Erase(addr, size));
      && |t| == (if Complete(addr, size, k) then k else k + 1)
      && (i < |t| ==>
            t[i] == Access(if addr < MCU_FLASH_END_ADDRESS then (addr / 0x1000 + i) * 0x1000 else 0xFFFF_F000, 0x1000))
  {
    var first, n := GetPage(addr), if Complete(addr, size, k) then k else k + 1;
    PagesReachedAre(addr, size);
    SuccessesAre(env, s.attempts, PagesReached(addr, size), k);
    assert Trace(env, s, Erase(addr, size)) == PageAccesses(first, n);
    if n > 0 { PageAccessAt(first, n, if i < n then i else 0); }
    if i < n { PageAddressAt(first, addr, i); }
  }

  lemma PageAddressAt(first: u32, addr: u32, i: nat)
    requires first == GetPage(addr) && (if first < PAGES then first + i <= PAGES else i == 0)
    ensures PageAddress(Add(first, i)) == if addr < MCU_FLASH_END_ADDRESS then (addr / 0x1000 + i) * 0x1000 else 0xFFFF_F000
  {
  }

  /** Bit by bit: an erase sets every bit of the pages it erases and leaves all others as they were. */
  lemma EraseBits(env: Environment, s: Flash, addr: u32, size: u32, k: nat, j: nat, b: nat)
    requires ErasesPages(env, s, addr, size, k) && j < MCU_FLASH_SIZE && b < 8
    ensures Bit(After(env, s, Erase(addr, size)).mem[j], b) <==>
      addr / 0x1000 <= j / 0x1000 < addr / 0x1000 + k || Bit(s.mem[j], b)
  {
    EraseExactly(env, s, addr, size, k, j);
    AndBit(ALL_ONES, ALL_ONES, b);
  }
}
