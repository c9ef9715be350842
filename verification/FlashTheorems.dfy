/** What single calls and short sequences of calls do to the flash: exact coverage of writes and erases,
    round trips, and cutting one call into several. */
module FlashTheorems {
  import opened Arithmetic32
  import opened FlashLayout
  import opened FlashWords
  import opened NorMemory
  import opened NvmcDevice
  import opened FlashDriver

  // ---------------------------------------------------------------- erase

  /** The pages a non-empty range inside the flash meets. */
  lemma PagesOfRange(addr: u32, size: u32)
    requires size >= 1 && addr + size <= MCU_FLASH_END_ADDRESS
    ensures !OutOfRange(addr, size) && GetPage(addr) == addr / 0x1000
    ensures NbOfPages(addr, size) == (addr + size - 1) / 0x1000 - addr / 0x1000 + 1
    ensures ExistingPages(GetPage(addr), NbOfPages(addr, size)) == NbOfPages(addr, size)
    ensures addr / 0x1000 <= (addr + size - 1) / 0x1000 < PAGES
  {
    assert GetPage(Sub(Add(addr, size), 1)) == (addr + size - 1) / 0x1000;
  }

  /** A successful erase sets the whole page range to ones and nothing else. */
  lemma EraseSucceeds(env: Environment, s: Flash, addr: u32, size: u32)
    requires WellFormed(s) && size >= 1 && addr + size <= MCU_FLASH_END_ADDRESS
    requires Result(env, s, Erase(addr, size)).ret == size
    ensures After(env, s, Erase(addr, size)).mem
            == Erased(s.mem, addr / 0x1000 * 0x1000, ((addr + size - 1) / 0x1000 + 1) * 0x1000)
  {
    PagesOfRange(addr, size);
  }

  /** That page range is the smallest page-aligned range around the requested one. */
  lemma SmallestPageRange(addr: nat, size: nat, lo: nat, hi: nat)
    requires size >= 1
    ensures addr / 0x1000 * 0x1000 <= addr && addr + size <= ((addr + size - 1) / 0x1000 + 1) * 0x1000
    ensures lo % 0x1000 == 0 && hi % 0x1000 == 0 && lo <= addr && addr + size <= hi ==>
      lo <= addr / 0x1000 * 0x1000 && ((addr + size - 1) / 0x1000 + 1) * 0x1000 <= hi
  {
    Floor(lo, addr);
    if hi >= 1 && addr + size <= hi {
      Floor(addr + size - 1, hi - 1);
    }
  }

  /** `s'` is what a successful erase of `[lo, hi)` makes of `s`. */
  ghost predicate ErasedTo(env: Environment, s: Flash, lo: u32, hi: u32, s': Flash) {
    && lo <= hi && WellFormed(s)
    && Result(env, s, Erase(lo, hi - lo)).ret == hi - lo
    && s' == After(env, s, Erase(lo, hi - lo))
  }

  lemma ErasedToRange(env: Environment, s: Flash, lo: u32, hi: u32, s': Flash)
    requires lo < hi <= MCU_FLASH_END_ADDRESS && ErasedTo(env, s, lo, hi, s')
    ensures s'.mem == Erased(s.mem, lo / 0x1000 * 0x1000, ((hi - 1) / 0x1000 + 1) * 0x1000)
  {
    EraseSucceeds(env, s, lo, hi - lo);
  }

  /** Erasing two adjacent ranges is erasing their union, also when the cut is inside a page. */
  lemma EraseSplits(env: Environment, s: Flash, a: u32, b: u32, c: u32, s1: Flash, s2: Flash, whole: Flash)
    requires a < b < c <= MCU_FLASH_END_ADDRESS
    requires ErasedTo(env, s, a, b, s1) && ErasedTo(env, s1, b, c, s2) && ErasedTo(env, s, a, c, whole)
    ensures s2.mem == whole.mem
  {
    ErasedToRange(env, s, a, b, s1);
    ErasedToRange(env, s1, b, c, s2);
    ErasedToRange(env, s, a, c, whole);
    PagesUnion(s.mem, a, b, c);
  }

  lemma PagesUnion(mem: seq<Byte>, a: nat, b: nat, c: nat)
    requires a < b < c
    ensures Erased(Erased(mem, a / 0x1000 * 0x1000, ((b - 1) / 0x1000 + 1) * 0x1000),
                   b / 0x1000 * 0x1000, ((c - 1) / 0x1000 + 1) * 0x1000)
            == Erased(mem, a / 0x1000 * 0x1000, ((c - 1) / 0x1000 + 1) * 0x1000)
  {
    Floor(a, b);
    Floor(b - 1, c - 1);
    ErasedUnion(mem, a / 0x1000 * 0x1000, ((b - 1) / 0x1000 + 1) * 0x1000, b / 0x1000 * 0x1000, ((c - 1) / 0x1000 + 1) * 0x1000);
  }

  lemma ErasedUnion(m: seq<Byte>, lo: int, mid: int, mid': int, hi: int)
    requires lo <= mid' <= mid <= hi
    ensures Erased(Erased(m, lo, mid), mid', hi) == Erased(m, lo, hi)
  {
  }

  /** An erase of no bytes: nothing at a page boundary, but the whole page around any other address; at
      the very end of the flash the page count wraps to 129 and the first erase is refused. */
  lemma EraseOfNoBytes(env: Environment, s: Flash, addr: u32)
    requires WellFormed(s) && addr <= MCU_FLASH_END_ADDRESS
    ensures NbOfPages(addr, 0) == if addr == MCU_FLASH_END_ADDRESS then 129 else if addr % 0x1000 == 0 then 0 else 1
    ensures After(env, s, Erase(addr, 0)).mem ==
      if addr % 0x1000 != 0 && env.eraseSucceeds(s.attempts)
      then Erased(s.mem, addr / 0x1000 * 0x1000, (addr / 0x1000 + 1) * 0x1000)
      else s.mem
    ensures Result(env, s, Erase(addr, 0)).ret ==
      if addr == MCU_FLASH_END_ADDRESS || (addr % 0x1000 != 0 && !env.eraseSucceeds(s.attempts)) then -RT_EINVAL else 0
  {
    if addr < MCU_FLASH_END_ADDRESS {
      PageBefore(addr);
      SuccessesAre(env, s.attempts, NbOfPages(addr, 0), if addr % 0x1000 != 0 && env.eraseSucceeds(s.attempts) then 1 else 0);
    }
  }

  lemma PageBefore(addr: nat)
    ensures addr > 0 ==> (addr - 1) / 0x1000 == addr / 0x1000 - if addr % 0x1000 == 0 then 1 else 0
    ensures addr % 0x1000 == 0 <==> addr == addr / 0x1000 * 0x1000
  {
  }

  /** Some address of the page is in the range, which may run round the end of the address space. */
  ghost predicate PageMeets(page: nat, addr: u32, size: u32) {
    exists a: u32 :: InBoth(a, page, addr, size)
  }

  predicate InBoth(a: u32, page: nat, addr: u32, size: u32) {
    a / 0x1000 == page && Sub(a, addr) < size
  }

  /** Only pages from the first to the last one computed can change. */
  lemma ErasedPagesOnly(env: Environment, s: Flash, addr: u32, size: u32, j: nat)
    requires WellFormed(s) && j < MCU_FLASH_SIZE && After(env, s, Erase(addr, size)).mem[j] != s.mem[j]
    ensures !OutOfRange(addr, size) && addr < MCU_FLASH_END_ADDRESS
    ensures GetPage(addr) <= j / 0x1000 < GetPage(addr) + ExistingPages(GetPage(addr), NbOfPages(addr, size))
  {
    var first := GetPage(addr);
    InPages(first, first + Successes(env, s.attempts, ExistingPages(first, NbOfPages(addr, size))), j);
  }

  /** Whatever the flash holds and whichever erases fail, only pages meeting the range change. */
  ghost predicate EraseStaysOnItsPages(addr: u32, size: u32) {
    forall env: Environment, s: Flash | WellFormed(s) :: ChangesOnlyItsPages(env, s, addr, size)
  }

  ghost predicate ChangesOnlyItsPages(env: Environment, s: Flash, addr: u32, size: u32)
    requires WellFormed(s)
  {
    forall j :: 0 <= j < MCU_FLASH_SIZE && !PageMeets(j / 0x1000, addr, size) ==> After(env, s, Erase(addr, size)).mem[j] == s.mem[j]
  }

  /** When an erase keeps to the pages of its range, for all arguments. */
  lemma WhenEraseStaysOnItsPages(addr: u32, size: u32)
    ensures EraseStaysOnItsPages(addr, size) <==> OutOfRange(addr, size) || size >= 1 || addr % 0x1000 == 0
  {
    if OutOfRange(addr, size) || size >= 1 || addr % 0x1000 == 0 {
      forall env: Environment, s: Flash | WellFormed(s)
        ensures ChangesOnlyItsPages(env, s, addr, size)
      {
        EraseKeepsRest(env, s, addr, size);
      }
    } else {
      EmptyEraseStrays(addr);
    }
  }

  lemma EmptyEraseStrays(addr: u32)
    requires addr < MCU_FLASH_END_ADDRESS && addr % 0x1000 != 0
    ensures !EraseStaysOnItsPages(addr, 0)
  {
    var env := Environment(_ => true, _ => ALL_ONES);
    var s := Flash(seq(MCU_FLASH_SIZE, _ => ALL_ZEROS), 0);
    EraseOfNoBytes(env, s, addr);
    PageBefore(addr);
    assert After(env, s, Erase(addr, 0)).mem[addr] == ALL_ONES;
    assert !ChangesOnlyItsPages(env, s, addr, 0);
  }

  lemma EraseKeepsRest(env: Environment, s: Flash, addr: u32, size: u32)
    requires WellFormed(s) && (OutOfRange(addr, size) || size >= 1 || addr % 0x1000 == 0)
    ensures ChangesOnlyItsPages(env, s, addr, size)
  {
    forall j | 0 <= j < MCU_FLASH_SIZE && After(env, s, Erase(addr, size)).mem[j] != s.mem[j]
      ensures PageMeets(j / 0x1000, addr, size)
    {
      ErasedPagesOnly(env, s, addr, size, j);
      if size == 0 { EraseOfNoBytes(env, s, addr); }
      ErasedPageMeets(addr, size, j / 0x1000);
    }
  }

  lemma ErasedPageMeets(addr: u32, size: u32, page: nat)
    requires !OutOfRange(addr, size) && addr < MCU_FLASH_END_ADDRESS && size >= 1
    requires GetPage(addr) <= page < GetPage(addr) + ExistingPages(GetPage(addr), NbOfPages(addr, size))
    ensures PageMeets(page, addr, size)
  {
    if addr + size < MODULUS { PagesOfRange(addr, size); }
    assert page * 0x1000 < addr ==> page == addr / 0x1000;
    assert addr + size < MODULUS ==> page * 0x1000 < addr + size;
    assert InBoth(if page * 0x1000 < addr then addr else page * 0x1000, page, addr, size);
  }

  // ---------------------------------------------------------------- write and read

  /** Reading back a write gives the buffer exactly when no bit had to be set. */
  lemma ReadBackIff(env: Environment, s: Flash, addr: u32, data: Buffer)
    requires WellFormed(s) && |data| >= 1 && addr % 4 == 0 && addr + |data| <= MCU_FLASH_END_ADDRESS
    ensures Result(env, After(env, s, Write(addr, data)), Read(addr, |data|)).data == data
       <==> forall i, k :: 0 <= i < |data| && 0 <= k < 8 ==> Bit(data[i], k) ==> Bit(s.mem[addr + i], k)
  {
    var s' := After(env, s, Write(addr, data));
    var got := Result(env, s', Read(addr, |data|)).data;
    forall i | 0 <= i < |data|
      ensures got[i] == data[i] <==> forall k :: 0 <= k < 8 ==> Bit(data[i], k) ==> Bit(s.mem[addr + i], k)
    {
      assert got[i] == s'.mem[addr + i];
      AndCommutes(s.mem[addr + i], data[i]);
      AndKeeps(data[i], s.mem[addr + i]);
    }
    if forall i :: 0 <= i < |data| ==> got[i] == data[i] {
      assert got == data;
    }
  }

  lemma AndCommutes(x: Byte, y: Byte)
    ensures And(x, y) == And(y, x)
  {
  }

  /** The `n` bytes from `addr` on are erased. */
  ghost predicate Blank(s: Flash, addr: nat, n: nat)
    requires WellFormed(s) && addr + n <= MCU_FLASH_SIZE
  {
    forall j :: addr <= j < addr + n ==> s.mem[j] == ALL_ONES
  }

  lemma EraseBlanks(env: Environment, s: Flash, addr: u32, size: u32)
    requires WellFormed(s) && size >= 1 && addr + size <= MCU_FLASH_END_ADDRESS
    requires Result(env, s, Erase(addr, size)).ret == size
    ensures Blank(After(env, s, Erase(addr, size)), addr, size)
  {
    EraseSucceeds(env, s, addr, size);
    SmallestPageRange(addr, size, 0, 0);
  }

  lemma WriteOnBlank(env: Environment, s: Flash, addr: u32, data: Buffer)
    requires WellFormed(s) && |data| >= 1 && addr % 4 == 0 && addr + |data| <= MCU_FLASH_END_ADDRESS
    requires Blank(s, addr, |data|)
    ensures Result(env, After(env, s, Write(addr, data)), Read(addr, |data|)) == Outcome(|data|, data)
  {
    forall i, k | 0 <= i < |data| && 0 <= k < 8
      ensures Bit(data[i], k) ==> Bit(s.mem[addr + i], k)
    {
      AndBit(ALL_ONES, ALL_ONES, k);
    }
    ReadBackIff(env, s, addr, data);
  }

  /** Erase, write, read: the buffer comes back unchanged. */
  lemma EraseWriteRead(env: Environment, s: Flash, addr: u32, data: Buffer)
    requires WellFormed(s) && |data| >= 1 && addr % 4 == 0 && addr + |data| <= MCU_FLASH_END_ADDRESS
    requires Result(env, s, Erase(addr, |data|)).ret == |data|
    ensures var s' := Run(env, s, [Erase(addr, |data|), Write(addr, data)]);
      Result(env, s', Read(addr, |data|)) == Outcome(|data|, data)
  {
    RunTwo(env, s, Erase(addr, |data|), Write(addr, data));
    EraseBlanks(env, s, addr, |data|);
    WriteOnBlank(env, After(env, s, Erase(addr, |data|)), addr, data);
  }

  lemma RunTwo(env: Environment, s: Flash, c: Call, d: Call)
    requires WellFormed(s)
    ensures Run(env, s, [c, d]) == After(env, After(env, s, c), d)
  {
    assert [c, d][..1] == [c] && [c][..0] == [];
    assert Run(env, s, [c]) == After(env, s, c);
  }

  /** One write may be cut at any word boundary, whichever of the two write paths the parts take. */
  lemma WriteSplits(env: Environment, s: Flash, a: u32, x: Buffer, y: Buffer)
    requires WellFormed(s) && |x| >= 1 && |y| >= 1 && |x| % 4 == 0 && a + |x| + |y| <= MCU_FLASH_END_ADDRESS
    ensures After(env, After(env, s, Write(a, x)), Write(a + |x|, y)) == After(env, s, Write(a, x + y))
  {
    if a % 4 == 0 {
      ProgrammedSplits(s.mem, a, x, y);
    }
  }

  /** A cut elsewhere loses the second part: it starts off a word boundary and is rejected. */
  lemma WriteCutOffWord(env: Environment, s: Flash, a: u32, x: Buffer, y: Buffer)
    requires WellFormed(s) && a % 4 == 0 && |x| % 4 != 0 && |y| >= 1 && a + |x| + |y| <= MCU_FLASH_END_ADDRESS
    ensures After(env, After(env, s, Write(a, x)), Write(a + |x|, y)) == After(env, s, Write(a, x))
    ensures Result(env, After(env, s, Write(a, x)), Write(a + |x|, y)).ret == -RT_EINVAL
  {
    assert (a + |x|) % 4 == |x| % 4;
  }

  ghost function Joined(chunks: seq<Buffer>): seq<Byte> {
    if chunks == [] then [] else chunks[0] + Joined(chunks[1..])
  }

  /** Writing the chunks one after the other. */
  ghost function WriteChunks(env: Environment, s: Flash, a: u32, chunks: seq<Buffer>): (s': Flash)
    requires WellFormed(s) && a + |Joined(chunks)| < MODULUS
    ensures WellFormed(s')
    decreases |chunks|
  {
    if chunks == [] then s
    else WriteChunks(env, After(env, s, Write(a, chunks[0])), a + |chunks[0]|, chunks[1..])
  }

  ghost predicate WordCuts(chunks: seq<Buffer>) {
    && (forall i :: 0 <= i < |chunks| ==> |chunks[i]| >= 1)
    && (forall i :: 0 <= i < |chunks| - 1 ==> |chunks[i]| % 4 == 0)
  }

  /** Any chunking on word boundaries is one write. */
  lemma {:induction false} ChunkedWrite(env: Environment, s: Flash, a: u32, chunks: seq<Buffer>)
    requires WellFormed(s) && a + |Joined(chunks)| <= MCU_FLASH_END_ADDRESS && WordCuts(chunks)
    ensures WriteChunks(env, s, a, chunks) == After(env, s, Write(a, Joined(chunks)))
    decreases |chunks|
  {
    if |chunks| == 1 {
      assert chunks[1..] == [] && Joined(chunks) == chunks[0];
    } else if |chunks| > 1 {
      var x, rest := chunks[0], chunks[1..];
      ChunkedWrite(env, After(env, s, Write(a, x)), a + |x|, rest);
      assert |Joined(rest)| >= |rest[0]|;
      WriteSplits(env, s, a, x, Joined(rest));
    }
  }
}
