/** Which addresses the driver touches: exactly when every bus access of a call stays in the flash. */
module FlashSafety {
  import opened Arithmetic32
  import opened FlashLayout
  import opened FlashWords
  import opened NvmcDevice
  import opened FlashDriver
  import FlashTheorems

  /** The access lies in `[lo, hi)`. */
  predicate Inside(e: Access, lo: nat, hi: nat) {
    lo <= e.addr && e.addr + e.len <= hi
  }

  ghost predicate AllInside(t: seq<Access>, lo: nat, hi: nat) {
    forall i :: 0 <= i < |t| ==> Inside(t[i], lo, hi)
  }

  ghost predicate AllInFlash(t: seq<Access>) {
    AllInside(t, MCU_FLASH_START_ADDRESS, MCU_FLASH_END_ADDRESS)
  }

  /** The 32-bit range check agrees with the true comparison except when the sum wraps into the flash. */
  lemma RangeCheckExactIff(addr: u32, size: u32)
    ensures (OutOfRange(addr, size) <==> addr + size > MCU_FLASH_END_ADDRESS)
       <==> addr + size < MODULUS || addr + size - MODULUS > MCU_FLASH_END_ADDRESS
  {
  }

  lemma {:induction false} ByteAccessAt(addr: u32, n: nat, k: nat)
    requires k < n <= MODULUS
    ensures |ByteAccesses(addr, n)| == n && ByteAccesses(addr, n)[k] == Access(Add(addr, k), 1)
    decreases n
  {
    if n > 1 { ByteAccessAt(addr, n - 1, if k < n - 1 then k else 0); }
  }

  lemma {:induction false} WordAccessAt(addr: u32, n: nat, k: nat)
    requires k < n && 4 * n <= MODULUS
    ensures |WordAccesses(addr, n)| == n && WordAccesses(addr, n)[k] == Access(Add(addr, 4 * k), 4)
    decreases n
  {
    if n > 1 { WordAccessAt(addr, n - 1, if k < n - 1 then k else 0); }
  }

  lemma {:induction false} PageAccessAt(first: u32, n: nat, k: nat)
    requires k < n < MODULUS
    ensures |PageAccesses(first, n)| == n
    ensures PageAccesses(first, n)[k] == Access(PageAddress(Add(first, k)), MCU_FLASH_PAGE_SIZE)
    decreases n
  {
    if n > 1 { PageAccessAt(first, n - 1, if k < n - 1 then k else 0); }
  }

  lemma BytesInside(addr: u32, size: u32, hi: u32)
    requires addr + size <= hi
    ensures AllInside(ByteAccesses(addr, size), addr, hi)
  {
    forall i | 0 <= i < |ByteAccesses(addr, size)|
      ensures Inside(ByteAccesses(addr, size)[i], addr, hi)
    {
      if size > 0 { ByteAccessAt(addr, size, 0); ByteAccessAt(addr, size, i); }
    }
  }

  lemma WordsInside(addr: u32, size: u32, hi: u32)
    requires addr % 4 == 0 && hi % 4 == 0 && addr + size <= hi && size >= 1
    ensures AllInside(WordAccesses(addr, WordCount(size)), addr, hi)
  {
    var n := WordCount(size);
    assert addr + 4 * n <= hi;
    WordAccessAt(addr, n, 0);
    forall i | 0 <= i < n
      ensures Inside(WordAccesses(addr, n)[i], addr, hi)
    {
      WordAccessAt(addr, n, i);
    }
  }

  /** A read stays in the flash exactly when it is rejected or its end address does not wrap. */
  lemma ReadSafety(env: Environment, s: Flash, addr: u32, size: u32)
    requires WellFormed(s)
    ensures AllInFlash(Trace(env, s, Read(addr, size))) <==> OutOfRange(addr, size) || addr + size < MODULUS
  {
    if !OutOfRange(addr, size) {
      if addr + size < MODULUS {
        BytesInside(addr, size, MCU_FLASH_END_ADDRESS);
      } else {
        var k := MODULUS - 1 - addr;
        ByteAccessAt(addr, size, k);
        assert !Inside(ByteAccesses(addr, size)[k], MCU_FLASH_START_ADDRESS, MCU_FLASH_END_ADDRESS);
      }
    }
  }

  /** A write stays in the flash exactly when it is rejected or its end address does not wrap. */
  lemma WriteSafety(env: Environment, s: Flash, addr: u32, data: Buffer)
    requires WellFormed(s)
    ensures AllInFlash(Trace(env, s, Write(addr, data))) <==> !WriteAccepted(addr, |data|) || addr + |data| < MODULUS
  {
    if WriteAccepted(addr, |data|) {
      if addr + |data| < MODULUS {
        WordsInside(addr, |data|, MCU_FLASH_END_ADDRESS);
      } else {
        var k := (MODULUS - 4 - addr) / 4;
        assert addr + 4 * k == MODULUS - 4;
        WordAccessAt(addr, WordCount(|data|), k);
        assert !Inside(WordAccesses(addr, WordCount(|data|))[k], MCU_FLASH_START_ADDRESS, MCU_FLASH_END_ADDRESS);
      }
    }
  }

  /** The page erases up to the first failing one, all on existing pages. */
  lemma PagesInside(env: Environment, s: Flash, first: u32, count: u32)
    requires first < PAGES
    requires first + count <= PAGES || Successes(env, s.attempts, PAGES - first) < PAGES - first
    ensures AllInFlash(PagesTrace(env, s, first, count))
    ensures AllInside(PagesTrace(env, s, first, count), first * 0x1000, (first + ExistingPages(first, count)) * 0x1000)
  {
    var existing := ExistingPages(first, count);
    var done := Successes(env, s.attempts, existing);
    var tried := if done == count then done else done + 1;
    assert tried <= existing;
    assert PagesTrace(env, s, first, count) == PageAccesses(first, tried);
    if tried > 0 { PageAccessAt(first, tried, 0); }
    forall i | 0 <= i < tried
      ensures Inside(PageAccesses(first, tried)[i], first * 0x1000, (first + existing) * 0x1000)
    {
      PageAccessAt(first, tried, i);
      PageAddresses(first, i);
    }
  }

  /** If every existing page is erased and more are wanted, the next page erase is outside the flash. */
  lemma PagesOutside(env: Environment, s: Flash, first: u32, count: u32)
    requires first < PAGES || (first == NO_PAGE && count >= 1)
    requires first < PAGES ==> first + count > PAGES && Successes(env, s.attempts, PAGES - first) == PAGES - first
    ensures !AllInFlash(PagesTrace(env, s, first, count))
    ensures exists e :: e in PagesTrace(env, s, first, count) && e.addr >= MCU_FLASH_END_ADDRESS && e.len > 0
  {
    var n := ExistingPages(first, count);
    PageAccessAt(first, n + 1, n);
    PageAddresses(first, n);
    assert PagesTrace(env, s, first, count) == PageAccesses(first, n + 1);
    assert !Inside(PageAccesses(first, n + 1)[n], MCU_FLASH_START_ADDRESS, MCU_FLASH_END_ADDRESS);
    assert PageAccesses(first, n + 1)[n].addr >= MCU_FLASH_END_ADDRESS;
  }

  /** For all arguments, an erase stays in the flash exactly when it is rejected, or starts in the flash
      and either computes only pages that exist or fails on one of them. */
  lemma EraseSafety(env: Environment, s: Flash, addr: u32, size: u32)
    requires WellFormed(s)
    ensures AllInFlash(Trace(env, s, Erase(addr, size))) <==>
      || OutOfRange(addr, size)
      || (GetPage(addr) < PAGES
          && (GetPage(addr) + NbOfPages(addr, size) <= PAGES
              || Successes(env, s.attempts, PAGES - GetPage(addr)) < PAGES - GetPage(addr)))
  {
    if !OutOfRange(addr, size) {
      var first, count := GetPage(addr), NbOfPages(addr, size);
      if first < PAGES && (first + count <= PAGES || Successes(env, s.attempts, PAGES - first) < PAGES - first) {
        PagesInside(env, s, first, count);
      } else {
        PagesOutside(env, s, first, count);
      }
    }
  }

  /** Rejected, or every page the erase computes exists. */
  predicate PagesExist(addr: u32, size: u32) {
    OutOfRange(addr, size) || (GetPage(addr) < PAGES && GetPage(addr) + NbOfPages(addr, size) <= PAGES)
  }

  /** An erase stays in the flash whatever it holds and whichever page erases fail exactly when it is
      rejected or all the pages it computes exist. */
  lemma EraseAlwaysInFlashIff(addr: u32, size: u32)
    ensures (forall env: Environment, s: Flash | WellFormed(s) :: AllInFlash(Trace(env, s, Erase(addr, size))))
       <==> PagesExist(addr, size)
  {
    if PagesExist(addr, size) {
      forall env: Environment, s: Flash | WellFormed(s)
        ensures AllInFlash(Trace(env, s, Erase(addr, size)))
      {
        EraseSafety(env, s, addr, size);
      }
    } else {
      var env, s := NoFailures(), BlankFlash();
      EraseSafety(env, s, addr, size);
      if GetPage(addr) < PAGES { SuccessesAre(env, 0, PAGES - GetPage(addr), PAGES - GetPage(addr)); }
    }
  }

  ghost function NoFailures(): Environment {
    Environment(_ => true, _ => ALL_ONES)
  }

  ghost function BlankFlash(): (s: Flash)
    ensures WellFormed(s) && s.attempts == 0 && forall j :: 0 <= j < MCU_FLASH_SIZE ==> s.mem[j] == ALL_ONES
  {
    Flash(seq(MCU_FLASH_SIZE, _ => ALL_ONES), 0)
  }

  /** Without a wrap an erase starting in the flash computes only existing pages. */
  lemma NoWrapPagesExist(addr: u32, size: u32)
    requires addr + size < MODULUS
    ensures PagesExist(addr, size) <==> addr + size > MCU_FLASH_END_ADDRESS || addr < MCU_FLASH_END_ADDRESS
  {
    if addr + size <= MCU_FLASH_END_ADDRESS {
      if size >= 1 { FlashTheorems.PagesOfRange(addr, size); } else { FlashTheorems.PageBefore(addr); }
    }
  }

  /** The call cannot leave the flash. */
  predicate NeverStrays(c: Call) {
    match c
    case Read(addr, size) => OutOfRange(addr, size) || addr + size < MODULUS
    case Write(addr, data) => !WriteAccepted(addr, |data|) || addr + |data| < MODULUS
    case Erase(addr, size) => PagesExist(addr, size)
  }

  /** That guard is exact, for every call. */
  lemma NeverStraysIff(c: Call)
    ensures (forall env: Environment, s: Flash | WellFormed(s) :: AllInFlash(Trace(env, s, c))) <==> NeverStrays(c)
  {
    match c
    case Read(addr, size) =>
      forall env: Environment, s: Flash | WellFormed(s)
        ensures AllInFlash(Trace(env, s, c)) <==> NeverStrays(c)
      {
        ReadSafety(env, s, addr, size);
      }
      assert WellFormed(BlankFlash()) && (AllInFlash(Trace(NoFailures(), BlankFlash(), c)) <==> NeverStrays(c));
    case Write(addr, data) =>
      forall env: Environment, s: Flash | WellFormed(s)
        ensures AllInFlash(Trace(env, s, c)) <==> NeverStrays(c)
      {
        WriteSafety(env, s, addr, data);
      }
      assert WellFormed(BlankFlash()) && (AllInFlash(Trace(NoFailures(), BlankFlash(), c)) <==> NeverStrays(c));
    case Erase(addr, size) =>
      EraseAlwaysInFlashIff(addr, size);
  }

  lemma StaysOnce(env: Environment, s: Flash, c: Call)
    requires WellFormed(s) && NeverStrays(c)
    ensures AllInFlash(Trace(env, s, c))
  {
    match c
    case Read(addr, size) => ReadSafety(env, s, addr, size);
    case Write(addr, data) => WriteSafety(env, s, addr, data);
    case Erase(addr, size) => EraseSafety(env, s, addr, size);
  }

  lemma InsideJoined(t: seq<Access>, u: seq<Access>, lo: nat, hi: nat)
    requires AllInside(t, lo, hi) && AllInside(u, lo, hi)
    ensures AllInside(t + u, lo, hi)
  {
  }

  /** No run of calls that meet the guard ever reads, programs or erases outside the flash. */
  lemma {:induction false} RunStaysInFlash(env: Environment, s: Flash, calls: seq<Call>)
    requires WellFormed(s) && forall i :: 0 <= i < |calls| ==> NeverStrays(calls[i])
    ensures AllInFlash(RunTrace(env, s, calls))
    decreases |calls|
  {
    if calls != [] {
      var shorter, c := calls[..|calls| - 1], calls[|calls| - 1];
      RunStaysInFlash(env, s, shorter);
      StaysOnce(env, Run(env, s, shorter), c);
      InsideJoined(RunTrace(env, s, shorter), Trace(env, Run(env, s, shorter), c), MCU_FLASH_START_ADDRESS, MCU_FLASH_END_ADDRESS);
    }
  }
}
