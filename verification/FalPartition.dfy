/** The flash behind the FAL layer: the driver's offset wrappers and the partition calls on top of them. */
module FalPartition {
  import opened Arithmetic32
  import opened FlashLayout
  import opened FlashWords
  import opened NorMemory
  import opened NvmcDevice
  import opened FlashDriver
  import opened FlashSafety
  import FlashTheorems

  /** A partition of the on-chip flash. */
  datatype Partition = Partition(offset: u32, len: u32)

  /** The `filesystem` partition of the board. */
  const FILESYSTEM := Partition(224 * 1024, 120 * 1024)

  function SizeOf(c: Call): u32 {
    match c
    case Read(_, size) => size
    case Write(_, data) => |data|
    case Erase(_, size) => size
  }

  /** The partition's own bounds check; the sum wraps at 2^32. */
  predicate OutOfBound(part: Partition, c: Call) {
    Add(c.addr, SizeOf(c)) > part.len
  }

  /** The address the two layers arrive at. */
  function DeviceAddress(part: Partition, addr: u32): u32 {
    Add(MCU_FLASH_START_ADDRESS, Add(part.offset, addr))
  }

  /** The driver call behind a call on the partition. */
  function Shifted(part: Partition, c: Call): Call {
    var a := DeviceAddress(part, c.addr);
    match c
    case Read(_, size) => Read(a, size)
    case Write(_, data) => Write(a, data)
    case Erase(_, size) => Erase(a, size)
  }

  ghost function PartAfter(env: Environment, part: Partition, s: Flash, c: Call): (s': Flash)
    requires WellFormed(s)
    ensures WellFormed(s')
  {
    if OutOfBound(part, c) then s else After(env, s, Shifted(part, c))
  }

  ghost function PartResult(env: Environment, part: Partition, s: Flash, c: Call): Outcome
    requires WellFormed(s)
  {
    if OutOfBound(part, c) then Outcome(-1, []) else Result(env, s, Shifted(part, c))
  }

  ghost function PartTrace(env: Environment, part: Partition, s: Flash, c: Call): seq<Access>
    requires WellFormed(s)
  {
    if OutOfBound(part, c) then [] else Trace(env, s, Shifted(part, c))
  }

  ghost function PartRun(env: Environment, part: Partition, s: Flash, calls: seq<Call>): (s': Flash)
    requires WellFormed(s)
    ensures WellFormed(s')
  {
    if calls == [] then s
    else PartAfter(env, part, PartRun(env, part, s, calls[..|calls| - 1]), calls[|calls| - 1])
  }

  // ---------------------------------------------------------------- the calls

  method FalFlashRead(dev: Nvmc, offset: u32, buf: array<Byte>, size: u32) returns (ret: int)
    requires dev.Valid() && size <= buf.Length
    modifies buf, dev`trace
    ensures dev.Valid()
    ensures var r := Result(dev.env, dev.State(), Read(Add(MCU_FLASH_START_ADDRESS, offset), size));
      ret == r.ret && buf[..] == r.data + old(buf[..])[|r.data|..]
    ensures dev.trace == old(dev.trace) + Trace(dev.env, old(dev.State()), Read(Add(MCU_FLASH_START_ADDRESS, offset), size))
  {
    ret := McuFlashRead(dev, Add(MCU_FLASH_START_ADDRESS, offset), buf, size);
  }

  method FalFlashWrite(dev: Nvmc, offset: u32, buf: seq<Byte>, size: u32) returns (ret: int)
    requires dev.Valid() && size <= |buf|
    modifies dev
    ensures dev.Valid()
    ensures dev.State() == After(dev.env, old(dev.State()), Write(Add(MCU_FLASH_START_ADDRESS, offset), buf[..size]))
    ensures ret == Result(dev.env, old(dev.State()), Write(Add(MCU_FLASH_START_ADDRESS, offset), buf[..size])).ret
    ensures dev.trace == old(dev.trace) + Trace(dev.env, old(dev.State()), Write(Add(MCU_FLASH_START_ADDRESS, offset), buf[..size]))
  {
    ret := McuFlashWrite(dev, Add(MCU_FLASH_START_ADDRESS, offset), buf, size);
  }

  method FalFlashErase(dev: Nvmc, offset: u32, size: u32) returns (ret: int)
    requires dev.Valid()
    modifies dev
    ensures dev.Valid()
    ensures dev.State() == After(dev.env, old(dev.State()), Erase(Add(MCU_FLASH_START_ADDRESS, offset), size))
    ensures ret == Result(dev.env, old(dev.State()), Erase(Add(MCU_FLASH_START_ADDRESS, offset), size)).ret
    ensures dev.trace == old(dev.trace) + Trace(dev.env, old(dev.State()), Erase(Add(MCU_FLASH_START_ADDRESS, offset), size))
  {
    ret := McuFlashErase(dev, Add(MCU_FLASH_START_ADDRESS, offset), size);
  }

  method PartitionRead(dev: Nvmc, part: Partition, addr: u32, buf: array<Byte>, size: u32) returns (ret: int)
    requires dev.Valid() && size <= buf.Length
    modifies buf, dev`trace
    ensures dev.Valid()
    ensures var r := PartResult(dev.env, part, dev.State(), Read(addr, size));
      ret == r.ret && buf[..] == r.data + old(buf[..])[|r.data|..]
    ensures dev.trace == old(dev.trace) + PartTrace(dev.env, part, old(dev.State()), Read(addr, size))
  {
    if Add(addr, size) > part.len {
      return -1;
    }
    ret := FalFlashRead(dev, Add(part.offset, addr), buf, size);
  }

  method PartitionWrite(dev: Nvmc, part: Partition, addr: u32, buf: seq<Byte>, size: u32) returns (ret: int)
    requires dev.Valid() && size <= |buf|
    modifies dev
    ensures dev.Valid()
    ensures dev.State() == PartAfter(dev.env, part, old(dev.State()), Write(addr, buf[..size]))
    ensures ret == PartResult(dev.env, part, old(dev.State()), Write(addr, buf[..size])).ret
    ensures dev.trace == old(dev.trace) + PartTrace(dev.env, part, old(dev.State()), Write(addr, buf[..size]))
  {
    if Add(addr, size) > part.len {
      return -1;
    }
    ret := FalFlashWrite(dev, Add(part.offset, addr), buf, size);
  }

  method PartitionErase(dev: Nvmc, part: Partition, addr: u32, size: u32) returns (ret: int)
    requires dev.Valid()
    modifies dev
    ensures dev.Valid()
    ensures dev.State() == PartAfter(dev.env, part, old(dev.State()), Erase(addr, size))
    ensures ret == PartResult(dev.env, part, old(dev.State()), Erase(addr, size)).ret
    ensures dev.trace == old(dev.trace) + PartTrace(dev.env, part, old(dev.State()), Erase(addr, size))
  {
    if Add(addr, size) > part.len {
      return -1;
    }
    ret := FalFlashErase(dev, Add(part.offset, addr), size);
  }

  method PartitionEraseAll(dev: Nvmc, part: Partition) returns (ret: int)
    requires dev.Valid()
    modifies dev
    ensures dev.Valid()
    ensures dev.State() == PartAfter(dev.env, part, old(dev.State()), Erase(0, part.len))
    ensures ret == PartResult(dev.env, part, old(dev.State()), Erase(0, part.len)).ret
    ensures dev.trace == old(dev.trace) + PartTrace(dev.env, part, old(dev.State()), Erase(0, part.len))
  {
    ret := PartitionErase(dev, part, 0, part.len);
  }

  // ---------------------------------------------------------------- the window

  /** Both edges of the partition are page boundaries inside the flash. */
  predicate PageAligned(part: Partition) {
    part.offset % 0x1000 == 0 && part.len % 0x1000 == 0 && part.offset + part.len <= MCU_FLASH_END_ADDRESS
  }

  predicate NoWrap(c: Call) {
    c.addr + SizeOf(c) < MODULUS
  }

  predicate InWindow(part: Partition, j: nat) {
    part.offset <= j < part.offset + part.len
  }

  /** The pages `[first, first + n)` lie in the window. */
  predicate PagesInWindow(part: Partition, first: nat, n: nat) {
    n == 0 || (part.offset / 0x1000 <= first && first + n <= (part.offset + part.len) / 0x1000)
  }

  lemma WindowPages(part: Partition, j: nat)
    requires PageAligned(part)
    ensures InWindow(part, j) <==> part.offset / 0x1000 <= j / 0x1000 < (part.offset + part.len) / 0x1000
    ensures part.offset / 0x1000 * 0x1000 == part.offset
    ensures (part.offset + part.len) / 0x1000 * 0x1000 == part.offset + part.len
  {
    InPages(part.offset / 0x1000, (part.offset + part.len) / 0x1000, j);
  }

  /** A range that passes the bounds check is in range for the driver, and keeps its alignment. */
  lemma BoundImpliesRange(part: Partition, addr: u32, size: u32)
    requires PageAligned(part) && Add(addr, size) <= part.len
    ensures !OutOfRange(DeviceAddress(part, addr), size)
    ensures addr % 4 == 0 <==> DeviceAddress(part, addr) % 4 == 0
    ensures addr + size < MODULUS ==> DeviceAddress(part, addr) == part.offset + addr
  {
    SameAlignment(part.offset / 0x1000, addr);
  }

  lemma SameAlignment(page: nat, addr: nat)
    ensures (page * 0x1000 + addr) % 4 == addr % 4
    ensures (page * 0x1000 + addr - 0x1_0000_0000) % 4 == addr % 4
  {
    var q := page * 0x400 + addr / 4;
    Mod4(page * 0x1000 + addr, q, addr % 4);
    Mod4(page * 0x1000 + addr - 0x1_0000_0000, q - 0x4000_0000, addr % 4);
  }

  lemma Mod4(x: int, q: int, r: nat)
    requires x == 4 * q + r && r < 4
    ensures x % 4 == r
  {
  }

  /** Without a wrap an accepted erase computes pages of the window, unless it is empty at the very end of
      the flash. */
  lemma NoWrapErase(part: Partition, c: Call, a: u32)
    requires PageAligned(part) && c.Erase? && NoWrap(c) && !OutOfBound(part, c) && a == DeviceAddress(part, c.addr)
    requires c.size >= 1 || a != MCU_FLASH_END_ADDRESS
    ensures GetPage(a) < PAGES && GetPage(a) + NbOfPages(a, c.size) <= PAGES
    ensures PagesInWindow(part, GetPage(a), NbOfPages(a, c.size))
  {
    WindowPages(part, a);
    if c.size >= 1 {
      FlashTheorems.PagesOfRange(a, c.size);
      WindowPages(part, a + c.size - 1);
    } else {
      FlashTheorems.PageBefore(a);
    }
  }

  // ---------------------------------------------------------------- isolation

  /** Whatever the flash holds and whichever erases fail, the call changes no byte outside the window. */
  ghost predicate IsolatedCall(part: Partition, c: Call) {
    forall env: Environment, s: Flash | WellFormed(s) :: OutsideUnchanged(env, part, s, c)
  }

  ghost predicate OutsideUnchanged(env: Environment, part: Partition, s: Flash, c: Call)
    requires WellFormed(s)
  {
    forall j :: 0 <= j < MCU_FLASH_SIZE && !InWindow(part, j) ==> PartAfter(env, part, s, c).mem[j] == s.mem[j]
  }

  /** Byte `i` of a write from `a` on lands in the window, outside the flash, or clears nothing. */
  predicate Harmless(part: Partition, a: u32, data: Buffer, i: nat)
    requires i < |data|
  {
    Add(a, i) >= MCU_FLASH_SIZE || InWindow(part, Add(a, i)) || data[i] == ALL_ONES
  }

  /** The guard: what a caller can check of a call that it changes nothing outside the window. */
  predicate KeepsOutside(part: Partition, c: Call) {
    OutOfBound(part, c) ||
    match Shifted(part, c)
    case Read(_, _) => true
    case Write(a, data) => !WriteAccepted(a, |data|) || forall i :: 0 <= i < |data| ==> Harmless(part, a, data, i)
    case Erase(a, size) => PagesInWindow(part, GetPage(a), ExistingPages(GetPage(a), NbOfPages(a, size)))
  }

  lemma WriteKeepsOutside(env: Environment, part: Partition, s: Flash, a: u32, data: Buffer, j: u32)
    requires WellFormed(s) && j < MCU_FLASH_SIZE && !InWindow(part, j)
    requires forall i :: 0 <= i < |data| ==> Harmless(part, a, data, i)
    ensures After(env, s, Write(a, data)).mem[j] == s.mem[j]
  {
    if WriteAccepted(a, |data|) && Sub(j, a) < |data| {
      assert Add(a, Sub(j, a)) == j;
      assert Harmless(part, a, data, Sub(j, a));
      OnesAreNeutral(s.mem[j]);
    }
  }

  lemma EraseKeepsOutside(env: Environment, part: Partition, s: Flash, a: u32, size: u32, j: nat)
    requires WellFormed(s) && PageAligned(part) && j < MCU_FLASH_SIZE && !InWindow(part, j)
    requires PagesInWindow(part, GetPage(a), ExistingPages(GetPage(a), NbOfPages(a, size)))
    ensures After(env, s, Erase(a, size)).mem[j] == s.mem[j]
  {
    if After(env, s, Erase(a, size)).mem[j] != s.mem[j] {
      FlashTheorems.ErasedPagesOnly(env, s, a, size, j);
      WindowPages(part, j);
    }
  }

  /** A call that meets the guard leaves every byte outside the window alone. */
  lemma CallKeepsOutside(env: Environment, part: Partition, s: Flash, c: Call, j: nat)
    requires WellFormed(s) && PageAligned(part) && KeepsOutside(part, c) && j < MCU_FLASH_SIZE && !InWindow(part, j)
    ensures PartAfter(env, part, s, c).mem[j] == s.mem[j]
  {
    if !OutOfBound(part, c) {
      match Shifted(part, c)
      case Read(_, _) =>
      case Write(a, data) =>
        if WriteAccepted(a, |data|) { WriteKeepsOutside(env, part, s, a, data, j); }
      case Erase(a, size) =>
        EraseKeepsOutside(env, part, s, a, size, j);
    }
  }

  lemma WriteChangesOutside(part: Partition, c: Call, i: nat)
    requires PageAligned(part) && c.Write? && !OutOfBound(part, c) && i < |c.data|
    requires WriteAccepted(Shifted(part, c).addr, |c.data|) && !Harmless(part, Shifted(part, c).addr, c.data, i)
    ensures !IsolatedCall(part, c)
  {
    var env, s, a := NoFailures(), BlankFlash(), Shifted(part, c).addr;
    var j := Add(a, i);
    assert Sub(j, a) == i;
    OnesAreLeftNeutral(c.data[i]);
    assert PartAfter(env, part, s, c).mem[j] == c.data[i];
    assert !OutsideUnchanged(env, part, s, c);
  }

  lemma EraseChangesOutside(part: Partition, c: Call)
    requires PageAligned(part) && c.Erase? && !OutOfBound(part, c)
    requires var a := Shifted(part, c).addr;
      !PagesInWindow(part, GetPage(a), ExistingPages(GetPage(a), NbOfPages(a, c.size)))
    ensures !IsolatedCall(part, c)
  {
    var env := NoFailures();
    var s := Flash(seq(MCU_FLASH_SIZE, _ => ALL_ZEROS), 0);
    var a := Shifted(part, c).addr;
    var first, n := GetPage(a), ExistingPages(GetPage(a), NbOfPages(a, c.size));
    BoundImpliesRange(part, c.addr, SizeOf(c));
    SuccessesAre(env, 0, n, n);
    var page := if first < part.offset / 0x1000 then first else first + n - 1;
    PageOutside(part, page);
    assert PartAfter(env, part, s, c).mem[page * 0x1000] == ALL_ONES;
    assert !OutsideUnchanged(env, part, s, c);
  }

  lemma PageOutside(part: Partition, page: nat)
    requires PageAligned(part) && !(part.offset / 0x1000 <= page < (part.offset + part.len) / 0x1000)
    ensures !InWindow(part, page * 0x1000)
  {
    WindowPages(part, page * 0x1000);
  }

  /** The guard is exact, for every call. */
  lemma IsolatedCallIff(part: Partition, c: Call)
    requires PageAligned(part)
    ensures IsolatedCall(part, c) <==> KeepsOutside(part, c)
  {
    if KeepsOutside(part, c) {
      forall env: Environment, s: Flash | WellFormed(s)
        ensures OutsideUnchanged(env, part, s, c)
      {
        forall j | 0 <= j < MCU_FLASH_SIZE && !InWindow(part, j)
          ensures PartAfter(env, part, s, c).mem[j] == s.mem[j]
        {
          CallKeepsOutside(env, part, s, c, j);
        }
      }
    } else if c.Write? {
      var i :| 0 <= i < |c.data| && !Harmless(part, Shifted(part, c).addr, c.data, i);
      WriteChangesOutside(part, c, i);
    } else {
      EraseChangesOutside(part, c);
    }
  }

  /** Every call whose range does not wrap meets it. */
  lemma NoWrapKeepsOutside(part: Partition, c: Call)
    requires PageAligned(part) && NoWrap(c)
    ensures KeepsOutside(part, c)
  {
    if !OutOfBound(part, c) {
      match c
      case Read(_, _) =>
      case Write(addr, data) => NoWrapWrite(part, addr, DeviceAddress(part, addr), data);
      case Erase(addr, _) => NoWrapEraseKeeps(part, c, DeviceAddress(part, addr));
    }
  }

  lemma NoWrapWrite(part: Partition, addr: u32, a: u32, data: Buffer)
    requires PageAligned(part) && a == DeviceAddress(part, addr) && addr + |data| <= part.len
    ensures forall i :: 0 <= i < |data| ==> Harmless(part, a, data, i)
  {
  }

  lemma NoWrapEraseKeeps(part: Partition, c: Call, a: u32)
    requires PageAligned(part) && c.Erase? && NoWrap(c) && !OutOfBound(part, c) && a == DeviceAddress(part, c.addr)
    ensures PagesInWindow(part, GetPage(a), ExistingPages(GetPage(a), NbOfPages(a, c.size)))
  {
    if c.size >= 1 || a != MCU_FLASH_END_ADDRESS {
      NoWrapErase(part, c, a);
    } else {
      assert GetPage(a) == NO_PAGE;
    }
  }

  /** No run of such calls on a page-aligned partition, failing and rejected ones included, changes a byte
      outside its window. */
  lemma {:induction false} PartitionIsolation(env: Environment, part: Partition, s: Flash, calls: seq<Call>, j: nat)
    requires WellFormed(s) && PageAligned(part) && forall i :: 0 <= i < |calls| ==> KeepsOutside(part, calls[i])
    requires j < MCU_FLASH_SIZE && !InWindow(part, j)
    ensures PartRun(env, part, s, calls).mem[j] == s.mem[j]
    decreases |calls|
  {
    if calls != [] {
      var shorter, c := calls[..|calls| - 1], calls[|calls| - 1];
      PartitionIsolation(env, part, s, shorter, j);
      CallKeepsOutside(env, part, PartRun(env, part, s, shorter), c, j);
    }
  }

  /** The board's file system window qualifies. */
  lemma {:induction false} FilesystemIsolation(env: Environment, s: Flash, calls: seq<Call>, j: nat)
    requires WellFormed(s) && forall i :: 0 <= i < |calls| ==> NoWrap(calls[i]) || KeepsOutside(FILESYSTEM, calls[i])
    requires j < 224 * 1024 || 344 * 1024 <= j < MCU_FLASH_SIZE
    ensures PartRun(env, FILESYSTEM, s, calls).mem[j] == s.mem[j]
  {
    forall i | 0 <= i < |calls|
      ensures KeepsOutside(FILESYSTEM, calls[i])
    {
      if NoWrap(calls[i]) { NoWrapKeepsOutside(FILESYSTEM, calls[i]); }
    }
    PartitionIsolation(env, FILESYSTEM, s, calls, j);
  }

  // ---------------------------------------------------------------- confinement

  ghost predicate InWindowOnly(part: Partition, t: seq<Access>) {
    AllInside(t, part.offset, part.offset + part.len)
  }

  /** A partition read touches only the window exactly when it is rejected or does not wrap. */
  lemma ReadsConfined(env: Environment, part: Partition, s: Flash, c: Call)
    requires WellFormed(s) && PageAligned(part) && c.Read?
    ensures InWindowOnly(part, PartTrace(env, part, s, c)) <==> OutOfBound(part, c) || NoWrap(c)
  {
    if !OutOfBound(part, c) {
      BoundImpliesRange(part, c.addr, SizeOf(c));
      if NoWrap(c) {
        BytesInside(part.offset + c.addr, c.size, part.offset + part.len);
      } else {
        WrappedRead(part, c.addr, Add(part.offset, c.addr), c.size);
      }
    }
  }

  lemma WrappedRead(part: Partition, addr: u32, a: u32, size: u32)
    requires PageAligned(part) && a == Add(part.offset, addr) && addr + size >= MODULUS && Add(addr, size) <= part.len
    ensures !InWindowOnly(part, ByteAccesses(a, size))
  {
    // The byte just past the window, or the first one if the call starts beyond it.
    var k := if addr < part.len then part.len - addr else 0;
    ByteAccessAt(a, size, k);
    assert !Inside(ByteAccesses(a, size)[k], part.offset, part.offset + part.len);
  }

  function WordsUpTo(from: nat, to: nat): (k: nat)
    requires from <= to && from % 4 == 0 && to % 4 == 0
    ensures from + 4 * k == to
  {
    (to - from) / 4
  }

  lemma WrappedWrite(part: Partition, addr: u32, a: u32, size: u32)
    requires PageAligned(part) && a == Add(part.offset, addr) && addr + size >= MODULUS && Add(addr, size) <= part.len
    requires addr % 4 == 0
    ensures !InWindowOnly(part, WordAccesses(a, WordCount(size)))
  {
    if addr < part.len {
      var k := WordsUpTo(addr, part.len);
      assert a + 4 * k == part.offset + part.len;
      WordOutside(part, a, WordCount(size), k);
    } else {
      WordOutside(part, a, WordCount(size), 0);
    }
  }

  lemma WordOutside(part: Partition, a: u32, n: nat, k: nat)
    requires k < n && 4 * n <= MODULUS && !InWindow(part, Add(a, 4 * k))
    ensures !InWindowOnly(part, WordAccesses(a, n))
  {
    WordAccessAt(a, n, k);
    assert !Inside(WordAccesses(a, n)[k], part.offset, part.offset + part.len);
  }

  lemma WordsInWindow(part: Partition, a: u32, size: u32, hi: u32)
    requires PageAligned(part) && hi == part.offset + part.len && part.offset <= a && a + size <= hi
    requires a % 4 == 0 && size >= 1
    ensures InWindowOnly(part, WordAccesses(a, WordCount(size)))
  {
    WordsInside(a, size, hi);
  }

  /** The words a partition write programs. */
  lemma WriteTrace(env: Environment, part: Partition, s: Flash, c: Call)
    requires WellFormed(s) && PageAligned(part) && c.Write?
    ensures PartTrace(env, part, s, c) ==
      if OutOfBound(part, c) || c.addr % 4 != 0 || |c.data| == 0 then []
      else WordAccesses(DeviceAddress(part, c.addr), WordCount(|c.data|))
  {
    if !OutOfBound(part, c) { BoundImpliesRange(part, c.addr, |c.data|); }
  }

  lemma WordsConfined(part: Partition, addr: u32, a: u32, size: u32)
    requires PageAligned(part) && a == DeviceAddress(part, addr) && Add(addr, size) <= part.len
    requires addr % 4 == 0 && size >= 1
    ensures InWindowOnly(part, WordAccesses(a, WordCount(size))) <==> addr + size < MODULUS
  {
    BoundImpliesRange(part, addr, size);
    if addr + size < MODULUS {
      WordsInWindow(part, a, size, part.offset + part.len);
    } else {
      WrappedWrite(part, addr, a, size);
    }
  }

  /** A partition write touches only the window exactly when it is rejected, by either layer, or does not
      wrap. */
  lemma WritesConfined(env: Environment, part: Partition, s: Flash, c: Call)
    requires WellFormed(s) && PageAligned(part) && c.Write?
    ensures InWindowOnly(part, PartTrace(env, part, s, c)) <==> OutOfBound(part, c) || NoWrap(c) || c.addr % 4 != 0
  {
    WriteTrace(env, part, s, c);
    if !(OutOfBound(part, c) || c.addr % 4 != 0 || |c.data| == 0) {
      WordsConfined(part, c.addr, DeviceAddress(part, c.addr), |c.data|);
    }
  }

  /** A non-wrapping partition erase addresses only pages of the window exactly when it is rejected, not
      empty, or not right at the end of the flash. */
  lemma ErasesConfined(env: Environment, part: Partition, s: Flash, c: Call)
    requires WellFormed(s) && PageAligned(part) && c.Erase? && NoWrap(c)
    ensures InWindowOnly(part, PartTrace(env, part, s, c))
       <==> OutOfBound(part, c) || c.size >= 1 || part.offset + c.addr != MCU_FLASH_END_ADDRESS
  {
    if !OutOfBound(part, c) {
      var a := DeviceAddress(part, c.addr);
      BoundImpliesRange(part, c.addr, SizeOf(c));
      if c.size >= 1 || a != MCU_FLASH_END_ADDRESS {
        NoWrapErase(part, c, a);
        PagesConfined(env, part, s, GetPage(a), NbOfPages(a, c.size));
      } else {
        FlashTheorems.EraseOfNoBytes(env, s, a);
        PagesOutside(env, s, NO_PAGE, NbOfPages(a, 0));
        OutsideTheWindow(part, PagesTrace(env, s, NO_PAGE, NbOfPages(a, 0)));
      }
    }
  }

  lemma OutsideTheWindow(part: Partition, t: seq<Access>)
    requires PageAligned(part) && exists e :: e in t && e.addr >= MCU_FLASH_END_ADDRESS && e.len > 0
    ensures !InWindowOnly(part, t)
  {
    var e :| e in t && e.addr >= MCU_FLASH_END_ADDRESS && e.len > 0;
    var i :| 0 <= i < |t| && t[i] == e;
    assert !Inside(t[i], part.offset, part.offset + part.len);
  }

  lemma PagesConfined(env: Environment, part: Partition, s: Flash, first: u32, count: u32)
    requires WellFormed(s) && PageAligned(part) && first < PAGES && first + count <= PAGES
    requires PagesInWindow(part, first, count)
    ensures InWindowOnly(part, PagesTrace(env, s, first, count))
  {
    PagesInside(env, s, first, count);
    WindowPages(part, 0);
    var t, lo, hi := PagesTrace(env, s, first, count), first * 0x1000, (first + count) * 0x1000;
    if count > 0 {
      assert part.offset <= lo && hi <= part.offset + part.len;
    }
  }

  /** The guard for every call: what a caller can check of it that it touches nothing outside the window. */
  predicate Confined(part: Partition, c: Call) {
    OutOfBound(part, c) ||
    match c
    case Read(_, _) => NoWrap(c)
    case Write(addr, _) => NoWrap(c) || addr % 4 != 0
    case Erase(_, size) =>
      var a := Shifted(part, c).addr;
      PagesInWindow(part, GetPage(a), NbOfPages(a, size))
  }

  /** A call that meets the guard touches only the window. */
  lemma CallConfined(env: Environment, part: Partition, s: Flash, c: Call)
    requires WellFormed(s) && PageAligned(part) && Confined(part, c)
    ensures InWindowOnly(part, PartTrace(env, part, s, c))
  {
    match c
    case Read(_, _) => ReadsConfined(env, part, s, c);
    case Write(_, _) => WritesConfined(env, part, s, c);
    case Erase(_, size) => EraseConfined(env, part, s, c);
  }

  lemma EraseConfined(env: Environment, part: Partition, s: Flash, c: Call)
    requires WellFormed(s) && PageAligned(part) && c.Erase? && Confined(part, c)
    ensures InWindowOnly(part, PartTrace(env, part, s, c))
  {
    if !OutOfBound(part, c) {
      var a := Shifted(part, c).addr;
      BoundImpliesRange(part, c.addr, SizeOf(c));
      if NbOfPages(a, c.size) == 0 {
        assert PagesTrace(env, s, GetPage(a), 0) == [];
      } else {
        PagesConfined(env, part, s, GetPage(a), NbOfPages(a, c.size));
      }
    }
  }

  /** Whatever the flash holds and whichever erases fail, the call touches nothing outside the window. */
  ghost predicate AlwaysConfined(part: Partition, c: Call) {
    forall env: Environment, s: Flash | WellFormed(s) :: InWindowOnly(part, PartTrace(env, part, s, c))
  }

  /** The guard is exact, for every call. */
  lemma WhenConfined(part: Partition, c: Call)
    requires PageAligned(part)
    ensures AlwaysConfined(part, c) <==> Confined(part, c)
  {
    if Confined(part, c) {
      forall env: Environment, s: Flash | WellFormed(s)
        ensures InWindowOnly(part, PartTrace(env, part, s, c))
      {
        CallConfined(env, part, s, c);
      }
    } else {
      var env, s := NoFailures(), BlankFlash();
      match c {
        case Read(_, _) => ReadsConfined(env, part, s, c);
        case Write(_, _) => WritesConfined(env, part, s, c);
        case Erase(_, _) => EraseStraysOutside(part, c);
      }
      assert WellFormed(s) && !InWindowOnly(part, PartTrace(env, part, s, c));
    }
  }

  lemma EraseStraysOutside(part: Partition, c: Call)
    requires PageAligned(part) && c.Erase? && !Confined(part, c)
    ensures !InWindowOnly(part, PartTrace(NoFailures(), part, BlankFlash(), c))
  {
    var env, s, a := NoFailures(), BlankFlash(), Shifted(part, c).addr;
    var first, count := GetPage(a), NbOfPages(a, c.size);
    BoundImpliesRange(part, c.addr, SizeOf(c));
    if first < PAGES && first + count <= PAGES {
      SuccessesAre(env, 0, count, count);
      PageStraysOutside(part, first, count);
    } else {
      var n := ExistingPages(first, count);
      SuccessesAre(env, 0, n, n);
      PagesOutside(env, s, first, count);
      OutsideTheWindow(part, PagesTrace(env, s, first, count));
    }
  }

  lemma PageStraysOutside(part: Partition, first: u32, count: u32)
    requires PageAligned(part) && first < PAGES && first + count <= PAGES && !PagesInWindow(part, first, count)
    ensures !InWindowOnly(part, PageAccesses(first, count))
  {
    var k := if first < part.offset / 0x1000 then 0 else count - 1;
    PageAccessAt(first, count, k);
    PageAddresses(first, k);
    PageOutside(part, first + k);
    assert !Inside(PageAccesses(first, count)[k], part.offset, part.offset + part.len);
  }

  /** The bus accesses of a run of calls on the partition. */
  ghost function PartRunTrace(env: Environment, part: Partition, s: Flash, calls: seq<Call>): seq<Access>
    requires WellFormed(s)
  {
    if calls == [] then []
    else
      var shorter := calls[..|calls| - 1];
      PartRunTrace(env, part, s, shorter) + PartTrace(env, part, PartRun(env, part, s, shorter), calls[|calls| - 1])
  }

  /** No run of calls that meet the guard reads, programs or erases an address outside the window. */
  lemma {:induction false} RunConfined(env: Environment, part: Partition, s: Flash, calls: seq<Call>)
    requires WellFormed(s) && PageAligned(part) && forall i :: 0 <= i < |calls| ==> Confined(part, calls[i])
    ensures InWindowOnly(part, PartRunTrace(env, part, s, calls))
    decreases |calls|
  {
    if calls != [] {
      var shorter, c := calls[..|calls| - 1], calls[|calls| - 1];
      RunConfined(env, part, s, shorter);
      CallConfined(env, part, PartRun(env, part, s, shorter), c);
      InsideJoined(PartRunTrace(env, part, s, shorter), PartTrace(env, part, PartRun(env, part, s, shorter), c),
                   part.offset, part.offset + part.len);
    }
  }

  /** For the board's file system window every call whose range does not wrap meets the guard. */
  lemma FilesystemConfined(c: Call)
    requires NoWrap(c)
    ensures Confined(FILESYSTEM, c)
  {
    if c.Erase? && !OutOfBound(FILESYSTEM, c) {
      NoWrapErase(FILESYSTEM, c, DeviceAddress(FILESYSTEM, c.addr));
    }
  }

  /** Why the condition is needed: this wrapping range passes the bounds check, and the word programmed is
      the one just below the file system window. */
  lemma BoundsCheckCounterexample(env: Environment, s: Flash, data: Buffer)
    requires WellFormed(s) && |data| == 4
    ensures !OutOfBound(FILESYSTEM, Write(MODULUS - 4, data))
    ensures PartAfter(env, FILESYSTEM, s, Write(MODULUS - 4, data)).mem
            == Programmed(s.mem, 224 * 1024 - 4, data)
  {
  }

  /** Nothing happens and -1 is returned. */
  ghost predicate IsRejected(env: Environment, part: Partition, s: Flash, c: Call)
    requires WellFormed(s)
  {
    PartAfter(env, part, s, c) == s && PartResult(env, part, s, c) == Outcome(-1, []) && PartTrace(env, part, s, c) == []
  }

  /** For every partition and call: beyond the bound nothing happens and -1 is returned. */
  lemma PartitionRejects(env: Environment, part: Partition, s: Flash, c: Call)
    requires WellFormed(s) && (c.addr + SizeOf(c)) % 0x1_0000_0000 > part.len
    ensures IsRejected(env, part, s, c)
  {
    assert OutOfBound(part, c);
  }

  /** The call on the partition is the driver call at `a`: contents, result and bus accesses. */
  ghost predicate IsDriverCallAt(env: Environment, part: Partition, s: Flash, c: Call, a: u32)
    requires WellFormed(s)
  {
    && PartAfter(env, part, s, c) == After(env, s, c.(addr := a))
    && PartResult(env, part, s, c) == Result(env, s, c.(addr := a))
    && PartTrace(env, part, s, c) == Trace(env, s, c.(addr := a))
  }

  /** Any other call is the driver call with the offset added to the address. */
  lemma PartitionPasses(env: Environment, part: Partition, s: Flash, c: Call, a: u32)
    requires WellFormed(s) && (c.addr + SizeOf(c)) % 0x1_0000_0000 <= part.len
    requires a == (part.offset + c.addr) % 0x1_0000_0000
    ensures IsDriverCallAt(env, part, s, c, a)
  {
    assert !OutOfBound(part, c);
    assert Shifted(part, c) == c.(addr := a);
  }

  /** Inside its bounds the partition is the flash moved by the offset. */
  lemma InBound(env: Environment, part: Partition, s: Flash, c: Call, a: u32)
    requires WellFormed(s) && PageAligned(part) && c.addr + SizeOf(c) <= part.len && a == part.offset + c.addr
    ensures IsDriverCallAt(env, part, s, c, a)
  {
    assert Shifted(part, c) == c.(addr := a);
  }

  /** The board's window, for calls that do not wrap: the 120 KB from 224 KB on, all of them and no more. */
  lemma FilesystemBounds(env: Environment, s: Flash, c: Call)
    requires WellFormed(s) && NoWrap(c)
    ensures c.addr + SizeOf(c) > 120 * 1024 ==> IsRejected(env, FILESYSTEM, s, c)
    ensures c.addr + SizeOf(c) <= 120 * 1024 ==> IsDriverCallAt(env, FILESYSTEM, s, c, 224 * 1024 + c.addr)
  {
    var size := SizeOf(c);
    if c.addr + size <= 120 * 1024 {
      InBound(env, FILESYSTEM, s, c, 224 * 1024 + c.addr);
    } else {
      assert (c.addr + size) % 0x1_0000_0000 == c.addr + size;
      PartitionRejects(env, FILESYSTEM, s, c);
    }
  }

  /** The driver calls behind a run on the partition: those within the bound, with the offset added. */
  ghost function DriverCalls(part: Partition, calls: seq<Call>): seq<Call> {
    if calls == [] then [] else DriverCalls(part, calls[..|calls| - 1]) + DriverCall(part, calls[|calls| - 1])
  }

  function DriverCall(part: Partition, c: Call): seq<Call> {
    if OutOfBound(part, c) then [] else [Shifted(part, c)]
  }

  /** A run on the partition is a run of the driver: same contents, same bus accesses. */
  lemma {:induction false} PartRunIsDriverRun(env: Environment, part: Partition, s: Flash, calls: seq<Call>)
    requires WellFormed(s)
    ensures PartRun(env, part, s, calls) == Run(env, s, DriverCalls(part, calls))
    ensures PartRunTrace(env, part, s, calls) == RunTrace(env, s, DriverCalls(part, calls))
    decreases |calls|
  {
    if calls != [] {
      var shorter, c := calls[..|calls| - 1], calls[|calls| - 1];
      PartRunIsDriverRun(env, part, s, shorter);
      PartRunNext(env, part, s, DriverCalls(part, shorter), PartRun(env, part, s, shorter), c);
    }
  }

  lemma PartRunNext(env: Environment, part: Partition, s: Flash, made: seq<Call>, now: Flash, c: Call)
    requires WellFormed(s) && now == Run(env, s, made)
    ensures PartAfter(env, part, now, c) == Run(env, s, made + DriverCall(part, c))
    ensures RunTrace(env, s, made) + PartTrace(env, part, now, c) == RunTrace(env, s, made + DriverCall(part, c))
  {
    if OutOfBound(part, c) {
      assert made + [] == made && RunTrace(env, s, made) + [] == RunTrace(env, s, made);
      assert PartTrace(env, part, now, c) == [];
    } else {
      RunOneMore(env, s, made, Shifted(part, c));
      assert PartTrace(env, part, now, c) == Trace(env, now, Shifted(part, c));
    }
  }

  lemma RunOneMore(env: Environment, s: Flash, calls: seq<Call>, c: Call)
    requires WellFormed(s)
    ensures Run(env, s, calls + [c]) == After(env, Run(env, s, calls), c)
    ensures RunTrace(env, s, calls + [c]) == RunTrace(env, s, calls) + Trace(env, Run(env, s, calls), c)
  {
    assert (calls + [c])[..|calls|] == calls;
  }

  lemma PartRunTwo(env: Environment, part: Partition, s: Flash, c: Call, d: Call)
    requires WellFormed(s)
    ensures PartRun(env, part, s, [c, d]) == PartAfter(env, part, PartAfter(env, part, s, c), d)
  {
    assert [c, d][..1] == [c] && [c][..0] == [];
    assert PartRun(env, part, s, [c]) == PartAfter(env, part, s, c);
  }

  lemma PartEraseBlanks(env: Environment, part: Partition, s: Flash, addr: u32, n: u32, a: u32)
    requires WellFormed(s) && PageAligned(part) && n >= 1 && addr + n <= part.len && a == part.offset + addr
    requires PartResult(env, part, s, Erase(addr, n)).ret == n
    ensures FlashTheorems.Blank(PartAfter(env, part, s, Erase(addr, n)), a, n)
  {
    InBound(env, part, s, Erase(addr, n), a);
    FlashTheorems.EraseBlanks(env, s, a, n);
  }

  lemma PartWriteOnBlank(env: Environment, part: Partition, s: Flash, addr: u32, data: Buffer, n: u32, a: u32, s': Flash)
    requires WellFormed(s) && PageAligned(part) && n == |data| >= 1 && addr % 4 == 0 && addr + n <= part.len
    requires a == part.offset + addr && FlashTheorems.Blank(s, a, n)
    requires s' == PartAfter(env, part, s, Write(addr, data))
    ensures PartResult(env, part, s', Read(addr, n)) == Outcome(n, data)
  {
    assert a % 4 == 0 by { SameAlignment(part.offset / 0x1000, addr); }
    assert s' == After(env, s, Write(a, data)) by { InBound(env, part, s, Write(addr, data), a); }
    assert PartResult(env, part, s', Read(addr, n)) == Result(env, s', Read(a, n)) by { InBound(env, part, s', Read(addr, n), a); }
    WriteOnBlankTo(env, s, a, data, n, s');
  }

  lemma WriteOnBlankTo(env: Environment, s: Flash, a: u32, data: Buffer, n: u32, s': Flash)
    requires WellFormed(s) && n == |data| >= 1 && a % 4 == 0 && a + n <= MCU_FLASH_END_ADDRESS
    requires FlashTheorems.Blank(s, a, n) && s' == After(env, s, Write(a, data))
    ensures Result(env, s', Read(a, n)) == Outcome(n, data)
  {
    FlashTheorems.WriteOnBlank(env, s, a, data);
  }

  /** Erase, write and read back through the partition. */
  lemma PartitionRoundTrip(env: Environment, part: Partition, s: Flash, addr: u32, data: Buffer)
    requires WellFormed(s) && PageAligned(part)
    requires |data| >= 1 && addr % 4 == 0 && addr + |data| <= part.len
    requires PartResult(env, part, s, Erase(addr, |data|)).ret == |data|
    ensures var s' := PartRun(env, part, s, [Erase(addr, |data|), Write(addr, data)]);
      PartResult(env, part, s', Read(addr, |data|)) == Outcome(|data|, data)
  {
    PartRunTwo(env, part, s, Erase(addr, |data|), Write(addr, data));
    PartEraseBlanks(env, part, s, addr, |data|, part.offset + addr);
    var blank := PartAfter(env, part, s, Erase(addr, |data|));
    PartWriteOnBlank(env, part, blank, addr, data, |data|, part.offset + addr, PartAfter(env, part, blank, Write(addr, data)));
  }
}
