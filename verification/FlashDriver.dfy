/** The driver of the on-chip flash: its meaning on flash states, and the C functions as methods that
    are proved to have that meaning for every argument. */
module FlashDriver {
  import opened Arithmetic32
  import opened FlashLayout
  import opened FlashWords
  import opened NorMemory
  import opened NvmcDevice

  const RT_ERROR: int := 1
  const RT_EINVAL: int := 10

  type Buffer = b: seq<Byte> | |b| < MODULUS

  datatype Call =
    | Read(addr: u32, size: u32)
    | Write(addr: u32, data: Buffer)
    | Erase(addr: u32, size: u32)

  /** The `int` result, and for a read what it put into the caller's buffer. */
  datatype Outcome = Outcome(ret: int, data: seq<Byte>)

  /** The range check all three calls share; the sum wraps at 2^32. */
  predicate OutOfRange(addr: u32, size: u32) {
    Add(addr, size) > MCU_FLASH_END_ADDRESS
  }

  /** The bytes a read of `n` bytes delivers. */
  function Fetched(env: Environment, mem: seq<Byte>, addr: u32, n: nat): (d: seq<Byte>)
    requires |mem| == MCU_FLASH_SIZE && n < MODULUS
    ensures |d| == n
    ensures forall k :: 0 <= k < n ==> d[k] == Load(env, mem, Add(addr, k))
  {
    if n == 0 then [] else Fetched(env, mem, addr, n - 1) + [Load(env, mem, Add(addr, n - 1))]
  }

  predicate WriteAccepted(addr: u32, size: u32) {
    !OutOfRange(addr, size) && addr % 4 == 0 && size >= 1
  }

  /** How many pages an erase intends to erase, from page `GetPage(addr)` on. */
  function NbOfPages(addr: u32, size: u32): u32 {
    Add(Sub(GetPage(Sub(Add(addr, size), 1)), GetPage(addr)), 1)
  }

  /** How many of the `count` pages from page `first` on exist. */
  function ExistingPages(first: u32, count: u32): nat {
    if first >= PAGES then 0 else if first + count <= PAGES then count else PAGES - first
  }

  /** How many of the next `n` page erases succeed before one fails. */
  function Successes(env: Environment, from: nat, n: nat): (k: nat)
    ensures k <= n
    ensures forall i :: from <= i < from + k ==> env.eraseSucceeds(i)
    ensures k < n ==> !env.eraseSucceeds(from + k)
    decreases n
  {
    if n == 0 || !env.eraseSucceeds(from) then 0 else 1 + Successes(env, from + 1, n - 1)
  }

  lemma SuccessesAre(env: Environment, from: nat, n: nat, i: nat)
    requires i <= n && forall k :: from <= k < from + i ==> env.eraseSucceeds(k)
    requires i == n || !env.eraseSucceeds(from + i)
    ensures Successes(env, from, n) == i
  {
    var k := Successes(env, from, n);
    assert k >= i;
  }

  /** What erasing up to `count` pages from page `first` on does. */
  ghost function AfterPages(env: Environment, s: Flash, first: u32, count: u32): Flash {
    var existing := ExistingPages(first, count);
    var done := Successes(env, s.attempts, existing);
    Flash(Erased(s.mem, first * MCU_FLASH_PAGE_SIZE, (first + done) * MCU_FLASH_PAGE_SIZE),
          s.attempts + if done < existing then done + 1 else done)
  }

  /** Every intended page was erased. */
  predicate PagesComplete(env: Environment, s: Flash, first: u32, count: u32) {
    Successes(env, s.attempts, ExistingPages(first, count)) == count
  }

  /** The address passed to the erase of page number `page`. */
  function PageAddress(page: u32): u32 {
    if page < MODULUS / MCU_FLASH_PAGE_SIZE then page * MCU_FLASH_PAGE_SIZE
    else page * MCU_FLASH_PAGE_SIZE % MODULUS
  }

  lemma MultipleOfPage(page: nat)
    ensures page * MCU_FLASH_PAGE_SIZE % MCU_FLASH_PAGE_SIZE == 0
  {
  }

  /** The loop meets a page beyond the flash only after the last one, or at once. */
  lemma PageAddresses(first: u32, i: nat)
    requires (first < PAGES && first + i <= PAGES) || (first == NO_PAGE && i == 0)
    ensures PageAddress(Add(first, i)) % MCU_FLASH_PAGE_SIZE == 0
    ensures first + i < PAGES ==> PageAddress(Add(first, i)) == (first + i) * MCU_FLASH_PAGE_SIZE
    ensures first + i >= PAGES ==> PageAddress(Add(first, i)) >= MCU_FLASH_SIZE
  {
    if first == NO_PAGE {
      assert NO_PAGE * MCU_FLASH_PAGE_SIZE % MODULUS == 0xFFFFF000;
    } else {
      MultipleOfPage(first + i);
    }
  }

  /** Contents after `n` successful page erases from page `first` on, one page at a time. */
  ghost function PagesErased(m: seq<Byte>, first: u32, n: nat): seq<Byte>
    requires n < MODULUS
  {
    if n == 0 then m
    else
      var a := PageAddress(Add(first, n - 1));
      Erased(PagesErased(m, first, n - 1), a, a + MCU_FLASH_PAGE_SIZE)
  }

  /** Erasing page by page erases one contiguous range. */
  lemma {:induction false} PagesErasedIsRange(m: seq<Byte>, first: u32, n: nat)
    requires (first < PAGES && first + n <= PAGES) || n == 0
    ensures PagesErased(m, first, n) == Erased(m, first * MCU_FLASH_PAGE_SIZE, (first + n) * MCU_FLASH_PAGE_SIZE)
  {
    if n > 0 {
      PagesErasedIsRange(m, first, n - 1);
      PageAddresses(first, n - 1);
      ErasedExtends(m, first * MCU_FLASH_PAGE_SIZE, (first + n - 1) * MCU_FLASH_PAGE_SIZE, (first + n) * MCU_FLASH_PAGE_SIZE);
    }
  }

  ghost function PageAccesses(first: u32, n: nat): seq<Access>
    requires n < MODULUS
  {
    if n == 0 then [] else PageAccesses(first, n - 1) + [Access(PageAddress(Add(first, n - 1)), MCU_FLASH_PAGE_SIZE)]
  }

  /** The page erases attempted, the failing one included. */
  ghost function PagesTrace(env: Environment, s: Flash, first: u32, count: u32): seq<Access> {
    PageAccesses(first, Successes(env, s.attempts, ExistingPages(first, count))
                        + if PagesComplete(env, s, first, count) then 0 else 1)
  }

  /** The flash after one call. */
  ghost function After(env: Environment, s: Flash, c: Call): (s': Flash)
    requires WellFormed(s)
    ensures WellFormed(s')
  {
    match c
    case Read(_, _) => s
    case Write(addr, data) =>
      if WriteAccepted(addr, |data|) then s.(mem := Programmed(s.mem, addr, data)) else s
    case Erase(addr, size) =>
      if OutOfRange(addr, size) then s else AfterPages(env, s, GetPage(addr), NbOfPages(addr, size))
  }

  function WriteResult(addr: u32, size: u32): int {
    if OutOfRange(addr, size) || addr % 4 != 0 then -RT_EINVAL else if size < 1 then -RT_ERROR else ToInt(size)
  }

  ghost function Result(env: Environment, s: Flash, c: Call): Outcome
    requires WellFormed(s)
  {
    match c
    case Read(addr, size) =>
      if OutOfRange(addr, size) then Outcome(-RT_EINVAL, []) else Outcome(ToInt(size), Fetched(env, s.mem, addr, size))
    case Write(addr, data) => Outcome(WriteResult(addr, |data|), [])
    case Erase(addr, size) =>
      Outcome(if OutOfRange(addr, size) || !PagesComplete(env, s, GetPage(addr), NbOfPages(addr, size)) then -RT_EINVAL
              else ToInt(size), [])
  }

  /** The bus accesses of one call, in order. */
  ghost function Trace(env: Environment, s: Flash, c: Call): seq<Access> {
    match c
    case Read(addr, size) => if OutOfRange(addr, size) then [] else ByteAccesses(addr, size)
    case Write(addr, data) => if WriteAccepted(addr, |data|) then WordAccesses(addr, WordCount(|data|)) else []
    case Erase(addr, size) =>
      if OutOfRange(addr, size) then [] else PagesTrace(env, s, GetPage(addr), NbOfPages(addr, size))
  }

  /** The state after a run of calls. */
  ghost function Run(env: Environment, s: Flash, calls: seq<Call>): (s': Flash)
    requires WellFormed(s)
    ensures WellFormed(s')
  {
    if calls == [] then s
    else After(env, Run(env, s, calls[..|calls| - 1]), calls[|calls| - 1])
  }

  /** The outcomes of a whole run, call by call. */
  ghost function RunResults(env: Environment, s: Flash, calls: seq<Call>): (outcomes: seq<Outcome>)
    requires WellFormed(s)
    ensures |outcomes| == |calls|
  {
    if calls == [] then []
    else
      var shorter := calls[..|calls| - 1];
      RunResults(env, s, shorter) + [Result(env, Run(env, s, shorter), calls[|calls| - 1])]
  }

  /** The bus accesses of a whole run. */
  ghost function RunTrace(env: Environment, s: Flash, calls: seq<Call>): seq<Access>
    requires WellFormed(s)
  {
    if calls == [] then []
    else
      var shorter := calls[..|calls| - 1];
      RunTrace(env, s, shorter) + Trace(env, Run(env, s, shorter), calls[|calls| - 1])
  }

  method McuFlashRead(dev: Nvmc, addr: u32, buf: array<Byte>, size: u32) returns (ret: int)
    requires dev.Valid() && size <= buf.Length
    modifies buf, dev`trace
    ensures dev.Valid()
    ensures var r := Result(dev.env, dev.State(), Read(addr, size));
      ret == r.ret && buf[..] == r.data + old(buf[..])[|r.data|..]
    ensures dev.trace == old(dev.trace) + Trace(dev.env, old(dev.State()), Read(addr, size))
  {
    if Add(addr, size) > MCU_FLASH_END_ADDRESS {
      return -RT_EINVAL;
    }
    var a := addr;
    for i := 0 to size
      invariant dev.Valid()
      invariant a == Add(addr, i)
      invariant forall k :: 0 <= k < i ==> buf[k] == Load(dev.env, dev.mem, Add(addr, k))
      invariant forall k :: i <= k < buf.Length ==> buf[k] == old(buf[k])
      invariant dev.trace == old(dev.trace) + ByteAccesses(addr, i)
    {
      var b := dev.LoadByte(a);
      buf[i] := b;
      a := Add(a, 1);
    }
    return ToInt(size);
  }

  method McuFlashWrite(dev: Nvmc, addr: u32, buf: seq<Byte>, size: u32) returns (ret: int)
    requires dev.Valid() && size <= |buf|
    modifies dev
    ensures dev.Valid()
    ensures dev.State() == After(dev.env, old(dev.State()), Write(addr, buf[..size]))
    ensures ret == Result(dev.env, old(dev.State()), Write(addr, buf[..size])).ret
    ensures dev.trace == old(dev.trace) + Trace(dev.env, old(dev.State()), Write(addr, buf[..size]))
  {
    if Add(addr, size) > MCU_FLASH_END_ADDRESS {
      return -RT_EINVAL;
    }
    if addr % 4 != 0 {
      return -RT_EINVAL;
    }
    if size < 1 {
      return -RT_ERROR;
    }
    if size % 4 != 0 {
      dev.BytesWrite(addr, buf[..size]);
      return ToInt(size);
    } else {
      dev.WordsWrite(addr, buf[..size], size / 4);
      return ToInt(size);
    }
  }

  /** What `i` successful page erases amount to when the loop stops after them. */
  lemma PagesAttempted(env: Environment, s: Flash, first: u32, count: u32, i: nat)
    requires first < PAGES || first == NO_PAGE
    requires i <= ExistingPages(first, count)
    requires forall k :: s.attempts <= k < s.attempts + i ==> env.eraseSucceeds(k)
    requires i == ExistingPages(first, count) || !env.eraseSucceeds(s.attempts + i)
    ensures PagesComplete(env, s, first, count) <==> i == count
    ensures AfterPages(env, s, first, count)
      == Flash(PagesErased(s.mem, first, i), s.attempts + if i < ExistingPages(first, count) then i + 1 else i)
    ensures PagesTrace(env, s, first, count) == PageAccesses(first, if i == count then i else i + 1)
  {
    SuccessesAre(env, s.attempts, ExistingPages(first, count), i);
    PagesErasedIsRange(s.mem, first, i);
  }

  /** The loop of mcu_flash_erase. */
  method ErasePages(dev: Nvmc, first: u32, count: u32) returns (success: bool)
    requires dev.Valid() && (first < PAGES || first == NO_PAGE)
    modifies dev
    ensures dev.Valid()
    ensures dev.State() == AfterPages(dev.env, old(dev.State()), first, count)
    ensures success <==> PagesComplete(dev.env, old(dev.State()), first, count)
    ensures dev.trace == old(dev.trace) + PagesTrace(dev.env, old(dev.State()), first, count)
  {
    ghost var s, trace := dev.State(), dev.trace;
    var i := 0;
    while i < count
      invariant 0 <= i <= ExistingPages(first, count) && dev.Valid()
      invariant forall k :: s.attempts <= k < s.attempts + i ==> dev.env.eraseSucceeds(k)
      invariant dev.State() == Flash(PagesErased(s.mem, first, i), s.attempts + i)
      invariant dev.trace == trace + PageAccesses(first, i)
    {
      PageAddresses(first, i);
      success := dev.PageErase(PageAddress(Add(first, i)));
      if !success {
        PagesAttempted(dev.env, s, first, count, i);
        return;
      }
      i := i + 1;
    }
    PagesAttempted(dev.env, s, first, count, i);
    success := true;
  }

  method McuFlashErase(dev: Nvmc, addr: u32, size: u32) returns (ret: int)
    requires dev.Valid()
    modifies dev
    ensures dev.Valid()
    ensures dev.State() == After(dev.env, old(dev.State()), Erase(addr, size))
    ensures ret == Result(dev.env, old(dev.State()), Erase(addr, size)).ret
    ensures dev.trace == old(dev.trace) + Trace(dev.env, old(dev.State()), Erase(addr, size))
  {
    if Add(addr, size) > MCU_FLASH_END_ADDRESS {
      return -RT_EINVAL;
    }
    var first := GetPage(addr);
    var count := Add(Sub(GetPage(Sub(Add(addr, size), 1)), first), 1);
    var success := ErasePages(dev, first, count);
    return if success then ToInt(size) else -RT_EINVAL;
  }

  method MakeCall(dev: Nvmc, c: Call) returns (outcome: Outcome)
    requires dev.Valid()
    modifies dev
    ensures dev.Valid()
    ensures dev.State() == After(dev.env, old(dev.State()), c)
    ensures outcome == Result(dev.env, old(dev.State()), c)
    ensures dev.trace == old(dev.trace) + Trace(dev.env, old(dev.State()), c)
  {
    match c
    case Read(addr, size) =>
      var buf := new Byte[size](_ => ALL_ONES);
      var ret := McuFlashRead(dev, addr, buf, size);
      outcome := Outcome(ret, if OutOfRange(addr, size) then [] else buf[..]);
    case Write(addr, data) =>
      assert data[..|data|] == data;
      var ret := McuFlashWrite(dev, addr, data, |data|);
      outcome := Outcome(ret, []);
    case Erase(addr, size) =>
      var ret := McuFlashErase(dev, addr, size);
      outcome := Outcome(ret, []);
  }

  /** A run that goes one call further, after a trace of its own. */
  lemma RunNext(env: Environment, s: Flash, trace: seq<Access>, calls: seq<Call>, i: nat)
    requires WellFormed(s) && i < |calls|
    ensures Run(env, s, calls[..i + 1]) == After(env, Run(env, s, calls[..i]), calls[i])
    ensures trace + RunTrace(env, s, calls[..i + 1])
      == trace + RunTrace(env, s, calls[..i]) + Trace(env, Run(env, s, calls[..i]), calls[i])
    ensures RunResults(env, s, calls[..i + 1]) == RunResults(env, s, calls[..i]) + [Result(env, Run(env, s, calls[..i]), calls[i])]
  {
    assert calls[..i + 1][..i] == calls[..i];
  }

  /** Makes the calls one after the other on the device, each read into a buffer of its own. */
  method MakeCalls(dev: Nvmc, calls: seq<Call>) returns (outcomes: seq<Outcome>)
    requires dev.Valid()
    modifies dev
    ensures dev.Valid()
    ensures dev.State() == Run(dev.env, old(dev.State()), calls)
    ensures outcomes == RunResults(dev.env, old(dev.State()), calls)
    ensures dev.trace == old(dev.trace) + RunTrace(dev.env, old(dev.State()), calls)
  {
    ghost var s, trace := dev.State(), dev.trace;
    outcomes := [];
    for i := 0 to |calls|
      invariant dev.Valid()
      invariant dev.State() == Run(dev.env, s, calls[..i])
      invariant outcomes == RunResults(dev.env, s, calls[..i])
      invariant dev.trace == trace + RunTrace(dev.env, s, calls[..i])
    {
      RunNext(dev.env, s, trace, calls, i);
      var outcome := MakeCall(dev, calls[i]);
      outcomes := outcomes + [outcome];
    }
    assert calls[..|calls|] == calls;
  }
}
