/** Whole-run meaning of the flash: a reference that looks only at the calls, the initial byte and which
    page erases fail. It never looks at a flash state in between. */
module FlashHistory {
  import opened Arithmetic32
  import opened FlashLayout
  import opened FlashWords
  import opened NvmcDevice
  import opened FlashDriver

  /** How many of its pages an erase sets to ones when `attempts` page erases came before it. */
  function PagesDone(env: Environment, attempts: nat, c: Call): nat
    requires c.Erase?
  {
    Successes(env, attempts, ExistingPages(GetPage(c.addr), NbOfPages(c.addr, c.size)))
  }

  /** The page erases attempted up to the end of the call. */
  function AttemptsAfter(env: Environment, attempts: nat, c: Call): nat {
    if !c.Erase? || OutOfRange(c.addr, c.size) then attempts
    else
      var done := PagesDone(env, attempts, c);
      attempts + if done < ExistingPages(GetPage(c.addr), NbOfPages(c.addr, c.size)) then done + 1 else done
  }

  ghost function Attempts(env: Environment, attempts: nat, calls: seq<Call>): nat {
    if calls == [] then attempts
    else AttemptsAfter(env, Attempts(env, attempts, calls[..|calls| - 1]), calls[|calls| - 1])
  }

  /** The call erased the page byte `j` lies on. */
  predicate Resets(env: Environment, attempts: nat, c: Call, j: nat) {
    c.Erase? && !OutOfRange(c.addr, c.size)
    && GetPage(c.addr) <= j / 0x1000 < GetPage(c.addr) + PagesDone(env, attempts, c)
  }

  /** The call is an accepted write that reaches byte `j`. */
  predicate Covers(c: Call, j: u32) {
    c.Write? && WriteAccepted(c.addr, |c.data|) && Sub(j, c.addr) < |c.data|
  }

  /** For each call, whether it erased byte `j`. */
  ghost function Resetting(env: Environment, attempts: nat, calls: seq<Call>, j: nat): (f: seq<bool>)
    ensures |f| == |calls|
  {
    if calls == [] then []
    else
      var shorter := calls[..|calls| - 1];
      Resetting(env, attempts, shorter, j) + [Resets(env, Attempts(env, attempts, shorter), calls[|calls| - 1], j)]
  }

  /** One past the last `true`; 0 if there is none. */
  ghost function PastLast(f: seq<bool>): (n: nat)
    ensures n <= |f|
    ensures n > 0 ==> f[n - 1]
    ensures forall i :: n <= i < |f| ==> !f[i]
  {
    if f == [] || f[|f| - 1] then |f| else PastLast(f[..|f| - 1])
  }

  /** The number of calls up to and including the last one that erased byte `j`; 0 if there is none. */
  ghost function LastReset(env: Environment, attempts: nat, calls: seq<Call>, j: nat): (n: nat)
    ensures n <= |calls|
  {
    PastLast(Resetting(env, attempts, calls, j))
  }

  lemma {:induction false} ResettingAt(env: Environment, attempts: nat, calls: seq<Call>, j: nat, i: nat)
    requires i < |calls|
    ensures Resetting(env, attempts, calls, j)[i] == Resets(env, Attempts(env, attempts, calls[..i]), calls[i], j)
    decreases |calls|
  {
    var shorter := calls[..|calls| - 1];
    if i < |shorter| {
      ResettingAt(env, attempts, shorter, j, i);
      assert shorter[..i] == calls[..i];
    }
  }

  /** `LastReset` counts the calls up to the last one that erased the byte. */
  lemma LastResetIsLast(env: Environment, attempts: nat, calls: seq<Call>, j: nat, i: nat)
    requires i < |calls|
    ensures var n := LastReset(env, attempts, calls, j);
      var erased := Resets(env, Attempts(env, attempts, calls[..i]), calls[i], j);
      (i + 1 == n ==> erased) && (i + 1 > n ==> !erased)
  {
    ResettingAt(env, attempts, calls, j, i);
  }

  /** The AND of every byte written at `j` by the calls from number `from` on. */
  ghost function WrittenSince(calls: seq<Call>, from: nat, j: u32): Byte
    requires from <= |calls|
  {
    if |calls| == from then ALL_ONES
    else
      var c := calls[|calls| - 1];
      var rest := WrittenSince(calls[..|calls| - 1], from, j);
      if Covers(c, j) then And(rest, c.data[Sub(j, c.addr)]) else rest
  }

  /** What byte `j` holds after the calls when it held `initial` before them. */
  ghost function Content(env: Environment, attempts: nat, initial: Byte, calls: seq<Call>, j: u32): Byte {
    var n := LastReset(env, attempts, calls, j);
    And(if n == 0 then initial else ALL_ONES, WrittenSince(calls, n, j))
  }

  lemma AndAssociates(x: Byte, y: Byte, z: Byte)
    ensures And(And(x, y), z) == And(x, And(y, z))
  {
  }

  /** What the last call does to the content. */
  lemma ContentStep(env: Environment, attempts: nat, initial: Byte, calls: seq<Call>, j: u32)
    requires calls != []
    ensures var shorter, c := calls[..|calls| - 1], calls[|calls| - 1];
      var before := Content(env, attempts, initial, shorter, j);
      Content(env, attempts, initial, calls, j) ==
        if Resets(env, Attempts(env, attempts, shorter), c, j) then ALL_ONES
        else if Covers(c, j) then And(before, c.data[Sub(j, c.addr)])
        else before
  {
    var shorter, c := calls[..|calls| - 1], calls[|calls| - 1];
    assert Resetting(env, attempts, calls, j)[..|shorter|] == Resetting(env, attempts, shorter, j);
    var n := LastReset(env, attempts, shorter, j);
    if !Resets(env, Attempts(env, attempts, shorter), c, j) && Covers(c, j) {
      AndAssociates(if n == 0 then initial else ALL_ONES, WrittenSince(shorter, n, j), c.data[Sub(j, c.addr)]);
    }
  }

  /** What one call does to one byte and to the number of attempts. */
  lemma AfterByte(env: Environment, s: Flash, c: Call, j: u32)
    requires WellFormed(s) && j < MCU_FLASH_SIZE
    ensures After(env, s, c).attempts == AttemptsAfter(env, s.attempts, c)
    ensures After(env, s, c).mem[j] ==
      if Resets(env, s.attempts, c, j) then ALL_ONES
      else if Covers(c, j) then And(s.mem[j], c.data[Sub(j, c.addr)])
      else s.mem[j]
  {
    if c.Erase? && !OutOfRange(c.addr, c.size) {
      var first := GetPage(c.addr);
      InPages(first, first + PagesDone(env, s.attempts, c), j);
    }
  }

  /** After any run, every byte holds the AND of what was written there since its page was last
      erased, over ones; or over its initial value if its page was never erased. */
  lemma {:induction false} RunIsHistory(env: Environment, s: Flash, calls: seq<Call>, j: u32)
    requires WellFormed(s) && j < MCU_FLASH_SIZE
    ensures Run(env, s, calls).attempts == Attempts(env, s.attempts, calls)
    ensures Run(env, s, calls).mem[j] == Content(env, s.attempts, s.mem[j], calls, j)
    decreases |calls|
  {
    if calls != [] {
      var shorter, c := calls[..|calls| - 1], calls[|calls| - 1];
      RunIsHistory(env, s, shorter, j);
      AfterByte(env, Run(env, s, shorter), c, j);
      ContentStep(env, s.attempts, s.mem[j], calls, j);
    }
  }

  /** A bit of `WrittenSince` is set exactly when every write that reached the byte had it set. */
  lemma {:induction false} WrittenSinceBits(calls: seq<Call>, from: nat, j: u32, k: nat)
    requires from <= |calls| && k < 8
    ensures Bit(WrittenSince(calls, from, j), k) <==>
      forall i :: from <= i < |calls| && Covers(calls[i], j) ==> Bit(calls[i].data[Sub(j, calls[i].addr)], k)
    decreases |calls|
  {
    if |calls| > from {
      var shorter, c := calls[..|calls| - 1], calls[|calls| - 1];
      WrittenSinceBits(shorter, from, j, k);
      assert forall i :: from <= i < |shorter| ==> calls[i] == shorter[i];
      if Covers(c, j) {
        AndBit(WrittenSince(shorter, from, j), c.data[Sub(j, c.addr)], k);
      }
    }
  }

  /** Bit by bit: after any run a bit is set exactly when every write since the last erase of its page had
      it set and, if there was no such erase, it was set to begin with. */
  lemma RunBits(env: Environment, s: Flash, calls: seq<Call>, j: u32, k: nat)
    requires WellFormed(s) && j < MCU_FLASH_SIZE && k < 8
    ensures var n := LastReset(env, s.attempts, calls, j);
      Bit(Run(env, s, calls).mem[j], k) <==>
        && (n == 0 ==> Bit(s.mem[j], k))
        && forall i :: n <= i < |calls| && Covers(calls[i], j) ==> Bit(calls[i].data[Sub(j, calls[i].addr)], k)
  {
    var n := LastReset(env, s.attempts, calls, j);
    RunIsHistory(env, s, calls, j);
    WrittenSinceBits(calls, n, j, k);
    AndBit(if n == 0 then s.mem[j] else ALL_ONES, WrittenSince(calls, n, j), k);
    AndBit(ALL_ONES, ALL_ONES, k);
  }

  /** A read inside the flash returns the history's content byte by byte and reports full success. */
  lemma ReadReturnsHistory(env: Environment, s: Flash, calls: seq<Call>, addr: u32, size: u32)
    requires WellFormed(s) && addr + size <= MCU_FLASH_END_ADDRESS
    ensures var r := Result(env, Run(env, s, calls), Read(addr, size));
      && r.ret == size == |r.data|
      && forall k :: 0 <= k < size ==> r.data[k] == Content(env, s.attempts, s.mem[addr + k], calls, addr + k)
  {
    var s' := Run(env, s, calls);
    forall k | 0 <= k < size
      ensures Fetched(env, s'.mem, addr, size)[k] == Content(env, s.attempts, s.mem[addr + k], calls, addr + k)
    {
      RunIsHistory(env, s, calls, addr + k);
    }
  }

  // ---------------------------------------------------------------- order of writes

  ghost predicate NoErase(calls: seq<Call>) {
    forall i :: 0 <= i < |calls| ==> !calls[i].Erase?
  }

  lemma {:induction false} NoEraseNoReset(env: Environment, attempts: nat, calls: seq<Call>, j: nat)
    requires NoErase(calls)
    ensures LastReset(env, attempts, calls, j) == 0 && Attempts(env, attempts, calls) == attempts
    decreases |calls|
  {
    if calls != [] {
      NoEraseNoReset(env, attempts, calls[..|calls| - 1], j);
      assert Resetting(env, attempts, calls, j)[..|calls| - 1] == Resetting(env, attempts, calls[..|calls| - 1], j);
    }
  }

  /** Every write among `xs` also occurs among `ys`. */
  ghost predicate WritesAmong(xs: seq<Call>, ys: seq<Call>) {
    forall i :: 0 <= i < |xs| && xs[i].Write? ==> xs[i] in ys
  }

  lemma WrittenBelow(xs: seq<Call>, ys: seq<Call>, j: u32, k: nat)
    requires WritesAmong(xs, ys) && k < 8
    ensures Bit(WrittenSince(ys, 0, j), k) ==> Bit(WrittenSince(xs, 0, j), k)
  {
    WrittenSinceBits(xs, 0, j, k);
    WrittenSinceBits(ys, 0, j, k);
    if Bit(WrittenSince(ys, 0, j), k) {
      forall i | 0 <= i < |xs| && Covers(xs[i], j)
        ensures Bit(xs[i].data[Sub(j, xs[i].addr)], k)
      {
        var m :| 0 <= m < |ys| && ys[m] == xs[i];
        assert Covers(ys[m], j);
      }
    }
  }

  lemma SameWrites(xs: seq<Call>, ys: seq<Call>, j: u32)
    requires WritesAmong(xs, ys) && WritesAmong(ys, xs)
    ensures WrittenSince(xs, 0, j) == WrittenSince(ys, 0, j)
  {
    forall k | 0 <= k < 8
      ensures Bit(WrittenSince(xs, 0, j), k) == Bit(WrittenSince(ys, 0, j), k)
    {
      WrittenBelow(xs, ys, j, k);
      WrittenBelow(ys, xs, j, k);
    }
    SameBits(WrittenSince(xs, 0, j), WrittenSince(ys, 0, j));
  }

  /** Between erases only the set of writes matters: not their order, not how often each is made, not
      the reads in between, overlapping or not. */
  lemma OnlyTheSetOfWritesMatters(env: Environment, s: Flash, xs: seq<Call>, ys: seq<Call>)
    requires WellFormed(s) && NoErase(xs) && NoErase(ys) && WritesAmong(xs, ys) && WritesAmong(ys, xs)
    ensures Run(env, s, xs) == Run(env, s, ys)
  {
    RunIsHistory(env, s, xs, 0);
    RunIsHistory(env, s, ys, 0);
    NoEraseNoReset(env, s.attempts, xs, 0);
    NoEraseNoReset(env, s.attempts, ys, 0);
    forall j | 0 <= j < MCU_FLASH_SIZE
      ensures Run(env, s, xs).mem[j] == Run(env, s, ys).mem[j]
    {
      RunIsHistory(env, s, xs, j);
      RunIsHistory(env, s, ys, j);
      NoEraseNoReset(env, s.attempts, xs, j);
      NoEraseNoReset(env, s.attempts, ys, j);
      SameWrites(xs, ys, j);
    }
  }

  /** Without an erase no bit is ever set again. */
  lemma {:induction false} BitsOnlyClear(env: Environment, s: Flash, calls: seq<Call>, j: u32, k: nat)
    requires WellFormed(s) && NoErase(calls) && j < MCU_FLASH_SIZE && k < 8
    ensures Bit(Run(env, s, calls).mem[j], k) ==> Bit(s.mem[j], k)
  {
    RunBits(env, s, calls, j, k);
    NoEraseNoReset(env, s.attempts, calls, j);
  }
}
