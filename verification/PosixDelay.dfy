/** The callers of the busy-wait in the C library layer, before the scheduler runs. */
module PosixDelay {
  import opened Arithmetic32
  import opened SysTick
  import opened Delay
  import opened BoardSupport

  /** Samples at most `longest` cycles apart, none hiding a whole period. */
  ghost predicate Regular(gaps: seq<nat>, load: nat, longest: nat) {
    GapsWithin(gaps, 0, longest) && longest <= load
  }

  /** Enough samples find VAL changed for a wait of `us` microseconds to end. */
  ghost predicate Suffices(gaps: seq<nat>, load: u32, us: u32) {
    NonMultiples(load + 1, gaps, |gaps|) >= 2 * AtLeastOne(DelayTicks(us, load))
  }

  /** What a wait that has ended took, when no gap hides a period. */
  lemma WaitTook(c: Counter, us: u32, load: u32, gaps: seq<nat>, k: nat, longest: nat, cycles: int)
    requires Running(c) && c.load == load && Regular(gaps, load, longest)
    requires StopsAt(c, DelayTicks(us, load), gaps, k) && cycles == Sampled(c, gaps, k).total
    ensures Takes(cycles, load, longest, DelayTicks(us, load))
    ensures load == 640000 && us <= 13421 ==> BoardLeast(us) <= cycles <= BoardLeast(us) + longest
    ensures Overhead(load, longest, DelayTicks(us, load)) < 429496 ==>
      (cycles >= us * load / US_PER_TICK <==> us * load < MODULUS)
  {
    DelayBounds(c, DelayTicks(us, load), gaps, k, longest);
    if load == 640000 && us <= 13421 {
      BoardTakes(us, longest, cycles);
    }
    if Overhead(load, longest, DelayTicks(us, load)) < 429496 {
      LongEnoughIff(us, load, longest, cycles);
    }
  }

  method UDelay(board: Board, us: u32, gaps: seq<nat>, ghost longest: nat) returns (left: bool)
    requires Running(board.Hw()) && board.InStep()
    modifies board
    ensures Running(board.Hw()) && board.InStep() && board.load == old(board.load)
    ensures board.elapsed >= old(board.elapsed) && (Suffices(gaps, board.load, us) ==> left)
    ensures left ==> board.elapsed - old(board.elapsed) >= Shortest(board.load, DelayTicks(us, board.load))
    ensures left && Regular(gaps, board.load, longest) ==>
      Takes(board.elapsed - old(board.elapsed), board.load, longest, us * board.load % 0x1_0000_0000 / 10000)
    ensures left && Regular(gaps, board.load, longest) && board.load == 640000 && us <= 13421 ==>
      BoardLeast(us) <= board.elapsed - old(board.elapsed) <= BoardLeast(us) + longest
    ensures (left && Regular(gaps, board.load, longest) && Overhead(board.load, longest, DelayTicks(us, board.load)) < 429496) ==>
      (board.elapsed - old(board.elapsed) >= us * board.load / US_PER_TICK <==> us * board.load < MODULUS)
  {
    ghost var passes;
    ghost var c, load := board.Hw(), board.load;
    passes, left := board.RtHwUsDelay(us, gaps);
    TargetExactIff(us, load);
    if left {
      NeverShorter(c, DelayTicks(us, load), gaps, passes);
      if Regular(gaps, load, longest) {
        WaitTook(c, us, load, gaps, passes, longest, board.elapsed - old(board.elapsed));
      }
    }
  }

  /** The millisecond count is multiplied in 32 bits before it reaches the wait; the delay is as long as
      requested exactly when the whole product fits. */
  method MDelay(board: Board, msecs: u32, gaps: seq<nat>, ghost longest: nat) returns (left: bool)
    requires Running(board.Hw()) && board.InStep()
    modifies board
    ensures Running(board.Hw()) && board.InStep() && board.load == old(board.load)
    ensures board.elapsed >= old(board.elapsed) && (Suffices(gaps, board.load, Mul(msecs, 1000)) ==> left)
    ensures left && Regular(gaps, board.load, longest) ==>
      Takes(board.elapsed - old(board.elapsed), board.load, longest, msecs * 1000 * board.load % 0x1_0000_0000 / 10000)
    ensures left && Regular(gaps, board.load, longest) && board.load == 640000 && msecs <= 13 ==>
      BoardLeast(1000 * msecs) <= board.elapsed - old(board.elapsed) <= BoardLeast(1000 * msecs) + longest
    ensures (left && Regular(gaps, board.load, longest)
             && Overhead(board.load, longest, DelayTicks(Mul(msecs, 1000), board.load)) < 429496) ==>
      (board.elapsed - old(board.elapsed) >= msecs * 1000 * board.load / US_PER_TICK <==> msecs * 1000 * board.load < MODULUS)
  {
    left := UDelay(board, Mul(msecs, 1000), gaps, longest);
    MillisecondsTarget(msecs, board.load);
    if msecs <= 13 { SmallMilliseconds(msecs); }
    if left && Regular(gaps, board.load, longest)
      && Overhead(board.load, longest, DelayTicks(Mul(msecs, 1000), board.load)) < 429496 {
      MillisecondsLongEnoughIff(msecs, board.load, longest, board.elapsed - old(board.elapsed));
    }
  }

  /** The product that wraps twice has the remainder of the full one. */
  lemma TwoWrapsAreOne(wanted: nat, us: nat, load: nat, w: nat)
    requires wanted == w * 0x1_0000_0000 + us
    ensures us * load % 0x1_0000_0000 == wanted * load % 0x1_0000_0000
  {
    var q, r := us * load / 0x1_0000_0000, us * load % 0x1_0000_0000;
    NonNegative(us, load);
    NonNegative(w, load);
    assert wanted * load == (w * load) * 0x1_0000_0000 + us * load;
    DivUnique(wanted * load, 0x1_0000_0000, w * load + q, r);
  }

  lemma SmallMilliseconds(msecs: u32)
    requires msecs <= 13
    ensures Mul(msecs, 1000) == 1000 * msecs
  {
  }

  /** The 32-bit millisecond product costs the target nothing beyond what the full product loses. */
  lemma MillisecondsTarget(msecs: u32, load: u32)
    ensures DelayTicks(Mul(msecs, 1000), load) == msecs * 1000 * load % 0x1_0000_0000 / 10000
  {
    TwoWrapsAreOne(msecs * 1000, Mul(msecs, 1000), load, msecs * 1000 / 0x1_0000_0000);
  }

  lemma MillisecondsLongEnoughIff(msecs: u32, load: u32, longest: nat, cycles: int)
    requires load >= 1 && Overhead(load, longest, DelayTicks(Mul(msecs, 1000), load)) < 429496
    requires Takes(cycles, load, longest, DelayTicks(Mul(msecs, 1000), load))
    ensures cycles >= msecs * 1000 * load / US_PER_TICK <==> msecs * 1000 * load < MODULUS
  {
    var us, full := Mul(msecs, 1000), msecs * 1000 * load;
    assert full >= 0 by { NonNegative(msecs * 1000, load); }
    TargetExactIff(us, load);
    NonNegative(us, load);
    DoubleWrap(msecs * 1000, us, load, us * load, full);
    TwoTargets(DelayTicks(us, load), us * load, full);
    LongEnough(load, longest, cycles, DelayTicks(us, load), full / US_PER_TICK, full < MODULUS);
  }

  /** When the millisecond product wraps, the full product is larger by at least 2^32. */
  lemma DoubleWrap(wanted: nat, us: nat, load: nat, product: nat, full: nat)
    requires load >= 1 && us == wanted % MODULUS && product == us * load && full == wanted * load
    ensures full == product || full >= product + MODULUS
  {
    if wanted >= MODULUS {
      Monotone(us + MODULUS, wanted, load);
      Monotone(1, load, MODULUS);
    }
  }

  /** Either wrap takes at least 429496 counts off the target. */
  lemma TwoTargets(ticks: nat, product: nat, full: nat)
    requires if product < MODULUS then ticks == product / US_PER_TICK else ticks + 429496 <= product / US_PER_TICK
    requires full == product || full >= product + MODULUS
    ensures if full < MODULUS then ticks == full / US_PER_TICK else ticks + 429496 <= full / US_PER_TICK
  {
    if full != product { DividedGap(product, full); }
  }

  /** At 64 MHz a millisecond is 64000 cycles: the limit is 6 milliseconds. */
  lemma BoardMillisecondsIff(msecs: u32, longest: nat, cycles: int)
    requires longest < 429496 && Takes(cycles, 640000, longest, DelayTicks(Mul(msecs, 1000), 640000))
    ensures cycles >= 64000 * msecs <==> msecs <= 6
  {
    BoardOverhead(Mul(msecs, 1000), longest);
    MillisecondsLongEnoughIff(msecs, 640000, longest, cycles);
    assert msecs * 1000 * 640000 / 10000 == 64000 * msecs;
  }

  /** `x` taken `n` times. */
  function Times(x: nat, n: nat): nat {
    if n == 0 then 0 else Times(x, n - 1) + x
  }

  lemma {:induction false} TimesIsProduct(x: nat, n: nat)
    ensures Times(x, n) == x * n
  {
    if n > 0 {
      TimesIsProduct(x, n - 1);
      Distribute(n - 1, x);
    }
  }

  /** `n` waits of between `least` and `least + longest` cycles each. */
  ghost predicate Waits(spent: int, least: nat, longest: nat, n: nat) {
    Times(least, n) <= spent <= Times(least + longest, n)
  }

  /** A second is 100 * LOAD cycles. Every second of sleep is at least a second exactly when a million
      times LOAD fits in 32 bits. */
  lemma SecondsLongEnoughIff(load: u32, seconds: nat, longest: nat, cycles: int)
    requires load >= 1 && seconds >= 1 && Overhead(load, longest, DelayTicks(1000000, load)) < 429496
    requires Waits(cycles, Shortest(load, DelayTicks(1000000, load)), longest, seconds)
    ensures cycles >= 100 * load * seconds <==> load <= 4294
  {
    var least := Shortest(load, DelayTicks(1000000, load));
    TimesIsProduct(least, seconds);
    TimesIsProduct(least + longest, seconds);
    LongEnoughIff(1000000, load, longest, least);
    LongEnoughIff(1000000, load, longest, least + longest);
    assert 1000000 * load / 10000 == 100 * load;
    if load <= 4294 {
      Monotone(100 * load, least, seconds);
    } else {
      Monotone(least + longest + 1, 100 * load, seconds);
      Distribute(least + longest, seconds);
    }
  }

  lemma SecondTarget()
    ensures Shortest(640000, DelayTicks(1000000, 640000)) == 4987
  {
    assert 1000000 * 640000 % 0x1_0000_0000 == 49872896;
  }

  /** At 64 MHz a second is 64 million cycles, and a sleep of at least a second ends early under every
      schedule. */
  lemma SleepEndsEarly(seconds: nat, longest: nat, cycles: int)
    requires seconds >= 1 && longest <= 640000
    requires Waits(cycles, Shortest(640000, DelayTicks(1000000, 640000)), longest, seconds)
    ensures cycles < 64000000 * seconds
  {
    SecondTarget();
    TimesIsProduct(4987 + longest, seconds);
    Monotone(4987 + longest, 644987, seconds);
  }

  /** A wait of one second is between `least` and `least + longest` cycles long. */
  ghost predicate SecondTakes(load: u32, least: nat)
    requires load >= 1
  {
    least == Shortest(load, DelayTicks(1000000, load))
  }

  ghost predicate SecondEnds(gaps: seq<nat>, load: u32, longest: nat) {
    Regular(gaps, load, longest) && Suffices(gaps, load, 1000000)
  }

  method OneSecond(board: Board, gaps: seq<nat>, ghost longest: nat)
    requires Running(board.Hw()) && board.InStep() && SecondEnds(gaps, board.load, longest)
    modifies board
    ensures Running(board.Hw()) && board.InStep() && board.load == old(board.load)
    ensures Takes(board.elapsed - old(board.elapsed), board.load, longest, DelayTicks(1000000, board.load))
  {
    var left := UDelay(board, 1000000, gaps, longest);
  }

  /** The loop of sleep(). */
  method SleepLoop(board: Board, seconds: u32, gaps: seq<seq<nat>>, ghost longest: nat, ghost least: nat)
    requires Running(board.Hw()) && board.InStep() && |gaps| >= seconds && SecondTakes(board.load, least)
    requires forall i :: 0 <= i < |gaps| ==> SecondEnds(gaps[i], board.load, longest)
    modifies board
    ensures Running(board.Hw()) && board.InStep() && board.load == old(board.load)
    ensures Waits(board.elapsed - old(board.elapsed), least, longest, seconds)
  {
    var remaining := seconds;
    ghost var load := board.load;
    while remaining > 0
      invariant 0 <= remaining <= seconds
      invariant Running(board.Hw()) && board.InStep() && board.load == load
      invariant Waits(board.elapsed - old(board.elapsed), least, longest, seconds - remaining)
    {
      OneSecond(board, gaps[seconds - remaining], longest);
      remaining := remaining - 1;
    }
  }

  /** sleep() before the scheduler runs: one busy-wait of a million microseconds, that is 100 * LOAD cycles,
      per second. */
  method Sleep(board: Board, seconds: u32, gaps: seq<seq<nat>>, ghost longest: nat)
    requires Running(board.Hw()) && board.InStep() && |gaps| >= seconds
    requires forall i :: 0 <= i < |gaps| ==> SecondEnds(gaps[i], board.load, longest)
    modifies board
    ensures Running(board.Hw()) && board.InStep() && board.load == old(board.load)
    ensures Waits(board.elapsed - old(board.elapsed), Shortest(board.load, DelayTicks(1000000, board.load)), longest, seconds)
    ensures seconds >= 1 && Overhead(board.load, longest, DelayTicks(1000000, board.load)) < 429496 ==>
      (board.elapsed - old(board.elapsed) >= 100 * board.load * seconds <==> board.load <= 4294)
    ensures seconds >= 1 && board.load == 640000 ==> board.elapsed - old(board.elapsed) < 64000000 * seconds
  {
    assert seconds >= 1 ==> SecondEnds(gaps[0], board.load, longest);
    SleepLoop(board, seconds, gaps, longest, Shortest(board.load, DelayTicks(1000000, board.load)));
    if seconds >= 1 {
      if Overhead(board.load, longest, DelayTicks(1000000, board.load)) < 429496 {
        SecondsLongEnoughIff(board.load, seconds, longest, board.elapsed - old(board.elapsed));
      }
      if board.load == 640000 {
        SleepEndsEarly(seconds, longest, board.elapsed - old(board.elapsed));
      }
    }
  }
}
