/** board.c: the SysTick registers, the tick interrupt and the busy-wait, with the hardware beside them. */
module BoardSupport {
  import opened Arithmetic32
  import opened SysTick
  import opened Delay

  function Wrapped(x: nat): u32 {
    x % MODULUS
  }

  lemma WrappedNext(x: nat)
    ensures Wrapped(x + 1) == Add(Wrapped(x), 1)
  {
  }

  function AtLeastOne(ticks: nat): nat {
    if ticks == 0 then 1 else ticks
  }

  /** Bounds the samples still to come that find VAL changed: two for each count missing, one more for a
      sample of 0. */
  function Budget(ticks: nat, tcnt: nat, told: nat): int {
    2 * (AtLeastOne(ticks) - tcnt) + if told == 0 then 1 else 0
  }

  class Board {
    /** SysTick->LOAD and SysTick->VAL. */
    var load: nat
    var val: nat
    /** The kernel's tick counter. */
    var rtTick: u32
    /** Reloads, exceptions pended and cycles run since the last configuration. */
    ghost var reloads: nat
    ghost var pends: nat
    ghost var elapsed: nat
    /** The tick count without the 32-bit wrap. */
    ghost var ticksRaised: nat

    /** The kernel's tick is the wrapped count of ticks raised. */
    ghost predicate InStep()
      reads this
    {
      rtTick == Wrapped(ticksRaised)
    }

    ghost function Hw(): Counter
      reads this
    {
      Counter(load, val, reloads, pends)
    }

    constructor ()
      ensures rtTick == 0 && InStep()
    {
      rtTick, ticksRaised := 0, 0;
    }

    method SysTickHandler()
      requires InStep()
      modifies this`rtTick, this`ticksRaised
      ensures InStep() && ticksRaised == old(ticksRaised) + 1 && rtTick == Add(old(rtTick), 1)
    {
      WrappedNext(ticksRaised);
      rtTick, ticksRaised := Add(rtTick, 1), ticksRaised + 1;
    }

    /** LOAD keeps 24 bits of the quotient; with LOAD 0 the counter would stay at 0. */
    method SysTickConfiguration(systemCoreClock: u32)
      modifies this
      ensures Hw() == Configured(systemCoreClock / RT_TICK_PER_SECOND % 0x100_0000)
      ensures Running(Hw()) <==> load != 0
      ensures systemCoreClock == 64000000 ==> load == 640000
      ensures elapsed == 0 && rtTick == old(rtTick) && ticksRaised == old(ticksRaised)
    {
      load := systemCoreClock / RT_TICK_PER_SECOND % 0x100_0000;
      val := 0;
      reloads, pends, elapsed := 0, 0, 0;
    }

    /** One clock of the hardware; the interrupt is taken at once. */
    method HardwareCycle()
      requires Running(Hw()) && InStep()
      modifies this
      ensures Hw() == Cycle(old(Hw())) && elapsed == old(elapsed) + 1
      ensures InStep() && ticksRaised - pends == old(ticksRaised - pends)
    {
      elapsed := elapsed + 1;
      if val == 0 {
        val := load;
        reloads := reloads + 1;
      } else {
        val := val - 1;
        if val == 0 {
          pends := pends + 1;
          SysTickHandler();
        }
      }
    }

    /** The hardware runs on while the program is between two samples. */
    method Elapse(n: nat)
      requires Running(Hw()) && InStep()
      modifies this
      ensures Hw() == Cycles(old(Hw()), n) && elapsed == old(elapsed) + n
      ensures InStep() && ticksRaised - pends == old(ticksRaised - pends)
    {
      for i := 0 to n
        invariant Running(Hw()) && Hw() == Cycles(old(Hw()), i) && elapsed == old(elapsed) + i
        invariant InStep() && ticksRaised - pends == old(ticksRaised - pends)
      {
        HardwareCycle();
      }
    }

    /** The body of the sampling loop; none of its 32-bit operations wraps. */
    method Sample(reload: u32, ticks: u32, told: u32, tcnt: u32, g: nat)
      returns (told': u32, tcnt': u32, leave: bool)
      requires Running(Hw()) && InStep()
      requires load == reload && told == val && tcnt <= 429496
      modifies this
      ensures Hw() == Cycles(old(Hw()), g) && elapsed == old(elapsed) + g
      ensures InStep() && ticksRaised - pends == old(ticksRaised - pends)
      ensures told' == val && tcnt' == tcnt + Observed(load, told, val)
      ensures leave <==> val != told && tcnt' >= ticks
    {
      Elapse(g);
      told', tcnt', leave := told, tcnt, false;
      var tnow := val;
      if tnow != told {
        if tnow < told {
          tcnt' := Add(tcnt, Sub(told, tnow));
        } else {
          tcnt' := Add(tcnt, Add(Sub(reload, tnow), told));
        }
        told' := tnow;
        if tcnt' >= ticks {
          leave := true;
        }
      }
    }

    /** The sampling loop of rt_hw_us_delay, watched for as many samples as the schedule holds. */
    method Wait(reload: u32, ticks: u32, gaps: seq<nat>) returns (ghost passes: nat, left: bool)
      requires Running(Hw()) && InStep() && load == reload && ticks <= 429496
      modifies this
      ensures load == old(load) && passes <= |gaps|
      ensures Hw() == Sampled(old(Hw()), gaps, passes).now
      ensures elapsed == old(elapsed) + Sampled(old(Hw()), gaps, passes).total
      ensures left ==> StopsAt(old(Hw()), ticks, gaps, passes)
      ensures !left ==> passes == |gaps| && StillWaiting(old(Hw()), ticks, gaps, passes)
      ensures !left ==> Sampled(old(Hw()), gaps, passes).moves < 2 * AtLeastOne(ticks)
      ensures InStep() && ticksRaised - pends == old(ticksRaised - pends)
    {
      var tcnt: u32 := 0;
      var told := val;
      var k := 0;  // counts samples for the schedule only
      ghost var c, p := Hw(), Sampled(Hw(), gaps, 0);
      left := false;
      while k < |gaps|
        invariant 0 <= k <= |gaps| && Running(Hw()) && load == reload && told == val
        invariant p == Sampled(c, gaps, k)
        invariant p.now == Hw() && p.tcnt == tcnt && p.total == elapsed - old(elapsed)
        invariant tcnt < AtLeastOne(ticks) && (ticks == 0 ==> p.moves == 0)
        invariant p.moves + Budget(ticks, tcnt, told) <= 2 * AtLeastOne(ticks) + 1
        invariant InStep() && ticksRaised - pends == old(ticksRaised - pends)
      {
        told, tcnt, left := Sample(reload, ticks, told, tcnt, gaps[k]);
        p := Passed(c, p, gaps[k]);
        k := k + 1;
        if left {
          break;
        }
      }
      passes := k;
    }

    /** A microsecond wait under any sampling schedule; it is over once enough samples were not whole
        periods apart. */
    method RtHwUsDelay(us: u32, gaps: seq<nat>) returns (ghost passes: nat, left: bool)
      requires Running(Hw()) && InStep()
      modifies this
      ensures load == old(load) && passes <= |gaps|
      ensures Hw() == Sampled(old(Hw()), gaps, passes).now
      ensures elapsed == old(elapsed) + Sampled(old(Hw()), gaps, passes).total
      ensures left ==> StopsAt(old(Hw()), DelayTicks(us, load), gaps, passes)
      ensures !left ==> passes == |gaps| && StillWaiting(old(Hw()), DelayTicks(us, load), gaps, passes)
      ensures NonMultiples(load + 1, gaps, |gaps|) >= 2 * AtLeastOne(DelayTicks(us, load)) ==> left
      ensures InStep() && ticksRaised - pends == old(ticksRaised - pends)
    {
      var reload := load;
      var ticks := Mul(us, reload) / US_PER_TICK;
      TargetSmall(us, load);
      passes, left := Wait(reload, ticks, gaps);
      MovesAre(old(Hw()), gaps, passes);
    }
  }
}
