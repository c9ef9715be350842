/** The busy-wait of the board as arithmetic: what the sampled differences of VAL add up to. */
module Delay {
  import opened Arithmetic32
  import opened SysTick

  const RT_TICK_PER_SECOND: nat := 100
  const US_PER_TICK: nat := 1000000 / RT_TICK_PER_SECOND

  /** What one pass of the loop adds for the samples `told` and then `tnow`. */
  function Observed(load: nat, told: nat, tnow: nat): int {
    if tnow == told then 0 else if tnow < told then told - tnow else load - tnow + told
  }

  /** The target the loop counts to; the product wraps at 2^32. */
  function DelayTicks(us: u32, load: u32): u32 {
    Mul(us, load) / US_PER_TICK
  }

  /** The hardware, `tcnt`, the cycles gone by and how many samples found VAL changed. */
  datatype Progress = Progress(now: Counter, tcnt: int, total: nat, moves: nat)

  ghost predicate SameTimer(c: Counter, p: Progress) {
    Running(p.now) && p.now.load == c.load
  }

  /** One pass of the loop, `g` cycles after the last sample. */
  ghost function Passed(c: Counter, p: Progress, g: nat): (p': Progress)
    requires Running(c) && SameTimer(c, p)
    ensures SameTimer(c, p')
  {
    var now := Cycles(p.now, g);
    Progress(now, p.tcnt + Observed(c.load, p.now.val, now.val), p.total + g,
             p.moves + if now.val != p.now.val then 1 else 0)
  }

  /** After `k` samples, the counter running `gaps[i]` cycles before sample i. */
  ghost function Sampled(c: Counter, gaps: seq<nat>, k: nat): (p: Progress)
    requires Running(c) && k <= |gaps|
    ensures SameTimer(c, p)
    decreases k
  {
    if k == 0 then Progress(c, 0, 0, 0) else Passed(c, Sampled(c, gaps, k - 1), gaps[k - 1])
  }

  lemma {:induction false} SampledIsElapsed(c: Counter, gaps: seq<nat>, k: nat)
    requires Running(c) && k <= |gaps|
    ensures Sampled(c, gaps, k).now == Cycles(c, Sampled(c, gaps, k).total)
    decreases k
  {
    if k > 0 {
      SampledIsElapsed(c, gaps, k - 1);
      CyclesCompose(c, Sampled(c, gaps, k - 1).total, gaps[k - 1]);
    }
  }

  // ---------------------------------------------------------------- accounting

  /** One pass, for a gap of any length: the loop misses the reload cycles, and of every full period it
      slept through also the other `load` cycles. */
  lemma ObservedGap(c: Counter, g: nat)
    requires Running(c)
    ensures var c' := Cycles(c, g);
      Observed(c.load, c.val, c'.val) == g - (c'.reloads - c.reloads) - c.load * (g / (c.load + 1))
  {
    var a := g / (c.load + 1);
    Euclid(g, c.load + 1);
    ObservedByPeriods(c, g, a, g % (c.load + 1));
  }

  lemma Euclid(g: nat, p: nat)
    requires p > 0
    ensures g == g / p * p + g % p && 0 <= g % p < p
  {
  }

  lemma ObservedByPeriods(c: Counter, g: nat, a: nat, b: nat)
    requires Running(c) && g == a * (c.load + 1) + b && b <= c.load
    ensures var c' := Cycles(c, g);
      Observed(c.load, c.val, c'.val) == g - (c'.reloads - c.reloads) - c.load * a
  {
    var c' := Cycles(c, g);
    CyclesConserve(c, g);
    OnePeriodMore(a, c.load);
    ObservedFromQuotient(c.load, c.val, c'.val, c'.reloads - c.reloads, a, b, c.load * a);
  }

  lemma ObservedFromQuotient(load: nat, told: nat, tnow: nat, q: int, a: int, b: nat, la: int)
    requires b <= load && told <= load && tnow <= load
    requires a * (load + 1) == la + a && q * (load + 1) == la + a + b + tnow - told
    ensures Observed(load, told, tnow) == la + a + b - q - la
  {
    if b <= told {
      SameQuotient(q, a, load + 1, b + tnow - told);
    } else {
      Distribute(a, load + 1);
      SameQuotient(q, a + 1, load + 1, b + tnow - told - (load + 1));
    }
  }

  /** Two multiples of `p` that differ by less than `p` are equal. */
  lemma SameQuotient(q: int, a: int, p: nat, d: int)
    requires p > 0 && q * p == a * p + d && 0 < d + p && d < p
    ensures q == a && d == 0
  {
    if q < a {
      Monotone(q + 1, a, p);
      Distribute(q, p);
    } else if q > a {
      Monotone(a + 1, q, p);
      Distribute(a, p);
    }
  }

  /** The cycles lost to gaps of a full period or more. */
  ghost function Missed(load: nat, gaps: seq<nat>, k: nat): nat
    requires k <= |gaps|
    decreases k
  {
    if k == 0 then 0 else Missed(load, gaps, k - 1) + load * (gaps[k - 1] / (load + 1))
  }

  /** For every schedule: `tcnt` is the true elapsed time minus one cycle per reload, minus what whole
      periods between two samples hide. */
  lemma {:induction false} Accounting(c: Counter, gaps: seq<nat>, k: nat)
    requires Running(c) && k <= |gaps|
    ensures var p := Sampled(c, gaps, k);
      p.tcnt == p.total - (p.now.reloads - c.reloads) - Missed(c.load, gaps, k)
    decreases k
  {
    if k > 0 {
      Accounting(c, gaps, k - 1);
      ObservedGap(Sampled(c, gaps, k - 1).now, gaps[k - 1]);
    }
  }

  ghost predicate GapsWithin(gaps: seq<nat>, lo: nat, hi: nat) {
    forall i :: 0 <= i < |gaps| ==> lo <= gaps[i] <= hi
  }

  /** None of the first `k` gaps exceeds `hi`. */
  ghost predicate GapsUpTo(gaps: seq<nat>, k: nat, hi: nat)
    requires k <= |gaps|
  {
    forall i :: 0 <= i < k ==> gaps[i] <= hi
  }

  lemma ProductZero(x: nat, y: nat)
    requires x >= 1
    ensures x * y == 0 <==> y == 0
  {
    if y >= 1 { Monotone(1, y, x); }
  }

  lemma HiddenByGap(load: nat, g: nat)
    requires load >= 1
    ensures load * (g / (load + 1)) >= 0
    ensures load * (g / (load + 1)) == 0 <==> g <= load
  {
    QuotientAtLeast(g, load + 1, 1);
    ProductZero(load, g / (load + 1));
  }

  /** Nothing is hidden exactly when no two samples are a whole period apart. */
  lemma {:induction false} MissedNothingIff(load: nat, gaps: seq<nat>, k: nat)
    requires load >= 1 && k <= |gaps|
    ensures Missed(load, gaps, k) == 0 <==> GapsUpTo(gaps, k, load)
    decreases k
  {
    if k > 0 {
      MissedNothingIff(load, gaps, k - 1);
      HiddenByGap(load, gaps[k - 1]);
    }
  }

  /** The exact condition for the count to be the true time minus one cycle per reload. */
  lemma AccountingExactIff(c: Counter, gaps: seq<nat>, k: nat)
    requires Running(c) && k <= |gaps|
    ensures var p := Sampled(c, gaps, k);
      p.tcnt == p.total - (p.now.reloads - c.reloads) <==> GapsUpTo(gaps, k, c.load)
  {
    Accounting(c, gaps, k);
    MissedNothingIff(c.load, gaps, k);
  }

  /** The same in ticks: the count is the true time minus the ticks raised meanwhile, up to the phase at
      the two ends. */
  lemma CountInTicks(c: Counter, gaps: seq<nat>, k: nat)
    requires Running(c) && k <= |gaps| && GapsUpTo(gaps, k, c.load)
    ensures var p := Sampled(c, gaps, k);
      p.tcnt == p.total - (p.now.pends - c.pends) - (if c.val == 0 then 1 else 0) + if p.now.val == 0 then 1 else 0
  {
    AccountingExactIff(c, gaps, k);
    SampledIsElapsed(c, gaps, k);
    CyclesConserve(c, Sampled(c, gaps, k).total);
  }

  // ---------------------------------------------------------------- progress

  /** A pass, by the remainder of its gap: it sees VAL move unless the gap is whole periods, and it counts
      something unless it sees nothing or sees VAL go from 0 to LOAD. */
  lemma PassProgressIff(c: Counter, g: nat)
    requires Running(c)
    ensures var tnow, rest := Cycles(c, g).val, g % (c.load + 1);
      && (tnow != c.val <==> rest != 0)
      && 0 <= Observed(c.load, c.val, tnow) <= c.load
      && (Observed(c.load, c.val, tnow) > 0 <==> rest != 0 && !(c.val == 0 && rest == 1))
  {
    Euclid(g, c.load + 1);
    CyclesConserve(c, g);
    Residue(c.load, c.val, Cycles(c, g).val, Cycles(c, g).reloads - c.reloads, g / (c.load + 1), g % (c.load + 1));
  }

  lemma Residue(load: nat, told: nat, tnow: nat, q: int, a: int, rest: nat)
    requires rest <= load && told <= load && tnow <= load
    requires q * (load + 1) == a * (load + 1) + rest + tnow - told
    ensures tnow == if rest <= told then told - rest else told - rest + load + 1
  {
    if rest <= told {
      SameQuotient(q, a, load + 1, rest + tnow - told);
    } else {
      Distribute(a, load + 1);
      SameQuotient(q, a + 1, load + 1, rest + tnow - told - (load + 1));
    }
  }

  /** How many of the first `k` gaps are not whole multiples of `p`. */
  ghost function NonMultiples(p: nat, gaps: seq<nat>, k: nat): nat
    requires p > 0 && k <= |gaps|
    decreases k
  {
    if k == 0 then 0 else NonMultiples(p, gaps, k - 1) + if gaps[k - 1] % p != 0 then 1 else 0
  }

  /** The samples that find VAL changed are those whose gap is not whole periods. */
  lemma {:induction false} MovesAre(c: Counter, gaps: seq<nat>, k: nat)
    requires Running(c) && k <= |gaps|
    ensures Sampled(c, gaps, k).moves == NonMultiples(c.load + 1, gaps, k)
    decreases k
  {
    if k > 0 {
      MovesAre(c, gaps, k - 1);
      PassProgressIff(Sampled(c, gaps, k - 1).now, gaps[k - 1]);
    }
  }

  /** The count starts at 0 and never falls. */
  lemma {:induction false} CountGrows(c: Counter, gaps: seq<nat>, m: nat, k: nat)
    requires Running(c) && m <= k <= |gaps|
    ensures 0 <= Sampled(c, gaps, m).tcnt <= Sampled(c, gaps, k).tcnt
    ensures Sampled(c, gaps, m).moves <= Sampled(c, gaps, k).moves
    decreases k + m
  {
    if m < k {
      CountGrows(c, gaps, m, k - 1);
    } else if m > 0 {
      CountGrows(c, gaps, m - 1, m - 1);
    }
  }

  /** Samples a whole number of periods apart never see the counter move: the loop would not end. */
  lemma {:induction false} WholePeriodsNeverEnd(c: Counter, gaps: seq<nat>, k: nat)
    requires Running(c) && k <= |gaps| && forall i :: 0 <= i < k ==> gaps[i] % (c.load + 1) == 0
    ensures Sampled(c, gaps, k).moves == 0 && Sampled(c, gaps, k).tcnt == 0
    decreases k
  {
    if k > 0 {
      WholePeriodsNeverEnd(c, gaps, k - 1);
      PassProgressIff(Sampled(c, gaps, k - 1).now, gaps[k - 1]);
    }
  }

  // ---------------------------------------------------------------- the wait

  /** The loop leaves at sample `k`: it found VAL changed and the target reached, and no sample before did
      both. As the count never falls, the sample before decides that; for a zero target it is the first one
      that finds VAL changed. */
  ghost predicate StopsAt(c: Counter, ticks: nat, gaps: seq<nat>, k: nat)
    requires Running(c)
  {
    && 1 <= k <= |gaps|
    && var before, p := Sampled(c, gaps, k - 1), Sampled(c, gaps, k);
    && p.tcnt >= ticks && p.moves > before.moves
    && if ticks == 0 then before.moves == 0 else before.tcnt < ticks
  }

  /** The loop has not left by sample `k`. */
  ghost predicate StillWaiting(c: Counter, ticks: nat, gaps: seq<nat>, k: nat)
    requires Running(c) && k <= |gaps|
  {
    var p := Sampled(c, gaps, k);
    if ticks == 0 then p.moves == 0 else p.tcnt < ticks
  }

  /** Sample `k` finds VAL changed and the target reached. */
  ghost predicate CanLeave(c: Counter, ticks: nat, gaps: seq<nat>, k: nat)
    requires Running(c) && 1 <= k <= |gaps|
  {
    Sampled(c, gaps, k).now.val != Sampled(c, gaps, k - 1).now.val && Sampled(c, gaps, k).tcnt >= ticks
  }

  /** The loop leaves at the first sample that finds VAL changed and the target reached. */
  lemma LeavesAtFirst(c: Counter, ticks: nat, gaps: seq<nat>, k: nat)
    requires Running(c)
    ensures StopsAt(c, ticks, gaps, k) <==>
      1 <= k <= |gaps| && CanLeave(c, ticks, gaps, k) && forall m :: 1 <= m < k ==> !CanLeave(c, ticks, gaps, m)
  {
    if 1 <= k <= |gaps| {
      if forall m :: 1 <= m < k ==> !CanLeave(c, ticks, gaps, m) {
        NotYet(c, ticks, gaps, k - 1);
      }
      forall m | 1 <= m < k && CanLeave(c, ticks, gaps, m)
        ensures !StopsAt(c, ticks, gaps, k)
      {
        CountGrows(c, gaps, m, k - 1);
        CountGrows(c, gaps, m - 1, m - 1);
      }
    }
  }

  /** As long as the loop cannot leave, the target is not reached or VAL has not changed at all. */
  lemma {:induction false} NotYet(c: Counter, ticks: nat, gaps: seq<nat>, k: nat)
    requires Running(c) && k <= |gaps| && forall m :: 1 <= m <= k ==> !CanLeave(c, ticks, gaps, m)
    ensures StillWaiting(c, ticks, gaps, k)
    decreases k
  {
    if k > 0 {
      NotYet(c, ticks, gaps, k - 1);
      CountGrows(c, gaps, k, k);
      assert !CanLeave(c, ticks, gaps, k);
    }
  }

  /** For a zero target that is the first sample whose gap is not whole periods. */
  lemma ZeroTargetLeavesAt(c: Counter, gaps: seq<nat>, k: nat)
    requires Running(c)
    ensures StopsAt(c, 0, gaps, k) <==>
      1 <= k <= |gaps| && gaps[k - 1] % (c.load + 1) != 0 && forall i :: 0 <= i < k - 1 ==> gaps[i] % (c.load + 1) == 0
  {
    if 1 <= k <= |gaps| {
      CountGrows(c, gaps, 0, k);
      MovesAre(c, gaps, k - 1);
      NoNonMultiples(c.load + 1, gaps, k - 1);
      PassProgressIff(Sampled(c, gaps, k - 1).now, gaps[k - 1]);
    }
  }

  lemma {:induction false} NoNonMultiples(p: nat, gaps: seq<nat>, k: nat)
    requires p > 0 && k <= |gaps|
    ensures NonMultiples(p, gaps, k) == 0 <==> forall i :: 0 <= i < k ==> gaps[i] % p == 0
    decreases k
  {
    if k > 0 { NoNonMultiples(p, gaps, k - 1); }
  }

  /** There is at most one sample to leave at. */
  lemma LeavesOnce(c: Counter, ticks: nat, gaps: seq<nat>, k: nat, m: nat)
    requires Running(c) && StopsAt(c, ticks, gaps, k) && StopsAt(c, ticks, gaps, m)
    ensures k == m
  {
    if k < m { CountGrows(c, gaps, k, m - 1); }
    if m < k { CountGrows(c, gaps, m, k - 1); }
  }

  /** The least time the wait can take: the target and one cycle for every full period before its end. */
  function Shortest(load: nat, ticks: nat): nat
    requires load >= 1
  {
    if ticks == 0 then 0 else ticks + (ticks - 1) / load
  }

  /** Whatever the schedule, the wait is not shorter than that. */
  lemma NeverShorter(c: Counter, ticks: nat, gaps: seq<nat>, k: nat)
    requires Running(c) && StopsAt(c, ticks, gaps, k)
    ensures Sampled(c, gaps, k).total >= Shortest(c.load, ticks)
  {
    if ticks >= 1 {
      var p := Sampled(c, gaps, k);
      Accounting(c, gaps, k);
      SampledIsElapsed(c, gaps, k);
      CyclesConserve(c, p.total);
      ManyReloads(c.load, p.now.reloads - c.reloads, p.total, c.val, p.now.val, ticks);
    }
  }

  lemma ManyReloads(load: nat, r: nat, total: nat, val: nat, val': nat, ticks: nat)
    requires load >= 1 && ticks >= 1 && val <= load
    requires r * (load + 1) == total + val' - val && total - r >= ticks
    ensures r >= (ticks - 1) / load
  {
    OnePeriodMore(r, load);
    Distribute(r, load);
    QuotientAtLeast(ticks - 1, load, r + 1);
  }

  /** With samples at most `longest <= load` cycles apart the wait is longer by at most one gap. */
  lemma DelayBounds(c: Counter, ticks: nat, gaps: seq<nat>, k: nat, longest: nat)
    requires Running(c) && StopsAt(c, ticks, gaps, k) && GapsUpTo(gaps, k, longest) && longest <= c.load
    ensures Shortest(c.load, ticks) <= Sampled(c, gaps, k).total <= Shortest(c.load, ticks) + longest
  {
    NeverShorter(c, ticks, gaps, k);
    if ticks == 0 {
      ZeroTarget(c, gaps, k, longest);
    } else {
      PositiveTarget(c, ticks, gaps, k, longest);
    }
  }

  lemma ZeroTarget(c: Counter, gaps: seq<nat>, k: nat, longest: nat)
    requires Running(c) && StopsAt(c, 0, gaps, k) && GapsUpTo(gaps, k, longest) && longest <= c.load
    ensures Sampled(c, gaps, k).total <= longest
  {
    IdleIsZero(c, gaps, k - 1);
  }

  lemma PositiveTarget(c: Counter, ticks: nat, gaps: seq<nat>, k: nat, longest: nat)
    requires Running(c) && ticks >= 1 && StopsAt(c, ticks, gaps, k) && GapsUpTo(gaps, k, longest) && longest <= c.load
    ensures Sampled(c, gaps, k).total <= ticks + (ticks - 1) / c.load + longest
  {
    var before := Sampled(c, gaps, k - 1);
    AccountingExactIff(c, gaps, k - 1);
    SampledIsElapsed(c, gaps, k - 1);
    ReloadsWithin(c, before.total, ticks);
  }

  lemma ReloadsWithin(c: Counter, total: nat, ticks: nat)
    requires Running(c) && ticks >= 1 && total - (Cycles(c, total).reloads - c.reloads) < ticks
    ensures Cycles(c, total).reloads - c.reloads <= 1 + (ticks - 1) / c.load
  {
    CyclesConserve(c, total);
    FewReloads(c.load, Cycles(c, total).reloads - c.reloads, total, c.val, Cycles(c, total).val, ticks);
  }

  lemma FewReloads(load: nat, r: nat, total: nat, val: nat, val': nat, ticks: nat)
    requires load >= 1 && ticks >= 1 && val' <= load
    requires r * (load + 1) == total + val' - val && total - r < ticks
    ensures r <= 1 + (ticks - 1) / load
  {
    OnePeriodMore(r, load);
    Distribute(r - 1, load);
    if r >= 1 { QuotientAtLeast(ticks - 1, load, r - 1); }
  }

  /** Gaps shorter than a period that never see VAL move are empty. */
  lemma {:induction false} IdleIsZero(c: Counter, gaps: seq<nat>, k: nat)
    requires Running(c) && k <= |gaps| && GapsUpTo(gaps, k, c.load) && Sampled(c, gaps, k).moves == 0
    ensures Sampled(c, gaps, k).total == 0
    decreases k
  {
    if k > 0 {
      IdleIsZero(c, gaps, k - 1);
      PassProgressIff(Sampled(c, gaps, k - 1).now, gaps[k - 1]);
      DivUnique(gaps[k - 1], c.load + 1, 0, gaps[k - 1]);
    }
  }

  // ---------------------------------------------------------------- both ends are reached

  /** The first `k` gaps are single cycles. */
  ghost predicate Units(gaps: seq<nat>, k: nat)
    requires k <= |gaps|
  {
    forall i :: 0 <= i < k ==> gaps[i] == 1
  }

  lemma {:induction false} UnitTotal(c: Counter, gaps: seq<nat>, k: nat)
    requires Running(c) && k <= |gaps| && Units(gaps, k)
    ensures Sampled(c, gaps, k).total == k
    decreases k
  {
    if k > 0 { UnitTotal(c, gaps, k - 1); }
  }

  /** The cycles of `n` periods. */
  function Periods(load: nat, n: nat): nat {
    if n == 0 then 0 else Periods(load, n - 1) + load + 1
  }

  lemma {:induction false} PeriodsAre(load: nat, n: nat)
    ensures Periods(load, n) == n * (load + 1)
  {
    if n > 0 {
      PeriodsAre(load, n - 1);
      Distribute(n - 1, load + 1);
    }
  }

  /** The count when no gap exceeds LOAD, by the phase at the start. */
  lemma CountByPhase(c: Counter, gaps: seq<nat>, k: nat, total: nat, reloads: nat)
    requires Running(c) && k <= |gaps| && GapsUpTo(gaps, k, c.load) && total == Sampled(c, gaps, k).total
    requires 0 <= c.load - c.val + total - Periods(c.load, reloads) <= c.load
    ensures Sampled(c, gaps, k).tcnt == total - reloads
    ensures Sampled(c, gaps, k).now.val == c.val - total + Periods(c.load, reloads)
  {
    AccountingExactIff(c, gaps, k);
    SampledIsElapsed(c, gaps, k);
    ReloadsByPhase(c, total, reloads);
  }

  lemma ReloadsByPhase(c: Counter, total: nat, reloads: nat)
    requires Running(c) && 0 <= c.load - c.val + total - Periods(c.load, reloads) <= c.load
    ensures Cycles(c, total).reloads == c.reloads + reloads
    ensures Cycles(c, total).val == c.val - total + Periods(c.load, reloads)
  {
    PeriodsAre(c.load, reloads);
    ClosedForm(c, total);
    DivUnique(c.load - c.val + total, c.load + 1, reloads, c.load - c.val + total - Periods(c.load, reloads));
  }

  /** A target in full periods of `load` counts and a rest. */
  lemma PeriodsOfTarget(load: nat, ticks: nat)
    requires load >= 1 && ticks >= 1
    ensures var q := (ticks - 1) / load;
      Periods(load, q) <= ticks - 1 + q < Periods(load, q) + load
  {
    var q := (ticks - 1) / load;
    PeriodsAre(load, q);
    Euclid(ticks - 1, load);
    OnePeriodMore(q, load);
  }

  /** Single-cycle samples count all cycles but the reloads. */
  lemma UnitCount(c: Counter, gaps: seq<nat>, k: nat, reloads: nat)
    requires Running(c) && k <= |gaps| && Units(gaps, k)
    requires 0 <= c.load - c.val + k - Periods(c.load, reloads) <= c.load
    ensures Sampled(c, gaps, k).tcnt == k - reloads && Sampled(c, gaps, k).total == k
    ensures Sampled(c, gaps, k).now.val == c.val - k + Periods(c.load, reloads)
  {
    UnitTotal(c, gaps, k);
    CountByPhase(c, gaps, k, k, reloads);
  }

  /** A gap of 1 to LOAD cycles is seen, and counts unless VAL was 0. */
  lemma ShortGap(c: Counter, gaps: seq<nat>, n: nat, k: nat)
    requires Running(c) && k == n + 1 <= |gaps| && 1 <= gaps[n] <= c.load
    ensures var p, p' := Sampled(c, gaps, n), Sampled(c, gaps, k);
      && p'.moves == p.moves + 1 && p'.total == p.total + gaps[n]
      && p'.tcnt >= p.tcnt + if p.now.val == 0 then 0 else 1
  {
    assert k - 1 == n;
    PassProgressIff(Sampled(c, gaps, n).now, gaps[n]);
    DivUnique(gaps[n], c.load + 1, 0, gaps[n]);
  }

  /** A short last gap that completes the count is where the loop leaves. */
  lemma LeavesAt(c: Counter, gaps: seq<nat>, ticks: nat, n: nat, k: nat)
    requires Running(c) && k == n + 1 <= |gaps| && 1 <= gaps[n] <= c.load && ticks >= 1
    requires Sampled(c, gaps, n).tcnt == ticks - 1 && Sampled(c, gaps, n).now.val != 0
    ensures StopsAt(c, ticks, gaps, k) && Sampled(c, gaps, k).total == Sampled(c, gaps, n).total + gaps[n]
  {
    ShortGap(c, gaps, n, k);
    assert k - 1 == n;
  }

  /** From a fresh reload, sampling at every cycle, the wait takes exactly the least time. */
  lemma LowerBoundReached(c: Counter, ticks: nat, gaps: seq<nat>, k: nat)
    requires Running(c) && c.val == c.load && ticks >= 1
    requires k == Shortest(c.load, ticks) <= |gaps| && Units(gaps, k)
    ensures StopsAt(c, ticks, gaps, k) && Sampled(c, gaps, k).total == Shortest(c.load, ticks)
  {
    var n := k - 1;
    PeriodsOfTarget(c.load, ticks);
    UnitCount(c, gaps, n, (ticks - 1) / c.load);
    LeavesAt(c, gaps, ticks, n, k);
  }

  /** From VAL 0, sampling at every cycle until one count is missing and then once more after the longest
      gap, the wait takes the least time and that gap: for every target and every longest gap. */
  lemma UpperBoundReached(c: Counter, ticks: nat, gaps: seq<nat>, n: nat, k: nat, longest: nat)
    requires Running(c) && c.val == 0 && 1 <= longest <= c.load
    requires n == Shortest(c.load, ticks) && k == n + 1 <= |gaps| && Units(gaps, n) && gaps[n] == longest
    ensures GapsUpTo(gaps, k, longest) && StopsAt(c, ticks, gaps, k)
    ensures Sampled(c, gaps, k).total == Shortest(c.load, ticks) + longest
  {
    if ticks == 0 {
      UpperAtZero(c, gaps);
    } else {
      var q := (ticks - 1) / c.load;
      PeriodsOfTarget(c.load, ticks);
      UpperAt(c, ticks, gaps, n, q, q + 1);
      LeavesAt(c, gaps, ticks, n, k);
    }
  }

  lemma UpperAtZero(c: Counter, gaps: seq<nat>)
    requires Running(c) && |gaps| >= 1 && 1 <= gaps[0] <= c.load
    ensures StopsAt(c, 0, gaps, 1) && Sampled(c, gaps, 1).total == gaps[0]
  {
    ShortGap(c, gaps, 0, 1);
    CountGrows(c, gaps, 0, 1);
  }

  lemma UpperAt(c: Counter, ticks: nat, gaps: seq<nat>, n: nat, q: nat, reloads: nat)
    requires Running(c) && c.val == 0 && ticks >= 1 && reloads == q + 1 && n == ticks + q <= |gaps|
    requires Periods(c.load, q) < n <= Periods(c.load, q) + c.load && Units(gaps, n)
    ensures Sampled(c, gaps, n).tcnt == ticks - 1 && Sampled(c, gaps, n).now.val != 0
    ensures Sampled(c, gaps, n).total == n
  {
    assert Periods(c.load, reloads) == Periods(c.load, q) + c.load + 1;
    UnitCount(c, gaps, n, reloads);
  }

  // ---------------------------------------------------------------- the target

  /** The target is the exact one exactly when the product of microseconds and LOAD fits in 32 bits;
      otherwise it is that of the remainder. */
  lemma TargetExactIff(us: u32, load: u32)
    ensures DelayTicks(us, load) == us * load % 0x1_0000_0000 / 10000
    ensures DelayTicks(us, load) == us * load / US_PER_TICK <==> us * load < MODULUS
    ensures us * load >= MODULUS ==> DelayTicks(us, load) + 429496 <= us * load / US_PER_TICK
    ensures DelayTicks(us, load) <= 429496
  {
    NonNegative(us, load);
    TargetOf(us, load, us * load);
    WrapLoses(us * load);
  }

  /** The target for every product, by its remainder: each full 2^32 of it is lost. */
  lemma WrappedTarget(us: u32, load: u32, q: nat, r: nat)
    requires us * load == q * 0x1_0000_0000 + r && r < 0x1_0000_0000
    ensures DelayTicks(us, load) == r / 10000
    ensures 10000 * DelayTicks(us, load) <= us * load - q * 0x1_0000_0000 < 10000 * DelayTicks(us, load) + 10000
  {
    DivUnique(us * load, 0x1_0000_0000, q, r);
  }

  lemma NonNegative(x: nat, y: nat)
    ensures x * y >= 0
  {
  }

  lemma TargetOf(us: u32, load: u32, x: nat)
    requires x == us * load
    ensures DelayTicks(us, load) == x % 0x1_0000_0000 / 10000
  {
  }

  lemma WrapLoses(x: nat)
    ensures x % 0x1_0000_0000 / 10000 == x / 10000 <==> x < 0x1_0000_0000
    ensures x >= 0x1_0000_0000 ==> x % 0x1_0000_0000 / 10000 + 429496 <= x / 10000
    ensures x % 0x1_0000_0000 / 10000 <= 429496
  {
    var r := x % 0x1_0000_0000;
    if x >= 0x1_0000_0000 {
      assert r + 4294960000 <= x;
      DividedGap(r, x);
    }
  }

  lemma DividedGap(r: nat, x: nat)
    requires r + 4294960000 <= x
    ensures r / 10000 + 429496 <= x / 10000
  {
    assert r == 10000 * (r / 10000) + r % 10000;
  }

  lemma TargetSmall(us: u32, load: u32)
    ensures DelayTicks(us, load) <= 429496
  {
    var x := Mul(us, load);
    assert x / 10000 <= 429496;
  }

  /** While the target is not reached, no operation of a loop pass wraps, for every 32-bit request and
      every 24-bit LOAD. */
  lemma PassStaysIn32Bits(us: u32, load: u32, told: u32, tnow: u32, tcnt: u32)
    requires load < 0x100_0000 && told <= load && tnow <= load && tnow != told
    requires tcnt <= DelayTicks(us, load)
    ensures tnow < told ==> Add(tcnt, Sub(told, tnow)) == tcnt + Observed(load, told, tnow)
    ensures tnow > told ==> Add(tcnt, Add(Sub(load, tnow), told)) == tcnt + Observed(load, told, tnow)
  {
    TargetSmall(us, load);
  }

  /** How much longer than the target a wait can take. */
  function Overhead(load: nat, longest: nat, ticks: nat): int
    requires load >= 1
  {
    Shortest(load, ticks) + longest - ticks
  }

  /** What one wait takes, from any counter phase. */
  ghost predicate Takes(cycles: int, load: nat, longest: nat, ticks: nat)
    requires load >= 1
  {
    Shortest(load, ticks) <= cycles <= Shortest(load, ticks) + longest
  }

  /** A wait is as long as requested exactly when the product fits in 32 bits: a wrap takes at least 429496
      counts off the target, more than the overhead of any reasonable sampling. */
  lemma LongEnoughIff(us: u32, load: u32, longest: nat, cycles: int)
    requires load >= 1 && Overhead(load, longest, DelayTicks(us, load)) < 429496
    requires Takes(cycles, load, longest, DelayTicks(us, load))
    ensures cycles >= us * load / US_PER_TICK <==> us * load < MODULUS
  {
    TargetExactIff(us, load);
    LongEnough(load, longest, cycles, DelayTicks(us, load), us * load / US_PER_TICK, us * load < MODULUS);
  }

  lemma LongEnough(load: nat, longest: nat, cycles: int, ticks: nat, requested: int, fits: bool)
    requires load >= 1 && Overhead(load, longest, ticks) < 429496 && Takes(cycles, load, longest, ticks)
    requires if fits then ticks == requested else ticks + 429496 <= requested
    ensures cycles >= requested <==> fits
  {
    if ticks >= 1 { QuotientAtLeast(ticks - 1, load, 0); }
  }

  /** At 64 MHz LOAD is 640000 and a microsecond is 64 cycles: the limit is 6710 microseconds. */
  lemma BoardLimit(us: u32)
    ensures us * 640000 / US_PER_TICK == 64 * us
    ensures us * 640000 < MODULUS <==> us <= 6710
  {
  }

  lemma LessThanOnePeriod(ticks: nat)
    ensures 1 <= ticks <= 429496 ==> (ticks - 1) / 640000 == 0
  {
  }

  /** There no target reaches a full period, so the overhead is one gap. */
  lemma BoardOverhead(us: u32, longest: nat)
    ensures Overhead(640000, longest, DelayTicks(us, 640000)) == longest
  {
    LessThanOnePeriod(DelayTicks(us, 640000));
  }

  /** There a request of one wrap, 6711 to 13421 microseconds, is 429497 counts short. */
  lemma BoardWrappedTarget(us: u32)
    requires 6711 <= us <= 13421
    ensures DelayTicks(us, 640000) == 64 * us - 429497
  {
    WrappedTarget(us, 640000, 1, us * 640000 - 0x1_0000_0000);
  }

  /** The least cycles of a wait there: 64 per microsecond, without those a wrap takes off. */
  function BoardLeast(us: u32): int
    requires us <= 13421
  {
    64 * us - if us <= 6710 then 0 else 429497
  }

  lemma BoardTakes(us: u32, longest: nat, cycles: int)
    requires us <= 13421 && Takes(cycles, 640000, longest, DelayTicks(us, 640000))
    ensures BoardLeast(us) <= cycles <= BoardLeast(us) + longest
  {
    if us <= 6710 {
      BoardLimit(us);
      TargetExactIff(us, 640000);
    } else {
      BoardWrappedTarget(us);
    }
    TargetSmall(us, 640000);
    LessThanOnePeriod(DelayTicks(us, 640000));
  }

  /** There the wait lasts the requested time exactly for up to 6710 microseconds, then with at most one gap
      on top. */
  lemma BoardLongEnoughIff(us: u32, longest: nat, cycles: int)
    requires longest < 429496 && Takes(cycles, 640000, longest, DelayTicks(us, 640000))
    ensures cycles >= 64 * us <==> us <= 6710
    ensures us <= 6710 ==> 64 * us <= cycles <= 64 * us + longest
  {
    BoardLimit(us);
    BoardOverhead(us, longest);
    LongEnoughIff(us, 640000, longest, cycles);
    LessThanOnePeriod(DelayTicks(us, 640000));
    TargetExactIff(us, 640000);
  }
}
