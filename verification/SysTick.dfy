/** The SysTick down-counter (ARMv7-M Architecture Reference Manual, section B3.3): VAL counts down to 0,
    the next clock reloads LOAD, and reaching 0 from 1 pends the SysTick exception. */
module SysTick {
  datatype Counter = Counter(load: nat, val: nat, reloads: nat, pends: nat)

  /** LOAD is a 24-bit register; a zero LOAD would stop the counter. */
  predicate Running(c: Counter) {
    1 <= c.load < 0x100_0000 && c.val <= c.load
  }

  function Cycle(c: Counter): (c': Counter)
    requires Running(c)
    ensures Running(c') && c'.load == c.load
  {
    if c.val == 0 then c.(val := c.load, reloads := c.reloads + 1)
    else c.(val := c.val - 1, pends := c.pends + if c.val == 1 then 1 else 0)
  }

  function Cycles(c: Counter, n: nat): (c': Counter)
    requires Running(c)
    ensures Running(c') && c'.load == c.load
  {
    if n == 0 then c else Cycle(Cycles(c, n - 1))
  }

  lemma {:induction false} CyclesCompose(c: Counter, m: nat, n: nat)
    requires Running(c)
    ensures Cycles(Cycles(c, m), n) == Cycles(c, m + n)
    decreases n
  {
    if n > 0 { CyclesCompose(c, m, n - 1); }
  }

  /** Each reload adds one period of `load + 1` cycles; each visit to 0 pends once. */
  lemma {:induction false} CyclesConserve(c: Counter, n: nat)
    requires Running(c)
    ensures var c' := Cycles(c, n);
      && c'.reloads >= c.reloads
      && (c'.reloads - c.reloads) * (c.load + 1) == n + c'.val - c.val
      && c'.pends + (if c.val == 0 then 1 else 0) - c.pends == c'.reloads - c.reloads + if c'.val == 0 then 1 else 0
    decreases n
  {
    if n > 0 {
      CyclesConserve(c, n - 1);
      var b := Cycles(c, n - 1);
      if b.val == 0 {
        Distribute(b.reloads - c.reloads, c.load + 1);
      }
    }
  }

  lemma Distribute(q: int, p: int)
    ensures (q + 1) * p == q * p + p
  {
  }

  lemma DivUnique(t: nat, p: nat, q: nat, r: nat)
    requires p > 0 && r < p && t == q * p + r
    ensures t / p == q && t % p == r
  {
    var d := t / p;
    assert t == d * p + t % p;
    if d < q {
      Monotone(d + 1, q, p);
      Distribute(d, p);
    } else if q < d {
      Monotone(q + 1, d, p);
      Distribute(q, p);
    }
  }

  lemma Monotone(a: int, b: int, p: nat)
    requires a <= b
    ensures a * p <= b * p
  {
  }

  lemma NotPositive(q: int, p: nat)
    ensures q <= 0 ==> q * p <= 0
  {
  }

  lemma QuotientAtLeast(n: nat, p: nat, k: nat)
    requires p > 0
    ensures n / p >= k <==> n >= k * p
  {
    var t := n / p;
    assert n == t * p + n % p;
    if k <= t {
      Monotone(k, t, p);
    } else {
      Monotone(t + 1, k, p);
      Distribute(t, p);
    }
  }

  /** VAL and the reload count after any number of cycles, from any phase. */
  lemma ClosedForm(c: Counter, n: nat)
    requires Running(c)
    ensures var phase, period := c.load - c.val, c.load + 1;
      && Cycles(c, n).val == c.load - (phase + n) % period
      && Cycles(c, n).reloads == c.reloads + (phase + n) / period
  {
    var c' := Cycles(c, n);
    CyclesConserve(c, n);
    DivUnique(c.load - c.val + n, c.load + 1, c'.reloads - c.reloads, c.load - c'.val);
  }

  /** The tick count after any number of cycles, from any phase: the cycles since VAL was last 0, divided
      by the period. */
  lemma TicksFromAnyPhase(c: Counter, n: nat)
    requires Running(c)
    ensures Cycles(c, n).pends == c.pends + (n + (c.load + 1 - c.val) % (c.load + 1)) / (c.load + 1)
  {
    var c' := Cycles(c, n);
    CyclesConserve(c, n);
    PeriodsSinceZero(c.load + 1, n, c.val, c'.val, c'.reloads - c.reloads, c'.pends - c.pends);
    SinceZero(c.load, c.val);
  }

  /** The cycles since VAL was 0. */
  lemma SinceZero(load: nat, val: nat)
    requires val <= load
    ensures (load + 1 - val) % (load + 1) == if val == 0 then 0 else load + 1 - val
  {
    DivUnique(load + 1 - val, load + 1, if val == 0 then 1 else 0, if val == 0 then 0 else load + 1 - val);
  }

  lemma PeriodsSinceZero(p: nat, n: nat, val: nat, val': nat, reloads: int, pends: int)
    requires val < p && val' < p && reloads * p == n + val' - val
    requires pends == reloads + (if val' == 0 then 1 else 0) - if val == 0 then 1 else 0
    ensures (n + if val == 0 then 0 else p - val) / p == pends
  {
    var since, since' := if val == 0 then 0 else p - val, if val' == 0 then 0 else p - val';
    Distribute(reloads - 1, p);
    Distribute(reloads, p);
    assert n + since == pends * p + since';
    NotPositive(pends + 1, p);
    Distribute(pends, p);
    DivUnique(n + since, p, pends, since');
  }

  /** The counter as SysTick_Configuration leaves it. */
  function Configured(load: nat): Counter {
    Counter(load, 0, 0, 0)
  }

  /** From the configuration on, `n` cycles pend exactly `n / (load + 1)` exceptions. */
  lemma TicksPended(load: nat, n: nat)
    requires Running(Configured(load))
    ensures Cycles(Configured(load), n).pends == n / (load + 1)
  {
    TicksFromAnyPhase(Configured(load), n);
    SinceZero(load, 0);
  }

  /** The k-th tick comes with cycle `k * load + k`: it lags the nominal `k * load` by exactly k cycles,
      one more with every tick. */
  lemma TickSchedule(load: nat, n: nat, k: nat)
    requires Running(Configured(load))
    ensures Cycles(Configured(load), n).pends >= k <==> n >= k * load + k
  {
    TicksPended(load, n);
    QuotientAtLeast(n, load + 1, k);
    OnePeriodMore(k, load);
  }

  lemma OnePeriodMore(k: int, load: nat)
    ensures k * (load + 1) == k * load + k
  {
  }

  /** The tick count never exceeds the nominal `n / load`. */
  lemma TicksNeverAhead(load: nat, n: nat)
    requires Running(Configured(load))
    ensures Cycles(Configured(load), n).pends <= n / load
  {
    TicksPended(load, n);
    NominalIsAhead(load, n);
  }

  lemma NominalIsAhead(load: nat, n: nat)
    requires load >= 1
    ensures n / (load + 1) <= n / load
  {
    var t := n / (load + 1);
    QuotientAtLeast(n, load + 1, t);
    OnePeriodMore(t, load);
    QuotientAtLeast(n, load, t);
  }
}
