/** The HAL time base on top of the system timer: its set-up, changes of its rate, and the wait on it. */
module HalTick {
  import opened Words
  import opened Priority
  import opened Nvic
  import opened SysTick

  /** Milliseconds per tick. */
  type TickFreq = f: nat | f == 1 || f == 10 || f == 100 witness 1

  /** The timer cycles in one tick for a core clock in hertz. */
  function Period(clock: Uint32, f: TickFreq): Uint32 {
    clock / (1000 / f)
  }

  /** A tick of f milliseconds lasts at least a cycle and no more cycles than the timer can count. */
  predicate Possible(clock: Uint32, f: TickFreq) {
    1000 <= f * clock < 1000 * (MAX_RELOAD + 2)
  }

  /** The period is the whole number of cycles in f milliseconds. */
  lemma PeriodIs(clock: Uint32, f: TickFreq)
    ensures 1000 * Period(clock, f) <= f * clock < 1000 * (Period(clock, f) + 1)
    ensures 1 <= Period(clock, f) <= MAX_RELOAD + 1 <==> Possible(clock, f)
  {
    assert Period(clock, 1) == clock / 1000 && Period(clock, 10) == clock / 100 && Period(clock, 100) == clock / 10;
  }

  /** Two rates that a clock allows are so far apart that no period is right for both. */
  lemma DifferentPeriods(clock: Uint32, f: TickFreq, h: TickFreq)
    requires f != h && f * clock >= 1000 && h * clock >= 1000
    ensures f * clock + 1000 <= h * clock || h * clock + 1000 <= f * clock
    ensures Period(clock, f) != Period(clock, h)
  {
    PeriodIs(clock, f);
    PeriodIs(clock, h);
  }

  class TimeBase {
    const coreClock: Uint32
    const timer: SysTickTimer
    const nvic: Controller
    var tick: Uint32
    var tickPrio: Uint32
    var tickFreq: TickFreq

    ghost predicate Valid()
      reads nvic, nvic.ip, nvic.shp
    {
      nvic.Valid()
    }

    /** The timer runs at the rate that tickFreq says: its period is that many milliseconds, less the
        part of a cycle. */
    ghost predicate InStep()
      reads this, timer
    {
      timer.enabled && 1000 * (timer.load + 1) <= tickFreq * coreClock < 1000 * (timer.load + 2)
    }

    /** Before the first success the remembered priority is one that is too high. */
    constructor (clock: Uint32, sysTick: SysTickTimer, controller: Controller)
      requires controller.Valid()
      ensures Valid() && timer == sysTick && nvic == controller && coreClock == clock
      ensures tick == 0 && tickFreq == 1 && tickPrio == Pow2(controller.prioBits)
    {
      hide Pow2;
      coreClock, timer, nvic := clock, sysTick, controller;
      PrioritiesFit(controller.prioBits);
      tick, tickPrio, tickFreq := 0, Pow2(controller.prioBits), 1;
    }

    method IncTick()
      modifies this`tick
      ensures tick == Wrap(old(tick) + tickFreq)
    {
      tick := Wrap(tick + tickFreq);
    }

    /** Time passing with its interrupts: each exception of the timer is served at once. */
    method Serve(cycles: nat)
      modifies this`tick, timer
      ensures timer.Regs() == After(old(timer.Regs()), cycles) && timer.clock == old(timer.clock) + cycles
      ensures tick == Wrap(old(tick) + tickFreq * Fired(old(timer.Regs()), cycles))
    {
      hide Wrap, Fires, Tick;
      ghost var start := timer.Regs();
      WrapSmall(tick);
      var i := 0;
      while i < cycles
        invariant i <= cycles && timer.Regs() == After(start, i) && timer.clock == old(timer.clock) + i
        invariant tick == Wrap(old(tick) + tickFreq * Fired(start, i))
      {
        AfterAfter(start, i, 1);
        OneCycle(timer.Regs());
        ServedOne(old(tick), tickFreq, Fired(start, i));
        var raise := timer.enabled && timer.tickInt && timer.val == 1;
        timer.Elapse(1);
        if raise {
          IncTick();
        }
        i := i + 1;
      }
    }

    /** The wait on the tick, with the cycles between its tests given as gaps; it gives up when they
        run out. */
    method HalDelay(delay: Uint32, gaps: seq<nat>) returns (done: bool, tests: nat)
      modifies this`tick, timer
      ensures tests <= |gaps| && timer.clock == old(timer.clock) + Total(gaps[..tests])
      ensures done ==> EndsAt(old(timer.Regs()), tickFreq, delay, gaps[..tests])
      ensures var wait := if delay == MAX_DELAY then MAX_DELAY else (delay + tickFreq) % 0x1_0000_0000;
              && (done ==> Passed(old(timer.Regs()), tickFreq, Total(gaps[..tests])) >= wait)
              && forall i | 0 <= i < tests + if done then 0 else 1 ::
                   Passed(old(timer.Regs()), tickFreq, Total(gaps[..i])) < wait
      ensures !done ==> tests == |gaps| && forall i | 0 <= i <= |gaps| ::
                          Passed(old(timer.Regs()), tickFreq, Total(gaps[..i])) < TicksToWait(delay, tickFreq)
    {
      hide Wrap, Fired, After, Total, Passed;
      var tickstart, wait := tick, delay;
      if wait < MAX_DELAY {
        wait := Wrap(wait + tickFreq);
      }
      ghost var start := timer.Regs();
      tests := 0;
      NothingPassed(start, tickFreq, tickstart, gaps);
      while Wrap(tick - tickstart) < wait
        invariant tests <= |gaps| && timer.Regs() == After(start, Total(gaps[..tests]))
        invariant timer.clock == old(timer.clock) + Total(gaps[..tests])
        invariant tick == Wrap(tickstart + tickFreq * Fired(start, Total(gaps[..tests])))
        invariant Wrap(tick - tickstart) == Passed(start, tickFreq, Total(gaps[..tests]))
        invariant forall i | 0 <= i < tests :: Passed(start, tickFreq, Total(gaps[..i])) < wait
        decreases |gaps| - tests
      {
        if tests == |gaps| {
          TicksAsked(delay, tickFreq);
          return false, tests;
        }
        var c := Total(gaps[..tests]);
        NextTotal(gaps, tests);
        Serve(gaps[tests]);
        MorePassed(start, tickFreq, tickstart, c, gaps[tests]);
        tests := tests + 1;
      }
      PrefixTotals(gaps, tests);
      TicksAsked(delay, tickFreq);
      done := true;
    }

    /** Succeeds exactly when the period fits the timer and the priority is below 2^bits. A period that
        does not fit changes nothing; a priority that is too high is noticed only after the timer was
        started. */
    method InitTick(priority: Uint32) returns (ok: bool)
      requires Valid()
      modifies this`tickPrio, timer, nvic.ip, nvic.shp
      ensures Valid()
      ensures ok == (1000 <= tickFreq * coreClock < 1000 * (0x100_0000 + 1) && priority < Pow2(nvic.prioBits))
      ensures tickPrio == if ok then priority else old(tickPrio)
      ensures if Possible(coreClock, tickFreq)
              then 1000 * (timer.load + 1) <= tickFreq * coreClock < 1000 * (timer.load + 2)
                && timer.val == 0 && timer.enabled && timer.tickInt
              else timer.Regs() == old(timer.Regs())
      ensures nvic.Abs() == if !Possible(coreClock, tickFreq) then old(nvic.Abs())
                            else Apply(nvic.prioBits, old(nvic.Abs()),
                                       if ok then Call.HalSetPriority(-1, priority, 0)
                                       else SetPriority(-1, Pow2(nvic.prioBits) - 1))
    {
      hide After, Fired, Apply, Controller.Abs;
      AfterNothing(old(timer.Regs()), Period(coreClock, tickFreq));
      PeriodIs(coreClock, tickFreq);
      var failed := timer.Config(nvic, Period(coreClock, tickFreq), 0, 0, 0);
      if failed > 0 {
        return false;
      }
      if priority < Pow2(nvic.prioBits) {
        LaterPriority(nvic.prioBits, old(nvic.Abs()), Pow2(nvic.prioBits) - 1, priority);
        nvic.HalSetPriority(-1, priority, 0);
        tickPrio := priority;
      } else {
        return false;
      }
      return true;
    }

    /** A failure takes tickFreq back, but not the timer. */
    method SetTickFreq(freq: TickFreq) returns (ok: bool)
      requires Valid()
      modifies this`tickPrio, this`tickFreq, timer, nvic.ip, nvic.shp
      ensures Valid() && tickPrio == old(tickPrio)
      ensures ok == (freq == old(tickFreq) ||
                     (1000 <= freq * coreClock < 1000 * (0x100_0000 + 1) && old(tickPrio) < Pow2(nvic.prioBits)))
      ensures tickFreq == if ok then freq else old(tickFreq)
      ensures old(InStep()) ==>
                (InStep() <==> (ok || !Possible(coreClock, freq)))
      ensures if freq != old(tickFreq) && Possible(coreClock, freq)
              then 1000 * (timer.load + 1) <= freq * coreClock < 1000 * (timer.load + 2)
                && timer.val == 0 && timer.enabled && timer.tickInt
              else timer.Regs() == old(timer.Regs())
      ensures nvic.Abs() == if freq == old(tickFreq) || !Possible(coreClock, freq) then old(nvic.Abs())
                            else Apply(nvic.prioBits, old(nvic.Abs()),
                                       if ok then Call.HalSetPriority(-1, tickPrio, 0)
                                       else SetPriority(-1, Pow2(nvic.prioBits) - 1))
    {
      hide Apply, Controller.Abs, Pow2, Period;
      ok := true;
      if tickFreq != freq {
        var prevTickFreq := tickFreq;
        tickFreq := freq;
        if old(InStep()) && Possible(coreClock, freq) {
          DifferentPeriods(coreClock, freq, prevTickFreq);
        }
        ok := InitTick(tickPrio);
        if !ok {
          tickFreq := prevTickFreq;
        }
      }
    }
  }

  lemma PrioritiesFit(bits: PrioBits)
    ensures Pow2(bits) <= 0x100
  {
    Pow2Values();
    Pow2Monotone(bits, 8);
  }

  lemma WrapSmall(x: Uint32)
    ensures Wrap(x + 0) == Wrap(x) == x
  {
  }

  lemma NoCycles(t: Timer)
    ensures After(t, 0) == t && Fired(t, 0) == 0
  {
  }

  lemma OneCycle(t: Timer)
    ensures Fired(t, 1) == if t.enabled && t.tickInt && t.val == 1 then 1 else 0
  {
  }

  lemma ServedOne(start: Uint32, f: TickFreq, n: nat)
    ensures Wrap(Wrap(start + f * n) + f) == Wrap(start + f * (n + 1))
  {
    assert f * (n + 1) == f * n + f;
  }

  lemma ServedMore(start: Uint32, f: TickFreq, m: nat, n: nat)
    ensures Wrap(Wrap(start + f * m) + f * n) == Wrap(start + f * (m + n))
  {
    assert f * (m + n) == f * m + f * n;
  }

  lemma NextTotal(gaps: seq<nat>, i: nat)
    requires i < |gaps|
    ensures Total(gaps[..i + 1]) == Total(gaps[..i]) + gaps[i]
  {
    assert gaps[..i + 1][..i] == gaps[..i];
  }

  lemma PrefixTotals(gaps: seq<nat>, n: nat)
    requires n <= |gaps|
    ensures forall i | 0 <= i < n :: gaps[..n][..i] == gaps[..i]
  {
  }

  lemma AfterNothing(prior: Timer, ticks: nat)
    ensures ticks >= 1 ==> Configured(ticks, prior, 0) == Timer(ticks - 1, 0, true, true)
  {
  }

  lemma LaterPriority(bits: PrioBits, s: State, first: nat, p: nat)
    ensures Apply(bits, Apply(bits, s, SetPriority(-1, first)), Call.HalSetPriority(-1, p, 0))
         == Apply(bits, s, Call.HalSetPriority(-1, p, 0))
  {
    hide Encode, Low;
    var x := s.priority[-1 := Low(first, bits)];
    var v := Low(Encode(bits, s.group, p, 0), bits);
    assert x[-1 := v] == s.priority[-1 := v];
  }

  /** The check against 2^bits is too wide: the priority goes into the preempt field of the group in
      force, and the timer gets the one asked for exactly when that field can hold it. */
  lemma TickPriorityKept(bits: PrioBits, s: State, priority: Uint32)
    ensures var s' := Apply(bits, s, Call.HalSetPriority(-1, priority, 0));
            -1 in s'.priority &&
            (DecodedPreempt(bits, s'.priority[-1], s.group) == priority <==>
             priority < Pow2(PreemptBits(bits, s.group)))
  {
    hide Encode, DecodedPreempt, PreemptBits, SubBits;
    EncodeBound(bits, s.group, priority, 0);
    LowSmall(Encode(bits, s.group, priority, 0), bits);
    DecodeEncode(bits, s.group, priority, 0);
    if priority < Pow2(PreemptBits(bits, s.group)) {
      LowSmall(priority, PreemptBits(bits, s.group));
    }
  }

  /** On a timer set up for f milliseconds, the milliseconds that the exceptions add up to in c cycles
      are less than f behind the time that has passed, and ahead of it by no more than a cycle for
      each exception, whatever the core clock. */
  lemma TickTellsTime(clock: Uint32, f: TickFreq, load: nat, c: nat)
    requires load >= 1 && 1000 * (load + 1) <= f * clock < 1000 * (load + 2)
    ensures var n := Fired(Timer(load, 0, true, true), c);
            && 1000 * c < (f * n + f) * clock
            && f * n * clock <= 1000 * c + 1000 * n
  {
    hide Fired;
    var p := load + 1;
    DivMod(0, p, 0, 0);
    Periodic(Timer(load, 0, true, true), 0, c);
    Euclid(c, p);
    TimeOf(c / p, p, f * clock, c);
    Regroup(f, c / p, clock);
  }

  lemma TimeOf(n: nat, p: nat, ticks: nat, c: nat)
    requires p * n <= c < p * n + p && 1000 * p <= ticks < 1000 * p + 1000
    ensures 1000 * c < ticks * (n + 1)
    ensures ticks * n <= 1000 * c + 1000 * n
  {
    Times(n + 1, 1000 * p, ticks);
    Times(n, ticks, 1000 * p + 1000);
    assert (n + 1) * (1000 * p) == 1000 * (p * n + p);
    assert n * (1000 * p + 1000) == 1000 * (p * n) + 1000 * n;
  }

  lemma Regroup(f: nat, n: nat, clock: nat)
    ensures (f * n + f) * clock == f * clock * (n + 1)
    ensures f * n * clock == f * clock * n
  {
  }

  // ---- HAL_Delay on the tick -------------------------------------------------------------

  const MAX_DELAY := 0xFFFF_FFFF

  /** The ticks that HAL_Delay waits for; one more is added to make the wait a minimum. */
  function TicksToWait(delay: Uint32, f: TickFreq): Uint32 {
    if delay < MAX_DELAY then Wrap(delay + f) else delay
  }

  /** In terms of the argument: that many milliseconds and one tick, unless the sum wraps; the longest
      wait is left as it is. */
  lemma TicksAsked(delay: Uint32, f: TickFreq)
    ensures TicksToWait(delay, f) == if delay == MAX_DELAY then MAX_DELAY else (delay + f) % 0x1_0000_0000
    ensures delay + f < 0x1_0000_0000 ==> TicksToWait(delay, f) == delay + f
  {
  }

  /** The loop's test, so many cycles after tickstart was read: the tick has gone up by f in each
      exception since, wherever it started. */
  function Passed(t: Timer, f: TickFreq, cycles: nat): Uint32 {
    Wrap(f * Fired(t, cycles))
  }

  lemma PassedDifference(start: Uint32, f: TickFreq, n: nat)
    ensures Wrap(Wrap(start + f * n) - start) == Wrap(f * n)
  {
  }

  lemma NothingPassed(t: Timer, f: TickFreq, start: Uint32, gaps: seq<nat>)
    ensures Total(gaps[..0]) == 0 && After(t, 0) == t
    ensures start == Wrap(start + f * Fired(t, 0)) && Wrap(start - start) == Passed(t, f, 0)
  {
    WrapSmall(start);
  }

  /** The tick and the loop's test after one more gap. */
  lemma MorePassed(t: Timer, f: TickFreq, start: Uint32, c: nat, gap: nat)
    ensures After(After(t, c), gap) == After(t, c + gap)
    ensures var tick := Wrap(start + f * Fired(t, c + gap));
            && Wrap(Wrap(start + f * Fired(t, c)) + f * Fired(After(t, c), gap)) == tick
            && Wrap(tick - start) == Passed(t, f, c + gap)
  {
    hide Fired, After, Wrap;
    AfterAfter(t, c, gap);
    ServedMore(start, f, Fired(t, c), Fired(After(t, c), gap));
    PassedDifference(start, f, Fired(t, c + gap));
  }

  function Total(gaps: seq<nat>): nat {
    if gaps == [] then 0 else Total(gaps[..|gaps| - 1]) + gaps[|gaps| - 1]
  }

  /** The tests come after each of the gaps; the loop ends at the first that succeeds. */
  ghost predicate EndsAt(t: Timer, f: TickFreq, delay: Uint32, gaps: seq<nat>) {
    && Passed(t, f, Total(gaps)) >= TicksToWait(delay, f)
    && forall i | 0 <= i < |gaps| :: Passed(t, f, Total(gaps[..i])) < TicksToWait(delay, f)
  }

  /** A timer that runs and raises exceptions, at any point of its period. */
  ghost predicate Running(t: Timer, d: nat) {
    t.enabled && t.tickInt && 1 <= t.load <= MAX_RELOAD && d <= t.load && t.val == ValueAt(t.load + 1, d)
  }

  /** n exceptions take more than n-1 periods. */
  lemma FiredTakes(t: Timer, d: nat, c: nat)
    requires Running(t, d) && Fired(t, c) >= 1
    ensures c > (Fired(t, c) - 1) * (t.load + 1)
  {
    hide Fired, ValueAt;
    Periodic(t, d, c);
    Boundaries(t.load + 1, d, c, Fired(t, c));
  }

  lemma Boundaries(p: nat, d: nat, c: nat, n: nat)
    requires d < p && n >= 1 && n == (d + c) / p - d / p
    ensures c > (n - 1) * p
  {
    DivMod(d, p, 0, d);
    Euclid(d + c, p);
    OneLess(n, p);
  }

  lemma OneLess(n: nat, p: nat)
    ensures (n - 1) * p == p * n - p
  {
  }

  /** The added tick covers the part of a tick that had gone by at the start. */
  lemma EnoughTicks(t: Timer, d: nat, f: TickFreq, delay: Uint32, c: nat)
    requires Running(t, d) && delay + f < 0x1_0000_0000 && Passed(t, f, c) >= TicksToWait(delay, f)
    ensures f * c >= delay * (t.load + 1)
  {
    var n, p := Fired(t, c), t.load + 1;
    assert f * n >= delay + f by { WrapAtMost(f * n); }
    MoreThanOne(f, n, delay);
    FiredTakes(t, d, c);
    Spread(f, n - 1, p, c, delay);
  }

  lemma WrapAtMost(x: nat)
    ensures Wrap(x) <= x
  {
  }

  lemma MoreThanOne(f: TickFreq, n: nat, delay: nat)
    requires f * n >= delay + f
    ensures n >= 1 && f * (n - 1) >= delay
  {
  }

  lemma Spread(f: nat, m: nat, p: nat, c: nat, delay: nat)
    requires c >= m * p && f * m >= delay
    ensures f * c >= delay * p
  {
    assert f * (c - m * p) >= 0;
    assert (f * m - delay) * p >= 0;
    assert f * (m * p) == (f * m) * p;
  }

  /** On a timer with any reload value the wait is never shorter than asked, in units of f cycles per
      tick of the timer, under every phase and schedule, exactly when adding the tick does not wrap,
      or when the longest wait meets an even rate, which never ends. */
  lemma HalWaitExact(load: nat, f: TickFreq, delay: Uint32)
    requires 1 <= load <= MAX_RELOAD
    ensures (forall t: Timer, d: nat, gaps: seq<nat> | t.load == load && Running(t, d) && EndsAt(t, f, delay, gaps) ::
               f * Total(gaps) >= delay * (load + 1))
       <==> (delay + f < 0x1_0000_0000 || (delay == MAX_DELAY && f != 1))
  {
    hide EndsAt, Total;
    if delay + f < 0x1_0000_0000 {
      forall t: Timer, d: nat, gaps: seq<nat> | t.load == load && Running(t, d) && EndsAt(t, f, delay, gaps)
        ensures f * Total(gaps) >= delay * (load + 1)
      {
        EndsPassed(t, f, delay, gaps);
        EnoughTicks(t, d, f, delay, Total(gaps));
      }
    } else if delay == MAX_DELAY && f != 1 {
      forall t: Timer, gaps: seq<nat> ensures !EndsAt(t, f, delay, gaps) {
        EvenNeverMax(f, Fired(t, Total(gaps)));
        if EndsAt(t, f, delay, gaps) {
          EndsPassed(t, f, delay, gaps);
        }
      }
    } else {
      var t, d, gaps := ShortWait(load, f, delay);
      assert t.load == load && Running(t, d) && EndsAt(t, f, delay, gaps);
    }
  }

  lemma EndsPassed(t: Timer, f: TickFreq, delay: Uint32, gaps: seq<nat>)
    requires EndsAt(t, f, delay, gaps)
    ensures Passed(t, f, Total(gaps)) >= TicksToWait(delay, f)
  {
  }

  lemma EvenNeverMax(f: TickFreq, n: nat)
    requires f != 1
    ensures Wrap(f * n) < MAX_DELAY
  {
    var m := if f == 10 then 5 * n else 50 * n;
    assert f * n == 2 * m;
    EvenWrap(m);
  }

  lemma EvenWrap(m: nat)
    ensures Wrap(2 * m) < MAX_DELAY
  {
  }

  lemma ShortWait(load: nat, f: TickFreq, delay: Uint32) returns (t: Timer, d: nat, gaps: seq<nat>)
    requires 1 <= load <= MAX_RELOAD && delay + f >= 0x1_0000_0000 && (delay < MAX_DELAY || f == 1)
    ensures t.load == load && Running(t, d) && EndsAt(t, f, delay, gaps) && f * Total(gaps) < delay * (load + 1)
  {
    if delay == MAX_DELAY {
      t, d := Timer(load, load, true, true), 1;
      gaps := LongestShort(load);
    } else {
      t, d := Timer(load, 0, true, true), 0;
      if TicksToWait(delay, f) == 0 {
        gaps := [];
        AtLeast(delay, load + 1);
      } else {
        gaps := [load + 1];
        OnePeriod(load);
        OneGap(t, f, delay, load + 1);
        Smaller(f, delay, load + 1);
      }
    }
  }

  lemma AtLeast(delay: nat, p: nat)
    requires delay >= 1 && p >= 1
    ensures delay * p >= 1
  {
  }

  lemma Smaller(f: nat, delay: nat, p: nat)
    requires f < delay && p >= 1
    ensures f * p < delay * p
  {
    AtLeast(delay - f, p);
    assert (delay - f) * p == delay * p - f * p;
  }

  /** A wait that ends at its second test. */
  lemma OneGap(t: Timer, f: TickFreq, delay: Uint32, gap: nat)
    requires 0 < TicksToWait(delay, f) <= Wrap(f * Fired(t, gap))
    ensures EndsAt(t, f, delay, [gap]) && Total([gap]) == gap
  {
    assert [gap][..0] == [];
    assert Total([]) == 0;
    NoCycles(t);
    assert Passed(t, f, 0) == 0;
  }

  lemma OnePeriod(load: nat)
    requires load >= 1
    ensures Fired(Timer(load, 0, true, true), load + 1) == 1
  {
    DivMod(0, load + 1, 0, 0);
    DivMod(load + 1, load + 1, 1, 0);
    Periodic(Timer(load, 0, true, true), 0, load + 1);
  }

  /** Begun one cycle into a period, the longest wait at 1 ms is a cycle short. */
  lemma LongestShort(load: nat) returns (gaps: seq<nat>)
    requires 1 <= load <= MAX_RELOAD
    ensures var t := Timer(load, load, true, true);
            && Running(t, 1) && EndsAt(t, 1, MAX_DELAY, gaps) && Total(gaps) < MAX_DELAY * (load + 1)
  {
    hide Fired, EndsAt, Total;
    var t, c := Timer(load, load, true, true), MAX_DELAY * (load + 1) - 1;
    DivMod(1, load + 1, 0, 1);
    DivMod(1 + c, load + 1, MAX_DELAY, 0);
    Periodic(t, 1, c);
    gaps := [c];
    OneGap(t, 1, MAX_DELAY, c);
  }

  // ---- The wait ends ---------------------------------------------------------------------

  /** At least one test in every period. */
  ghost predicate Prompt(t: Timer, gaps: seq<nat>) {
    forall i | 0 <= i < |gaps| :: gaps[i] <= t.load + 1
  }

  /** A gap of at most a period sees at most one exception. */
  lemma OneFire(t: Timer, d: nat, c: nat, gap: nat)
    requires Running(t, d) && gap <= t.load + 1
    ensures Fired(t, c + gap) <= Fired(t, c) + 1
  {
    hide Fired, ValueAt;
    Periodic(t, d, c);
    Periodic(t, d, c + gap);
    OneMultiple(t.load + 1, d + c, gap);
  }

  lemma OneMultiple(p: nat, x: nat, gap: nat)
    requires p >= 1 && gap <= p
    ensures (x + gap) / p <= x / p + 1
  {
    var q, r := x / p, x % p + gap;
    Euclid(x, p);
    if r < p {
      DivMod(x + gap, p, q, r);
    } else if r < p + p {
      assert p * (q + 1) == p * q + p;
      DivMod(x + gap, p, q + 1, r - p);
    }
  }

  lemma Times(p: nat, a: nat, b: nat)
    requires a <= b
    ensures p * a <= p * b
  {
    assert p * (b - a) >= 0;
    assert p * (b - a) == p * b - p * a;
  }

  /** As long as a wait that is tested promptly has not ended, the difference of the ticks has not
      wrapped, when the wait is at most the last multiple of f below 2^32. */
  lemma {:induction false} NotWrapped(t: Timer, d: nat, f: TickFreq, delay: Uint32, gaps: seq<nat>)
    requires Running(t, d) && Prompt(t, gaps) && TicksToWait(delay, f) <= MAX_DELAY / f * f
    requires forall i | 0 <= i < |gaps| :: Passed(t, f, Total(gaps[..i])) < TicksToWait(delay, f)
    ensures Passed(t, f, Total(gaps)) == f * Fired(t, Total(gaps)) <= MAX_DELAY
  {
    hide Fired, Running, TicksToWait;
    if gaps == [] {
      NoCycles(t);
    } else {
      var before := gaps[..|gaps| - 1];
      PrefixTotals(gaps, |gaps| - 1);
      NotWrapped(t, d, f, delay, before);
      assert gaps[..|gaps| - 1] == before;
      var c := Total(before);
      OneFire(t, d, c, gaps[|gaps| - 1]);
      LastMultiple(f, Fired(t, c), Fired(t, Total(gaps)));
      WrapSmall(f * Fired(t, Total(gaps)));
    }
  }

  lemma LastMultiple(f: TickFreq, m: nat, n: nat)
    requires f * m < MAX_DELAY / f * f && n <= m + 1
    ensures f * n <= MAX_DELAY
  {
  }

  /** The first test that succeeds, or none. */
  lemma {:induction false} FirstEnd(t: Timer, f: TickFreq, delay: Uint32, gaps: seq<nat>, n: nat) returns (i: nat)
    requires n <= |gaps|
    ensures i <= n + 1
    ensures i <= n ==> EndsAt(t, f, delay, gaps[..i])
    ensures i > n ==> forall j | 0 <= j <= n :: Passed(t, f, Total(gaps[..j])) < TicksToWait(delay, f)
  {
    hide Passed, TicksToWait;
    if n > 0 {
      i := FirstEnd(t, f, delay, gaps, n - 1);
      if i < n {
        return;
      }
    }
    PrefixTotals(gaps, n);
    i := if Passed(t, f, Total(gaps[..n])) >= TicksToWait(delay, f) then n else n + 1;
  }

  /** c cycles hold all but the last of the periods that would fill them. */
  lemma FiredEnough(t: Timer, d: nat, f: TickFreq, wait: nat, c: nat)
    requires Running(t, d) && f * c >= (wait + f) * (t.load + 1)
    ensures f * Fired(t, c) >= wait
  {
    hide Fired, ValueAt;
    var p := t.load + 1;
    Periodic(t, d, c);
    DivMod(d, p, 0, d);
    Euclid(d + c, p);
    Covered(f, (d + c) / p, p, c, wait);
  }

  lemma Covered(f: nat, n: nat, p: nat, c: nat, wait: nat)
    requires f >= 1 && c < p * n + p && f * c >= (wait + f) * p
    ensures f * n >= wait
  {
    Product(f, n, p, c);
    Fewer(p, wait + f, f * n + f);
  }

  lemma Fewer(p: nat, a: nat, b: nat)
    requires a * p < p * b
    ensures a < b
  {
    if a >= b {
      Times(p, b, a);
    }
  }

  lemma Product(f: nat, n: nat, p: nat, c: nat)
    requires f >= 1 && c < p * n + p
    ensures f * c < p * (f * n + f)
  {
    assert p * (f * n + f) == f * (p * n + p);
    Smaller(c, p * n + p, f);
  }

  /** Tested at least once a period, a wait has ended when so much time has passed that it could fit
      one tick more. */
  lemma HalWaitEnds(t: Timer, d: nat, f: TickFreq, delay: Uint32, gaps: seq<nat>) returns (i: nat)
    requires Running(t, d) && Prompt(t, gaps) && TicksToWait(delay, f) <= MAX_DELAY / f * f
    requires f * Total(gaps) >= (TicksToWait(delay, f) + f) * (t.load + 1)
    ensures i <= |gaps| && EndsAt(t, f, delay, gaps[..i])
  {
    hide Passed, TicksToWait, Total, Fired, Running, EndsAt;
    i := FirstEnd(t, f, delay, gaps, |gaps|);
    if i > |gaps| {
      assert gaps[..|gaps|] == gaps;
      NotWrapped(t, d, f, delay, gaps);
      FiredEnough(t, d, f, TicksToWait(delay, f), Total(gaps));
      assert false;
    }
  }

  /** It ends no later than the first test after that; while adding the tick does not wrap, after
      less than delay and two ticks more and one gap. */
  lemma HalWaitLate(t: Timer, d: nat, f: TickFreq, delay: Uint32, gaps: seq<nat>)
    requires Running(t, d) && Prompt(t, gaps) && EndsAt(t, f, delay, gaps) && gaps != []
    requires f == 1 || delay + f <= MAX_DELAY / f * f || 0x1_0000_0000 <= delay + f < MAX_DELAY + f
    ensures var wait := if delay == MAX_DELAY then MAX_DELAY else (delay + f) % 0x1_0000_0000;
            f * Total(gaps[..|gaps| - 1]) < (wait + f) * (t.load + 1)
    ensures delay + f < 0x1_0000_0000 ==> f * Total(gaps[..|gaps| - 1]) < (delay + 2 * f) * (t.load + 1)
  {
    hide Passed, TicksToWait, Total, Fired, Running;
    var before := gaps[..|gaps| - 1];
    TicksAsked(delay, f);
    WithinReach(f, delay);
    if f * Total(before) >= (TicksToWait(delay, f) + f) * (t.load + 1) {
      var i := HalWaitEnds(t, d, f, delay, before);
      NoEarlierEnd(t, f, delay, gaps, i);
      assert false;
    }
  }

  lemma NoEarlierEnd(t: Timer, f: TickFreq, delay: Uint32, gaps: seq<nat>, i: nat)
    requires EndsAt(t, f, delay, gaps) && i < |gaps|
    ensures !EndsAt(t, f, delay, gaps[..|gaps| - 1][..i])
  {
    hide Passed, TicksToWait, Total;
    assert gaps[..|gaps| - 1][..i] == gaps[..i];
  }

  /** The waits that the difference of the ticks can come up to without wrapping. */
  lemma WithinReach(f: TickFreq, delay: Uint32)
    ensures TicksToWait(delay, f) <= MAX_DELAY / f * f
       <==> f == 1 || delay + f <= MAX_DELAY / f * f || 0x1_0000_0000 <= delay + f < MAX_DELAY + f
  {
  }

  function Periods(n: nat, p: nat): (gaps: seq<nat>)
    ensures |gaps| == n
  {
    seq(n, _ => p)
  }

  lemma {:induction false} PeriodsTotal(n: nat, p: nat)
    ensures Total(Periods(n, p)) == n * p
  {
    if n > 0 {
      PeriodsTotal(n - 1, p);
      assert Periods(n, p)[..n - 1] == Periods(n - 1, p);
      assert n * p == (n - 1) * p + p;
    }
  }

  lemma PeriodsFire(load: nat, n: nat)
    requires load >= 1
    ensures Total(Periods(n, load + 1)) == n * (load + 1)
    ensures Fired(Timer(load, 0, true, true), n * (load + 1)) == n
  {
    hide Fired, Total, Periods;
    PeriodsTotal(n, load + 1);
    DivMod(0, load + 1, 0, 0);
    DivMod(n * (load + 1), load + 1, n, 0);
    Periodic(Timer(load, 0, true, true), 0, n * (load + 1));
  }

  /** A wait above the last multiple of f is passed over when the difference of the ticks wraps. */
  lemma PassedOver(load: nat, f: TickFreq, delay: Uint32, n: nat)
    requires load >= 1 && TicksToWait(delay, f) > MAX_DELAY / f * f && n <= MAX_DELAY / f + 2
    ensures Passed(Timer(load, 0, true, true), f, Total(Periods(n, load + 1))) < TicksToWait(delay, f)
  {
    hide Fired, Total, TicksToWait;
    PeriodsFire(load, n);
    OverWraps(f, n);
  }

  lemma OverWraps(f: TickFreq, n: nat)
    requires n <= MAX_DELAY / f + 2
    ensures Wrap(f * n) <= MAX_DELAY / f * f
  {
    var m := MAX_DELAY / f;
    if n <= m {
      Times(f, n, m);
      WrapSmall(f * n);
    } else {
      assert n == m + 1 || n == m + 2;
    }
  }

  /** On a timer with any reload value, a wait tested at least once a period has always ended, when so
      much time has passed that it could fit one tick more, exactly at 1 ms or when the argument and
      its tick stay within the last multiple of f below 2^32 or wrap. */
  lemma HalWaitEndsExact(load: nat, f: TickFreq, delay: Uint32)
    requires 1 <= load <= MAX_RELOAD
    ensures var wait := if delay == MAX_DELAY then MAX_DELAY else (delay + f) % 0x1_0000_0000;
            ((forall t: Timer, d: nat, gaps: seq<nat> | t.load == load && Running(t, d) && Prompt(t, gaps)
                 && f * Total(gaps) >= (wait + f) * (load + 1) ::
               exists i | 0 <= i <= |gaps| :: EndsAt(t, f, delay, gaps[..i]))
        <==> (f == 1 || delay + f <= MAX_DELAY / f * f || 0x1_0000_0000 <= delay + f < MAX_DELAY + f))
  {
    TicksAsked(delay, f);
    WithinReach(f, delay);
    WaitEndsExact(load, f, delay);
  }

  lemma WaitEndsExact(load: nat, f: TickFreq, delay: Uint32)
    requires 1 <= load <= MAX_RELOAD
    ensures (forall t: Timer, d: nat, gaps: seq<nat> | t.load == load && Running(t, d) && Prompt(t, gaps)
                 && f * Total(gaps) >= (TicksToWait(delay, f) + f) * (load + 1) ::
               exists i | 0 <= i <= |gaps| :: EndsAt(t, f, delay, gaps[..i]))
       <==> TicksToWait(delay, f) <= MAX_DELAY / f * f
  {
    hide TicksToWait, EndsAt, Total;
    if TicksToWait(delay, f) <= MAX_DELAY / f * f {
      forall t: Timer, d: nat, gaps: seq<nat> | t.load == load && Running(t, d) && Prompt(t, gaps)
                 && f * Total(gaps) >= (TicksToWait(delay, f) + f) * (load + 1)
        ensures exists i | 0 <= i <= |gaps| :: EndsAt(t, f, delay, gaps[..i])
      {
        var i := HalWaitEnds(t, d, f, delay, gaps);
      }
    } else {
      var t, n := Timer(load, 0, true, true), MAX_DELAY / f + 2;
      var gaps := Periods(n, load + 1);
      PeriodsFire(load, n);
      LongEnough(f, n, TicksToWait(delay, f), load + 1);
      assert Running(t, 0) && Prompt(t, gaps);
      forall i | 0 <= i <= |gaps| ensures !EndsAt(t, f, delay, gaps[..i]) {
        assert gaps[..i] == Periods(i, load + 1);
        PassedOver(load, f, delay, i);
        if EndsAt(t, f, delay, gaps[..i]) {
          EndsPassed(t, f, delay, gaps[..i]);
        }
      }
    }
  }

  lemma LongEnough(f: TickFreq, n: nat, wait: Uint32, p: nat)
    requires n == MAX_DELAY / f + 2
    ensures f * (n * p) >= (wait + f) * p
  {
    Times(p, wait + f, f * n);
    assert f * (n * p) == p * (f * n);
  }

  // ---- Timer and rate apart --------------------------------------------------------------

  /** Set up with a priority that is too high, the timer starts in step with the rate; a change of the
      rate then fails, takes the rate back, and leaves the timer at the new one. */
  method PartedRate(clock: Uint32, timer: SysTickTimer, nvic: Controller, freq: TickFreq) returns (base: TimeBase)
    requires nvic.Valid() && freq != 1 && Possible(clock, 1) && Possible(clock, freq)
    modifies timer, nvic.ip, nvic.shp
    ensures base.timer == timer && base.coreClock == clock && base.tickFreq == 1
    ensures 1000 * (timer.load + 1) <= freq * clock < 1000 * (timer.load + 2) && timer.enabled && !base.InStep()
  {
    hide Controller.Abs, Apply;
    base := new TimeBase(clock, timer, nvic);
    var started := base.InitTick(Pow2(nvic.prioBits));
    assert !started && base.InStep();
    var changed := base.SetTickFreq(freq);
    assert !changed;
  }
}
