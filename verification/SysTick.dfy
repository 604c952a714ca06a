/** The system timer: its counter cycle by cycle, and the configuration that starts it. */
module SysTick {
  import opened Words
  import opened Priority
  import opened Nvic

  /** The counter's registers. */
  datatype Timer = Timer(load: nat, val: nat, enabled: bool, tickInt: bool)

  /** One clock cycle: a zero counter reloads, any other counts down. */
  function Tick(t: Timer): Timer {
    if !t.enabled then t else t.(val := if t.val == 0 then t.load else t.val - 1)
  }

  /** The exception is raised when the counter goes from 1 to 0. */
  predicate Fires(t: Timer) {
    t.enabled && t.tickInt && t.val == 1
  }

  function After(t: Timer, cycles: nat): Timer {
    if cycles == 0 then t else Tick(After(t, cycles - 1))
  }

  function Fired(t: Timer, cycles: nat): nat {
    if cycles == 0 then 0 else Fired(t, cycles - 1) + if Fires(After(t, cycles - 1)) then 1 else 0
  }

  lemma {:induction false} AfterKeeps(t: Timer, c: nat)
    ensures var u := After(t, c); u.load == t.load && u.enabled == t.enabled && u.tickInt == t.tickInt
    ensures t.val <= t.load ==> After(t, c).val <= t.load
  {
    if c > 0 {
      AfterKeeps(t, c - 1);
    }
  }

  lemma {:induction false} AfterAfter(t: Timer, b: nat, c: nat)
    ensures After(After(t, b), c) == After(t, b + c)
    ensures Fired(t, b + c) == Fired(t, b) + Fired(After(t, b), c)
  {
    if c > 0 {
      AfterAfter(t, b, c - 1);
    }
  }

  // ---- The period ------------------------------------------------------------------------

  /** Where a counter that was zero d cycles ago stands, for a period of p cycles. */
  function ValueAt(p: nat, d: nat): nat
    requires p > 0
  {
    if d % p == 0 then 0 else p - d % p
  }

  /** One more cycle moves either the remainder or the quotient. */
  lemma NextCycle(d: nat, p: nat)
    requires p > 1
    ensures if d % p == p - 1 then (d + 1) % p == 0 && (d + 1) / p == d / p + 1
            else (d + 1) % p == d % p + 1 && (d + 1) / p == d / p
  {
    Euclid(d, p);
    if d % p == p - 1 {
      assert d + 1 == p * (d / p + 1) + 0;
      DivMod(d + 1, p, d / p + 1, 0);
    } else {
      DivMod(d + 1, p, d / p, d % p + 1);
    }
  }

  /** A running counter that was zero d cycles ago, from here on. */
  lemma {:induction false} Periodic(t: Timer, d: nat, c: nat)
    requires t.enabled && t.tickInt && t.load >= 1 && t.val == ValueAt(t.load + 1, d)
    ensures After(t, c).val == ValueAt(t.load + 1, d + c)
    ensures Fired(t, c) == (d + c) / (t.load + 1) - d / (t.load + 1)
  {
    if c > 0 {
      Periodic(t, d, c - 1);
      AfterKeeps(t, c - 1);
      NextCycle(d + c - 1, t.load + 1);
    }
  }

  lemma {:induction false} Stuck(t: Timer, c: nat)
    requires t.load == t.val == 0
    ensures After(t, c) == t && Fired(t, c) == 0
  {
    if c > 0 {
      Stuck(t, c - 1);
    }
  }

  lemma {:induction false} Idle(t: Timer, c: nat)
    requires !t.enabled
    ensures After(t, c) == t && Fired(t, c) == 0
  {
    if c > 0 {
      Idle(t, c - 1);
    }
  }

  lemma {:induction false} Silent(t: Timer, d: nat, c: nat)
    requires t.enabled && t.load >= 1 && t.val == ValueAt(t.load + 1, d)
    ensures After(t, c).val == ValueAt(t.load + 1, d + c)
  {
    if c > 0 {
      Silent(t, d, c - 1);
      AfterKeeps(t, c - 1);
      NextCycle(d + c - 1, t.load + 1);
    }
  }

  // ---- SysTick_Config --------------------------------------------------------------------

  const MAX_RELOAD := 0xFF_FFFF

  /** The timer SysTick_Config leaves when `gap` cycles pass between its writes to VAL and CTRL;
      the old CTRL is still in force during them. */
  function Configured(ticks: nat, prior: Timer, gap: nat): Timer
    requires ticks >= 1
  {
    After(Timer(ticks - 1, 0, prior.enabled, prior.tickInt), gap).(enabled := true, tickInt := true)
  }

  /** How far into its period the counter is when CTRL is written. */
  function Lead(prior: Timer, gap: nat): nat {
    if prior.enabled then gap else 0
  }

  /** From two ticks on, the timer raises one exception each `ticks` cycles exactly, counted from the
      write to VAL, whatever ran before and however long the writes took. */
  lemma ExactPeriod(ticks: nat, prior: Timer, gap: nat, c: nat)
    requires ticks >= 2
    ensures var d := Lead(prior, gap);
            Fired(Configured(ticks, prior, gap), c) == (d + c) / ticks - d / ticks
    ensures Lead(prior, gap) == 0 ==> Fired(Configured(ticks, prior, gap), c) == c / ticks
  {
    var start := Timer(ticks - 1, 0, prior.enabled, prior.tickInt);
    DivMod(0, ticks, 0, 0);
    AfterKeeps(start, gap);
    if prior.enabled {
      Silent(start, 0, gap);
    } else {
      Idle(start, gap);
    }
    Periodic(Configured(ticks, prior, gap), Lead(prior, gap), c);
  }

  /** One tick is accepted, but the counter never leaves zero and nothing is ever raised: the
      promised count of exceptions holds exactly from two ticks on. */
  lemma PeriodFromTwo(ticks: nat, prior: Timer)
    requires 1 <= ticks <= MAX_RELOAD + 1
    ensures (forall c: nat :: Fired(Configured(ticks, prior, 0), c) == c / ticks) <==> ticks >= 2
  {
    if ticks >= 2 {
      forall c: nat ensures Fired(Configured(ticks, prior, 0), c) == c / ticks {
        ExactPeriod(ticks, prior, 0, c);
      }
    } else {
      Stuck(Configured(1, prior, 0), 1);
    }
  }

  lemma WrapTicks(ticks: Uint32)
    ensures Wrap(ticks - 1) > MAX_RELOAD <==> ticks == 0 || ticks > MAX_RELOAD + 1
    ensures ticks > 0 ==> Wrap(ticks - 1) == ticks - 1
  {
  }

  /** From then on the counter never stands above its reload value, which fits in 24 bits. */
  lemma ConfiguredInRange(ticks: nat, prior: Timer, gap: nat, c: nat)
    requires 1 <= ticks <= MAX_RELOAD + 1
    ensures var t := After(Configured(ticks, prior, gap), c);
            t.enabled && t.val <= t.load == ticks - 1 <= MAX_RELOAD
  {
    AfterKeeps(Timer(ticks - 1, 0, prior.enabled, prior.tickInt), gap);
    AfterKeeps(Configured(ticks, prior, gap), c);
  }

  class SysTickTimer {
    var load: nat
    var val: nat
    var enabled: bool
    var tickInt: bool
    var coreClock: bool
    ghost var clock: nat
    ghost var raised: nat

    ghost function Regs(): Timer
      reads this
    {
      Timer(load, val, enabled, tickInt)
    }

    /** Time passing: what the hardware does in so many cycles. */
    method Elapse(cycles: nat)
      modifies this
      ensures Regs() == After(old(Regs()), cycles) && coreClock == old(coreClock)
      ensures clock == old(clock) + cycles && raised == old(raised) + Fired(old(Regs()), cycles)
    {
      var i := 0;
      while i < cycles
        invariant i <= cycles
        invariant Regs() == After(old(Regs()), i) && coreClock == old(coreClock)
        invariant clock == old(clock) + i && raised == old(raised) + Fired(old(Regs()), i)
      {
        raised := raised + if Fires(Regs()) then 1 else 0;
        if enabled {
          val := if val == 0 then load else val - 1;
        }
        clock := clock + 1;
        i := i + 1;
      }
    }

    /** gap0, gap1 and gap2 cycles pass between the writes to LOAD, the priority, VAL and CTRL. */
    method Config(nvic: Controller, ticks: Uint32, gap0: nat, gap1: nat, gap2: nat) returns (r: Uint32)
      requires nvic.Valid()
      modifies this, nvic.ip, nvic.shp
      ensures nvic.Valid()
      ensures r == if 1 <= ticks <= MAX_RELOAD + 1 then 0 else 1
      ensures r == 1 ==> unchanged(this) && nvic.Abs() == old(nvic.Abs())
      ensures r == 0 ==> Regs() == Configured(ticks, old(Regs()), gap2) && coreClock
      ensures r == 0 ==> nvic.Abs() == Apply(nvic.prioBits, old(nvic.Abs()), SetPriority(-1, Pow2(nvic.prioBits) - 1))
    {
      hide After, Fired, Pow2, Shl, Shr, Apply, Wrap, Aligned, Stored, Controller.Abs;
      WrapTicks(ticks);
      if Wrap(ticks - 1) > MAX_RELOAD {
        return 1;
      }
      load := Wrap(ticks - 1);
      ghost var loaded := Regs();
      Elapse(gap0);
      AfterKeeps(loaded, gap0);
      ShlTimes(1, nvic.prioBits);
      nvic.SetPriority(-1, Shl(1, nvic.prioBits) - 1);
      ghost var before := Regs();
      Elapse(gap1);
      AfterKeeps(before, gap1);
      val := 0;
      Elapse(gap2);
      coreClock, tickInt, enabled := true, true, true;
      return 0;
    }
  }

  /** No priority is worse than the last one, however the stored bytes are split. */
  lemma LastPreemptsNothing(bits: PrioBits, p: nat, g: Uint32)
    requires p < Pow2(bits)
    ensures !Preempts(Stored(bits, Pow2(bits) - 1), Stored(bits, p), g)
  {
    hide Shl, Low, Shr, Group;
    LowSmall(Pow2(bits) - 1, bits);
    LowSmall(p, bits);
    ShlOrder(Pow2(bits) - 1, p, 8 - bits);
    ShrMonotone(Stored(bits, p), Stored(bits, Pow2(bits) - 1), Group(g) + 1);
  }

  /** The priority the configuration gives the timer is the last there is: in no grouping does the
      timer preempt any other exception. */
  lemma {:induction false} TimerPreemptsNothing(bits: PrioBits, s: State, n: int, g: Uint32)
    requires n in s.priority && s.priority[n] < Pow2(bits)
    ensures var s' := Apply(bits, s, SetPriority(-1, Pow2(bits) - 1));
            -1 in s'.priority && n in s'.priority &&
            !Preempts(PriorityByte(bits, s', -1), PriorityByte(bits, s', n), g)
  {
    hide Stored, Preempts, Low, Pow2;
    var s' := Apply(bits, s, SetPriority(-1, Pow2(bits) - 1));
    LowSmall(Pow2(bits) - 1, bits);
    LastPreemptsNothing(bits, s'.priority[n], g);
  }
}
