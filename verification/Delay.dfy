/** The busy-wait delays, which measure time by polling the system timer's counter. */
module Delay {
  import opened Words
  import opened SysTick

  // ---- One poll --------------------------------------------------------------------------

  /** What delay_us adds to its count when the counter reads tnow after told. */
  function Counted(reload: nat, told: nat, tnow: nat): Uint32 {
    if tnow == told then 0
    else if tnow < told then Wrap(told - tnow)
    else Wrap(Wrap(reload - tnow) + told)
  }

  /** A loop in progress: the timer, the last reading, the count, and the cycles since the first reading. */
  datatype Poll = Poll(timer: Timer, told: nat, tcnt: Uint32, done: bool, clock: nat)

  function Start(t: Timer): Poll {
    Poll(t, t.val, 0, false, 0)
  }

  /** One pass of the loop, gap cycles after the last. */
  function Next(p: Poll, ticks: Uint32, gap: nat): Poll {
    if p.done then p
    else
      var t := After(p.timer, gap);
      var tnow := t.val;
      var tcnt := Wrap(p.tcnt + Counted(t.load, p.told, tnow));
      Poll(t, tnow, tcnt, tnow != p.told && tcnt >= ticks, p.clock + gap)
  }

  function Polls(p: Poll, ticks: Uint32, gaps: seq<nat>): Poll {
    if gaps == [] then p else Next(Polls(p, ticks, gaps[..|gaps| - 1]), ticks, gaps[|gaps| - 1])
  }

  // ---- Never early -----------------------------------------------------------------------

  /** The counter falls by at most one a cycle, and can only have risen past its old value by
      running out first. It may stand above a reload value that was lowered while it ran. */
  lemma {:induction false} Drift(t: Timer, gap: nat)
    ensures var v := After(t, gap).val;
            && (v <= t.load || v <= t.val) && t.val - gap <= v
            && (v > t.val ==> v <= t.load && gap >= t.val + 1 + (t.load - v))
  {
    if gap > 0 {
      Drift(t, gap - 1);
      AfterKeeps(t, gap - 1);
    }
  }

  ghost predicate InRange(t: Timer) {
    t.val <= MAX_RELOAD && t.load <= MAX_RELOAD
  }

  lemma CountedAtMost(t: Timer, gap: nat)
    requires InRange(t)
    ensures Counted(t.load, t.val, After(t, gap).val) <= gap
    ensures InRange(After(t, gap))
  {
    hide After, Counted;
    Drift(t, gap);
    AfterKeeps(t, gap);
    CountedDrift(t.load, t.val, gap, After(t, gap).val);
  }

  lemma CountedDrift(load: nat, val: nat, gap: nat, v: nat)
    requires load <= MAX_RELOAD && val <= MAX_RELOAD && val - gap <= v
    requires v > val ==> v <= load && gap >= val + 1 + (load - v)
    ensures Counted(load, val, v) <= gap
  {
    if v < val {
      WrapZero(val - v);
    } else if v > val {
      WrapZero(load - v);
      WrapZero(load - v + val);
    }
  }

  ghost predicate Sound(p: Poll) {
    InRange(p.timer) && p.told == p.timer.val && p.tcnt <= p.clock
  }

  lemma {:induction false} StaysSound(p: Poll, ticks: Uint32, gaps: seq<nat>)
    requires Sound(p)
    ensures Sound(Polls(p, ticks, gaps))
    ensures !p.done && Polls(p, ticks, gaps).done ==> Polls(p, ticks, gaps).tcnt >= ticks
    ensures !p.done && Polls(p, ticks, gaps).done ==> Polls(p, ticks, gaps).clock >= 1
  {
    if gaps != [] {
      var q, gap := Polls(p, ticks, gaps[..|gaps| - 1]), gaps[|gaps| - 1];
      StaysSound(p, ticks, gaps[..|gaps| - 1]);
      CountedAtMost(q.timer, gap);
      AfterKeeps(q.timer, gap);
    }
  }

  /** Whenever the polls happen, however far apart, and even if the counter stands still or the
      count wraps: the loop never ends before the requested number of cycles has passed, nor at once
      when that is zero. */
  lemma NeverEarly(t: Timer, ticks: Uint32, gaps: seq<nat>)
    requires InRange(t)
    ensures Polls(Start(t), ticks, gaps).done ==>
              Polls(Start(t), ticks, gaps).clock >= if ticks == 0 then 1 else ticks
  {
    StaysSound(Start(t), ticks, gaps);
  }

  /** It does not end while every read finds what the first one found, even for no ticks at all. */
  lemma {:induction false} Unmoved(t: Timer, ticks: Uint32, gaps: seq<nat>)
    requires forall i | 0 <= i <= |gaps| :: Polls(Start(t), ticks, gaps[..i]).told == t.val
    ensures !Polls(Start(t), ticks, gaps).done && Polls(Start(t), ticks, gaps).tcnt == 0
  {
    if gaps != [] {
      var before := gaps[..|gaps| - 1];
      forall i | 0 <= i <= |before| ensures Polls(Start(t), ticks, before[..i]).told == t.val {
        assert before[..i] == gaps[..i];
      }
      Unmoved(t, ticks, before);
      assert before[..|before|] == before && gaps[..|gaps|] == gaps;
    }
  }

  /** So on a timer that is off, or stands at zero with nothing to reload, it never ends. */
  lemma {:induction false} Stopped(t: Timer, ticks: Uint32, gaps: seq<nat>)
    requires !t.enabled || t.load == t.val == 0
    ensures var p := Polls(Start(t), ticks, gaps); !p.done && p.timer == t && p.told == t.val
  {
    if gaps != [] {
      Stopped(t, ticks, gaps[..|gaps| - 1]);
      if t.enabled {
        Stuck(t, gaps[|gaps| - 1]);
      } else {
        Idle(t, gaps[|gaps| - 1]);
      }
    }
  }

  // ---- How late --------------------------------------------------------------------------

  /** Within one period the counter has either fallen by the gap, or run out and started over. */
  lemma {:induction false} WithinPeriod(t: Timer, gap: nat)
    requires t.enabled && t.val <= t.load && gap <= t.load
    ensures After(t, gap).val == if gap <= t.val then t.val - gap else t.load - (gap - t.val - 1)
  {
    if gap > 0 {
      WithinPeriod(t, gap - 1);
      AfterKeeps(t, gap - 1);
    }
  }

  /** The number of times the counter was seen to have started over. */
  function Reloads(p: Poll, ticks: Uint32, gaps: seq<nat>): nat {
    if gaps == [] then 0
    else
      var before := gaps[..|gaps| - 1];
      Reloads(p, ticks, before) +
      if !Polls(p, ticks, before).done && Polls(p, ticks, before).told < gaps[|gaps| - 1] then 1 else 0
  }

  /** The counter runs and is polled at different cycles, no more than `widest` of them apart, which
      is at least once in every period. */
  ghost predicate Attentive(t: Timer, gaps: seq<nat>, widest: nat) {
    t.enabled && 1 <= widest <= t.load && forall i | 0 <= i < |gaps| :: 1 <= gaps[i] <= widest
  }

  /** What holds after n reloads were seen: the count is short by one cycle for each. */
  ghost predicate Accurate(t: Timer, p: Poll, n: nat) {
    && p.timer.load == t.load && p.timer.enabled && p.told == p.timer.val <= t.load
    && p.tcnt == n * t.load + t.val - p.told
    && p.clock == p.tcnt + n
  }

  /** What is counted when the counter went from val to v in gap cycles of one period. */
  lemma CountedMove(load: nat, val: nat, gap: nat, v: nat)
    requires val <= load <= MAX_RELOAD && 1 <= gap <= load
    requires v == if gap <= val then val - gap else load - (gap - val - 1)
    ensures v != val
    ensures Counted(load, val, v) == (if val < gap then load else 0) + val - v
    ensures gap == Counted(load, val, v) + if val < gap then 1 else 0
  {
    if gap > val {
      WrapZero(load - v);
      WrapZero(load - v + val);
    }
  }

  lemma CountedWithin(t: Timer, gap: nat)
    requires t.enabled && t.val <= t.load <= MAX_RELOAD && 1 <= gap <= t.load
    ensures var v := After(t, gap).val;
            && v != t.val
            && Counted(t.load, t.val, v) == (if t.val < gap then t.load else 0) + t.val - v
            && gap == Counted(t.load, t.val, v) + if t.val < gap then 1 else 0
  {
    hide After, Counted;
    WithinPeriod(t, gap);
    CountedMove(t.load, t.val, gap, After(t, gap).val);
  }

  /** One more poll keeps the account. */
  lemma NextAccurate(t: Timer, p: Poll, n: nat, ticks: Uint32, gap: nat)
    requires Accurate(t, p, n) && !p.done && t.load <= MAX_RELOAD && 1 <= gap <= t.load
    requires p.tcnt + gap < 0x1_0000_0000
    ensures Accurate(t, Next(p, ticks, gap), n + if p.told < gap then 1 else 0)
    ensures Next(p, ticks, gap).tcnt <= p.tcnt + gap
    ensures Next(p, ticks, gap).done <==> Next(p, ticks, gap).tcnt >= ticks
  {
    hide After, Counted;
    CountedWithin(p.timer, gap);
    AfterKeeps(p.timer, gap);
    WrapZero(p.tcnt + Counted(t.load, p.told, After(p.timer, gap).val));
    assert (n + 1) * t.load == n * t.load + t.load;
  }

  /** How far the loop has come after so many polls. */
  ghost predicate OnTime(p: Poll, ticks: Uint32, widest: nat, polls: nat) {
    && (p.done ==> ticks <= p.tcnt && p.tcnt < (if ticks == 0 then 1 else ticks) + widest)
    && (!p.done ==> p.clock >= polls && (p.tcnt < ticks || polls == p.tcnt == 0))
  }

  lemma NextOnTime(t: Timer, p: Poll, n: nat, ticks: Uint32, widest: nat, polls: nat, gap: nat)
    requires Accurate(t, p, n) && OnTime(p, ticks, widest, polls)
    requires t.load <= MAX_RELOAD && ticks + widest <= 0x1_0000_0000 && 1 <= gap <= widest <= t.load
    ensures OnTime(Next(p, ticks, gap), ticks, widest, polls + 1)
    ensures p.tcnt + gap < 0x1_0000_0000 || p.done
  {
    if !p.done {
      NextAccurate(t, p, n, ticks, gap);
    }
  }

  lemma {:induction false} StaysAccurate(t: Timer, ticks: Uint32, gaps: seq<nat>, widest: nat)
    requires t.val <= t.load <= MAX_RELOAD && Attentive(t, gaps, widest) && ticks + widest <= 0x1_0000_0000
    ensures Accurate(t, Polls(Start(t), ticks, gaps), Reloads(Start(t), ticks, gaps))
    ensures OnTime(Polls(Start(t), ticks, gaps), ticks, widest, |gaps|)
  {
    hide Next, Accurate, OnTime;
    if gaps == [] {
      StartAccurate(t, ticks, widest);
    } else {
      var before, gap := gaps[..|gaps| - 1], gaps[|gaps| - 1];
      StaysAccurate(t, ticks, before, widest);
      var p, n := Polls(Start(t), ticks, before), Reloads(Start(t), ticks, before);
      NextOnTime(t, p, n, ticks, widest, |before|, gap);
      if p.done {
        DoneStays(p, ticks, gap);
      } else {
        NextAccurate(t, p, n, ticks, gap);
      }
    }
  }

  lemma StartAccurate(t: Timer, ticks: Uint32, widest: nat)
    requires t.val <= t.load && t.enabled
    ensures Accurate(t, Start(t), 0) && OnTime(Start(t), ticks, widest, 0)
  {
  }

  lemma DoneStays(p: Poll, ticks: Uint32, gap: nat)
    requires p.done
    ensures Next(p, ticks, gap) == p
  {
  }

  /** When it ends, an attentive loop has spent the counted cycles plus one for each time it saw the
      counter start over, and it has counted less than its widest gap too many. */
  lemma {:induction false} Lateness(t: Timer, ticks: Uint32, gaps: seq<nat>, widest: nat)
    requires t.val <= t.load <= MAX_RELOAD && Attentive(t, gaps, widest) && ticks + widest <= 0x1_0000_0000
    ensures var p, n := Polls(Start(t), ticks, gaps), Reloads(Start(t), ticks, gaps);
            && p.clock == n * (t.load + 1) + t.val - p.told
            && (p.done ==> ticks <= p.clock - n < (if ticks == 0 then 1 else ticks) + widest)
  {
    hide Polls, Reloads, Attentive;
    StaysAccurate(t, ticks, gaps, widest);
    OneMore(Reloads(Start(t), ticks, gaps), t.load);
  }

  lemma OneMore(n: nat, load: nat)
    ensures n * (load + 1) == n * load + n
  {
  }

  /** And an attentive loop does end: two polls a tick are enough. */
  lemma Finishes(t: Timer, ticks: Uint32, gaps: seq<nat>, widest: nat)
    requires t.val <= t.load <= MAX_RELOAD && Attentive(t, gaps, widest) && ticks + widest <= 0x1_0000_0000
    requires |gaps| >= 1 && |gaps| >= 2 * ticks
    ensures Polls(Start(t), ticks, gaps).done
  {
    hide Polls, Reloads;
    StaysAccurate(t, ticks, gaps, widest);
    var p, n := Polls(Start(t), ticks, gaps), Reloads(Start(t), ticks, gaps);
    if !p.done {
      FewReloads(n, t.load, p.tcnt);
      assert false;
    }
  }

  lemma FewReloads(n: nat, load: nat, count: nat)
    requires load >= 1 && n * load <= count + load
    ensures n <= count + 1
  {
    if n >= 1 {
      assert (n - 1) * load <= count;
      assert (n - 1) * (load - 1) >= 0;
    }
  }

  // ---- A loop that misses its end --------------------------------------------------------

  /** A loop that is still short of its end. */
  ghost predicate Short(p: Poll, load: nat, ticks: Uint32) {
    && p.timer.enabled && p.timer.load == load && p.told == p.timer.val <= load
    && !p.done && p.tcnt < ticks
  }

  /** Where one more poll takes the count: past 2^32, or further up. */
  lemma NextShort(p: Poll, load: nat, ticks: Uint32, gap: nat)
    requires Short(p, load, ticks) && 1 <= gap <= load <= MAX_RELOAD
    requires var c := gap - if p.told < gap then 1 else 0;
             p.tcnt + c < ticks || 0x1_0000_0000 <= p.tcnt + c < 0x1_0000_0000 + ticks
    ensures var c := gap - if p.told < gap then 1 else 0;
            var q := Next(p, ticks, gap);
            && Short(q, load, ticks)
            && q.told == (if p.told < gap then load else 0) + p.told - c
            && q.tcnt == if p.tcnt + c < ticks then p.tcnt + c else p.tcnt + c - 0x1_0000_0000
  {
    hide After, Counted;
    CountedWithin(p.timer, gap);
    AfterKeeps(p.timer, gap);
    var c := gap - if p.told < gap then 1 else 0;
    if p.tcnt + c < ticks {
      WrapZero(p.tcnt + c);
    } else {
      WrapOnce(p.tcnt + c);
    }
  }

  lemma WrapOnce(x: nat)
    requires 0x1_0000_0000 <= x < 0x2_0000_0000
    ensures Wrap(x) == x - 0x1_0000_0000
  {
  }

  /** When two cycles fewer than the widest gap carry the count past 2^32, the loop can always be
      kept from ending by one more poll. */
  lemma Dodge(p: Poll, load: nat, ticks: Uint32, widest: nat) returns (gap: nat)
    requires Short(p, load, ticks) && widest <= load <= MAX_RELOAD && ticks + widest >= 0x1_0000_0002
    ensures 1 <= gap <= widest && Short(Next(p, ticks, gap), load, ticks)
  {
    gap := if p.tcnt == ticks - 1 && p.told > 0 then widest else 1;
    NextShort(p, load, ticks, gap);
  }

  lemma {:induction false} Escape(t: Timer, ticks: Uint32, widest: nat, n: nat) returns (gaps: seq<nat>)
    requires t.enabled && t.val <= t.load <= MAX_RELOAD && widest <= t.load && ticks + widest >= 0x1_0000_0002
    ensures |gaps| == n && Attentive(t, gaps, widest) && Short(Polls(Start(t), ticks, gaps), t.load, ticks)
  {
    hide Next;
    if n == 0 {
      gaps := [];
    } else {
      var before := Escape(t, ticks, widest, n - 1);
      var gap := Dodge(Polls(Start(t), ticks, before), t.load, ticks, widest);
      gaps := before + [gap];
      assert gaps[..n - 1] == before;
    }
  }

  lemma {:induction false} PollsAppend(p: Poll, ticks: Uint32, a: seq<nat>, b: seq<nat>)
    ensures Polls(p, ticks, a + b) == Polls(Polls(p, ticks, a), ticks, b)
    decreases |b|
  {
    if b == [] {
      assert a + b == a;
    } else {
      assert (a + b)[..|a + b| - 1] == a + b[..|b| - 1];
      PollsAppend(p, ticks, a, b[..|b| - 1]);
    }
  }

  lemma PollsOne(p: Poll, ticks: Uint32, gap: nat)
    ensures Polls(p, ticks, [gap]) == Next(p, ticks, gap)
  {
    assert [gap][..0] == [];
  }

  /** Polled each cycle, the loop comes to one short of its end just as the counter stands at zero,
      when whole periods and the present value are what is missing. */
  lemma {:induction false} Approach(p: Poll, load: nat, ticks: Uint32, k: nat) returns (n: nat)
    requires Short(p, load, ticks) && 1 <= load <= MAX_RELOAD && p.tcnt + p.told + k * load == ticks - 1
    ensures p.tcnt + n >= ticks - 1
    ensures var q := Polls(p, ticks, EveryCycle(n));
            Short(q, load, ticks) && q.tcnt == ticks - 1 && q.told == 0
    decreases k, p.told
  {
    hide Next, Polls;
    if k == 0 && p.told == 0 {
      n := 0;
      NoPolls(p, ticks);
    } else {
      NonNegative(k, load);
      if p.told == 0 {
        Borrow(k, load);
      }
      NextShort(p, load, ticks, 1);
      var m := Approach(Next(p, ticks, 1), load, ticks, if p.told == 0 then k - 1 else k);
      n := m + 1;
      FirstCycle(p, ticks, m);
    }
  }

  lemma NonNegative(k: nat, load: nat)
    ensures k * load >= 0
  {
  }

  lemma Borrow(k: nat, load: nat)
    ensures k * load == (k - 1) * load + load
  {
  }

  lemma FirstCycle(p: Poll, ticks: Uint32, m: nat)
    ensures Polls(p, ticks, EveryCycle(m + 1)) == Polls(Next(p, ticks, 1), ticks, EveryCycle(m))
  {
    assert EveryCycle(m + 1) == [1] + EveryCycle(m);
    PollsAppend(p, ticks, [1], EveryCycle(m));
    PollsOne(p, ticks, 1);
  }

  /** Polled each cycle, the count goes up by at most one a poll. */
  lemma {:induction false} Slow(p: Poll, load: nat, ticks: Uint32, n: nat)
    requires Short(p, load, ticks) && 1 <= load <= MAX_RELOAD && p.tcnt + n < ticks
    ensures Short(Polls(p, ticks, EveryCycle(n)), load, ticks)
    ensures Polls(p, ticks, EveryCycle(n)).tcnt <= p.tcnt + n
  {
    hide Next;
    if n > 0 {
      assert EveryCycle(n)[..n - 1] == EveryCycle(n - 1);
      Slow(p, load, ticks, n - 1);
      NextShort(Polls(p, ticks, EveryCycle(n - 1)), load, ticks, 1);
    }
  }

  /** The jump that carries the count from one short of its end to exactly 2^32. */
  lemma Jump(p: Poll, load: nat, ticks: Uint32, widest: nat)
    requires Short(p, load, ticks) && p.tcnt == ticks - 1 && p.told == 0
    requires 1 <= widest <= load <= MAX_RELOAD && ticks + widest == 0x1_0000_0001
    ensures var q := Polls(p, ticks, [1, widest]); Short(q, load, ticks) && q.tcnt == 0
  {
    hide Next, Polls;
    NextShort(p, load, ticks, 1);
    NextShort(Next(p, ticks, 1), load, ticks, widest);
    assert [1, widest] == [1] + [widest];
    PollsAppend(p, ticks, [1], [widest]);
    PollsOne(p, ticks, 1);
    PollsOne(Next(p, ticks, 1), ticks, widest);
  }

  /** When just the widest gap carries the count to 2^32, the loop misses its end once if that gap
      comes with the counter at its reload value. */
  lemma MissOnce(load: nat, ticks: Uint32, widest: nat) returns (t: Timer, gaps: seq<nat>)
    requires 1 <= widest <= load <= MAX_RELOAD && ticks + widest == 0x1_0000_0001
    ensures t.load == load && t.val <= load && Attentive(t, gaps, widest)
    ensures |gaps| >= 2 * ticks && !Polls(Start(t), ticks, gaps).done
  {
    hide Next, Polls;
    t := Timer(load, (ticks - 1) % load, true, true);
    Euclid(ticks - 1, load);
    var n := Approach(Start(t), load, ticks, (ticks - 1) / load);
    var p := Polls(Start(t), ticks, EveryCycle(n));
    Jump(p, load, ticks, widest);
    var q := Polls(p, ticks, [1, widest]);
    Slow(q, load, ticks, ticks - 1);
    var jump, rest := [1, widest], EveryCycle(ticks - 1);
    gaps := EveryCycle(n) + jump + rest;
    PollsAppend(Start(t), ticks, EveryCycle(n), jump);
    PollsAppend(Start(t), ticks, EveryCycle(n) + jump, rest);
  }

  /** For each reload value and each bound on the gaps, an attentive loop always ends within two polls
      a tick exactly when no gap can carry the count over the numbers from ticks up to 2^32. */
  lemma FinishesExact(load: nat, ticks: Uint32, widest: nat)
    requires 1 <= widest <= load <= MAX_RELOAD
    ensures (forall t: Timer, gaps: seq<nat> | t.load == load && t.val <= load && Attentive(t, gaps, widest)
                                               && |gaps| >= 1 && |gaps| >= 2 * ticks ::
               Polls(Start(t), ticks, gaps).done)
       <==> ticks + widest <= 0x1_0000_0000
  {
    hide Polls, Short;
    if ticks + widest <= 0x1_0000_0000 {
      forall t: Timer, gaps: seq<nat> | t.load == load && t.val <= load && Attentive(t, gaps, widest)
                                        && |gaps| >= 1 && |gaps| >= 2 * ticks
        ensures Polls(Start(t), ticks, gaps).done
      {
        Finishes(t, ticks, gaps, widest);
      }
    } else if ticks + widest == 0x1_0000_0001 {
      var t, gaps := MissOnce(load, ticks, widest);
      assert !Polls(Start(t), ticks, gaps).done;
    } else {
      var t := Timer(load, 0, true, true);
      var gaps := Escape(t, ticks, widest, 2 * ticks);
      ShortNotDone(Polls(Start(t), ticks, gaps), load, ticks);
      assert !Polls(Start(t), ticks, gaps).done;
    }
  }

  lemma ShortNotDone(p: Poll, load: nat, ticks: Uint32)
    requires Short(p, load, ticks)
    ensures !p.done
  {
  }

  /** On the board's own timer, at 180 MHz with a period of 1 ms, a wait of 23860929 microseconds can
      outlast any number of polls that are at most 100 cycles apart. */
  lemma Missed(polls: nat) returns (gaps: seq<nat>)
    ensures var t := Timer(179999, 0, true, true);
            && |gaps| == polls && Attentive(t, gaps, 100)
            && !Polls(Start(t), Ticks(23860929, 180), gaps).done
  {
    hide Polls, Short;
    var t, ticks := Timer(179999, 0, true, true), Ticks(23860929, 180);
    gaps := Escape(t, ticks, 100, polls);
    ShortNotDone(Polls(Start(t), ticks, gaps), t.load, ticks);
  }

  // ---- delay_us --------------------------------------------------------------------------

  /** The cycles a wait asks for: the product as 32 bits hold it. */
  function Ticks(nus: Uint32, fac: Uint32): Uint32 {
    Wrap(nus * fac)
  }

  /** How often the counter has started over c cycles later. */
  function Restarts(t: Timer, c: nat): int {
    (c + t.load - t.val) / (t.load + 1)
  }

  lemma RestartsAre(t: Timer, c: nat, n: nat, told: nat)
    requires told <= t.load && c == n * (t.load + 1) + t.val - told
    ensures Restarts(t, c) == n
  {
    assert (t.load + 1) * n == n * (t.load + 1);
    DivMod(c + t.load - t.val, t.load + 1, n, t.load - told);
  }

  /** With at most `widest` cycles between reads, a wait of nus microseconds at fac cycles each spends
      those, one more for each time the counter starts over, and less than a gap on top. */
  lemma DelayUsOnTime(t: Timer, nus: Uint32, fac: Uint32, gaps: seq<nat>, widest: nat)
    requires t.val <= t.load <= MAX_RELOAD && Attentive(t, gaps, widest) && nus * fac + widest <= 0x1_0000_0000
    ensures var p := Polls(Start(t), Ticks(nus, fac), gaps);
            p.done ==> nus * fac <= p.clock - Restarts(t, p.clock) < (if nus * fac == 0 then 1 else nus * fac) + widest
  {
    hide Polls, Reloads, Restarts, Ticks;
    var ticks := Ticks(nus, fac);
    TicksFit(nus, fac);
    var p, n := Polls(Start(t), ticks, gaps), Reloads(Start(t), ticks, gaps);
    Lateness(t, ticks, gaps, widest);
    StaysAccurate(t, ticks, gaps, widest);
    RestartsAre(t, p.clock, n, p.told);
  }

  function EveryCycle(n: nat): (gaps: seq<nat>)
    ensures |gaps| == n
  {
    seq(n, _ => 1)
  }

  lemma {:induction false} EveryCycleClock(t: Timer, ticks: Uint32, n: nat)
    ensures Polls(Start(t), ticks, EveryCycle(n)).clock <= n
  {
    if n > 0 {
      assert EveryCycle(n)[..n - 1] == EveryCycle(n - 1);
      EveryCycleClock(t, ticks, n - 1);
    }
  }

  /** A running timer that is polled each cycle ends any wait within two cycles a tick. */
  lemma QuickEnd(t: Timer, ticks: Uint32) returns (gaps: seq<nat>)
    requires t.enabled && t.val <= t.load && 1 <= t.load <= MAX_RELOAD
    ensures var p := Polls(Start(t), ticks, gaps); p.done && p.clock <= if ticks == 0 then 1 else 2 * ticks
  {
    var n := if ticks == 0 then 1 else 2 * ticks;
    gaps := EveryCycle(n);
    Finishes(t, ticks, gaps, 1);
    EveryCycleClock(t, ticks, n);
  }

  /** On a timer with any reload value, a wait of nus microseconds at fac cycles each can never end
      before its time, wherever the counter stands and whenever it is read, exactly when the product
      fits in 32 bits. */
  lemma DelayUsExact(load: nat, nus: Uint32, fac: Uint32)
    requires 1 <= load <= MAX_RELOAD
    ensures (forall t: Timer, gaps: seq<nat> | t.load == load && t.val <= MAX_RELOAD ::
               Polls(Start(t), Ticks(nus, fac), gaps).done ==>
               Polls(Start(t), Ticks(nus, fac), gaps).clock >= nus * fac)
       <==> nus * fac < 0x1_0000_0000
  {
    hide Polls;
    var ticks := Ticks(nus, fac);
    if nus * fac < 0x1_0000_0000 {
      TicksFit(nus, fac);
      forall t: Timer, gaps: seq<nat> | t.load == load && t.val <= MAX_RELOAD && Polls(Start(t), ticks, gaps).done
        ensures Polls(Start(t), ticks, gaps).clock >= nus * fac
      {
        NeverEarly(t, ticks, gaps);
      }
    } else {
      var t := Timer(load, 0, true, true);
      var gaps := QuickEnd(t, ticks);
      WrapLoses(nus * fac);
      assert Polls(Start(t), ticks, gaps).clock < nus * fac;
    }
  }

  lemma WrapLoses(x: nat)
    requires x >= 0x1_0000_0000
    ensures 2 * Wrap(x) < x && 1 < x
  {
  }

  lemma NoPolls(p: Poll, ticks: Uint32)
    ensures Polls(p, ticks, []) == p
  {
  }

  lemma OnePoll(p: Poll, ticks: Uint32, gaps: seq<nat>, i: nat)
    requires i < |gaps|
    ensures Polls(p, ticks, gaps[..i + 1]) == Next(Polls(p, ticks, gaps[..i]), ticks, gaps[i])
  {
    assert gaps[..i + 1][..i] == gaps[..i];
  }

  lemma WrapZero(x: Uint32)
    ensures Wrap(x + 0) == Wrap(x) == x
  {
  }

  /** delay_us, with the cycles that pass before each read of the counter given as gaps; it gives up
      when they run out. */
  method DelayUs(sys: SysTickTimer, nus: Uint32, fac: Uint32, gaps: seq<nat>) returns (done: bool)
    modifies sys
    ensures var p := Polls(Start(old(sys.Regs())), Ticks(nus, fac), gaps);
            sys.Regs() == p.timer && sys.clock == old(sys.clock) + p.clock && done == p.done
  {
    hide After, Fired, Ticks, Polls, Wrap;
    NoPolls(Start(sys.Regs()), Ticks(nus, fac));
    var reload: int := sys.load;
    var ticks: Uint32 := Ticks(nus, fac);
    var told := sys.val;
    var tcnt: Uint32 := 0;
    done := false;
    ghost var start := Start(sys.Regs());
    var i := 0;
    while i < |gaps| && !done
      invariant i <= |gaps| && sys.load == reload
      invariant sys.clock >= old(sys.clock)
      invariant Polls(start, ticks, gaps[..i]) == Poll(sys.Regs(), told, tcnt, done, sys.clock - old(sys.clock))
    {
      OnePoll(start, ticks, gaps, i);
      AfterKeeps(sys.Regs(), gaps[i]);
      WrapZero(tcnt);
      sys.Elapse(gaps[i]);
      var tnow := sys.val;
      if tnow != told {
        if tnow < told {
          tcnt := Wrap(tcnt + Wrap(told - tnow));
        } else {
          tcnt := Wrap(tcnt + Wrap(Wrap(reload - tnow) + told));
        }
        told := tnow;
        done := tcnt >= ticks;
      }
      i := i + 1;
    }
    DoneForGood(start, ticks, gaps, i);
    assert gaps[..|gaps|] == gaps;
  }

  lemma {:induction false} DoneForGood(p: Poll, ticks: Uint32, gaps: seq<nat>, i: nat)
    requires i <= |gaps| && (i == |gaps| || Polls(p, ticks, gaps[..i]).done)
    ensures Polls(p, ticks, gaps) == Polls(p, ticks, gaps[..i])
    decreases |gaps|
  {
    if i < |gaps| {
      var before := gaps[..|gaps| - 1];
      assert before[..i] == gaps[..i];
      DoneForGood(p, ticks, before, i);
    } else {
      assert gaps[..i] == gaps;
    }
  }

  // ---- delay_ms and HAL_Delay ------------------------------------------------------------

  const CHUNK := 65

  /** The delay_us calls that a wait of nms milliseconds is cut into. */
  function Calls(nms: nat): seq<Uint32> {
    if nms >= CHUNK then [CHUNK * 1000] + Calls(nms - CHUNK)
    else if nms > 0 then [nms * 1000]
    else []
  }

  function Sum(calls: seq<Uint32>): nat {
    if calls == [] then 0 else calls[0] + Sum(calls[1..])
  }

  lemma {:induction false} CallsAddUp(nms: nat)
    ensures Sum(Calls(nms)) == nms * 1000
    ensures |Calls(nms)| == (nms + CHUNK - 1) / CHUNK
    ensures forall i | 0 <= i < |Calls(nms)| :: 1 <= Calls(nms)[i] <= CHUNK * 1000
  {
    if nms >= CHUNK {
      CallsAddUp(nms - CHUNK);
    }
  }

  /** How a wait made of several calls ends, each with its own polls. */
  datatype Wait = Wait(timer: Timer, clock: nat, done: bool)

  function Waits(t: Timer, fac: Uint32, calls: seq<Uint32>, polls: seq<seq<nat>>): Wait
    decreases |calls|
  {
    if calls == [] then Wait(t, 0, true)
    else if polls == [] then Wait(t, 0, false)
    else
      var p := Polls(Start(t), Ticks(calls[0], fac), polls[0]);
      if !p.done then Wait(p.timer, p.clock, false)
      else Later(p.clock, Waits(p.timer, fac, calls[1..], polls[1..]))
  }

  function Later(clock: nat, w: Wait): Wait {
    w.(clock := clock + w.clock)
  }

  lemma {:induction false} WaitsNeverEarly(t: Timer, fac: Uint32, calls: seq<Uint32>, polls: seq<seq<nat>>)
    requires InRange(t)
    requires forall i | 0 <= i < |calls| :: calls[i] * fac < 0x1_0000_0000
    ensures Waits(t, fac, calls, polls).done ==> Waits(t, fac, calls, polls).clock >= Sum(calls) * fac
    decreases |calls|
  {
    hide Ticks, Polls;
    if calls != [] && polls != [] {
      var ticks := Ticks(calls[0], fac);
      var p := Polls(Start(t), ticks, polls[0]);
      NeverEarly(t, ticks, polls[0]);
      StaysSound(Start(t), ticks, polls[0]);
      TicksFit(calls[0], fac);
      if p.done {
        WaitsNeverEarly(p.timer, fac, calls[1..], polls[1..]);
        Distribute(calls[0], Sum(calls[1..]), fac);
      }
    }
  }

  lemma Distribute(a: nat, b: nat, fac: nat)
    ensures (a + b) * fac == a * fac + b * fac
  {
  }

  lemma TicksFit(nus: Uint32, fac: Uint32)
    requires nus * fac < 0x1_0000_0000
    ensures Ticks(nus, fac) == nus * fac
  {
    assert nus * fac >= 0;
  }

  /** 65 ms is short enough: for every 16-bit number of milliseconds and every 16-bit clock in MHz
      no product wraps, so delay_ms never ends early. */
  lemma DelayMsNeverEarly(t: Timer, fac: Uint32, nms: nat, polls: seq<seq<nat>>)
    requires InRange(t) && fac < 0x1_0000
    ensures var w := Waits(t, fac, Calls(nms), polls); w.done ==> w.clock >= nms * 1000 * fac
  {
    CallsAddUp(nms);
    ChunksFit(nms, fac);
    WaitsNeverEarly(t, fac, Calls(nms), polls);
  }

  /** A wait of several calls keeps the account of each; n is how often the counter started over. */
  lemma {:induction false} WaitsOnTime(t: Timer, fac: Uint32, calls: seq<Uint32>, polls: seq<seq<nat>>, widest: nat)
      returns (n: nat)
    requires t.val <= t.load <= MAX_RELOAD && forall i | 0 <= i < |polls| :: Attentive(t, polls[i], widest)
    requires forall i | 0 <= i < |calls| :: calls[i] * fac + widest <= 0x1_0000_0000
    ensures var w := Waits(t, fac, calls, polls);
            && w.timer.val <= t.load && w.clock == n * (t.load + 1) + t.val - w.timer.val
            && (w.done ==> Sum(calls) * fac <= w.clock - n <= Sum(calls) * fac + |calls| * widest)
    decreases |calls|
  {
    hide Ticks, Polls, Reloads;
    n := 0;
    if calls != [] && polls != [] {
      assert Attentive(t, polls[0], widest);
      var ticks := Ticks(calls[0], fac);
      TicksFit(calls[0], fac);
      var p := Polls(Start(t), ticks, polls[0]);
      n := Reloads(Start(t), ticks, polls[0]);
      Lateness(t, ticks, polls[0], widest);
      StaysAccurate(t, ticks, polls[0], widest);
      if p.done {
        var m := WaitsOnTime(p.timer, fac, calls[1..], polls[1..], widest);
        Distribute(calls[0], Sum(calls[1..]), fac);
        Distribute(1, |calls| - 1, widest);
        Distribute(n, m, t.load + 1);
        n := n + m;
      }
    }
  }

  lemma WidestFits(nms: nat, fac: Uint32, widest: nat)
    requires fac < 0x1_0000 && widest <= MAX_RELOAD
    ensures forall i | 0 <= i < |Calls(nms)| :: Calls(nms)[i] * fac + widest <= 0x1_0000_0000
  {
    CallsAddUp(nms);
    forall i | 0 <= i < |Calls(nms)| ensures Calls(nms)[i] * fac + widest <= 0x1_0000_0000 {
      ChunkFits(Calls(nms)[i], fac);
    }
  }

  /** For every 16-bit number of milliseconds and every 16-bit clock in MHz, with at most `widest`
      cycles between reads: delay_ms spends the cycles asked for, one more for each time the counter
      starts over, and at most a gap for each 65 ms begun. */
  lemma DelayMsOnTime(t: Timer, fac: Uint32, nms: nat, polls: seq<seq<nat>>, widest: nat)
    requires t.val <= t.load <= MAX_RELOAD && fac < 0x1_0000
    requires forall i | 0 <= i < |polls| :: Attentive(t, polls[i], widest)
    ensures var w := Waits(t, fac, Calls(nms), polls);
            w.done ==> nms * 1000 * fac <= w.clock - Restarts(t, w.clock)
                                        <= nms * 1000 * fac + (nms + 64) / 65 * widest
  {
    hide Waits, Restarts;
    CallsAddUp(nms);
    if polls == [] || nms == 0 {
      NoPollsWait(t, fac, nms, polls);
    } else {
      assert Attentive(t, polls[0], widest);
      WidestFits(nms, fac, widest);
      var n := WaitsOnTime(t, fac, Calls(nms), polls, widest);
      var w := Waits(t, fac, Calls(nms), polls);
      RestartsAre(t, w.clock, n, w.timer.val);
    }
  }

  /** A wait of no milliseconds is over at once; any other needs polls. */
  lemma NoPollsWait(t: Timer, fac: Uint32, nms: nat, polls: seq<seq<nat>>)
    requires polls == [] || nms == 0
    ensures Waits(t, fac, Calls(nms), polls) == Wait(t, 0, nms == 0)
    ensures t.val <= t.load ==> Restarts(t, 0) == 0
  {
    if t.val <= t.load {
      RestartsAre(t, 0, 0, t.val);
    }
  }

  /** It stops there: once a wait is done, polls that could follow make no difference. */
  lemma {:induction false} DoneIsDone(t: Timer, fac: Uint32, calls: seq<Uint32>, polls: seq<seq<nat>>, more: seq<seq<nat>>)
    requires Waits(t, fac, calls, polls).done
    ensures Waits(t, fac, calls, polls + more) == Waits(t, fac, calls, polls)
    decreases |calls|
  {
    hide Polls, Ticks;
    if calls != [] {
      assert (polls + more)[0] == polls[0] && (polls + more)[1..] == polls[1..] + more;
      DoneIsDone(Polls(Start(t), Ticks(calls[0], fac), polls[0]).timer, fac, calls[1..], polls[1..], more);
    }
  }

  lemma {:induction false} WaitsEnd(t: Timer, fac: Uint32, calls: seq<Uint32>, polls: seq<seq<nat>>, widest: nat)
    requires t.val <= t.load <= MAX_RELOAD && |polls| >= |calls|
    requires forall i | 0 <= i < |polls| :: Attentive(t, polls[i], widest)
    requires forall i | 0 <= i < |calls| ::
               calls[i] * fac + widest <= 0x1_0000_0000 && |polls[i]| >= 1 && |polls[i]| >= 2 * (calls[i] * fac)
    ensures Waits(t, fac, calls, polls).done
    decreases |calls|
  {
    hide Polls, Ticks;
    if calls != [] {
      var ticks := Ticks(calls[0], fac);
      TicksFit(calls[0], fac);
      Finishes(t, ticks, polls[0], widest);
      PollsKeep(Start(t), ticks, polls[0]);
      WaitsEnd(Polls(Start(t), ticks, polls[0]).timer, fac, calls[1..], polls[1..], widest);
    }
  }

  /** And with two reads a tick in each call, delay_ms does end. */
  lemma DelayMsEnds(t: Timer, fac: Uint32, nms: nat, polls: seq<seq<nat>>, widest: nat)
    requires t.val <= t.load <= MAX_RELOAD && fac < 0x1_0000 && |polls| >= (nms + 64) / 65
    requires forall i | 0 <= i < |polls| ::
               Attentive(t, polls[i], widest) && |polls[i]| >= 1 && |polls[i]| >= 2 * (65000 * fac)
    ensures Waits(t, fac, Calls(nms), polls).done
  {
    hide Waits, Calls;
    CallsAddUp(nms);
    if nms == 0 {
      NoPollsWait(t, fac, nms, polls);
    } else {
      assert Attentive(t, polls[0], widest);
      WidestFits(nms, fac, widest);
      forall i | 0 <= i < |Calls(nms)| ensures Calls(nms)[i] * fac <= 65000 * fac {
        NonNegative(65000 - Calls(nms)[i], fac);
      }
      WaitsEnd(t, fac, Calls(nms), polls, widest);
    }
  }

  lemma ChunksFit(nms: nat, fac: Uint32)
    requires fac < 0x1_0000
    ensures forall i | 0 <= i < |Calls(nms)| :: Calls(nms)[i] * fac < 0x1_0000_0000
  {
    CallsAddUp(nms);
    forall i | 0 <= i < |Calls(nms)| ensures Calls(nms)[i] * fac < 0x1_0000_0000 {
      ChunkFits(Calls(nms)[i], fac);
    }
  }

  lemma ChunkFits(c: nat, fac: nat)
    requires c <= CHUNK * 1000 && fac < 0x1_0000
    ensures c * fac <= CHUNK * 1000 * 0xFFFF < 0x1_0000_0000 - MAX_RELOAD
  {
    assert (CHUNK * 1000 - c) * fac >= 0;
  }

  lemma {:induction false} QuickWait(t: Timer, fac: Uint32, calls: seq<Uint32>) returns (polls: seq<seq<nat>>)
    requires t.enabled && t.val <= t.load && 1 <= t.load <= MAX_RELOAD && fac >= 1
    requires forall i | 0 <= i < |calls| :: calls[i] >= 1 && calls[i] * fac < 0x1_0000_0000
    ensures var w := Waits(t, fac, calls, polls); w.done && w.clock <= 2 * (Sum(calls) * fac)
    decreases |calls|
  {
    hide Polls, Ticks;
    if calls == [] {
      polls := [];
    } else {
      var ticks := Ticks(calls[0], fac);
      TicksFit(calls[0], fac);
      AtLeastOne(calls[0], fac);
      var first := QuickEnd(t, ticks);
      var p := Polls(Start(t), ticks, first);
      PollsKeep(Start(t), ticks, first);
      var rest := QuickWait(p.timer, fac, calls[1..]);
      polls := [first] + rest;
      assert polls[1..] == rest;
      Distribute(calls[0], Sum(calls[1..]), fac);
    }
  }

  lemma AtLeastOne(a: nat, b: nat)
    requires a >= 1 && b >= 1
    ensures a * b >= 1
  {
  }

  lemma {:induction false} PollsKeep(p: Poll, ticks: Uint32, gaps: seq<nat>)
    ensures Polls(p, ticks, gaps).timer.load == p.timer.load
    ensures Polls(p, ticks, gaps).timer.enabled == p.timer.enabled
    ensures p.timer.val <= p.timer.load ==> Polls(p, ticks, gaps).timer.val <= p.timer.load
  {
    if gaps != [] {
      PollsKeep(p, ticks, gaps[..|gaps| - 1]);
      AfterKeeps(Polls(p, ticks, gaps[..|gaps| - 1]).timer, gaps[|gaps| - 1]);
    }
  }

  /** HAL_Delay takes 32 bits but delay_ms only 16: on a timer with any reload value and at any
      clock, a wait of `delay` milliseconds can never end before its time exactly when delay is
      below 2^16. */
  lemma {:induction false} HalDelayExact(load: nat, fac: Uint32, delay: Uint32)
    requires 1 <= load <= MAX_RELOAD && 1 <= fac < 0x1_0000
    ensures (forall t: Timer, polls: seq<seq<nat>> | t.load == load && t.val <= MAX_RELOAD ::
               var w := Waits(t, fac, Calls(delay % 0x1_0000), polls);
               w.done ==> w.clock >= delay * 1000 * fac)
       <==> delay < 0x1_0000
  {
    hide Waits, Calls;
    if delay < 0x1_0000 {
      forall t: Timer, polls: seq<seq<nat>> | t.load == load && t.val <= MAX_RELOAD
        ensures var w := Waits(t, fac, Calls(delay % 0x1_0000), polls); w.done ==> w.clock >= delay * 1000 * fac
      {
        DelayMsNeverEarly(t, fac, delay, polls);
      }
    } else {
      var t, nms := Timer(load, 0, true, true), delay % 0x1_0000;
      CallsAddUp(nms);
      ChunksFit(nms, fac);
      var polls := QuickWait(t, fac, Calls(nms));
      var w := Waits(t, fac, Calls(nms), polls);
      CutOff(nms, delay, fac);
      assert w.done && w.clock < delay * 1000 * fac;
    }
  }

  lemma CutOff(nms: nat, delay: nat, fac: nat)
    requires 2 * nms < delay && fac >= 1
    ensures 2 * (nms * 1000 * fac) < delay * 1000 * fac
  {
    assert (delay * 1000 - 2 * (nms * 1000)) * fac >= 1 by {
      AtLeastOne(delay * 1000 - 2 * (nms * 1000), fac);
    }
  }

  method DelayMs(sys: SysTickTimer, nms: nat, fac: Uint32, polls: seq<seq<nat>>) returns (done: bool)
    requires nms < 0x1_0000
    modifies sys
    ensures var w := Waits(old(sys.Regs()), fac, Calls(nms), polls);
            sys.Regs() == w.timer && sys.clock == old(sys.clock) + w.clock && done == w.done
    ensures nms == 0 ==> done && sys.Regs() == old(sys.Regs()) && sys.clock == old(sys.clock)
  {
    hide Polls, Ticks, After, Fired;
    var chunks: nat, remain: nat := nms / CHUNK, nms % CHUNK;
    var i := 0;
    done := true;
    while chunks > 0
      invariant i <= |polls| && sys.clock >= old(sys.clock)
      invariant Waits(old(sys.Regs()), fac, Calls(nms), polls)
             == Later(sys.clock - old(sys.clock),
                      Waits(sys.Regs(), fac, Calls(CHUNK * chunks + remain), polls[i..]))
    {
      if i == |polls| {
        return false;
      }
      done := DelayUs(sys, CHUNK * 1000, fac, polls[i]);
      if !done {
        return;
      }
      assert polls[i..][1..] == polls[i + 1..];
      i := i + 1;
      chunks := chunks - 1;
    }
    if remain > 0 {
      if i == |polls| {
        return false;
      }
      done := DelayUs(sys, remain * 1000, fac, polls[i]);
    }
  }

  method HalDelay(sys: SysTickTimer, delay: Uint32, fac: Uint32, polls: seq<seq<nat>>) returns (done: bool)
    modifies sys
    ensures var w := Waits(old(sys.Regs()), fac, Calls(delay % 0x1_0000), polls);
            sys.Regs() == w.timer && sys.clock == old(sys.clock) + w.clock && done == w.done
  {
    done := DelayMs(sys, delay % 0x1_0000, fac, polls);
  }
}
