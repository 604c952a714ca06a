/** Switching the memory protection unit on and off, one register write at a time. */
module MpuControl {
  import opened Words

  /** CTRL of the protection unit and SHCSR of the system control block. */
  datatype Regs = Regs(ctrl: nat, shcsr: nat)

  const ENABLE := 0
  const HFNMIENA := 1
  const MEMFAULTENA := 16

  datatype Call = Enable(control: Uint32) | Disable | HalDisable

  /** The register values after each write a call makes. */
  function States(r: Regs, c: Call): seq<Regs> {
    match c
    case Enable(control) =>
      var ctrl := Or(control, Shl(1, ENABLE));
      [r.(ctrl := ctrl), Regs(ctrl, Or(r.shcsr, Shl(1, MEMFAULTENA)))]
    case Disable =>
      var shcsr := Without(r.shcsr, Shl(1, MEMFAULTENA));
      [r.(shcsr := shcsr), Regs(Without(r.ctrl, Shl(1, ENABLE)), shcsr)]
    case HalDisable =>
      var shcsr := Without(r.shcsr, Shl(1, MEMFAULTENA));
      [r.(shcsr := shcsr), Regs(0, shcsr)]
  }

  function Run(r: Regs, calls: seq<Call>): seq<Regs> {
    if calls == [] then [r]
    else
      var before := Run(r, calls[..|calls| - 1]);
      before + States(Last(before), calls[|calls| - 1])
  }

  function Last(states: seq<Regs>): Regs {
    if states == [] then Regs(0, 0) else states[|states| - 1]
  }

  /** Memory faults are never taken by their own handler while the unit is off. */
  ghost predicate Safe(r: Regs) {
    Bit(r.shcsr, MEMFAULTENA) ==> Bit(r.ctrl, ENABLE)
  }

  lemma OneBit(x: nat, k: nat, i: nat)
    ensures Bit(Or(x, Shl(1, k)), i) == (Bit(x, i) || i == k)
    ensures Bit(Without(x, Shl(1, k)), i) == (Bit(x, i) && i != k)
  {
    BitOr(x, Shl(1, k), i);
    BitWithout(x, Shl(1, k), i);
    BitOne(k, i);
  }

  /** One call, from any state: it goes through states that are safe, both bits end up telling whether
      it was Enable, and the other bits of SHCSR are left alone. */
  lemma CallSafe(r: Regs, c: Call, i: nat)
    ensures forall k | 0 <= k < |States(r, c)| :: Safe(States(r, c)[k])
    ensures Bit(Last(States(r, c)).ctrl, ENABLE) == Bit(Last(States(r, c)).shcsr, MEMFAULTENA) == c.Enable?
    ensures i != MEMFAULTENA ==> Bit(Last(States(r, c)).shcsr, i) == Bit(r.shcsr, i)
  {
    hide Or, Without, Shl, Bit;
    OneBit(r.shcsr, MEMFAULTENA, MEMFAULTENA);
    OneBit(r.shcsr, MEMFAULTENA, i);
    OneBit(r.ctrl, ENABLE, ENABLE);
    ZeroBit(ENABLE);
    if c.Enable? {
      OneBit(c.control, ENABLE, ENABLE);
    }
  }

  lemma ZeroBit(i: nat)
    ensures !Bit(0, i)
  {
    ShrZero(i);
  }

  /** Over every run from a safe state every state in between is safe, and after each call both bits
      tell whether it was Enable. */
  lemma {:induction false} RunSafe(r: Regs, calls: seq<Call>, i: nat)
    requires Safe(r)
    ensures Run(r, calls) != []
    ensures forall k | 0 <= k < |Run(r, calls)| :: Safe(Run(r, calls)[k])
    ensures var last := Last(Run(r, calls));
            && (calls != [] ==> Bit(last.ctrl, ENABLE) == Bit(last.shcsr, MEMFAULTENA) == calls[|calls| - 1].Enable?)
            && (i != MEMFAULTENA ==> Bit(last.shcsr, i) == Bit(r.shcsr, i))
  {
    hide Bit, States;
    if calls != [] {
      var before, c := Run(r, calls[..|calls| - 1]), calls[|calls| - 1];
      RunSafe(r, calls[..|calls| - 1], i);
      CallSafe(Last(before), c, i);
      TwoWrites(Last(before), c);
      assert Last(Run(r, calls)) == Last(States(Last(before), c));
    }
  }

  lemma TwoWrites(r: Regs, c: Call)
    ensures |States(r, c)| == 2
  {
  }

  /** With the unit off, HFNMIENA must be clear: the architecture leaves the other case undefined. */
  ghost predicate Defined(r: Regs) {
    Bit(r.ctrl, HFNMIENA) ==> Bit(r.ctrl, ENABLE)
  }

  /** ARM_MPU_Disable keeps HFNMIENA, so it leaves a defined setting exactly when that was clear;
      HAL_MPU_Disable clears the whole register and always does. */
  lemma DisableDefined(r: Regs)
    ensures Defined(Last(States(r, Disable))) <==> !Bit(r.ctrl, HFNMIENA)
    ensures Defined(Last(States(r, HalDisable)))
  {
    OneBit(r.ctrl, ENABLE, ENABLE);
    OneBit(r.ctrl, ENABLE, HFNMIENA);
    ZeroBit(HFNMIENA);
  }

  class Protection {
    var ctrl: nat
    var shcsr: nat
    ghost var seen: seq<Regs>

    function Now(): Regs
      reads this
    {
      Regs(ctrl, shcsr)
    }

    method WriteCtrl(w: nat)
      modifies this
      ensures Now() == old(Now()).(ctrl := w) && seen == old(seen) + [Now()]
    {
      ctrl := w;
      seen := seen + [Now()];
    }

    method WriteShcsr(w: nat)
      modifies this
      ensures Now() == old(Now()).(shcsr := w) && seen == old(seen) + [Now()]
    {
      shcsr := w;
      seen := seen + [Now()];
    }

    method ArmEnable(control: Uint32)
      modifies this
      ensures seen == old(seen) + States(old(Now()), Enable(control)) && Last(seen) == Now()
      ensures forall k | |old(seen)| <= k < |seen| :: Safe(seen[k])
      ensures Bit(ctrl, ENABLE) && Bit(shcsr, MEMFAULTENA)
      ensures forall i: nat | i != ENABLE :: Bit(ctrl, i) == Bit(control, i)
      ensures forall i: nat | i != MEMFAULTENA :: Bit(shcsr, i) == Bit(old(shcsr), i)
    {
      hide Or, Shl, Bit;
      SetBit(control, ENABLE);
      SetBit(shcsr, MEMFAULTENA);
      WriteCtrl(Or(control, Shl(1, ENABLE)));
      WriteShcsr(Or(shcsr, Shl(1, MEMFAULTENA)));
    }

    method ArmDisable()
      modifies this
      ensures seen == old(seen) + States(old(Now()), Disable) && Last(seen) == Now()
      ensures forall k | |old(seen)| <= k < |seen| :: Safe(seen[k])
      ensures !Bit(ctrl, ENABLE) && !Bit(shcsr, MEMFAULTENA)
      ensures forall i: nat | i != ENABLE :: Bit(ctrl, i) == Bit(old(ctrl), i)
      ensures forall i: nat | i != MEMFAULTENA :: Bit(shcsr, i) == Bit(old(shcsr), i)
    {
      hide Without, Shl, Bit;
      ClearBit(ctrl, ENABLE);
      ClearBit(shcsr, MEMFAULTENA);
      WriteShcsr(Without(shcsr, Shl(1, MEMFAULTENA)));
      WriteCtrl(Without(ctrl, Shl(1, ENABLE)));
    }

    method HalMpuDisable()
      modifies this
      ensures seen == old(seen) + States(old(Now()), HalDisable) && Last(seen) == Now()
      ensures forall k | |old(seen)| <= k < |seen| :: Safe(seen[k])
      ensures !Bit(shcsr, MEMFAULTENA) && forall i: nat :: !Bit(ctrl, i)
      ensures forall i: nat | i != MEMFAULTENA :: Bit(shcsr, i) == Bit(old(shcsr), i)
    {
      hide Without, Shl, Bit;
      NoBits();
      ClearBit(shcsr, MEMFAULTENA);
      WriteShcsr(Without(shcsr, Shl(1, MEMFAULTENA)));
      WriteCtrl(0);
    }

    /** A whole run of calls on the registers. */
    method Perform(calls: seq<Call>)
      requires Safe(Now())
      modifies this
      ensures old(seen) <= seen && [old(Now())] + seen[|old(seen)|..] == Run(old(Now()), calls)
      ensures forall k | |old(seen)| <= k < |seen| :: Safe(seen[k])
      ensures calls != [] ==> Bit(ctrl, ENABLE) == Bit(shcsr, MEMFAULTENA) == calls[|calls| - 1].Enable?
      ensures forall i: nat | i != MEMFAULTENA :: Bit(shcsr, i) == Bit(old(shcsr), i)
    {
      hide Bit, States;
      ghost var start := Now();
      var n := 0;
      while n < |calls|
        invariant n <= |calls| && old(seen) <= seen
        invariant [start] + seen[|old(seen)|..] == Run(start, calls[..n]) && Last(Run(start, calls[..n])) == Now()
      {
        ghost var before, r := seen, Now();
        TwoWrites(r, calls[n]);
        match calls[n] {
          case Enable(control) => ArmEnable(control);
          case Disable => ArmDisable();
          case HalDisable => HalMpuDisable();
        }
        assert calls[..n + 1][..n] == calls[..n];
        assert seen[|old(seen)|..] == before[|old(seen)|..] + States(r, calls[n]);
        n := n + 1;
      }
      assert calls[..n] == calls;
      RunSafe(start, calls, 0);
      NewAreSafe(start, seen[|old(seen)|..], calls);
      forall i: nat | i != MEMFAULTENA ensures Bit(shcsr, i) == Bit(old(shcsr), i) {
        RunSafe(start, calls, i);
      }
    }
  }

  lemma NewAreSafe(start: Regs, states: seq<Regs>, calls: seq<Call>)
    requires Safe(start) && [start] + states == Run(start, calls)
    ensures forall k | 0 <= k < |states| :: Safe(states[k])
  {
    RunSafe(start, calls, 0);
    forall k | 0 <= k < |states| ensures Safe(states[k]) {
      assert Run(start, calls)[k + 1] == states[k];
    }
  }

  lemma SetBit(x: nat, k: nat)
    ensures forall i: nat :: Bit(Or(x, Shl(1, k)), i) == (Bit(x, i) || i == k)
  {
    forall i: nat ensures Bit(Or(x, Shl(1, k)), i) == (Bit(x, i) || i == k) {
      OneBit(x, k, i);
    }
  }

  lemma ClearBit(x: nat, k: nat)
    ensures forall i: nat :: Bit(Without(x, Shl(1, k)), i) == (Bit(x, i) && i != k)
  {
    forall i: nat ensures Bit(Without(x, Shl(1, k)), i) == (Bit(x, i) && i != k) {
      OneBit(x, k, i);
    }
  }

  lemma NoBits()
    ensures forall i: nat :: !Bit(0, i)
  {
    forall i: nat ensures !Bit(0, i) {
      ZeroBit(i);
    }
  }
}
