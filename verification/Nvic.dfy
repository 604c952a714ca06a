/** The interrupt controller: its set and clear registers, priorities and priority grouping. */
module Nvic {
  import opened Words
  import opened Priority

  // ---- What software sees ----------------------------------------------------------------

  /** The controller as software means it: sets of interrupts, a priority for each exception from
      -12 to 239, the priority group, and the other bits of AIRCR's low half. */
  datatype State = State(enabled: set<int>, pending: set<int>, priority: map<int, nat>, group: Uint32, rest: nat)

  datatype Call =
    | EnableIRQ(irq: int)
    | DisableIRQ(irq: int)
    | SetPendingIRQ(irq: int)
    | ClearPendingIRQ(irq: int)
    | SetPriority(irq: int, priority: nat)
    | SetPriorityGrouping(group: Uint32)
    | HalSetPriority(irq: int, preempt: nat, sub: nat)

  /** The numbers that have a register. */
  predicate Reachable(c: Call) {
    match c
    case SetPriority(n, _) => -12 <= n < 240
    case HalSetPriority(n, _, _) => -12 <= n < 240
    case SetPriorityGrouping(_) => true
    case _ => c.irq < 256
  }

  function Apply(bits: PrioBits, s: State, c: Call): State {
    match c
    case EnableIRQ(n) => if n >= 0 then s.(enabled := s.enabled + {n}) else s
    case DisableIRQ(n) => s.(enabled := s.enabled - if n >= 0 then {n} else {})
    case SetPendingIRQ(n) => if n >= 0 then s.(pending := s.pending + {n}) else s
    case ClearPendingIRQ(n) => s.(pending := s.pending - if n >= 0 then {n} else {})
    case SetPriority(n, p) => s.(priority := s.priority[n := Low(p, bits)])
    case SetPriorityGrouping(g) => s.(group := g % 8)
    case HalSetPriority(n, p, sub) =>
      s.(priority := s.priority[n := Low(Encode(bits, s.group, p, sub), bits)])
  }

  // ---- Runs ------------------------------------------------------------------------------

  function Run(bits: PrioBits, s: State, calls: seq<Call>): State {
    if calls == [] then s else Apply(bits, Run(bits, s, calls[..|calls| - 1]), calls[|calls| - 1])
  }

  /** The separate pieces of state a call can write. */
  datatype Cell = EnabledCell(irq: int) | PendingCell(irq: int) | PriorityCell(irq: int) | GroupCell | RestCell

  function Read(s: State, cell: Cell): int {
    match cell
    case EnabledCell(n) => if n in s.enabled then 1 else 0
    case PendingCell(n) => if n in s.pending then 1 else 0
    case PriorityCell(n) => if n in s.priority then s.priority[n] else -1
    case GroupCell => s.group
    case RestCell => s.rest
  }

  /** The one cell a call writes; calls for negative numbers write none of the sets. */
  predicate Writes(c: Call, cell: Cell) {
    match c
    case EnableIRQ(n) => n >= 0 && cell == EnabledCell(n)
    case DisableIRQ(n) => n >= 0 && cell == EnabledCell(n)
    case SetPendingIRQ(n) => n >= 0 && cell == PendingCell(n)
    case ClearPendingIRQ(n) => n >= 0 && cell == PendingCell(n)
    case SetPriority(n, _) => cell == PriorityCell(n)
    case SetPriorityGrouping(_) => cell == GroupCell
    case HalSetPriority(n, _, _) => cell == PriorityCell(n)
  }

  /** What it leaves there, given the group in force. */
  function Written(bits: PrioBits, group: Uint32, c: Call): int {
    match c
    case EnableIRQ(_) => 1
    case DisableIRQ(_) => 0
    case SetPendingIRQ(_) => 1
    case ClearPendingIRQ(_) => 0
    case SetPriority(_, p) => p % Pow2(bits)
    case SetPriorityGrouping(g) => g % 8
    case HalSetPriority(_, p, sub) => Encode(bits, group, p, sub)
  }

  ghost predicate Untouched(calls: seq<Call>, cell: Cell) {
    forall i | 0 <= i < |calls| :: !Writes(calls[i], cell)
  }

  lemma ApplyReads(bits: PrioBits, s: State, c: Call, cell: Cell)
    ensures Read(Apply(bits, s, c), cell) == if Writes(c, cell) then Written(bits, s.group, c) else Read(s, cell)
  {
    hide Encode, Low;
    match c
    case SetPriority(_, p) =>
      Division(p, bits);
    case HalSetPriority(_, p, sub) =>
      EncodeBound(bits, s.group, p, sub);
      LowSmall(Encode(bits, s.group, p, sub), bits);
    case _ =>
  }

  lemma {:induction false} UntouchedReads(bits: PrioBits, s: State, calls: seq<Call>, cell: Cell)
    requires Untouched(calls, cell)
    ensures Read(Run(bits, s, calls), cell) == Read(s, cell)
  {
    if calls != [] {
      var before := calls[..|calls| - 1];
      UntouchedReads(bits, s, before, cell);
      ApplyReads(bits, Run(bits, s, before), calls[|calls| - 1], cell);
    }
  }

  lemma {:induction false} RunAppend(bits: PrioBits, s: State, first: seq<Call>, second: seq<Call>)
    ensures Run(bits, s, first + second) == Run(bits, Run(bits, s, first), second)
  {
    if second == [] {
      assert first + second == first;
    } else {
      var before := second[..|second| - 1];
      RunAppend(bits, s, first, before);
      assert (first + second)[..|first + second| - 1] == first + before;
    }
  }

  /** After any run a cell holds what the last call that writes it left there: no other call
      disturbs it. Where no call writes it, UntouchedReads says that it keeps what it held. */
  lemma LastWriteWins(bits: PrioBits, s: State, before: seq<Call>, c: Call, after: seq<Call>, cell: Cell)
    requires Writes(c, cell) && Untouched(after, cell)
    ensures Read(Run(bits, s, before + [c] + after), cell) == Written(bits, Run(bits, s, before).group, c)
  {
    RunAppend(bits, s, before + [c], after);
    UntouchedReads(bits, Run(bits, s, before + [c]), after, cell);
    assert (before + [c])[..|before|] == before;
    ApplyReads(bits, Run(bits, s, before), c, cell);
  }

  /** A pair of fields set through the HAL is read back, cut down to the widths of its fields, after
      any calls that neither set this priority nor regroup. */
  lemma HalRoundTrip(bits: PrioBits, s: State, irq: int, preempt: nat, sub: nat, after: seq<Call>)
    requires Untouched(after, PriorityCell(irq)) && Untouched(after, GroupCell)
    ensures var s' := Run(bits, s, [HalSetPriority(irq, preempt, sub)] + after);
            && s'.group == s.group && irq in s'.priority
            && DecodedPreempt(bits, s'.priority[irq], s'.group) == PreemptField(bits, s.group, preempt)
            && DecodedSub(bits, s'.priority[irq], s'.group) == SubField(bits, s.group, sub)
  {
    var c := HalSetPriority(irq, preempt, sub);
    assert [] + [c] + after == [c] + after;
    LastWriteWins(bits, s, [], c, after, PriorityCell(irq));
    UntouchedReads(bits, s, [c] + after, GroupCell);
    DecodeEncode(bits, s.group, preempt, sub);
  }

  /** The byte the hardware compares. */
  function PriorityByte(bits: PrioBits, s: State, irq: int): Byte
    requires irq in s.priority
  {
    Stored(bits, s.priority[irq])
  }

  /** Two exceptions set through the HAL under one group, whatever else is called: one can preempt
      the other in hardware exactly when the preempt field asked for is lower. */
  lemma HalPreemption(bits: PrioBits, s: State, n: int, p: nat, ps: nat, between: seq<Call>, m: int, q: nat, qs: nat,
                      after: seq<Call>)
    requires n != m
    requires Untouched(between, PriorityCell(n)) && Untouched(between, GroupCell)
    requires Untouched(after, PriorityCell(n)) && Untouched(after, PriorityCell(m)) && Untouched(after, GroupCell)
    ensures var calls := [HalSetPriority(n, p, ps)] + between + [HalSetPriority(m, q, qs)] + after;
            var s' := Run(bits, s, calls);
            && n in s'.priority && m in s'.priority && s'.group == s.group
            && (Preempts(PriorityByte(bits, s', n), PriorityByte(bits, s', m), s'.group) <==>
                PreemptField(bits, s.group, p) < PreemptField(bits, s.group, q))
  {
    hide Encode, PreemptField, Stored, Preempts, Run;
    var c, d := HalSetPriority(n, p, ps), HalSetPriority(m, q, qs);
    var rest := between + [d] + after;
    assert [c] + between + [d] + after == [] + [c] + rest == ([c] + between) + [d] + after;
    LastWriteWins(bits, s, [], c, rest, PriorityCell(n));
    UntouchedReads(bits, s, [c] + between + [d] + after, GroupCell);
    UntouchedReads(bits, s, [c] + between, GroupCell);
    LastWriteWins(bits, s, [c] + between, d, after, PriorityCell(m));
    RunNothing(bits, s);
    HardwarePreempts(bits, s.group, p, ps, q, qs);
  }

  lemma RunNothing(bits: PrioBits, s: State)
    ensures Run(bits, s, []) == s
  {
  }

  // ---- Register banks --------------------------------------------------------------------

  function Bank(irq: nat): nat {
    Shr(irq, 5)
  }

  function Position(irq: nat): nat {
    And(irq, 0x1F)
  }

  lemma Location(irq: nat)
    ensures Bank(irq) == irq / 32 && Position(irq) == irq % 32
  {
    assert Pow2(5) == 32;
    Division(irq, 5);
    AndMask(irq, 5);
  }

  ghost predicate Has(bank: seq<Uint32>, n: int) {
    0 <= n < 256 && n / 32 < |bank| && Bit(bank[n / 32], n % 32)
  }

  ghost function Members(bank: seq<Uint32>): (s: set<int>)
    ensures forall n :: n in s <==> Has(bank, n)
  {
    set n | 0 <= n < 256 && Has(bank, n)
  }

  /** Interrupt n is bit n % 32 of register n / 32, and no other bit is touched. */
  lemma SetBits(bank: seq<Uint32>, irq: nat, w: Uint32)
    requires |bank| == 8 && irq < 256
    requires w == Or(bank[irq / 32], Shl(1, irq % 32))
    ensures var bank' := bank[irq / 32 := w];
            forall i, b | 0 <= i < 8 && 0 <= b < 32 :: Bit(bank'[i], b) == (Bit(bank[i], b) || 32 * i + b == irq)
  {
    hide Or, Shl, Bit;
    forall b: nat ensures Bit(w, b) == (Bit(bank[irq / 32], b) || b == irq % 32) {
      BitOr(bank[irq / 32], Shl(1, irq % 32), b);
      BitOne(irq % 32, b);
    }
  }

  lemma ClearBits(bank: seq<Uint32>, irq: nat, w: Uint32)
    requires |bank| == 8 && irq < 256
    requires w == Without(bank[irq / 32], Shl(1, irq % 32))
    ensures var bank' := bank[irq / 32 := w];
            forall i, b | 0 <= i < 8 && 0 <= b < 32 :: Bit(bank'[i], b) == (Bit(bank[i], b) && 32 * i + b != irq)
  {
    hide Without, Shl, Bit;
    forall b: nat ensures Bit(w, b) == (Bit(bank[irq / 32], b) && b != irq % 32) {
      BitWithout(bank[irq / 32], Shl(1, irq % 32), b);
      BitOne(irq % 32, b);
    }
  }

  /** Writing a single one bit to a set register adds one interrupt. */
  lemma SetMember(bank: seq<Uint32>, irq: nat, w: Uint32)
    requires |bank| == 8 && irq < 256
    requires w == Or(bank[irq / 32], Shl(1, irq % 32))
    ensures Members(bank[irq / 32 := w]) == Members(bank) + {irq}
  {
    var bank' := bank[irq / 32 := w];
    SetBits(bank, irq, w);
    forall n ensures Has(bank', n) == (Has(bank, n) || n == irq) {
    }
  }

  /** Writing a single one bit to a clear register removes one. */
  lemma ClearMember(bank: seq<Uint32>, irq: nat, w: Uint32)
    requires |bank| == 8 && irq < 256
    requires w == Without(bank[irq / 32], Shl(1, irq % 32))
    ensures Members(bank[irq / 32 := w]) == Members(bank) - {irq}
  {
    var bank' := bank[irq / 32 := w];
    ClearBits(bank, irq, w);
    forall n ensures Has(bank', n) == (Has(bank, n) && n != irq) {
    }
    var rest := Members(bank) - {irq};
    assert forall n :: n in rest <==> Has(bank, n) && n != irq;
  }

  lemma OneBit(k: nat)
    requires k < 32
    ensures Shl(1, k) < 0x1_0000_0000
  {
    Pow2Values();
    ShlTimes(1, k);
    assert Pow2(k) * 1 == Pow2(k);
    Pow2Monotone(k, 31);
  }

  // ---- Priority registers ----------------------------------------------------------------

  /** Where the priority of a system exception is kept. */
  function HandlerIndex(irq: int): (i: nat)
    requires -12 <= irq < 0
    ensures i == irq + 12
  {
    HandlerSlot(irq);
    And(Wrap(irq), 0xF) - 4
  }

  lemma WrapNegative(irq: int)
    requires -12 <= irq < 0
    ensures Wrap(irq) % 16 == irq + 16
  {
    assert Wrap(irq) == irq + 0x1_0000_0000;
  }

  lemma HandlerSlot(irq: int)
    requires -12 <= irq < 0
    ensures And(Wrap(irq), 0xF) == irq + 16
  {
    assert Pow2(4) == 16;
    AndMask(Wrap(irq), 4);
    Division(Wrap(irq), 4);
    WrapNegative(irq);
  }

  // ---- AIRCR -----------------------------------------------------------------------------

  const KEY := 0x5FA
  const KEY_READ_BACK := 0xFA05

  /** What the old value is masked with: neither the key half nor the group field is kept. */
  const KEEP := 0x0000_F8FF

  function GroupField(low: nat): (g: Uint32)
    ensures g < 8
  {
    assert Pow2(3) == 8;
    Parts(Shr(low, 8), 3);
    Low(Shr(low, 8), 3)
  }

  /** The word __NVIC_SetPriorityGrouping writes when AIRCR's low half is low. */
  function GroupingWord(low: nat, group: Uint32): nat {
    Or(Or(And(Shl(KEY_READ_BACK, 16) + low, KEEP), Shl(KEY, 16)), Shl(And(group, 7), 8))
  }

  lemma KeepLow(high: nat, low: nat)
    requires low < 0x1_0000
    ensures And(Shl(high, 16) + low, KEEP) == And(low, KEEP) < 0x1_0000
  {
    Pow2Values();
    ShlZero(16);
    AndParts(high, low, 0, KEEP, 16);
    AndParts(0, low, 0, KEEP, 16);
    AndBound(low, KEEP);
    assert And(high, 0) == 0;
  }

  lemma KeepMask()
    ensures KEEP == Shl(0xF8, 8) + 0xFF && 0xF8 == Shl(0x1F, 3) + 0
  {
    Scale(0xF8);
    Scale(0x1F);
  }

  lemma KeepHigh(h: nat, g: nat)
    requires h < 32 && g < 8
    ensures And(Shl(h, 3) + g, 0xF8) == Shl(h, 3)
  {
    hide Shl, And;
    assert Pow2(3) == 8 && Pow2(5) == 32;
    KeepMask();
    AndParts(h, g, 0x1F, 0, 3);
    AndMask(h, 5);
    LowSmall(h, 5);
    AndZero(g);
  }

  /** Masking with KEEP clears just the group field. */
  lemma KeepFields(h: nat, g: nat, l: nat)
    requires h < 32 && g < 8 && l < 0x100
    ensures And(Shl(Shl(h, 3) + g, 8) + l, KEEP) == Shl(Shl(h, 3), 8) + l
  {
    hide Shl, And, Low;
    Pow2Values();
    KeepMask();
    KeepHigh(h, g);
    AndParts(Shl(h, 3) + g, l, 0xF8, 0xFF, 8);
    AndMask(l, 8);
    LowSmall(l, 8);
  }

  lemma LowHalf(low: nat) returns (h: nat, g: nat, l: nat)
    requires low < 0x1_0000
    ensures low == Shl(Shl(h, 3) + g, 8) + l && h < 32 && g < 8 && l < 0x100
    ensures GroupField(low) == g
  {
    assert Pow2(3) == 8 && Pow2(5) == 32;
    Pow2Values();
    Parts(low, 8);
    Parts(Shr(low, 8), 3);
    HighBound(low, 8, 8);
    HighBound(Shr(low, 8), 3, 5);
    h, g, l := Shr(Shr(low, 8), 3), GroupField(low), Low(low, 8);
  }

  lemma GroupFieldIs(h: nat, g: nat, l: nat)
    requires g < 8 && l < 0x100
    ensures GroupField(Shl(Shl(h, 3) + g, 8) + l) == g
  {
    assert Pow2(3) == 8;
    Pow2Values();
    PartsUnique(Shl(h, 3) + g, l, 8);
    PartsUnique(h, g, 3);
  }

  lemma Scale(x: nat)
    ensures Shl(x, 3) == 8 * x && Shl(x, 8) == 0x100 * x && Shl(x, 16) == 0x1_0000 * x
  {
    assert Pow2(3) == 8;
    Pow2Values();
    ShlTimes(x, 3);
    ShlTimes(x, 8);
    ShlTimes(x, 16);
  }

  /** The key goes above the kept half. */
  lemma AddKey(key: nat, h: nat, l: nat)
    requires h < 32 && l < 0x100
    ensures Or(Shl(Shl(h, 3), 8) + l, Shl(key, 16)) == Shl(Shl(32 * key + h, 3), 8) + l
  {
    var kept := Shl(Shl(h, 3), 8) + l;
    Scale(h);
    Scale(Shl(h, 3));
    Pow2Values();
    OrCommutes(kept, Shl(key, 16));
    OrJoin(key, kept, 16);
    Scale(key);
    Scale(32 * key + h);
    Scale(Shl(32 * key + h, 3));
  }

  /** The group goes into the cleared field. */
  lemma AddGroup(m: nat, g: nat, l: nat)
    requires g < 8 && l < 0x100
    ensures Or(Shl(Shl(m, 3), 8) + l, Shl(g, 8)) == Shl(Shl(m, 3) + g, 8) + l
  {
    hide Shl, Or;
    assert Pow2(3) == 8;
    Pow2Values();
    OrParts(Shl(m, 3), l, g, 0, 8);
    OrJoin(m, g, 3);
    OrZero(l);
  }

  lemma SplitKey(key: nat, h: nat, g: nat, l: nat)
    requires h < 32 && g < 8 && l < 0x100
    ensures Shl(Shl(32 * key + h, 3) + g, 8) + l == Shl(key, 16) + (Shl(Shl(h, 3) + g, 8) + l)
    ensures Shl(Shl(h, 3) + g, 8) + l < 0x1_0000
  {
    Scale(32 * key + h);
    Scale(Shl(32 * key + h, 3) + g);
    Scale(h);
    Scale(Shl(h, 3) + g);
    Scale(key);
  }

  /** The written word carries the key, not what the key half reads as; its group field is the
      argument's low three bits, and its other low bits are as they were read. */
  lemma GroupingWrite(low: nat, group: Uint32) returns (low': nat)
    requires low < 0x1_0000
    ensures GroupingWord(low, group) == Shl(KEY, 16) + low' && low' < 0x1_0000
    ensures GroupField(low') == group % 8
    ensures And(low', KEEP) == And(low, KEEP)
    ensures low' == low / 0x800 * 0x800 + group % 8 * 0x100 + low % 0x100
  {
    hide Shl, And, Or, GroupField, Low, Shr;
    var h, g, l := LowHalf(low);
    KeepLow(KEY_READ_BACK, low);
    KeepFields(h, g, l);
    GroupValue(group);
    var g' := group % 8;
    AddKey(KEY, h, l);
    AddGroup(32 * KEY + h, g', l);
    SplitKey(KEY, h, g', l);
    low' := Shl(Shl(h, 3) + g', 8) + l;
    KeepFields(h, g', l);
    GroupFieldIs(h, g', l);
    LowHalfValue(h, g, l);
    LowHalfValue(h, g', l);
  }

  /** The fields as numbers. */
  lemma LowHalfValue(h: nat, g: nat, l: nat)
    requires g < 8 && l < 0x100
    ensures var low := Shl(Shl(h, 3) + g, 8) + l;
            low == 0x800 * h + 0x100 * g + l && low / 0x800 == h && low % 0x100 == l && low / 0x100 % 8 == g
  {
    Scale(h);
    Scale(Shl(h, 3) + g);
    DivMod(0x800 * h + 0x100 * g + l, 0x800, h, 0x100 * g + l);
    DivMod(0x800 * h + 0x100 * g + l, 0x100, 8 * h + g, l);
    DivMod(8 * h + g, 8, h, g);
  }

  lemma GroupBits(low: nat)
    requires low < 0x1_0000
    ensures GroupField(low) == low / 0x100 % 8
  {
    hide Shl, GroupField;
    var h, g, l := LowHalf(low);
    LowHalfValue(h, g, l);
  }

  lemma KeyedParts(low: nat)
    requires low < 0x1_0000
    ensures Shr(Shl(KEY, 16) + low, 16) == KEY && Low(Shl(KEY, 16) + low, 16) == low
    ensures Shl(KEY, 16) == 0x5FA_0000
  {
    Scale(KEY);
    Pow2Values();
    PartsUnique(KEY, low, 16);
  }

  const GROUP_MASK := 0x0000_0700

  lemma MaskGroup(x: nat)
    ensures Shr(And(x, GROUP_MASK), 8) == GroupField(x)
  {
    hide Shl, And, Shr, Low;
    assert Pow2(3) == 8;
    Pow2Values();
    Parts(x, 8);
    Scale(7);
    AndParts(Shr(x, 8), Low(x, 8), 7, 0, 8);
    AndZero(Low(x, 8));
    AndMask(Shr(x, 8), 3);
    PartsUnique(And(Shr(x, 8), 7), 0, 8);
  }

  /** The key half does not disturb what is read from the group field. */
  lemma GroupingRead(high: nat, low: nat)
    requires low < 0x1_0000
    ensures Shr(And(Shl(high, 16) + low, GROUP_MASK), 8) == GroupField(low) < 8
  {
    hide Shl, And, Shr, GroupField;
    var h, g, l := LowHalf(low);
    MaskGroup(Shl(high, 16) + low);
    SplitKey(high, h, g, l);
    GroupFieldIs(32 * high + h, g, l);
  }

  // ---- The registers ---------------------------------------------------------------------

  /** The unimplemented bits at the bottom of a priority byte read as zero. */
  ghost predicate Aligned(bits: PrioBits, b: Byte) {
    b == Shl(Loaded(bits, b), 8 - bits) && Low(Loaded(bits, b), bits) == Loaded(bits, b)
  }

  lemma StoredAligned(bits: PrioBits, priority: nat)
    ensures Aligned(bits, Stored(bits, priority))
  {
    LoadedStored(bits, priority);
    LowTwice(priority, bits, bits);
  }

  lemma ZeroAligned(bits: PrioBits)
    ensures Aligned(bits, 0)
  {
    ShrZero(8 - bits);
    ShlZero(8 - bits);
    LowSmall(0, bits);
  }

  lemma ZeroLoaded(bits: PrioBits)
    ensures Loaded(bits, 0) == 0
  {
    ShrZero(8 - bits);
  }

  lemma ZeroGroup()
    ensures GroupField(0) == 0
  {
    ShrZero(8);
    LowSmall(0, 3);
  }

  lemma NoMembers(bank: seq<Uint32>)
    requires forall i | 0 <= i < |bank| :: bank[i] == 0
    ensures Members(bank) == {}
  {
    forall n ensures !Has(bank, n) {
      if 0 <= n < 256 {
        ShrZero(n % 32);
      }
    }
  }

  class Controller {
    const prioBits: PrioBits
    const enabledBank: array<Uint32>
    const pendingBank: array<Uint32>
    const ip: array<Byte>
    const shp: array<Byte>
    var aircr: nat
    ghost var aircrWrites: seq<nat>

    ghost predicate Valid()
      reads this, ip, shp
    {
      && enabledBank.Length == 8 && pendingBank.Length == 8 && enabledBank != pendingBank
      && ip.Length == 240 && shp.Length == 12 && ip != shp
      && (forall i | 0 <= i < 240 :: Aligned(prioBits, ip[i]))
      && (forall i | 0 <= i < 12 :: Aligned(prioBits, shp[i]))
      && aircr < 0x1_0000
      && (forall i | 0 <= i < |aircrWrites| :: Shr(aircrWrites[i], 16) == KEY)
    }

    /** The byte that holds an exception's priority. */
    function RawPriority(irq: int): Byte
      requires ip.Length == 240 && shp.Length == 12 && -12 <= irq < 240
      reads ip, shp
    {
      if irq >= 0 then ip[irq] else shp[HandlerIndex(irq)]
    }

    ghost function Abs(): State
      requires Valid()
      reads this, enabledBank, pendingBank, ip, shp
    {
      State(Members(enabledBank[..]), Members(pendingBank[..]),
            map n | -12 <= n < 240 :: Loaded(prioBits, RawPriority(n)),
            GroupField(aircr), And(aircr, KEEP))
    }

    constructor (bits: PrioBits)
      ensures Valid() && prioBits == bits
      ensures fresh(enabledBank) && fresh(pendingBank) && fresh(ip) && fresh(shp)
      ensures Abs().enabled == Abs().pending == {} && Abs().group == 0 && aircrWrites == []
      ensures forall n | -12 <= n < 240 :: Abs().priority[n] == 0
    {
      hide Shl, Shr, Low, And, Aligned, Loaded, GroupField, Members, HandlerIndex;
      prioBits := bits;
      enabledBank, pendingBank := new Uint32[8](_ => 0), new Uint32[8](_ => 0);
      ip, shp := new Byte[240](_ => 0), new Byte[12](_ => 0);
      aircr, aircrWrites := 0, [];
      new;
      ZeroAligned(bits);
      NoMembers(enabledBank[..]);
      NoMembers(pendingBank[..]);
      ZeroLoaded(bits);
      ZeroGroup();
    }

    // What the hardware does with a write to a set register, a clear register and AIRCR.

    method WriteSet(bank: array<Uint32>, i: nat, w: Uint32)
      requires i < bank.Length
      modifies bank
      ensures bank[..] == old(bank[..])[i := bank[i]] && bank[i] == Or(old(bank[i]), w)
    {
      Pow2Values();
      OrBound(bank[i], w, 32);
      bank[i] := Or(bank[i], w);
    }

    method WriteClear(bank: array<Uint32>, i: nat, w: Uint32)
      requires i < bank.Length
      modifies bank
      ensures bank[..] == old(bank[..])[i := bank[i]] && bank[i] == Without(old(bank[i]), w)
    {
      WithoutBound(bank[i], w);
      bank[i] := Without(bank[i], w);
    }

    /** A write without the key is ignored. */
    method WriteAircr(w: nat)
      requires Valid()
      modifies this
      ensures Shr(w, 16) == KEY ==> Valid()
      ensures aircr == if Shr(w, 16) == KEY then Low(w, 16) else old(aircr)
      ensures aircrWrites == old(aircrWrites) + [w]
    {
      Pow2Values();
      Parts(w, 16);
      if Shr(w, 16) == KEY {
        aircr := Low(w, 16);
      }
      aircrWrites := aircrWrites + [w];
    }

    // The functions of the header.

    method EnableIRQ(irq: int)
      requires Valid() && irq < 256
      modifies enabledBank
      ensures Valid() && Abs() == Apply(prioBits, old(Abs()), Call.EnableIRQ(irq))
      ensures forall i, b | 0 <= i < 8 && 0 <= b < 32 :: Bit(enabledBank[i], b) == (old(Bit(enabledBank[i], b)) || 32 * i + b == irq)
    {
      if irq >= 0 {
        Location(irq);
        OneBit(Position(irq));
        ghost var before := enabledBank[..];
        WriteSet(enabledBank, Bank(irq), Shl(1, Position(irq)));
        SetMember(before, irq, enabledBank[Bank(irq)]);
        SetBits(before, irq, enabledBank[Bank(irq)]);
      }
    }

    method DisableIRQ(irq: int)
      requires Valid() && irq < 256
      modifies enabledBank
      ensures Valid() && Abs() == Apply(prioBits, old(Abs()), Call.DisableIRQ(irq))
      ensures forall i, b | 0 <= i < 8 && 0 <= b < 32 :: Bit(enabledBank[i], b) == (old(Bit(enabledBank[i], b)) && 32 * i + b != irq)
    {
      if irq >= 0 {
        Location(irq);
        OneBit(Position(irq));
        ghost var before := enabledBank[..];
        WriteClear(enabledBank, Bank(irq), Shl(1, Position(irq)));
        ClearMember(before, irq, enabledBank[Bank(irq)]);
        ClearBits(before, irq, enabledBank[Bank(irq)]);
      }
    }

    method GetEnableIRQ(irq: int) returns (r: Uint32)
      requires Valid() && irq < 256
      ensures r == if irq in Abs().enabled then 1 else 0
      ensures r == if irq >= 0 && Bit(enabledBank[irq / 32], irq % 32) then 1 else 0
    {
      if irq >= 0 {
        Location(irq);
        BitTest(enabledBank[Bank(irq)], Position(irq));
        r := if And(enabledBank[Bank(irq)], Shl(1, Position(irq))) != 0 then 1 else 0;
      } else {
        r := 0;
      }
    }

    method SetPendingIRQ(irq: int)
      requires Valid() && irq < 256
      modifies pendingBank
      ensures Valid() && Abs() == Apply(prioBits, old(Abs()), Call.SetPendingIRQ(irq))
      ensures forall i, b | 0 <= i < 8 && 0 <= b < 32 :: Bit(pendingBank[i], b) == (old(Bit(pendingBank[i], b)) || 32 * i + b == irq)
    {
      if irq >= 0 {
        Location(irq);
        OneBit(Position(irq));
        ghost var before := pendingBank[..];
        WriteSet(pendingBank, Bank(irq), Shl(1, Position(irq)));
        SetMember(before, irq, pendingBank[Bank(irq)]);
        SetBits(before, irq, pendingBank[Bank(irq)]);
      }
    }

    method ClearPendingIRQ(irq: int)
      requires Valid() && irq < 256
      modifies pendingBank
      ensures Valid() && Abs() == Apply(prioBits, old(Abs()), Call.ClearPendingIRQ(irq))
      ensures forall i, b | 0 <= i < 8 && 0 <= b < 32 :: Bit(pendingBank[i], b) == (old(Bit(pendingBank[i], b)) && 32 * i + b != irq)
    {
      if irq >= 0 {
        Location(irq);
        OneBit(Position(irq));
        ghost var before := pendingBank[..];
        WriteClear(pendingBank, Bank(irq), Shl(1, Position(irq)));
        ClearMember(before, irq, pendingBank[Bank(irq)]);
        ClearBits(before, irq, pendingBank[Bank(irq)]);
      }
    }

    method GetPendingIRQ(irq: int) returns (r: Uint32)
      requires Valid() && irq < 256
      ensures r == if irq in Abs().pending then 1 else 0
      ensures r == if irq >= 0 && Bit(pendingBank[irq / 32], irq % 32) then 1 else 0
    {
      if irq >= 0 {
        Location(irq);
        BitTest(pendingBank[Bank(irq)], Position(irq));
        r := if And(pendingBank[Bank(irq)], Shl(1, Position(irq))) != 0 then 1 else 0;
      } else {
        r := 0;
      }
    }

    method SetPriority(irq: int, priority: nat)
      requires Valid() && -12 <= irq < 240
      modifies ip, shp
      ensures Valid() && Abs() == Apply(prioBits, old(Abs()), Call.SetPriority(irq, priority))
      ensures irq >= 0 ==> ip[..] == old(ip[..])[irq := Stored(prioBits, priority)] && shp[..] == old(shp[..])
      ensures irq < 0 ==> shp[..] == old(shp[..])[irq + 12 := Stored(prioBits, priority)] && ip[..] == old(ip[..])
    {
      hide Stored, Loaded, Low, Shl, Shr, And, Aligned, GroupField;
      LoadedStored(prioBits, priority);
      StoredAligned(prioBits, priority);
      if irq >= 0 {
        ip[irq] := Stored(prioBits, priority);
      } else {
        shp[HandlerIndex(irq)] := Stored(prioBits, priority);
      }
    }

    method GetPriority(irq: int) returns (r: nat)
      requires Valid() && -12 <= irq < 240
      ensures r == Abs().priority[irq]
      ensures r == Loaded(prioBits, if irq >= 0 then ip[irq] else shp[irq + 12])
    {
      r := Loaded(prioBits, RawPriority(irq));
    }

    method SetPriorityGrouping(group: Uint32)
      requires Valid()
      modifies this
      ensures Valid() && Abs() == Apply(prioBits, old(Abs()), Call.SetPriorityGrouping(group))
      ensures aircr == old(aircr) / 0x800 * 0x800 + group % 8 * 0x100 + old(aircr) % 0x100
      ensures aircrWrites == old(aircrWrites) + [0x5FA_0000 + aircr]
    {
      hide Shl, And, Or, Shr, Low, GroupField, Aligned, Members, Loaded, HandlerIndex;
      var regValue := Shl(KEY_READ_BACK, 16) + aircr;
      regValue := And(regValue, KEEP);
      regValue := Or(Or(regValue, Shl(KEY, 16)), Shl(And(group, 7), 8));
      ghost var low := GroupingWrite(aircr, group);
      KeyedParts(low);
      WriteAircr(regValue);
    }

    method GetPriorityGrouping() returns (r: nat)
      requires Valid()
      ensures r == Abs().group == aircr / 0x100 % 8
    {
      GroupBits(aircr);
      GroupingRead(KEY_READ_BACK, aircr);
      r := Shr(And(Shl(KEY_READ_BACK, 16) + aircr, GROUP_MASK), 8);
    }

    method HalSetPriority(irq: int, preempt: nat, sub: nat)
      requires Valid() && -12 <= irq < 240
      modifies ip, shp
      ensures Valid() && Abs() == Apply(prioBits, old(Abs()), Call.HalSetPriority(irq, preempt, sub))
      ensures var b := Stored(prioBits, Encode(prioBits, aircr / 0x100 % 8, preempt, sub));
              if irq >= 0 then ip[..] == old(ip[..])[irq := b] && shp[..] == old(shp[..])
              else shp[..] == old(shp[..])[irq + 12 := b] && ip[..] == old(ip[..])
    {
      hide Encode, Low, GroupField;
      var group := GetPriorityGrouping();
      SetPriority(irq, Encode(prioBits, group, preempt, sub));
    }

    method HalGetPriority(irq: int, group: Uint32) returns (preempt: nat, sub: nat)
      requires Valid() && -12 <= irq < 240
      ensures preempt == DecodedPreempt(prioBits, Abs().priority[irq], group)
      ensures sub == DecodedSub(prioBits, Abs().priority[irq], group)
    {
      var priority := GetPriority(irq);
      Parts(RawPriority(irq), 8 - prioBits);
      ShrBound(RawPriority(irq), 8 - prioBits);
      preempt, sub := Decode(prioBits, priority, group);
    }

    /** The bytes and the group that the hardware compares are those in the registers. */
    lemma RegistersHold(n: int)
      requires Valid() && -12 <= n < 240
      ensures Abs().group == aircr / 0x100 % 8
      ensures n in Abs().priority && PriorityByte(prioBits, Abs(), n) == if n >= 0 then ip[n] else shp[n + 12]
    {
      hide Shl, Shr, Low, GroupField;
      GroupBits(aircr);
      assert Aligned(prioBits, RawPriority(n));
    }

    /** HalPreemption on the registers: two exceptions set through the HAL among any other calls. */
    method PerformPair(n: int, p: nat, ps: nat, between: seq<Call>, m: int, q: nat, qs: nat, after: seq<Call>)
      requires Valid() && -12 <= n < 240 && -12 <= m < 240 && n != m
      requires forall i | 0 <= i < |between| :: Reachable(between[i])
      requires forall i | 0 <= i < |after| :: Reachable(after[i])
      requires Untouched(between, PriorityCell(n)) && Untouched(between, GroupCell)
      requires Untouched(after, PriorityCell(n)) && Untouched(after, PriorityCell(m)) && Untouched(after, GroupCell)
      modifies this, enabledBank, pendingBank, ip, shp
      ensures Valid() && aircr / 0x100 % 8 == old(aircr) / 0x100 % 8
      ensures var g := aircr / 0x100 % 8;
              Preempts(if n >= 0 then ip[n] else shp[n + 12], if m >= 0 then ip[m] else shp[m + 12], g) <==>
              PreemptField(prioBits, g, p) < PreemptField(prioBits, g, q)
    {
      hide Run, Preempts, PreemptField, Members, GroupField, Stored, Aligned, Loaded;
      ghost var s := Abs();
      RegistersHold(n);
      HalPreemption(prioBits, s, n, p, ps, between, m, q, qs, after);
      Perform([Call.HalSetPriority(n, p, ps)] + between + [Call.HalSetPriority(m, q, qs)] + after);
      RegistersHold(n);
      RegistersHold(m);
    }

    /** A whole run of calls on the registers. */
    method Perform(calls: seq<Call>)
      requires Valid() && forall i | 0 <= i < |calls| :: Reachable(calls[i])
      modifies this, enabledBank, pendingBank, ip, shp
      ensures Valid() && Abs() == Run(prioBits, old(Abs()), calls)
      ensures old(aircrWrites) <= aircrWrites
    {
      hide Apply, Members, GroupField;
      var i := 0;
      RunNothing(prioBits, Abs());
      while i < |calls|
        invariant i <= |calls| && Valid() && old(aircrWrites) <= aircrWrites
        invariant Abs() == Run(prioBits, old(Abs()), calls[..i])
      {
        PerformOne(calls[i]);
        assert calls[..i + 1][..i] == calls[..i];
        i := i + 1;
      }
      assert calls[..i] == calls;
    }

    method PerformOne(c: Call)
      requires Valid() && Reachable(c)
      modifies this, enabledBank, pendingBank, ip, shp
      ensures Valid() && Abs() == Apply(prioBits, old(Abs()), c)
      ensures old(aircrWrites) <= aircrWrites
    {
      hide Apply, Members, GroupField;
      match c
      case EnableIRQ(n) => EnableIRQ(n);
      case DisableIRQ(n) => DisableIRQ(n);
      case SetPendingIRQ(n) => SetPendingIRQ(n);
      case ClearPendingIRQ(n) => ClearPendingIRQ(n);
      case SetPriority(n, p) => SetPriority(n, p);
      case SetPriorityGrouping(g) => SetPriorityGrouping(g);
      case HalSetPriority(n, p, sub) => HalSetPriority(n, p, sub);
    }
  }
}
