/** The region registers of the memory protection unit, and the functions that program them. */
module Mpu {
  import opened Words

  // ---- What the hardware does with a write -----------------------------------------------

  datatype Effect = SetBase(region: nat, address: Uint32) | SetAttributes(region: nat, rasr: Uint32)

  /** The selected region, the base and attributes each region was last given, and every change to
      them in order. */
  datatype Regions = Regions(rnr: nat, base: map<nat, Uint32>, attr: map<nat, Uint32>, log: seq<Effect>)

  const ADDR_MASK := 0xFFFF_FFE0
  const VALID_MASK := 0x10
  const REGION_MASK := 0xF

  function Address(rbar: Uint32): Uint32 {
    AndBound(rbar, ADDR_MASK);
    And(rbar, ADDR_MASK)
  }

  predicate NamesRegion(rbar: Uint32) {
    And(rbar, VALID_MASK) != 0
  }

  function RegionField(rbar: Uint32): nat {
    And(rbar, REGION_MASK)
  }

  /** The region a write to RBAR is for: the one it names, or else the one selected before. */
  function Selected(rnr: nat, rbar: Uint32): nat {
    if NamesRegion(rbar) then RegionField(rbar) else rnr
  }

  function WriteRbar(s: Regions, w: Uint32): Regions {
    var r := Selected(s.rnr, w);
    s.(rnr := r, base := s.base[r := Address(w)], log := s.log + [SetBase(r, Address(w))])
  }

  function WriteRasr(s: Regions, w: Uint32): Regions {
    s.(attr := s.attr[s.rnr := w], log := s.log + [SetAttributes(s.rnr, w)])
  }

  // The registers by their word offsets. RBAR_A1 to RBAR_A3 are RBAR again and RASR_A1 to RASR_A3
  // are RASR again, in turns.
  const RNR := 2
  const RBAR := 3
  const RASR := 4
  const WINDOW_END := 11

  function WriteRegister(s: Regions, offset: nat, w: Uint32): Regions
    requires RNR <= offset < WINDOW_END
  {
    if offset == RNR then s.(rnr := w % 0x100)
    else if (offset - RBAR) % 2 == 0 then WriteRbar(s, w)
    else WriteRasr(s, w)
  }

  // ---- One region at a time --------------------------------------------------------------

  datatype Row = Row(rbar: Uint32, rasr: Uint32)

  function SetRow(s: Regions, row: Row): Regions {
    WriteRasr(WriteRbar(s, row.rbar), row.rasr)
  }

  /** ARM_MPU_SetRegion once for each row. */
  function SetRows(s: Regions, rows: seq<Row>): Regions {
    if rows == [] then s else SetRow(SetRows(s, rows[..|rows| - 1]), rows[|rows| - 1])
  }

  lemma {:induction false} SetRowsAppend(s: Regions, first: seq<Row>, second: seq<Row>)
    ensures SetRows(s, first + second) == SetRows(SetRows(s, first), second)
  {
    if second == [] {
      assert first + second == first;
    } else {
      var before := second[..|second| - 1];
      SetRowsAppend(s, first, before);
      assert (first + second)[..|first + second| - 1] == first + before;
    }
  }

  lemma RowHistory(s: Regions, row: Row)
    ensures var r := Selected(s.rnr, row.rbar);
            SetRow(s, row).log == s.log + [SetBase(r, Address(row.rbar)), SetAttributes(r, row.rasr)]
  {
  }

  /** The rows a stretch of table words holds. */
  function Rows(words: seq<Uint32>): seq<Row>
    requires |words| % 2 == 0
  {
    seq(|words| / 2, i requires 0 <= i < |words| / 2 => Row(words[2 * i], words[2 * i + 1]))
  }

  // ---- What a table configures -----------------------------------------------------------

  /** The region row i configures when rnr is selected at the start: the one it names, or else the
      one the row before it configured. */
  function Target(rnr: nat, rows: seq<Row>, i: nat): nat
    requires i < |rows|
  {
    if NamesRegion(rows[i].rbar) then RegionField(rows[i].rbar)
    else if i == 0 then rnr
    else Target(rnr, rows, i - 1)
  }

  lemma {:induction false} TargetPrefix(rnr: nat, rows: seq<Row>, n: nat, i: nat)
    requires i < n <= |rows|
    ensures Target(rnr, rows[..n], i) == Target(rnr, rows, i)
  {
    if i > 0 {
      TargetPrefix(rnr, rows, n, i - 1);
    }
  }

  /** The region selected after the rows. */
  function LastTarget(rnr: nat, rows: seq<Row>): nat {
    if rows == [] then rnr else Target(rnr, rows, |rows| - 1)
  }

  lemma NextTarget(rnr: nat, rows: seq<Row>)
    requires rows != []
    ensures var n := |rows| - 1; Selected(LastTarget(rnr, rows[..n]), rows[n].rbar) == Target(rnr, rows, n)
  {
    if |rows| > 1 {
      TargetPrefix(rnr, rows, |rows| - 1, |rows| - 2);
    }
  }

  lemma {:induction false} SetRowsSelects(s: Regions, rows: seq<Row>)
    ensures SetRows(s, rows).rnr == LastTarget(s.rnr, rows)
  {
    hide Selected;
    if rows != [] {
      SetRowsSelects(s, rows[..|rows| - 1]);
      NextTarget(s.rnr, rows);
    }
  }

  /** The last row writes its target and nothing else. */
  lemma {:induction false} LastRow(s: Regions, rows: seq<Row>)
    requires rows != []
    ensures var n := |rows| - 1;
            var t, before := Target(s.rnr, rows, n), SetRows(s, rows[..n]);
            && SetRows(s, rows).base == before.base[t := Address(rows[n].rbar)]
            && SetRows(s, rows).attr == before.attr[t := rows[n].rasr]
  {
    hide Address, Selected, Target, LastTarget;
    SetRowsSelects(s, rows[..|rows| - 1]);
    NextTarget(s.rnr, rows);
  }

  /** Nothing is taken out of the history, and each row in turn adds two writes to it: the base of its
      region and then the attributes of the same region. */
  ghost predicate WritesRows(before: seq<Effect>, rnr: nat, rows: seq<Row>, log: seq<Effect>) {
    && before <= log && |log| == |before| + 2 * |rows|
    && forall i | 0 <= i < |rows| ::
         && log[|before| + 2 * i] == SetBase(Target(rnr, rows, i), Address(rows[i].rbar))
         && log[|before| + 2 * i + 1] == SetAttributes(Target(rnr, rows, i), rows[i].rasr)
  }

  lemma {:induction false} HistoryOfRows(s: Regions, rows: seq<Row>)
    ensures WritesRows(s.log, s.rnr, rows, SetRows(s, rows).log)
  {
    hide Address, Selected, Target, LastTarget, SetRow;
    if rows != [] {
      var n := |rows| - 1;
      var before := rows[..n];
      HistoryOfRows(s, before);
      SetRowsSelects(s, before);
      NextTarget(s.rnr, rows);
      RowHistory(SetRows(s, before), rows[n]);
      forall i | 0 <= i < n ensures Target(s.rnr, before, i) == Target(s.rnr, rows, i) {
        TargetPrefix(s.rnr, rows, n, i);
      }
    }
  }

  ghost predicate TargetedFrom(rnr: nat, rows: seq<Row>, from: nat, r: nat) {
    exists j :: from <= j < |rows| && Target(rnr, rows, j) == r
  }

  lemma TargetedPrefix(rnr: nat, rows: seq<Row>, from: nat, r: nat)
    requires rows != [] && !TargetedFrom(rnr, rows, from, r)
    ensures !TargetedFrom(rnr, rows[..|rows| - 1], from, r)
  {
    var before := rows[..|rows| - 1];
    forall j | from <= j < |before| ensures Target(rnr, before, j) != r {
      TargetPrefix(rnr, rows, |rows| - 1, j);
    }
  }

  /** Each region a table reaches holds what the last row for it says. */
  lemma {:induction false} LastRowWins(s: Regions, rows: seq<Row>, i: nat)
    requires i < |rows| && !TargetedFrom(s.rnr, rows, i + 1, Target(s.rnr, rows, i))
    ensures var r, s' := Target(s.rnr, rows, i), SetRows(s, rows);
            && r in s'.base && s'.base[r] == Address(rows[i].rbar)
            && r in s'.attr && s'.attr[r] == rows[i].rasr
    decreases |rows|
  {
    LastRow(s, rows);
    if i < |rows| - 1 {
      TargetPrefix(s.rnr, rows, |rows| - 1, i);
      TargetedPrefix(s.rnr, rows, i + 1, Target(s.rnr, rows, i));
      LastRowWins(s, rows[..|rows| - 1], i);
      assert Target(s.rnr, rows, |rows| - 1) != Target(s.rnr, rows, i);
    }
  }

  ghost predicate SameRegion(s: Regions, s': Regions, r: nat) {
    && (r in s.base <==> r in s'.base) && (r in s.base ==> s.base[r] == s'.base[r])
    && (r in s.attr <==> r in s'.attr) && (r in s.attr ==> s.attr[r] == s'.attr[r])
  }

  /** And every other region keeps what it held. */
  lemma {:induction false} OthersKept(s: Regions, rows: seq<Row>, r: nat)
    requires !TargetedFrom(s.rnr, rows, 0, r)
    ensures SameRegion(s, SetRows(s, rows), r)
  {
    if rows != [] {
      LastRow(s, rows);
      TargetedPrefix(s.rnr, rows, 0, r);
      OthersKept(s, rows[..|rows| - 1], r);
      assert Target(s.rnr, rows, |rows| - 1) != r;
    }
  }

  // ---- When the old region number does not matter ----------------------------------------

  /** The number of rows at the front that name no region. */
  function Unnamed(rows: seq<Row>): nat {
    if rows == [] || NamesRegion(rows[0].rbar) then 0 else 1 + Unnamed(rows[1..])
  }

  lemma {:induction false} UnnamedTargets(rnr: nat, rows: seq<Row>, i: nat)
    requires i < |rows|
    ensures Unnamed(rows) <= |rows|
    ensures i < Unnamed(rows) ==> !NamesRegion(rows[i].rbar)
    ensures i == Unnamed(rows) ==> NamesRegion(rows[i].rbar)
  {
    if rows != [] && !NamesRegion(rows[0].rbar) && |rows| > 1 {
      UnnamedTargets(rnr, rows[1..], if i > 0 then i - 1 else 0);
    }
  }

  /** Rows before the first that names a region are for the old region number; from that row on it
      plays no part. */
  lemma {:induction false} TargetDepends(rnr: nat, rnr': nat, rows: seq<Row>, i: nat)
    requires i < |rows|
    ensures i < Unnamed(rows) ==> Target(rnr, rows, i) == rnr
    ensures i >= Unnamed(rows) ==> Target(rnr, rows, i) == Target(rnr', rows, i)
  {
    UnnamedTargets(rnr, rows, i);
    if i > 0 && !NamesRegion(rows[i].rbar) {
      TargetDepends(rnr, rnr', rows, i - 1);
    }
  }

  /** Every region of the device is reached by a row that does not depend on the old number. */
  ghost predicate Covered(rows: seq<Row>, device: set<nat>) {
    forall r | r in device :: TargetedFrom(0, rows, Unnamed(rows), r)
  }

  /** The regions end up the same from either region number. */
  ghost predicate SameTables(s: Regions, rows: seq<Row>, a: nat, b: nat) {
    && SetRows(s.(rnr := a), rows).base == SetRows(s.(rnr := b), rows).base
    && SetRows(s.(rnr := a), rows).attr == SetRows(s.(rnr := b), rows).attr
  }

  lemma LastTargeting(rnr: nat, rows: seq<Row>, from: nat, r: nat) returns (i: nat)
    requires TargetedFrom(rnr, rows, from, r)
    ensures from <= i < |rows| && Target(rnr, rows, i) == r && !TargetedFrom(rnr, rows, i + 1, r)
  {
    i := |rows| - 1;
    while Target(rnr, rows, i) != r
      invariant from <= i < |rows|
      invariant !TargetedFrom(rnr, rows, i + 1, r)
      decreases i
    {
      var j :| from <= j < |rows| && Target(rnr, rows, j) == r;
      assert j <= i;
      i := i - 1;
    }
  }

  /** Where no region depends on the old number, none differs. */
  lemma SameRegions(s: Regions, rows: seq<Row>, a: nat, b: nat, r: nat)
    requires TargetedFrom(a, rows, Unnamed(rows), r)
          || (!TargetedFrom(a, rows, 0, r) && !TargetedFrom(b, rows, 0, r))
    ensures SameRegion(SetRows(s.(rnr := a), rows), SetRows(s.(rnr := b), rows), r)
  {
    hide Address, NamesRegion, RegionField;
    if TargetedFrom(a, rows, Unnamed(rows), r) {
      var i := LastTargeting(a, rows, Unnamed(rows), r);
      TargetDepends(a, b, rows, i);
      forall j | i + 1 <= j < |rows| ensures Target(b, rows, j) != r {
        TargetDepends(a, b, rows, j);
      }
      LastRowWins(s.(rnr := a), rows, i);
      LastRowWins(s.(rnr := b), rows, i);
    } else {
      OthersKept(s.(rnr := a), rows, r);
      OthersKept(s.(rnr := b), rows, r);
    }
  }

  lemma SomeRowDepends(a: nat, rows: seq<Row>, r: nat) returns (j: nat)
    requires TargetedFrom(a, rows, 0, r) && !TargetedFrom(a, rows, Unnamed(rows), r)
    ensures j < |rows| && j < Unnamed(rows) && a == r
  {
    j :| j < |rows| && Target(a, rows, j) == r;
    TargetDepends(a, a, rows, j);
  }

  lemma CoveredAlike(rows: seq<Row>, a: nat, r: nat)
    ensures TargetedFrom(a, rows, Unnamed(rows), r) <==> TargetedFrom(0, rows, Unnamed(rows), r)
  {
    forall j: nat | Unnamed(rows) <= j < |rows| ensures Target(a, rows, j) == Target(0, rows, j) {
      TargetDepends(a, 0, rows, j);
    }
  }

  /** A load gives the same regions from every region number of the device exactly when its first
      row names its region or every region of the device is reached by a row that does not depend
      on the old number. */
  lemma RnrIrrelevant(rows: seq<Row>, device: set<nat>)
    requires exists a, b :: a in device && b in device && a != b
    ensures (forall s: Regions, a, b | a in device && b in device :: SameTables(s, rows, a, b))
       <==> (Unnamed(rows) == 0 || Covered(rows, device))
  {
    if Unnamed(rows) == 0 || Covered(rows, device) {
      forall s: Regions, a, b | a in device && b in device ensures SameTables(s, rows, a, b) {
        RnrUnused(s, rows, device, a, b);
      }
    } else {
      var r :| r in device && !TargetedFrom(0, rows, Unnamed(rows), r);
      var other :| other in device && other != r;
      RnrMatters(rows, r, other);
    }
  }

  lemma RnrUnused(s: Regions, rows: seq<Row>, device: set<nat>, a: nat, b: nat)
    requires a in device && b in device && (Unnamed(rows) == 0 || Covered(rows, device))
    ensures SameTables(s, rows, a, b)
  {
    var x, y := SetRows(s.(rnr := a), rows), SetRows(s.(rnr := b), rows);
    forall r: nat ensures SameRegion(x, y, r) {
      CoveredAlike(rows, a, r);
      CoveredAlike(rows, b, r);
      if !TargetedFrom(a, rows, Unnamed(rows), r) {
        if TargetedFrom(a, rows, 0, r) {
          var j := SomeRowDepends(a, rows, r);
          assert false;
        }
        if TargetedFrom(b, rows, 0, r) {
          var j := SomeRowDepends(b, rows, r);
          assert false;
        }
      }
      SameRegions(s, rows, a, b, r);
    }
    SameEverywhere(x, y);
  }

  lemma SameEverywhere(x: Regions, y: Regions)
    requires forall r: nat :: SameRegion(x, y, r)
    ensures x.base == y.base && x.attr == y.attr
  {
    forall r: nat ensures (r in x.base <==> r in y.base) && (r in x.attr <==> r in y.attr) {
      assert SameRegion(x, y, r);
    }
    assert x.base.Keys == y.base.Keys && x.attr.Keys == y.attr.Keys;
    forall r: nat ensures r in x.base ==> x.base[r] == y.base[r] {
      assert SameRegion(x, y, r);
    }
    forall r: nat ensures r in x.attr ==> x.attr[r] == y.attr[r] {
      assert SameRegion(x, y, r);
    }
  }

  lemma RnrMatters(rows: seq<Row>, r: nat, other: nat)
    requires Unnamed(rows) > 0 && r != other && !TargetedFrom(0, rows, Unnamed(rows), r)
    ensures !SameTables(Regions(0, map[], map[], []), rows, r, other)
  {
    var s := Regions(0, map[], map[], []);
    UnnamedTargets(0, rows, 0);
    TargetDepends(r, other, rows, 0);
    var i := LastTargeting(r, rows, 0, r);
    LastRowWins(s.(rnr := r), rows, i);
    CoveredAlike(rows, other, r);
    if TargetedFrom(other, rows, 0, r) {
      var j := SomeRowDepends(other, rows, r);
      assert false;
    }
    OthersKept(s.(rnr := other), rows, r);
  }

  // ---- RBAR words ------------------------------------------------------------------------

  function RbarWord(region: Uint32, address: Uint32): nat {
    Or(Or(And(address, ADDR_MASK), And(region, REGION_MASK)), VALID_MASK)
  }

  lemma AddressParts(x: Uint32)
    ensures And(x, ADDR_MASK) == Shl(Shr(x, 5), 5)
  {
    hide Shl, And, Shr, Low;
    Pow2Values();
    Parts(x, 5);
    MaskParts();
    AndParts(Shr(x, 5), Low(x, 5), Pow2(27) - 1, 0, 5);
    AndMask(Shr(x, 5), 27);
    HighBound(x, 5, 27);
    LowSmall(Shr(x, 5), 27);
    AndZero(Low(x, 5));
  }

  lemma MaskParts()
    ensures ADDR_MASK == Shl(Pow2(27) - 1, 5) + 0
  {
    Pow2Values();
    ShlTimes(Pow2(27) - 1, 5);
  }

  /** The region field takes four bits of the number, VALID is set above them, and the address keeps
      all but its low five bits. */
  lemma RbarFields(region: Uint32, address: Uint32)
    ensures RbarWord(region, address) == 32 * (address / 32) + 16 + region % 16 < 0x1_0000_0000
  {
    hide Shl, And, Or, Shr, Low;
    var hi, r := Shr(address, 5), Low(region, 4);
    AddressParts(address);
    Pow2Values();
    AndMask(region, 4);
    Parts(region, 4);
    OrJoin(hi, r, 5);
    OrParts(hi, r, 0, 16, 5);
    ShlZero(5);
    OrSixteen(r);
    OrZero(hi);
    Division(address, 5);
    Division(region, 4);
    ShlTimes(hi, 5);
  }

  lemma OrSixteen(r: nat)
    requires r < 16
    ensures Or(r, 16) == 16 + r
  {
    assert Pow2(4) == 16;
    assert Shl(1, 4) == 16;
    OrCommutes(r, 16);
    OrJoin(1, r, 4);
  }

  /** What the hardware reads from any base word. */
  lemma RbarRead(w: Uint32)
    ensures NamesRegion(w) <==> w / 16 % 2 == 1
    ensures RegionField(w) == w % 16
    ensures Address(w) == w - w % 32
  {
    hide Shl, And, Or, Shr, Low;
    Pow2Values();
    AddressParts(w);
    Division(w, 5);
    ShlTimes(Shr(w, 5), 5);
    AndMask(w, 4);
    Division(w, 4);
    SixteenIsBit(w);
    Euclid(w, 32);
  }

  /** Read back by the hardware, such a word names its region and gives its address. */
  lemma RbarReadBack(region: Uint32, address: Uint32)
    ensures RbarWord(region, address) < 0x1_0000_0000
    ensures var w := RbarWord(region, address);
            NamesRegion(w) && RegionField(w) == region % 16 && Address(w) == address - address % 32
  {
    hide RbarWord, NamesRegion, RegionField, Address;
    RbarFields(region, address);
    RbarRead(RbarWord(region, address));
    Sixteenth(address, region);
    Euclid(RbarWord(region, address), 32);
  }

  lemma Sixteenth(address: nat, region: nat)
    ensures var w := 32 * (address / 32) + 16 + region % 16;
            w % 16 == region % 16 && w / 16 % 2 == 1 && w / 32 == address / 32
    ensures 32 * (address / 32) == address - address % 32
  {
    var q, r := address / 32, region % 16;
    DivMod(32 * q + 16 + r, 16, 2 * q + 1, r);
    DivMod(32 * q + 16 + r, 32, q, 16 + r);
    DivMod(2 * q + 1, 2, q, 1);
  }

  lemma SixteenIsBit(w: nat)
    ensures And(w, VALID_MASK) != 0 <==> w / 16 % 2 == 1
  {
    assert Pow2(4) == 16;
    assert Shl(1, 4) == 16;
    BitTest(w, 4);
    Division(w, 4);
  }

  /** A table whose base words were all made by ARM_MPU_RBAR: whatever region was selected before,
      each region it names holds the address and attributes of its last row, and every other region
      is untouched. */
  lemma BuiltTable(s: Regions, rows: seq<Row>, numbers: seq<Uint32>, addresses: seq<Uint32>)
    requires |numbers| == |addresses| == |rows|
    requires forall i | 0 <= i < |rows| :: rows[i].rbar == RbarWord(numbers[i], addresses[i])
    ensures forall i | 0 <= i < |rows| && (forall j | i < j < |rows| :: numbers[j] % 16 != numbers[i] % 16) ::
              var r, s' := numbers[i] % 16, SetRows(s, rows);
              && r in s'.base && s'.base[r] == addresses[i] - addresses[i] % 32
              && r in s'.attr && s'.attr[r] == rows[i].rasr
    ensures forall r: nat | (forall i | 0 <= i < |rows| :: numbers[i] % 16 != r) :: SameRegion(s, SetRows(s, rows), r)
  {
    hide RbarWord, NamesRegion, RegionField, Address, SetRows;
    forall i | 0 <= i < |rows|
      ensures Target(s.rnr, rows, i) == numbers[i] % 16 && Address(rows[i].rbar) == addresses[i] - addresses[i] % 32
    {
      RbarReadBack(numbers[i], addresses[i]);
    }
    forall i | 0 <= i < |rows| && (forall j | i < j < |rows| :: numbers[j] % 16 != numbers[i] % 16)
      ensures var r, s' := numbers[i] % 16, SetRows(s, rows);
              && r in s'.base && s'.base[r] == addresses[i] - addresses[i] % 32
              && r in s'.attr && s'.attr[r] == rows[i].rasr
    {
      LastRowWins(s, rows, i);
    }
    forall r: nat | (forall i | 0 <= i < |rows| :: numbers[i] % 16 != r)
      ensures SameRegion(s, SetRows(s, rows), r)
    {
      OthersKept(s, rows, r);
    }
  }

  /** ARM_MPU_SetRegionEx: the region number is written first. */
  function SetRowEx(s: Regions, region: Uint32, row: Row): Regions {
    SetRow(s.(rnr := region % 0x100), row)
  }

  ghost predicate ConfiguresOnly(s: Regions, r: nat, row: Row, s': Regions) {
    s'.base == s.base[r := Address(row.rbar)] && s'.attr == s.attr[r := row.rasr]
  }

  lemma ExConfigures(s: Regions, region: Uint32, row: Row)
    ensures ConfiguresOnly(s, Selected(region % 0x100, row.rbar), row, SetRowEx(s, region, row))
  {
  }

  /** It configures the region it was given, and only that, exactly when the base word names no
      region or names the same one. */
  lemma SetRegionExExact(region: Uint32, row: Row)
    ensures (forall s: Regions :: ConfiguresOnly(s, region % 0x100, row, SetRowEx(s, region, row)))
       <==> (NamesRegion(row.rbar) ==> RegionField(row.rbar) == region % 0x100)
  {
    hide Address, NamesRegion, RegionField, SetRowEx;
    if NamesRegion(row.rbar) ==> RegionField(row.rbar) == region % 0x100 {
      forall s: Regions ensures ConfiguresOnly(s, region % 0x100, row, SetRowEx(s, region, row)) {
        ExConfigures(s, region, row);
      }
    } else {
      var s := Regions(0, map[], map[], []);
      ExConfigures(s, region, row);
      assert region % 0x100 !in SetRowEx(s, region, row).base;
    }
  }

  /** Given a bare address, aligned as the architecture demands, it sets that region's base to the
      address and its attributes to the second word, and touches no other region. */
  lemma BareAddress(s: Regions, region: Uint32, address: Uint32, rasr: Uint32)
    requires address % 32 == 0
    ensures var s' := SetRowEx(s, region, Row(address, rasr));
            && s'.rnr == region % 0x100
            && s'.base == s.base[region % 0x100 := address] && s'.attr == s.attr[region % 0x100 := rasr]
  {
    hide Address, NamesRegion, RegionField;
    RbarRead(address);
    Aligned32(address);
  }

  lemma Aligned32(address: nat)
    requires address % 32 == 0
    ensures address / 16 % 2 == 0
  {
    var q := address / 32;
    DivMod(address, 16, 2 * q, 0);
    DivMod(2 * q, 2, q, 0);
  }

  // ---- Streaming a chunk -----------------------------------------------------------------

  /** Writing words to consecutive registers, in order. */
  function Stream(s: Regions, offset: nat, words: seq<Uint32>): Regions
    requires RNR <= offset && offset + |words| <= WINDOW_END
  {
    if words == [] then s
    else WriteRegister(Stream(s, offset, words[..|words| - 1]), offset + |words| - 1, words[|words| - 1])
  }

  lemma PairSetsRow(s: Regions, offset: nat, rbar: Uint32, rasr: Uint32)
    requires RBAR <= offset && offset + 1 < WINDOW_END && (offset - RBAR) % 2 == 0
    ensures WriteRegister(WriteRegister(s, offset, rbar), offset + 1, rasr) == SetRow(s, Row(rbar, rasr))
  {
  }

  /** Up to four rows streamed from RBAR on through the aliases are as many regions set. */
  lemma {:induction false} StreamSetsRows(s: Regions, words: seq<Uint32>)
    requires |words| % 2 == 0 && RBAR + |words| <= WINDOW_END
    ensures Stream(s, RBAR, words) == SetRows(s, Rows(words))
  {
    hide WriteRegister, SetRow;
    if words != [] {
      var n := |words|;
      var before := words[..n - 2];
      StreamSetsRows(s, before);
      assert words[..n - 1][..n - 2] == before;
      PairSetsRow(Stream(s, RBAR, before), RBAR + n - 2, words[n - 2], words[n - 1]);
      assert Rows(words)[..|Rows(words)| - 1] == Rows(before);
      assert Rows(words)[|Rows(words)| - 1] == Row(words[n - 2], words[n - 1]);
    }
  }

  lemma RowsAppend(first: seq<Uint32>, second: seq<Uint32>)
    requires |first| % 2 == 0 && |second| % 2 == 0
    ensures Rows(first + second) == Rows(first) + Rows(second)
  {
  }

  const RALIASES := 4
  const ROW_WORDS := 2

  /** The rows of a table from one row up to another. */
  function TableRows(words: seq<Uint32>, from: nat, to: nat): seq<Row>
    requires from <= to && ROW_WORDS * to <= |words|
  {
    Rows(words[ROW_WORDS * from..ROW_WORDS * to])
  }

  /** So many indices in order, each once. */
  function Span(from: nat, len: nat): seq<nat> {
    seq(len, i => from + i)
  }

  lemma NoRows(s: Regions, words: seq<Uint32>, from: nat)
    requires ROW_WORDS * from <= |words|
    ensures SetRows(s, TableRows(words, from, from)) == s
    ensures Span(ROW_WORDS * from, 0) == []
  {
  }

  lemma SpanAppend(from: nat, m: nat, n: nat)
    ensures Span(from, m) + Span(from + m, n) == Span(from, m + n)
  {
  }

  /** Streaming the next few rows of a table continues setting its rows one by one. */
  lemma NextChunk(start: Regions, s: Regions, words: seq<Uint32>, first: nat, table: nat, cnt: nat)
    requires first <= table && ROW_WORDS * (table + cnt) <= |words| && cnt <= RALIASES
    requires s == SetRows(start, TableRows(words, first, table))
    ensures Stream(s, RBAR, words[ROW_WORDS * table..ROW_WORDS * table + cnt * ROW_WORDS])
         == SetRows(start, TableRows(words, first, table + cnt))
  {
    hide SetRows, Stream, Rows;
    var before := words[ROW_WORDS * first..ROW_WORDS * table];
    var chunk := words[ROW_WORDS * table..ROW_WORDS * (table + cnt)];
    StreamSetsRows(s, chunk);
    RowsAppend(before, chunk);
    SetRowsAppend(start, Rows(before), Rows(chunk));
    assert before + chunk == words[ROW_WORDS * first..ROW_WORDS * (table + cnt)];
  }

  class MpuRegisters {
    var rnr: nat
    var base: map<nat, Uint32>
    var attr: map<nat, Uint32>
    ghost var log: seq<Effect>
    ghost var wordsRead: seq<nat>

    ghost function State(): Regions
      reads this
    {
      Regions(rnr, base, attr, log)
    }

    /** A store to a register, as the hardware takes it. */
    method Store(offset: nat, w: Uint32)
      requires RNR <= offset < WINDOW_END
      modifies this
      ensures State() == WriteRegister(old(State()), offset, w) && wordsRead == old(wordsRead)
    {
      if offset == RNR {
        rnr := w % 0x100;
      } else if (offset - RBAR) % 2 == 0 {
        rnr := Selected(rnr, w);
        base := base[rnr := Address(w)];
        log := log + [SetBase(rnr, Address(w))];
      } else {
        attr := attr[rnr := w];
        log := log + [SetAttributes(rnr, w)];
      }
    }

    method SetRegion(rbar: Uint32, rasr: Uint32)
      modifies this
      ensures State() == SetRow(old(State()), Row(rbar, rasr))
      ensures log == old(log) + [SetBase(rnr, rbar - rbar % 32), SetAttributes(rnr, rasr)]
      ensures rnr == if rbar / 16 % 2 == 1 then rbar % 16 else old(rnr)
    {
      RbarRead(rbar);
      RowHistory(State(), Row(rbar, rasr));
      Store(RBAR, rbar);
      Store(RASR, rasr);
    }

    method SetRegionEx(region: Uint32, rbar: Uint32, rasr: Uint32)
      modifies this
      ensures State() == SetRowEx(old(State()), region, Row(rbar, rasr))
    {
      Store(RNR, region);
      Store(RBAR, rbar);
      Store(RASR, rasr);
    }

    /** Clearing a region leaves its base and every other region alone. */
    method ClrRegion(region: Uint32)
      modifies this
      ensures var r := region % 0x100;
              rnr == r && base == old(base) && attr == old(attr)[r := 0]
      ensures log == old(log) + [SetAttributes(region % 0x100, 0)]
    {
      Store(RNR, region);
      Store(RASR, 0);
    }

    /** Every store goes to a register inside the window that ends with RASR_A3. */
    method OrderedCpy(dst: nat, src: array<Uint32>, at: nat, len: nat)
      requires RNR <= dst && dst + len <= WINDOW_END && at + len <= src.Length
      modifies this
      ensures State() == Stream(old(State()), dst, src[at..at + len])
      ensures wordsRead == old(wordsRead) + Span(at, len)
    {
      hide WriteRegister;
      for i := 0 to len
        invariant State() == Stream(old(State()), dst, src[at..at + i])
        invariant wordsRead == old(wordsRead) + Span(at, i)
      {
        assert src[at..at + i + 1][..i] == src[at..at + i];
        Store(dst + i, src[at + i]);
        wordsRead := wordsRead + [at + i];
      }
    }

    /** The table is an array of words, two to a row; table0 is the index of the first row. */
    method Load(words: array<Uint32>, table0: nat, cnt0: nat)
      requires ROW_WORDS * (table0 + cnt0) <= words.Length
      modifies this
      ensures State() == SetRows(old(State()), Rows(words[ROW_WORDS * table0..ROW_WORDS * (table0 + cnt0)]))
      ensures WritesRows(old(log), old(rnr), Rows(words[ROW_WORDS * table0..ROW_WORDS * (table0 + cnt0)]), log)
      ensures wordsRead == old(wordsRead) + Span(ROW_WORDS * table0, ROW_WORDS * cnt0)
    {
      hide SetRows, Stream, Rows, Span, WritesRows;
      NoRows(State(), words[..], table0);
      var table: nat, cnt: nat := table0, cnt0;
      ghost var start, all := State(), words[..];
      while cnt > RALIASES
        invariant table0 <= table && table + cnt == table0 + cnt0
        invariant State() == SetRows(start, TableRows(all, table0, table))
        invariant wordsRead == old(wordsRead) + Span(ROW_WORDS * table0, ROW_WORDS * (table - table0))
      {
        ghost var before := State();
        OrderedCpy(RBAR, words, ROW_WORDS * table, RALIASES * ROW_WORDS);
        NextChunk(start, before, all, table0, table, RALIASES);
        SpanAppend(ROW_WORDS * table0, ROW_WORDS * (table - table0), RALIASES * ROW_WORDS);
        table := table + RALIASES;
        cnt := cnt - RALIASES;
      }
      ghost var before := State();
      OrderedCpy(RBAR, words, ROW_WORDS * table, cnt * ROW_WORDS);
      NextChunk(start, before, all, table0, table, cnt);
      SpanAppend(ROW_WORDS * table0, ROW_WORDS * (table - table0), cnt * ROW_WORDS);
      assert words[ROW_WORDS * table0..ROW_WORDS * (table0 + cnt0)] == all[ROW_WORDS * table0..ROW_WORDS * (table + cnt)];
      HistoryOfRows(start, Rows(words[ROW_WORDS * table0..ROW_WORDS * (table0 + cnt0)]));
    }
  }
}
