/** The C forms of the core instructions: bit reversal, rotation and byte reversal. */
module Instructions {
  import opened Words

  // ---- __RBIT ----------------------------------------------------------------------------

  /** The low n bits of v in reverse order. */
  function Mirror(v: nat, n: nat): nat {
    if n == 0 then 0 else 2 * Mirror(v, n - 1) + Shr(v, n - 1) % 2
  }

  lemma {:induction false} MirrorBound(v: nat, n: nat)
    ensures Mirror(v, n) < Pow2(n)
  {
    if n > 0 {
      MirrorBound(v, n - 1);
    }
  }

  /** Bit i of the mirror image is bit n - 1 - i of the word. */
  lemma {:induction false} MirrorBit(v: nat, n: nat, i: nat)
    requires i < n
    ensures Bit(Mirror(v, n), i) == Bit(v, n - 1 - i)
  {
    if i > 0 {
      assert Mirror(v, n) / 2 == Mirror(v, n - 1);
      MirrorBit(v, n - 1, i - 1);
    }
  }

  /** Zero bits at the top of the word shift its mirror image up. */
  lemma {:induction false} MirrorZeros(v: nat, n: nat, s: nat)
    requires Shr(v, n) == 0
    ensures Mirror(v, n + s) == Shl(Mirror(v, n), s)
  {
    if s > 0 {
      MirrorZeros(v, n, s - 1);
      ShrShr(v, n, s - 1);
      ShrZero(s - 1);
    }
  }

  lemma AndOne(x: nat)
    ensures And(x, 1) == x % 2
  {
    assert And(x / 2, 0) == 0;
  }

  lemma OrBit(x: nat, b: nat)
    requires b <= 1
    ensures Or(2 * x, b) == 2 * x + b
  {
  }

  lemma LowEven(x: nat, n: nat)
    ensures Low(2 * x, n + 1) == 2 * Low(x, n)
  {
  }

  lemma Doubled(result: Uint32)
    ensures Wrap(2 * result) == 2 * Low(result, 31)
  {
    WrapLow(2 * result);
    LowEven(result, 31);
  }

  lemma AppendLow(x: nat, b: nat, n: nat)
    requires b <= 1
    ensures Low(2 * x + b, n + 1) == 2 * Low(x, n) + b
  {
  }

  lemma HalfBound(result: nat)
    ensures Low(result, 31) < 0x8000_0000
  {
    Pow2Values();
    Parts(result, 31);
  }

  /** One round of the loop appends the next bit of v below those already taken, whatever is left
      of the bits that result started with. */
  lemma TakeBit(v: nat, result: Uint32, n: nat, b: nat)
    requires n < 32 && Low(result, n) == Mirror(v, n) && b == Shr(v, n) % 2
    ensures Or(Wrap(2 * result), b) < 0x1_0000_0000
    ensures Low(Or(Wrap(2 * result), b), n + 1) == Mirror(v, n + 1)
  {
    hide Or, Wrap, Low, Shr;
    var half := Low(result, 31);
    HalfBound(result);
    Doubled(result);
    LowTwice(result, 31, n);
    OrBit(half, b);
    AppendLow(half, b, n);
  }

  lemma LastShift(v: nat, result: Uint32, n: nat)
    requires n <= 32 && Low(result, n) == Mirror(v, n) && Shr(v, n) == 0
    ensures Wrap(Shl(result, 32 - n)) == Mirror(v, 32)
  {
    WrapLow(Shl(result, 32 - n));
    ShlLow(result, n, 32 - n);
    MirrorZeros(v, n, 32 - n);
  }

  lemma TopBits(v: Uint32, n: nat)
    requires n >= 32
    ensures Shr(v, n) == 0
  {
    Pow2Values();
    Pow2Monotone(32, n);
    ShrSmall(v, n);
  }

  /** s starts at 31, every round lowers it, and it is never 0 when it is lowered. */
  method Rbit(v: Uint32) returns (result: Uint32)
    ensures result == Mirror(v, 32)
  {
    var value: Uint32 := v;
    var s: Uint32 := 31;
    result := value;
    ShrBound(value, 1);
    value := Shr(value, 1);
    while value != 0
      invariant s <= 31
      invariant value == Shr(v, 32 - s)
      invariant Low(result, 32 - s) == Mirror(v, 32 - s)
      decreases s
    {
      if s == 0 {
        TopBits(v, 32);
      }
      AndOne(value);
      assert Shl(result, 1) == 2 * result;
      TakeBit(v, result, 32 - s, And(value, 1));
      result := Wrap(Shl(result, 1));
      result := Or(result, And(value, 1));
      s := s - 1;
      ShrBound(value, 1);
      ShrShr(v, 31 - s, 1);
      value := Shr(value, 1);
    }
    LastShift(v, result, 32 - s);
    result := Wrap(Shl(result, s));
  }

  lemma {:induction false} MirrorTwice(v: Uint32)
    ensures Mirror(Mirror(v, 32), 32) == v
  {
    MirrorBound(v, 32);
    MirrorBound(Mirror(v, 32), 32);
    Pow2Values();
    forall i: nat | i < 32 ensures Bit(Mirror(Mirror(v, 32), 32), i) == Bit(v, i) {
      MirrorBit(Mirror(v, 32), 32, i);
      MirrorBit(v, 32, 31 - i);
    }
    SameBits(Mirror(Mirror(v, 32), 32), v, 32);
  }

  lemma {:induction false} MirrorOr(v: nat, w: nat, n: nat)
    ensures Mirror(Or(v, w), n) == Or(Mirror(v, n), Mirror(w, n))
  {
    if n > 0 {
      MirrorOr(v, w, n - 1);
      BitOr(v, w, n - 1);
      OrDigit(Mirror(v, n - 1), Mirror(w, n - 1), Shr(v, n - 1) % 2, Shr(w, n - 1) % 2);
    }
  }

  lemma {:induction false} MirrorOnes(v: nat, n: nat)
    ensures Ones(Mirror(v, n)) == Ones(Low(v, n))
  {
    hide Ones, Low, Shl, Shr;
    NoLow(v);
    if n > 0 {
      MirrorOnes(v, n - 1);
      OnesDigit(Mirror(v, n - 1), Shr(v, n - 1) % 2);
      LowLast(v, n - 1);
      Parts(v, n - 1);
      OnesJoin(Shr(v, n - 1) % 2, Low(v, n - 1), n - 1);
    }
  }

  lemma NoLow(v: nat)
    ensures Low(v, 0) == 0
  {
  }

  lemma OnesDigit(x: nat, b: nat)
    requires b <= 1
    ensures Ones(2 * x + b) == Ones(x) + b && Ones(b) == b
  {
  }

  lemma {:induction false} LowLast(x: nat, n: nat)
    ensures Low(x, n + 1) == Shl(Shr(x, n) % 2, n) + Low(x, n)
  {
    if n > 0 {
      LowLast(x / 2, n - 1);
    }
  }

  // ---- __ROR -----------------------------------------------------------------------------

  function Ror(op1: Uint32, op2: Uint32): (r: Uint32)
    ensures op2 % 32 != 0 ==> r == Shl(Low(op1, op2 % 32), 32 - op2 % 32) + Shr(op1, op2 % 32)
  {
    var k := op2 % 32;
    if k == 0 then op1
    else
      RorParts(op1, k);
      Or(Shr(op1, k), Wrap(Shl(op1, 32 - k)))
  }

  /** Rotating moves the low k bits on top of the others. */
  lemma RorParts(x: Uint32, k: nat)
    requires 0 < k < 32
    ensures Or(Shr(x, k), Wrap(Shl(x, 32 - k))) == Shl(Low(x, k), 32 - k) + Shr(x, k) < 0x1_0000_0000
    ensures Shr(x, k) < Pow2(32 - k)
  {
    hide Or, Shl, Low, Shr, Wrap;
    Pow2Values();
    HighBound(x, k, 32 - k);
    LowOnTop(x, k);
    OrJoin(Low(x, k), Shr(x, k), 32 - k);
    OrCommutes(Shr(x, k), Shl(Low(x, k), 32 - k));
    RorBound(x, k);
  }

  lemma LowOnTop(x: Uint32, k: nat)
    requires 0 < k < 32
    ensures Wrap(Shl(x, 32 - k)) == Shl(Low(x, k), 32 - k)
  {
    WrapLow(Shl(x, 32 - k));
    ShlLow(x, k, 32 - k);
  }

  lemma RorBound(x: Uint32, k: nat)
    requires 0 < k < 32 && Shr(x, k) < Pow2(32 - k)
    ensures Shl(Low(x, k), 32 - k) + Shr(x, k) < Pow2(32)
  {
    hide Shl, Low, Shr;
    Parts(x, k);
    ShlBound(Low(x, k), k, 32 - k);
  }

  lemma RotatedBit(x: Uint32, k: nat, i: nat)
    requires 0 < k < 32 && i < 32 && Shr(x, k) < Pow2(32 - k)
    ensures Bit(Shl(Low(x, k), 32 - k) + Shr(x, k), i) == Bit(x, if i < 32 - k then i + k else i - (32 - k))
  {
    Parts(x, k);
    BitJoin(Low(x, k), Shr(x, k), 32 - k, i);
    BitJoin(Shr(x, k), Low(x, k), k, if i < 32 - k then i + k else i - (32 - k));
  }

  /** The position a places above i, counting round at 32. */
  function Turn(i: nat, a: nat): (j: nat)
    ensures j < 32
  {
    (i + a) % 32
  }

  lemma TurnCases(i: nat, a: nat)
    requires i < 32
    ensures Turn(i, a) == if i < 32 - a % 32 then i + a % 32 else i - (32 - a % 32)
  {
  }

  /** Bit i of a rotated word is the bit op2 places further up. */
  lemma RorBit(x: Uint32, a: Uint32, i: nat)
    requires i < 32
    ensures Bit(Ror(x, a), i) == Bit(x, Turn(i, a))
  {
    TurnCases(i, a);
    if a % 32 != 0 {
      RorParts(x, a % 32);
      RotatedBit(x, a % 32, i);
    }
  }

  /** Rotations compose by adding their counts, also when the 32-bit sum of the counts wraps. */
  lemma RorAdd(x: Uint32, a: Uint32, b: Uint32)
    ensures Ror(Ror(x, a), b) == Ror(x, Wrap(a + b))
  {
    Pow2Values();
    forall i: nat | i < 32 ensures Bit(Ror(Ror(x, a), b), i) == Bit(Ror(x, Wrap(a + b)), i) {
      RorBit(Ror(x, a), b, i);
      RorBit(x, a, Turn(i, b));
      RorBit(x, Wrap(a + b), i);
      CountsAdd(i, a, b);
    }
    SameBits(Ror(Ror(x, a), b), Ror(x, Wrap(a + b)), 32);
  }

  lemma CountsAdd(i: nat, a: Uint32, b: Uint32)
    ensures Turn(Turn(i, b), a) == Turn(i, Wrap(a + b))
  {
    Rounds(i + b + a, (i + b) % 32 + a, (i + b) / 32);
    if a + b < 0x1_0000_0000 {
      assert Wrap(a + b) == a + b;
    } else {
      assert Wrap(a + b) == a + b - 0x1_0000_0000;
      Rounds(i + b + a, i + (a + b - 0x1_0000_0000), 0x800_0000);
    }
  }

  /** Whole turns do not count. */
  lemma Rounds(x: nat, y: nat, q: nat)
    requires x == 32 * q + y
    ensures x % 32 == y % 32
  {
    DivMod(x, 32, q + y / 32, y % 32);
  }

  lemma RorInverse(x: Uint32, a: Uint32)
    ensures Ror(Ror(x, a), 32 - a % 32) == x
  {
    RorAdd(x, a, 32 - a % 32);
    FullTurn(a);
  }

  lemma FullTurn(a: Uint32)
    ensures Wrap(a + (32 - a % 32)) % 32 == 0
  {
    assert a + (32 - a % 32) == 32 * (a / 32 + 1);
    assert a / 32 + 1 <= 0x800_0000;
  }

  lemma RorOnes(x: Uint32, a: Uint32)
    ensures Ones(Ror(x, a)) == Ones(x)
  {
    hide Ones, Low, Shl, Shr, Or, Wrap;
    var k := a % 32;
    if k != 0 {
      RorParts(x, k);
      Parts(x, k);
      OnesJoin(Low(x, k), Shr(x, k), 32 - k);
      OnesJoin(Shr(x, k), Low(x, k), k);
    }
  }

  lemma MirrorRorBit(x: Uint32, a: Uint32, b: Uint32, i: nat)
    requires i < 32 && b == 32 - a % 32 && Mirror(x, 32) < 0x1_0000_0000
    ensures Bit(Mirror(Ror(x, a), 32), i) == Bit(Ror(Mirror(x, 32), b), i)
  {
    MirrorBit(Ror(x, a), 32, i);
    RorBit(x, a, 31 - i);
    RorBit(Mirror(x, 32), b, i);
    MirrorBit(x, 32, Turn(i, b));
    CountBack(i, a, b);
  }

  lemma CountBack(i: nat, a: Uint32, b: Uint32)
    requires i < 32 && b == 32 - a % 32
    ensures Turn(31 - i, a) == 31 - Turn(i, b)
  {
    TurnCases(31 - i, a);
    TurnCases(i, b);
  }

  lemma MirrorFits(x: nat)
    ensures Mirror(x, 32) < 0x1_0000_0000
  {
    Pow2Values();
    MirrorBound(x, 32);
  }

  lemma SameWords(x: Uint32, y: Uint32)
    requires forall i: nat | i < 32 :: Bit(x, i) == Bit(y, i)
    ensures x == y
  {
    Pow2Values();
    SameBits(x, y, 32);
  }

  /** Reversing the bits turns a rotation to the right into one to the left. */
  lemma MirrorRor(x: Uint32, a: Uint32)
    ensures Mirror(x, 32) < 0x1_0000_0000
    ensures Mirror(Ror(x, a), 32) == Ror(Mirror(x, 32), 32 - a % 32)
  {
    MirrorFits(x);
    MirrorFits(Ror(x, a));
    forall i: nat | i < 32 ensures Bit(Mirror(Ror(x, a), 32), i) == Bit(Ror(Mirror(x, 32), 32 - a % 32), i) {
      MirrorRorBit(x, a, 32 - a % 32, i);
    }
    SameWords(Mirror(Ror(x, a), 32), Ror(Mirror(x, 32), 32 - a % 32));
  }

  // ---- __REV and __REV16 -----------------------------------------------------------------

  /** Byte n of a word, counting from the low end. */
  function ByteOf(v: nat, n: nat): Byte {
    if n == 0 then v % 0x100 else ByteOf(v / 0x100, n - 1)
  }

  function Word(b3: Byte, b2: Byte, b1: Byte, b0: Byte): Uint32 {
    ((b3 * 0x100 + b2) * 0x100 + b1) * 0x100 + b0
  }

  /** Byte order reversal, which the compiler provides. */
  function Rev(v: Uint32): Uint32 {
    Word(ByteOf(v, 0), ByteOf(v, 1), ByteOf(v, 2), ByteOf(v, 3))
  }

  function Rev16(v: Uint32): Uint32 {
    Ror(Rev(v), 16)
  }

  lemma RorHalfword(b3: Byte, b2: Byte, b1: Byte, b0: Byte)
    ensures Ror(Word(b3, b2, b1, b0), 16) == Word(b1, b0, b3, b2)
  {
    var v := Word(b3, b2, b1, b0);
    Pow2Values();
    DivMod(v, 0x1_0000, b3 * 0x100 + b2, b1 * 0x100 + b0);
    Division(v, 16);
    ShlTimes(b1 * 0x100 + b0, 16);
  }

  lemma AppendByte(x: nat, b: Byte, n: nat)
    ensures ByteOf(x * 0x100 + b, 0) == b && ByteOf(x * 0x100 + b, n + 1) == ByteOf(x, n)
  {
    assert (x * 0x100 + b) / 0x100 == x;
  }

  lemma WordBytes(b3: Byte, b2: Byte, b1: Byte, b0: Byte)
    ensures var v := Word(b3, b2, b1, b0);
            ByteOf(v, 3) == b3 && ByteOf(v, 2) == b2 && ByteOf(v, 1) == b1 && ByteOf(v, 0) == b0
  {
    var w2, w3 := b3 * 0x100 + b2, (b3 * 0x100 + b2) * 0x100 + b1;
    AppendByte(b3, b2, 0);
    AppendByte(w2, b1, 0);
    AppendByte(w2, b1, 1);
    AppendByte(w3, b0, 0);
    AppendByte(w3, b0, 1);
    AppendByte(w3, b0, 2);
    assert ByteOf(b3, 0) == b3;
  }

  /** __REV16 swaps the two bytes of each halfword. */
  lemma Rev16Bytes(v: Uint32)
    ensures Rev16(v) == Word(ByteOf(v, 2), ByteOf(v, 3), ByteOf(v, 0), ByteOf(v, 1))
  {
    RorHalfword(ByteOf(v, 0), ByteOf(v, 1), ByteOf(v, 2), ByteOf(v, 3));
  }

  lemma RemoveByte(v: nat) returns (rest: nat)
    ensures v == rest * 0x100 + ByteOf(v, 0)
    ensures ByteOf(v, 1) == ByteOf(rest, 0) && ByteOf(v, 2) == ByteOf(rest, 1) && ByteOf(v, 3) == ByteOf(rest, 2)
  {
    rest := v / 0x100;
  }

  lemma BytesOfWord(v: Uint32)
    ensures Word(ByteOf(v, 3), ByteOf(v, 2), ByteOf(v, 1), ByteOf(v, 0)) == v
  {
    var w3 := RemoveByte(v);
    var w2 := RemoveByte(w3);
    var w1 := RemoveByte(w2);
    assert ByteOf(w1, 0) == w1;
  }

  /** It undoes itself, and with __REV in either order it swaps the halfwords. */
  lemma {:induction false} Rev16Laws(v: Uint32)
    ensures Rev16(Rev16(v)) == v
    ensures Rev16(Rev(v)) == Rev(Rev16(v)) == Ror(v, 16)
  {
    var b3, b2, b1, b0 := ByteOf(v, 3), ByteOf(v, 2), ByteOf(v, 1), ByteOf(v, 0);
    BytesOfWord(v);
    Rev16Bytes(v);
    WordBytes(b2, b3, b0, b1);
    Rev16Bytes(Rev16(v));
    WordBytes(b0, b1, b2, b3);
    Rev16Bytes(Rev(v));
    RorHalfword(b3, b2, b1, b0);
  }
}
