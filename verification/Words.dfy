/** Unsigned C words as numbers: shifts, masks and joins, each one bit at a time. */
module Words {

  type Uint32 = x: int | 0 <= x < 0x1_0000_0000
  type Int32 = x: int | -0x8000_0000 <= x < 0x8000_0000
  type Byte = x: int | 0 <= x < 0x100

  /** What a 32-bit unsigned computation keeps of a mathematical result. */
  function Wrap(x: int): Uint32 {
    x % 0x1_0000_0000
  }

  function Shl(x: nat, n: nat): nat {
    if n == 0 then x else 2 * Shl(x, n - 1)
  }

  function Shr(x: nat, n: nat): nat {
    if n == 0 then x else Shr(x / 2, n - 1)
  }

  /** The low n bits of a word. */
  function Low(x: nat, n: nat): nat {
    if n == 0 then 0 else x % 2 + 2 * Low(x / 2, n - 1)
  }

  function And(x: nat, y: nat): nat {
    if x == 0 || y == 0 then 0
    else (if x % 2 == 1 && y % 2 == 1 then 1 else 0) + 2 * And(x / 2, y / 2)
  }

  function Or(x: nat, y: nat): nat {
    if x == 0 then y else if y == 0 then x
    else (if x % 2 == 1 || y % 2 == 1 then 1 else 0) + 2 * Or(x / 2, y / 2)
  }

  function Pow2(n: nat): (p: nat)
    ensures p >= 1
  {
    if n == 0 then 1 else 2 * Pow2(n - 1)
  }

  lemma Pow2Values()
    ensures Pow2(4) == 16 && Pow2(5) == 32 && Pow2(8) == 0x100 && Pow2(16) == 0x1_0000
    ensures Pow2(27) == 0x800_0000 && Pow2(31) == 0x8000_0000 && Pow2(32) == 0x1_0000_0000
  {
    assert Pow2(4) == 0x10;
    assert Pow2(8) == 0x100;
    assert Pow2(16) == 0x1_0000;
    assert Pow2(24) == 0x100_0000;
  }

  lemma {:induction false} Pow2Monotone(m: nat, n: nat)
    requires m <= n
    ensures Pow2(m) <= Pow2(n)
  {
    if m < n {
      Pow2Monotone(m, n - 1);
    }
  }

  lemma AndZero(x: nat)
    ensures And(x, 0) == 0
  {
  }

  lemma OrZero(x: nat)
    ensures Or(x, 0) == x
  {
  }

  lemma {:induction false} ShrBound(x: nat, n: nat)
    ensures Shr(x, n) <= x
  {
    if n > 0 {
      ShrBound(x / 2, n - 1);
    }
  }

  lemma {:induction false} OrBound(x: nat, y: nat, n: nat)
    requires x < Pow2(n) && y < Pow2(n)
    ensures Or(x, y) < Pow2(n)
  {
    if n > 0 {
      OrBound(x / 2, y / 2, n - 1);
    }
  }

  lemma {:induction false} AndBound(x: nat, y: nat)
    ensures And(x, y) <= y
  {
    if x != 0 && y != 0 {
      AndBound(x / 2, y / 2);
    }
  }

  // ---- A word and its parts --------------------------------------------------------------

  /** A word is its high part shifted up plus its low part. */
  lemma {:induction false} Parts(x: nat, n: nat)
    ensures x == Shl(Shr(x, n), n) + Low(x, n)
    ensures Low(x, n) < Pow2(n)
  {
    if n > 0 {
      Parts(x / 2, n - 1);
    }
  }

  /** And there is only one way to take a word apart so. */
  lemma {:induction false} PartsUnique(a: nat, b: nat, n: nat)
    requires b < Pow2(n)
    ensures Shr(Shl(a, n) + b, n) == a && Low(Shl(a, n) + b, n) == b
  {
    if n > 0 {
      PartsUnique(a, b / 2, n - 1);
      assert Shl(a, n) + b == 2 * (Shl(a, n - 1) + b / 2) + b % 2;
    }
  }

  lemma LowSmall(b: nat, n: nat)
    requires b < Pow2(n)
    ensures Low(b, n) == b
  {
    ShlZero(n);
    PartsUnique(0, b, n);
  }

  lemma {:induction false} ShlZero(n: nat)
    ensures Shl(0, n) == 0
  {
    if n > 0 {
      ShlZero(n - 1);
    }
  }

  /** Masking with n one bits keeps the low n bits. */
  lemma {:induction false} AndMask(x: nat, n: nat)
    ensures And(x, Pow2(n) - 1) == Low(x, n)
  {
    if n > 0 {
      AndMask(x / 2, n - 1);
      if x == 0 {
        LowSmall(0, n);
      }
    }
  }

  /** A part above n bits joined with one below them is their sum. */
  lemma {:induction false} OrJoin(a: nat, b: nat, n: nat)
    requires b < Pow2(n)
    ensures Or(Shl(a, n), b) == Shl(a, n) + b
  {
    if n > 0 {
      OrJoin(a, b / 2, n - 1);
    }
  }

  lemma {:induction false} ShlShl(x: nat, m: nat, n: nat)
    ensures Shl(Shl(x, m), n) == Shl(x, m + n)
  {
    if n > 0 {
      ShlShl(x, m, n - 1);
    }
  }

  lemma {:induction false} ShrShr(x: nat, m: nat, n: nat)
    ensures Shr(Shr(x, m), n) == Shr(x, m + n)
  {
    if m > 0 {
      ShrShr(x / 2, m - 1, n);
    }
  }

  lemma {:induction false} ShlAdd(x: nat, y: nat, n: nat)
    ensures Shl(x + y, n) == Shl(x, n) + Shl(y, n)
  {
    if n > 0 {
      ShlAdd(x, y, n - 1);
    }
  }

  lemma {:induction false} ShlOrder(x: nat, y: nat, n: nat)
    ensures Shl(x, n) < Shl(y, n) <==> x < y
  {
    if n > 0 {
      ShlOrder(x, y, n - 1);
    }
  }

  /** A part below 2^m shifted up by n stays below 2^(m + n), with room for the n bits under it. */
  lemma {:induction false} ShlBound(x: nat, m: nat, n: nat)
    requires x < Pow2(m)
    ensures Shl(x, n) + Pow2(n) <= Pow2(m + n)
  {
    if n > 0 {
      ShlBound(x, m, n - 1);
    }
  }

  /** Words compare as their high parts do, and as their low parts where the high ones agree. */
  lemma JoinOrder(a: nat, b: nat, c: nat, d: nat, n: nat)
    requires b < Pow2(n) && d < Pow2(n)
    ensures Shl(a, n) + b < Shl(c, n) + d <==> a < c || (a == c && b < d)
  {
    if a < c {
      ShlStep(a, c, n);
    } else if c < a {
      ShlStep(c, a, n);
    }
  }

  lemma {:induction false} ShlStep(a: nat, c: nat, n: nat)
    requires a < c
    ensures Shl(a, n) + Pow2(n) <= Shl(c, n)
  {
    if n > 0 {
      ShlStep(a, c, n - 1);
    }
  }

  lemma {:induction false} LowLow(x: nat, m: nat, n: nat)
    ensures Low(x, m + n) == Shl(Low(Shr(x, n), m), n) + Low(x, n)
  {
    if n > 0 {
      LowLow(x / 2, m, n - 1);
    }
  }

  lemma Halve(x: nat, n: nat)
    requires n > 0 && x < Pow2(n)
    ensures x == 2 * (x / 2) + x % 2 && x % 2 <= 1 && x / 2 < Pow2(n - 1)
  {
  }

  /** A joined word is twice a shorter joined word plus its last bit. */
  lemma JoinStep(a: nat, b: nat, n: nat)
    requires n > 0
    ensures Shl(a, n) + b == 2 * (Shl(a, n - 1) + b / 2) + b % 2
  {
  }

  lemma AndDigit(x: nat, y: nat, a: nat, b: nat)
    requires a <= 1 && b <= 1
    ensures And(2 * x + a, 2 * y + b) == 2 * And(x, y) + if a == 1 && b == 1 then 1 else 0
  {
  }

  lemma OrDigit(x: nat, y: nat, a: nat, b: nat)
    requires a <= 1 && b <= 1
    ensures Or(2 * x + a, 2 * y + b) == 2 * Or(x, y) + if a == 1 || b == 1 then 1 else 0
  {
  }

  lemma NoLowPart(a: nat, b: nat, c: nat, d: nat)
    requires b < Pow2(0) && d < Pow2(0)
    ensures And(Shl(a, 0) + b, Shl(c, 0) + d) == Shl(And(a, c), 0) + And(b, d)
    ensures Or(Shl(a, 0) + b, Shl(c, 0) + d) == Shl(Or(a, c), 0) + Or(b, d)
  {
  }

  /** Masks and joins work on the parts of words separately. */
  lemma {:induction false} AndParts(a: nat, b: nat, c: nat, d: nat, n: nat)
    requires b < Pow2(n) && d < Pow2(n)
    ensures And(Shl(a, n) + b, Shl(c, n) + d) == Shl(And(a, c), n) + And(b, d)
  {
    hide And, Shl, Pow2;
    if n == 0 {
      NoLowPart(a, b, c, d);
    } else {
      Halve(b, n);
      Halve(d, n);
      AndParts(a, b / 2, c, d / 2, n - 1);
      JoinStep(a, b, n);
      JoinStep(c, d, n);
      JoinStep(And(a, c), 0, n);
      AndDigit(Shl(a, n - 1) + b / 2, Shl(c, n - 1) + d / 2, b % 2, d % 2);
      AndDigit(b / 2, d / 2, b % 2, d % 2);
    }
  }

  lemma {:induction false} OrParts(a: nat, b: nat, c: nat, d: nat, n: nat)
    requires b < Pow2(n) && d < Pow2(n)
    ensures Or(Shl(a, n) + b, Shl(c, n) + d) == Shl(Or(a, c), n) + Or(b, d)
  {
    hide Or, Shl, Pow2;
    if n == 0 {
      NoLowPart(a, b, c, d);
    } else {
      Halve(b, n);
      Halve(d, n);
      OrParts(a, b / 2, c, d / 2, n - 1);
      JoinStep(a, b, n);
      JoinStep(c, d, n);
      JoinStep(Or(a, c), 0, n);
      OrDigit(Shl(a, n - 1) + b / 2, Shl(c, n - 1) + d / 2, b % 2, d % 2);
      OrDigit(b / 2, d / 2, b % 2, d % 2);
    }
  }

  lemma {:induction false} OrCommutes(x: nat, y: nat)
    ensures Or(x, y) == Or(y, x)
  {
    if x != 0 && y != 0 {
      OrCommutes(x / 2, y / 2);
    }
  }

  lemma {:induction false} ShlLow(x: nat, n: nat, s: nat)
    ensures Low(Shl(x, s), n + s) == Shl(Low(x, n), s)
  {
    if s > 0 {
      ShlLow(x, n, s - 1);
    }
  }

  lemma {:induction false} HighBound(x: nat, k: nat, n: nat)
    requires x < Pow2(k + n)
    ensures Shr(x, k) < Pow2(n)
  {
    if k > 0 {
      HighBound(x / 2, k - 1, n);
    }
  }

  lemma {:induction false} LowTwice(x: nat, m: nat, n: nat)
    requires n <= m
    ensures Low(Low(x, m), n) == Low(x, n)
  {
    if n > 0 {
      LowTwice(x / 2, m - 1, n - 1);
    }
  }

  // ---- Single bits -----------------------------------------------------------------------

  predicate Bit(x: nat, i: nat) {
    Shr(x, i) % 2 == 1
  }

  lemma {:induction false} BitOr(x: nat, y: nat, i: nat)
    ensures Bit(Or(x, y), i) == (Bit(x, i) || Bit(y, i))
  {
    if x == 0 || y == 0 {
      ShrZero(i);
    } else if i > 0 {
      BitOr(x / 2, y / 2, i - 1);
    }
  }

  /** The bits of x that are zero in y. */
  function Without(x: nat, y: nat): nat {
    if x == 0 then 0
    else (if x % 2 == 1 && y % 2 == 0 then 1 else 0) + 2 * Without(x / 2, y / 2)
  }

  lemma {:induction false} BitWithout(x: nat, y: nat, i: nat)
    ensures Bit(Without(x, y), i) == (Bit(x, i) && !Bit(y, i))
    ensures Without(x, y) <= x
  {
    if x == 0 {
      ShrZero(i);
    } else if i > 0 {
      BitWithout(x / 2, y / 2, i - 1);
    } else {
      WithoutBound(x, y);
    }
  }

  lemma {:induction false} WithoutBound(x: nat, y: nat)
    ensures Without(x, y) <= x
  {
    if x != 0 {
      WithoutBound(x / 2, y / 2);
    }
  }

  /** A word with a single one bit. */
  lemma {:induction false} BitOne(k: nat, i: nat)
    ensures Bit(Shl(1, k), i) == (i == k)
  {
    if i > 0 {
      if k > 0 {
        BitOne(k - 1, i - 1);
      } else {
        ShrZero(i - 1);
      }
    }
  }

  /** Masking with a single bit tests it. */
  lemma {:induction false} BitTest(x: nat, k: nat)
    ensures And(x, Shl(1, k)) != 0 <==> Bit(x, k)
  {
    if x == 0 {
      ShrZero(k);
    } else if k > 0 {
      BitTest(x / 2, k - 1);
      assert Shl(1, k) / 2 == Shl(1, k - 1) && Shl(1, k) % 2 == 0;
    } else {
      assert And(x / 2, 0) == 0;
    }
  }

  lemma {:induction false} ShrZero(i: nat)
    ensures Shr(0, i) == 0
  {
    if i > 0 {
      ShrZero(i - 1);
    }
  }

  lemma {:induction false} ShrSmall(x: nat, n: nat)
    requires x < Pow2(n)
    ensures Shr(x, n) == 0
  {
    if n > 0 {
      ShrSmall(x / 2, n - 1);
    }
  }

  /** The bits of a joined word are those of its low part and then those of its high part. */
  lemma {:induction false} BitJoin(a: nat, b: nat, n: nat, i: nat)
    requires b < Pow2(n)
    ensures Bit(Shl(a, n) + b, i) == if i < n then Bit(b, i) else Bit(a, i - n)
  {
    if n > 0 {
      assert (Shl(a, n) + b) / 2 == Shl(a, n - 1) + b / 2;
      if i > 0 {
        BitJoin(a, b / 2, n - 1, i - 1);
      }
    }
  }

  /** Two words of n bits are equal when their bits are. */
  lemma {:induction false} SameBits(x: nat, y: nat, n: nat)
    requires x < Pow2(n) && y < Pow2(n)
    requires forall i: nat | i < n :: Bit(x, i) == Bit(y, i)
    ensures x == y
  {
    if n > 0 {
      assert Bit(x, 0) == Bit(y, 0);
      forall i: nat | i < n - 1 ensures Bit(x / 2, i) == Bit(y / 2, i) {
        assert Bit(x, i + 1) == Bit(y, i + 1);
      }
      SameBits(x / 2, y / 2, n - 1);
    }
  }

  /** The number of one bits. */
  function Ones(x: nat): nat {
    if x == 0 then 0 else x % 2 + Ones(x / 2)
  }

  lemma {:induction false} OnesJoin(a: nat, b: nat, n: nat)
    requires b < Pow2(n)
    ensures Ones(Shl(a, n) + b) == Ones(a) + Ones(b)
  {
    if n > 0 {
      var x := Shl(a, n) + b;
      assert x / 2 == Shl(a, n - 1) + b / 2 && x % 2 == b % 2;
      OnesJoin(a, b / 2, n - 1);
    }
  }

  // ---- Shifts and masks as division ------------------------------------------------------

  lemma {:induction false} ShlTimes(x: nat, n: nat)
    ensures Shl(x, n) == Pow2(n) * x
  {
    if n > 0 {
      ShlTimes(x, n - 1);
      assert Pow2(n) * x == 2 * (Pow2(n - 1) * x);
    }
  }

  lemma Euclid(x: int, p: int)
    requires p > 0
    ensures x == p * (x / p) + x % p && 0 <= x % p < p
  {
  }

  lemma {:induction false} Gap(p: int, q: int, a: int)
    requires p > 0 && q < a
    ensures p * q + p <= p * a
    decreases a - q
  {
    assert p * a == p * (a - 1) + p;
    if q < a - 1 {
      Gap(p, q, a - 1);
    }
  }

  /** Quotient and remainder are the only such pair. */
  lemma {:induction false} DivMod(x: int, p: int, q: int, r: int)
    requires 0 <= r < p && x == p * q + r
    ensures x / p == q && x % p == r
  {
    Euclid(x, p);
    if q < x / p {
      Gap(p, q, x / p);
    } else if x / p < q {
      Gap(p, x / p, q);
    }
  }

  /** Shifting right divides by a power of two, and the low bits are the remainder. */
  lemma {:induction false} Division(x: nat, n: nat)
    ensures Shr(x, n) == x / Pow2(n) && Low(x, n) == x % Pow2(n)
  {
    Parts(x, n);
    ShlTimes(Shr(x, n), n);
    DivMod(x, Pow2(n), Shr(x, n), Low(x, n));
  }

  lemma WrapLow(x: nat)
    ensures Wrap(x) == Low(x, 32)
  {
    Pow2Values();
    Division(x, 32);
  }
}
