/** The C forms of the saturating instructions, on mathematical integers with the C widths written out. */
module Saturation {

  import opened Words

  function Ssat(val: Int32, sat: Uint32): (r: Int32) {
    if 1 <= sat <= 32 then
      Pow2Monotone(sat - 1, 31);
      Pow2Values();
      var max: Int32 := Pow2(sat - 1) - 1;
      var min: Int32 := -1 - max;
      if val > max then max else if val < min then min else val
    else
      val
  }

  function Usat(val: Int32, sat: Uint32): (r: Uint32) {
    if sat <= 31 then
      Pow2Monotone(sat, 31);
      Pow2Values();
      var max: Uint32 := Pow2(sat) - 1;
      if val > max then max else if val < 0 then 0 else val
    else
      val % 0x1_0000_0000
  }

  ghost predicate InSigned(n: int, sat: nat)
    requires sat >= 1
  {
    0 <= n + Pow2(sat - 1) && n < Pow2(sat - 1)
  }

  ghost predicate InUnsigned(n: int, sat: nat) {
    0 <= n < Pow2(sat)
  }

  function Distance(m: int, n: int): nat {
    if m < n then n - m else m - n
  }

  /** The result is the one number of the given width that lies nearest to the value. */
  lemma SsatNearest(val: Int32, sat: Uint32, n: int)
    requires 1 <= sat <= 32 && InSigned(n, sat)
    ensures InSigned(Ssat(val, sat), sat)
    ensures n != Ssat(val, sat) ==> Distance(val, Ssat(val, sat)) < Distance(val, n)
  {
  }

  lemma UsatNearest(val: Int32, sat: Uint32, n: int)
    requires sat <= 31 && InUnsigned(n, sat)
    ensures InUnsigned(Usat(val, sat), sat)
    ensures n != Usat(val, sat) ==> Distance(val, Usat(val, sat)) < Distance(val, n)
  {
  }

  function Min(m: int, n: int): int {
    if m < n then m else n
  }

  /** Saturating twice is saturating once to the narrower width, in whichever order. */
  lemma SsatSsat(val: Int32, a: Uint32, b: Uint32)
    requires 1 <= a <= 32 && 1 <= b <= 32
    ensures Ssat(Ssat(val, a), b) == Ssat(val, Min(a, b))
  {
    Pow2Monotone(Min(a, b) - 1, a - 1);
    Pow2Monotone(Min(a, b) - 1, b - 1);
  }

  lemma UsatFits(val: Int32, a: Uint32)
    requires a <= 31
    ensures Usat(val, a) < 0x8000_0000
  {
    Pow2Monotone(a, 31);
    Pow2Values();
  }

  lemma UsatUsat(val: Int32, a: Uint32, b: Uint32)
    requires a <= 31 && b <= 31
    ensures Usat(val, a) < 0x8000_0000
    ensures Usat(Usat(val, a), b) == Usat(val, Min(a, b))
  {
    UsatFits(val, a);
    Pow2Monotone(Min(a, b), a);
    Pow2Monotone(Min(a, b), b);
  }

  /** A signed width leaves room for one bit less of the unsigned one. */
  lemma UsatSsat(val: Int32, a: Uint32, b: Uint32)
    requires 1 <= a <= 32 && b <= 31
    ensures Usat(Ssat(val, a), b) == Usat(val, Min(a - 1, b))
  {
    Pow2Monotone(Min(a - 1, b), a - 1);
    Pow2Monotone(Min(a - 1, b), b);
  }

  lemma SaturationMonotone(v: Int32, w: Int32, sat: Uint32)
    requires v <= w
    ensures Ssat(v, sat) <= Ssat(w, sat)
    ensures sat <= 31 ==> Usat(v, sat) <= Usat(w, sat)
  {
  }

  /** Monotonicity of __USAT stops exactly at the documented widths: beyond 31 a negative value wraps. */
  lemma UsatWidths(sat: Uint32)
    ensures (forall v: Int32, w: Int32 :: v <= w ==> Usat(v, sat) <= Usat(w, sat)) <==> sat <= 31
  {
    if sat <= 31 {
      forall v: Int32, w: Int32 | v <= w ensures Usat(v, sat) <= Usat(w, sat) {
        SaturationMonotone(v, w, sat);
      }
    } else {
      assert Usat(-1, sat) > Usat(0, sat);
    }
  }
}
