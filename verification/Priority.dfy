/** Priority words: how software packs a preempt and a sub field and how the hardware splits them again. */
module Priority {
  import opened Words

  /** The number of priority bits a device implements. */
  type PrioBits = n: nat | 1 <= n <= 8 witness 4

  function Group(priorityGroup: Uint32): nat {
    And(priorityGroup, 7)
  }

  lemma GroupValue(g: Uint32)
    ensures Group(g) == g % 8
  {
    assert Pow2(3) == 8;
    AndMask(g, 3);
    Division(g, 3);
  }

  function PreemptBits(bits: PrioBits, g: Uint32): nat {
    GroupValue(g);
    if 7 - Group(g) > bits then bits else 7 - Group(g)
  }

  /** The subtraction wraps below zero when the group is under 7; the addition wraps back. */
  function SubBits(bits: PrioBits, g: Uint32): nat {
    if Group(g) + bits < 7 then 0 else Wrap(Wrap(Group(g) - 7) + bits)
  }

  lemma BitsAddUp(bits: PrioBits, g: Uint32)
    ensures PreemptBits(bits, g) + SubBits(bits, g) == bits
    ensures Group(g) <= 7
    ensures if Group(g) + bits < 7 then SubBits(bits, g) == 0 else PreemptBits(bits, g) == 7 - Group(g)
  {
    GroupValue(g);
  }

  function Mask(n: nat): nat {
    Pow2(n) - 1
  }

  function Encode(bits: PrioBits, g: Uint32, preempt: nat, sub: nat): nat {
    Or(Shl(And(preempt, Mask(PreemptBits(bits, g))), SubBits(bits, g)), And(sub, Mask(SubBits(bits, g))))
  }

  function DecodedPreempt(bits: PrioBits, priority: nat, g: Uint32): nat {
    Low(Shr(priority, SubBits(bits, g)), PreemptBits(bits, g))
  }

  function DecodedSub(bits: PrioBits, priority: nat, g: Uint32): nat {
    Low(priority, SubBits(bits, g))
  }

  method Decode(bits: PrioBits, priority: Uint32, g: Uint32) returns (preempt: nat, sub: nat)
    ensures preempt == DecodedPreempt(bits, priority, g)
    ensures sub == DecodedSub(bits, priority, g)
  {
    var preemptBits := PreemptBits(bits, g);
    var subBits := SubBits(bits, g);
    AndMask(Shr(priority, subBits), preemptBits);
    preempt := And(Shr(priority, subBits), Pow2(preemptBits) - 1);
    AndMask(priority, subBits);
    sub := And(priority, Pow2(subBits) - 1);
  }

  /** A preempt or sub value cut down to the width its field has. */
  function PreemptField(bits: PrioBits, g: Uint32, preempt: nat): (f: nat)
    ensures f < Pow2(PreemptBits(bits, g))
  {
    Parts(preempt, PreemptBits(bits, g));
    Low(preempt, PreemptBits(bits, g))
  }

  function SubField(bits: PrioBits, g: Uint32, sub: nat): (f: nat)
    ensures f < Pow2(SubBits(bits, g))
  {
    Parts(sub, SubBits(bits, g));
    Low(sub, SubBits(bits, g))
  }

  /** The encoded word is the preempt field above the sub field. */
  lemma EncodeValue(bits: PrioBits, g: Uint32, p: nat, s: nat)
    ensures Encode(bits, g, p, s) == Shl(PreemptField(bits, g, p), SubBits(bits, g)) + SubField(bits, g, s)
  {
    hide PreemptBits, SubBits;
    AndMask(p, PreemptBits(bits, g));
    AndMask(s, SubBits(bits, g));
    OrJoin(PreemptField(bits, g, p), SubField(bits, g, s), SubBits(bits, g));
  }

  /** It has no more bits than the device implements. */
  lemma EncodeBound(bits: PrioBits, g: Uint32, p: nat, s: nat)
    ensures Encode(bits, g, p, s) < Pow2(bits) <= 0x100
  {
    EncodeValue(bits, g, p, s);
    BitsAddUp(bits, g);
    ShlBound(PreemptField(bits, g, p), PreemptBits(bits, g), SubBits(bits, g));
    Pow2Monotone(bits, 8);
    Pow2Values();
  }

  /** Decoding an encoded pair gives the pair cut down to the widths of the fields. */
  lemma DecodeEncode(bits: PrioBits, g: Uint32, p: nat, s: nat)
    ensures DecodedPreempt(bits, Encode(bits, g, p, s), g) == PreemptField(bits, g, p)
    ensures DecodedSub(bits, Encode(bits, g, p, s), g) == SubField(bits, g, s)
  {
    hide PreemptBits, SubBits;
    EncodeValue(bits, g, p, s);
    PartsUnique(PreemptField(bits, g, p), SubField(bits, g, s), SubBits(bits, g));
    LowSmall(PreemptField(bits, g, p), PreemptBits(bits, g));
  }

  lemma Recut(v: nat, m: nat, n: nat)
    ensures Shl(Low(Low(Shr(v, n), m), m), n) + Low(Low(v, n), n) == Low(v, m + n)
  {
    LowTwice(Shr(v, n), m, m);
    LowTwice(v, n, n);
    LowLow(v, m, n);
  }

  /** Encoding a decoded priority gives back its implemented bits. */
  lemma {:induction false} EncodeDecode(bits: PrioBits, g: Uint32, v: nat)
    ensures Encode(bits, g, DecodedPreempt(bits, v, g), DecodedSub(bits, v, g)) == Low(v, bits)
  {
    hide PreemptBits, SubBits, Encode, Low, Shl, Shr;
    EncodeValue(bits, g, DecodedPreempt(bits, v, g), DecodedSub(bits, v, g));
    Recut(v, PreemptBits(bits, g), SubBits(bits, g));
    BitsAddUp(bits, g);
  }

  /** The order of pairs in which the preempt field counts first; lower is more urgent. */
  predicate Before(a: nat, b: nat, c: nat, d: nat) {
    a < c || (a == c && b < d)
  }

  /** Encoded priorities are ordered as the pairs of their fields are. */
  lemma EncodeOrder(bits: PrioBits, g: Uint32, p: nat, s: nat, q: nat, t: nat)
    ensures Encode(bits, g, p, s) < Encode(bits, g, q, t) <==>
            Before(PreemptField(bits, g, p), SubField(bits, g, s), PreemptField(bits, g, q), SubField(bits, g, t))
  {
    hide PreemptBits, SubBits, Encode;
    EncodeValue(bits, g, p, s);
    EncodeValue(bits, g, q, t);
    JoinOrder(PreemptField(bits, g, p), SubField(bits, g, s),
              PreemptField(bits, g, q), SubField(bits, g, t), SubBits(bits, g));
  }

  // ---- The priority byte and the hardware ------------------------------------------------

  /** The byte that holds a priority: its implemented bits are the top ones. */
  function Stored(bits: PrioBits, priority: nat): (b: Byte)
    ensures b == Shl(Low(priority, bits), 8 - bits)
  {
    StoredValue(bits, priority);
    And(Wrap(Shl(priority, 8 - bits)), 0xFF)
  }

  lemma StoredValue(bits: PrioBits, priority: nat)
    ensures And(Wrap(Shl(priority, 8 - bits)), 0xFF) == Shl(Low(priority, bits), 8 - bits) < 0x100
  {
    var shifted := Shl(priority, 8 - bits);
    Pow2Values();
    AndMask(Wrap(shifted), 8);
    WrapLow(shifted);
    LowTwice(shifted, 32, 8);
    ShlLow(priority, bits, 8 - bits);
    Parts(shifted, 8);
  }

  function Loaded(bits: PrioBits, stored: Byte): nat {
    Shr(stored, 8 - bits)
  }

  lemma {:induction false} LoadedStored(bits: PrioBits, priority: nat)
    ensures Loaded(bits, Stored(bits, priority)) == Low(priority, bits) == priority % Pow2(bits)
  {
    PartsUnique(Low(priority, bits), 0, 8 - bits);
    Division(priority, bits);
  }

  /** The hardware's group priority: the bits of the byte above bit PRIGROUP. */
  function GroupPriority(stored: Byte, g: Uint32): nat {
    Shr(stored, Group(g) + 1)
  }

  /** The hardware lets an exception interrupt another exactly when its group priority is lower. */
  predicate Preempts(stored: Byte, other: Byte, g: Uint32) {
    GroupPriority(stored, g) < GroupPriority(other, g)
  }

  lemma StoredEncoding(bits: PrioBits, g: Uint32, p: nat, s: nat)
    ensures Stored(bits, Encode(bits, g, p, s)) == Shl(Encode(bits, g, p, s), 8 - bits)
  {
    hide Encode;
    EncodeBound(bits, g, p, s);
    LowSmall(Encode(bits, g, p, s), bits);
  }

  lemma GroupAlone(a: nat, up: nat, down: nat)
    requires down <= up
    ensures Shr(Shl(a, up), down) == Shl(a, up - down)
  {
    ShlShl(a, up - down, down);
    PartsUnique(Shl(a, up - down), 0, down);
  }

  lemma GroupAboveSub(a: nat, b: nat, n: nat, up: nat)
    requires b < Pow2(n)
    ensures Shr(Shl(Shl(a, n) + b, up), n + up) == a
  {
    ShlAdd(Shl(a, n), b, up);
    ShlShl(a, n, up);
    ShlBound(b, n, up);
    PartsUnique(a, Shl(b, up), n + up);
  }

  /** The preempt field fills the hardware's group priority from the top. */
  lemma StoredGroup(bits: PrioBits, g: Uint32, p: nat, s: nat)
    ensures PreemptBits(bits, g) <= 7 - Group(g)
    ensures GroupPriority(Stored(bits, Encode(bits, g, p, s)), g)
         == Shl(PreemptField(bits, g, p), 7 - Group(g) - PreemptBits(bits, g))
  {
    hide PreemptBits, SubBits, Group, Encode;
    BitsAddUp(bits, g);
    StoredEncoding(bits, g, p, s);
    EncodeValue(bits, g, p, s);
    if Group(g) + bits < 7 {
      GroupAlone(PreemptField(bits, g, p), 8 - bits, Group(g) + 1);
    } else {
      GroupAboveSub(PreemptField(bits, g, p), SubField(bits, g, s), SubBits(bits, g), 8 - bits);
    }
  }

  /** Of two stored encodings, the hardware lets the first preempt the second exactly when its
      preempt field is lower. */
  lemma HardwarePreempts(bits: PrioBits, g: Uint32, p: nat, s: nat, q: nat, t: nat)
    ensures Preempts(Stored(bits, Encode(bits, g, p, s)), Stored(bits, Encode(bits, g, q, t)), g)
       <==> PreemptField(bits, g, p) < PreemptField(bits, g, q)
  {
    hide PreemptBits, SubBits, Group, Encode, Stored, GroupPriority;
    StoredGroup(bits, g, p, s);
    StoredGroup(bits, g, q, t);
    ShlOrder(PreemptField(bits, g, p), PreemptField(bits, g, q), 7 - Group(g) - PreemptBits(bits, g));
  }

  /** And it ranks the first ahead exactly when its pair of fields comes first. */
  lemma {:induction false} HardwareRanks(bits: PrioBits, g: Uint32, p: nat, s: nat, q: nat, t: nat)
    ensures Stored(bits, Encode(bits, g, p, s)) < Stored(bits, Encode(bits, g, q, t))
       <==> Before(PreemptField(bits, g, p), SubField(bits, g, s), PreemptField(bits, g, q), SubField(bits, g, t))
  {
    hide PreemptBits, SubBits, Group, Encode, Stored;
    EncodeOrder(bits, g, p, s, q, t);
    StoredEncoding(bits, g, p, s);
    StoredEncoding(bits, g, q, t);
    ShlOrder(Encode(bits, g, p, s), Encode(bits, g, q, t), 8 - bits);
  }

  lemma {:induction false} ShrMonotone(x: nat, y: nat, n: nat)
    requires x <= y
    ensures Shr(x, n) <= Shr(y, n)
  {
    if n > 0 {
      ShrMonotone(x / 2, y / 2, n - 1);
    }
  }

  /** Raising the group number only ever takes preemptions away, and never reverses one. */
  lemma CoarserGroup(x: Byte, y: Byte, g: Uint32, h: Uint32)
    requires Group(g) <= Group(h)
    ensures Preempts(x, y, h) ==> Preempts(x, y, g)
    ensures Preempts(x, y, g) ==> !Preempts(y, x, h)
  {
    var k := Group(h) - Group(g);
    ShrShr(x, Group(g) + 1, k);
    ShrShr(y, Group(g) + 1, k);
    if GroupPriority(x, g) >= GroupPriority(y, g) {
      ShrMonotone(GroupPriority(y, g), GroupPriority(x, g), k);
    } else {
      ShrMonotone(GroupPriority(x, g), GroupPriority(y, g), k);
    }
  }
}
