/** Offset arithmetic in GF(2^128) with the reduction constant 0x87
    (gf_mul2, gf_mul3, gf_mul7 in src/colm.c and src/colm_parallel.c). */
module GaloisField {
  import opened Blocks

  /** One lane shifted left by one bit (the top bit falls off). */
  function Shl1(b: bv8): bv8
  {
    b << 1
  }

  /** Lane i < 15 of a doubled block: the lane shifted left with the top bit
      of the next (less significant) lane carried in. */
  function Dbl(cur: bv8, next: bv8): bv8
  {
    (cur << 1) | (next >> 7)
  }

  /** The reduction term: 0x87 when the bit shifted out of lane 0 was set. */
  function Reduce(top: bv8): bv8
  {
    if top & 0x80 != 0 then 0x87 else 0
  }

  /** Multiplication by x in GF(2^128) with the reduction constant 0x87.
      Every lane is shifted left one bit; lane i < 15 takes the top bit of
      lane i + 1, and lane 15 takes 0x87 exactly when the top bit of lane 0
      was set. */
  function Doubled(x: Block): Block
  {
    seq(16, i requires 0 <= i < 16 => if i < 15 then Dbl(x[i], x[i + 1]) else Shl1(x[15]) ^ Reduce(x[0]))
  }

  /** 2^k x: k successive doublings. */
  function Doublings(x: Block, k: nat): Block
    decreases k
  {
    if k == 0 then x else Doublings(Doubled(x), k - 1)
  }

  /** `gf_mul2`: one doubling. */
  function Mul2(x: Block): Block
  {
    Doublings(x, 1)
  }

  lemma Mul2IsDoubled(x: Block)
    ensures Mul2(x) == Doubled(x)
  {
    assert Doublings(Doubled(x), 0) == Doubled(x);
  }

  /** One more doubling of 2^k x is 2^(k+1) x: what a loop that applies
      `gf_mul2` once per block reaches. */
  lemma {:induction false} DoublingsMore(x: Block, k: nat)
    ensures Doublings(x, k + 1) == Mul2(Doublings(x, k))
    decreases k
  {
    if k == 0 {
      assert Doublings(Doubled(x), 0) == Doubled(x);
    } else {
      DoublingsMore(Doubled(x), k - 1);
    }
  }

  /** `gf_mul3`: 2x + x. */
  function Mul3(x: Block): Block
  {
    Xor(Mul2(x), x)
  }

  /** `gf_mul7`: 2(2x) + 2x + x. */
  function Mul7(x: Block): Block
  {
    var t := Mul2(x);
    Xor(Xor(Mul2(t), t), x)
  }

  /** `vreinterpretq_u8_s8(vshrq_n_s8(x, 7))`: 0xFF in every lane whose top bit is set. */
  function SignMask(x: Block): Block
  {
    seq(16, i requires 0 <= i < 16 => if (x[i] & 0x80) != 0 then 0xFF else 0)
  }

  /** `vshlq_n_u8(x, 1)`. */
  function ShiftLanes(x: Block): Block
  {
    seq(16, i requires 0 <= i < 16 => Shl1(x[i]))
  }

  /** `vextq_u8(a, zero_vector, 1)`: lanes move down by one, a zero enters lane 15. */
  function ExtractNext(a: Block): Block
  {
    seq(16, i requires 0 <= i < 16 => if i < 15 then a[i + 1] else 0)
  }

  /** `vdupq_laneq_u8(a, 0)`. */
  function Broadcast0(a: Block): Block
  {
    seq(16, i requires 0 <= i < 16 => a[0])
  }

  function And(a: Block, b: Block): Block
  {
    seq(16, i requires 0 <= i < 16 => a[i] & b[i])
  }

  function Or(a: Block, b: Block): Block
  {
    seq(16, i requires 0 <= i < 16 => a[i] | b[i])
  }

  /** `{1,1,...,1,0}`: the carry mask. */
  const CarryMask: Block := [1, 1, 1, 1, 1, 1, 1, 1, 1, 1, 1, 1, 1, 1, 1, 0]

  /** `{0,...,0,0x87}`: the reduction constant in the least significant lane. */
  const Reduction: Block := [0, 0, 0, 0, 0, 0, 0, 0, 0, 0, 0, 0, 0, 0, 0, 0x87]

  /** The body of `gf_mul2` step for step, as the NEON intrinsics compute it. */
  function Mul2Neon(x: Block): Block
  {
    var temp := SignMask(x);
    var x64 := Or(ShiftLanes(x), And(ExtractNext(temp), CarryMask));
    Xor(x64, And(Broadcast0(temp), Reduction))
  }

  lemma MaskLanes()
    ensures forall i | 0 <= i < 15 :: CarryMask[i] == 1 && Reduction[i] == 0
    ensures CarryMask[15] == 0 && Reduction[15] == 0x87
  {
  }

  lemma NeonCarryLane(x: Block, i: int)
    requires 0 <= i < 15
    ensures Mul2Neon(x)[i] == Doubled(x)[i]
  {
    MaskLanes();
  }

  lemma NeonReduceLane(x: Block)
    ensures Mul2Neon(x)[15] == Doubled(x)[15]
  {
    MaskLanes();
  }

  /** The NEON sequence of `gf_mul2` (sign mask, lane shift, carry from the
      next lane, conditional 0x87 in lane 15) computes the doubling. */
  lemma Mul2NeonIsMul2(x: Block)
    ensures Mul2Neon(x) == Mul2(x)
  {
    Mul2IsDoubled(x);
    forall i | 0 <= i < 16 ensures Mul2Neon(x)[i] == Mul2(x)[i] {
      if i < 15 {
        NeonCarryLane(x, i);
      } else {
        NeonReduceLane(x);
      }
    }
  }

  /** What `gf_mul2` computes, lane by lane. */
  lemma Mul2Lanes(x: Block)
    ensures forall i | 0 <= i < 15 :: Mul2(x)[i] == (x[i] << 1) | (x[i + 1] >> 7)
    ensures Mul2(x)[15] == (x[15] << 1) ^ (if x[0] & 0x80 != 0 then 0x87 else 0)
  {
    Mul2IsDoubled(x);
  }

  /** A lane of the halved block: the lane shifted right with the low bit of
      the previous (more significant) lane carried in. */
  function Join(prev: bv8, cur: bv8): bv8
  {
    ((prev & 1) << 7) | (cur >> 1)
  }

  /** Undo the reduction in lane 15: an odd lane 15 means 0x87 was added. */
  function Unreduce(v: bv8): bv8
  {
    if v & 1 == 1 then v ^ 0x87 else v
  }

  /** Division by x in GF(2^128). The bit shifted out of lane 0 is read back
      from bit 0 of lane 15 (0x87 is odd). */
  function Half(y: Block): Block
  {
    seq(16, i requires 0 <= i < 16 =>
      if i == 0 then Join(y[15], y[0])
      else if i < 15 then Join(y[i - 1], y[i])
      else Join(y[14], Unreduce(y[15])))
  }

  // Single-lane facts about bytes, from which the block lemmas follow.

  lemma JoinOfDoubled(a: bv8, b: bv8, c: bv8)
    ensures Join(Dbl(a, b), Dbl(b, c)) == b
  {
  }

  lemma JoinOfReduced(a: bv8, b: bv8, e: bv8)
    ensures Join(Shl1(e) ^ Reduce(a), Dbl(a, b)) == a
  {
  }

  lemma JoinOfUnreduced(a: bv8, e: bv8, f: bv8)
    ensures Join(Dbl(a, e), Unreduce(Shl1(e) ^ Reduce(f))) == e
  {
  }

  lemma DoubledOfJoin(p: bv8, cur: bv8, next: bv8)
    ensures Dbl(Join(p, cur), Join(cur, next)) == cur
  {
  }

  lemma ReducedOfJoin(p: bv8, v: bv8, q: bv8)
    ensures Shl1(Join(p, Unreduce(v))) ^ Reduce(Join(v, q)) == v
  {
  }

  lemma HalfMul2Lane(x: Block, i: int)
    requires 0 <= i < 16
    ensures Half(Doubled(x))[i] == x[i]
  {
    if i == 0 {
      JoinOfReduced(x[0], x[1], x[15]);
    } else if i < 15 {
      JoinOfDoubled(x[i - 1], x[i], x[i + 1]);
    } else {
      JoinOfUnreduced(x[14], x[15], x[0]);
    }
  }

  lemma Mul2HalfLane(y: Block, i: int)
    requires 0 <= i < 16
    ensures Doubled(Half(y))[i] == y[i]
  {
    if i == 0 {
      DoubledOfJoin(y[15], y[0], y[1]);
    } else if i < 14 {
      DoubledOfJoin(y[i - 1], y[i], y[i + 1]);
    } else if i == 14 {
      DoubledOfJoin(y[13], y[14], Unreduce(y[15]));
    } else {
      ReducedOfJoin(y[14], y[15], y[0]);
    }
  }

  /** Doubling is a bijection on blocks: halving undoes it and it undoes halving. */
  lemma HalfMul2(x: Block, y: Block)
    ensures Half(Mul2(x)) == x
    ensures Mul2(Half(y)) == y
  {
    Mul2IsDoubled(x);
    Mul2IsDoubled(Half(y));
    forall i | 0 <= i < 16 ensures Half(Doubled(x))[i] == x[i] {
      HalfMul2Lane(x, i);
    }
    forall i | 0 <= i < 16 ensures Doubled(Half(y))[i] == y[i] {
      Mul2HalfLane(y, i);
    }
  }

  lemma Mul2XorLane(a: Block, b: Block, i: int)
    requires 0 <= i < 16
    ensures Doubled(Xor(a, b))[i] == Xor(Doubled(a), Doubled(b))[i]
  {
  }

  /** Doubling is linear: it distributes over XOR. */
  lemma Mul2Xor(a: Block, b: Block)
    ensures Mul2(Xor(a, b)) == Xor(Mul2(a), Mul2(b))
  {
    Mul2IsDoubled(Xor(a, b));
    Mul2IsDoubled(a);
    Mul2IsDoubled(b);
    forall i | 0 <= i < 16 ensures Doubled(Xor(a, b))[i] == Xor(Doubled(a), Doubled(b))[i] {
      Mul2XorLane(a, b, i);
    }
  }

  /** 7x = 2(3x) + x: septupling is doubling the triple and adding the input. */
  lemma Mul7IsDoubledTriple(x: Block)
    ensures Mul7(x) == Xor(Mul2(Mul3(x)), x)
  {
    Mul2Xor(Mul2(x), x);
  }

  // Doubling has no fixed point but zero, so tripling is injective.

  /** A lane that doubling leaves unchanged, with no bit carried in, is zero. */
  lemma CarryLaneFixed(a: bv8, b: bv8)
    requires Dbl(a, b) == a && b & 0x80 == 0
    ensures a == 0
  {
  }

  /** Lane 15 unchanged by doubling has a clear top bit, and is zero when no
      reduction was added. */
  lemma ReduceLaneFixed(e: bv8, f: bv8)
    requires Shl1(e) ^ Reduce(f) == e
    ensures e & 0x80 == 0
    ensures f & 0x80 == 0 ==> e == 0
  {
  }

  /** Lanes i .. 14 of a block that doubling leaves unchanged are zero. */
  lemma {:induction false} FixedLanesFrom(d: Block, i: nat)
    requires Mul2(d) == d && i < 15
    ensures forall j | i <= j < 15 :: d[j] == 0
    decreases 15 - i
  {
    Mul2Lanes(d);
    ReduceLaneFixed(d[15], d[0]);
    if i == 14 {
      CarryLaneFixed(d[14], d[15]);
    } else {
      FixedLanesFrom(d, i + 1);
      CarryLaneFixed(d[i], d[i + 1]);
    }
  }

  /** 2x = x only for x = 0: the fixed point of doubling. */
  lemma Mul2FixedIsZero(d: Block)
    requires Mul2(d) == d
    ensures d == Zero
  {
    FixedLanesFrom(d, 0);
    Mul2Lanes(d);
    ReduceLaneFixed(d[15], d[0]);
    assert forall i | 0 <= i < 16 :: d[i] == Zero[i];
  }

  /** `gf_mul3` is injective: 3 is invertible in GF(2^128). */
  lemma Mul3Injective(a: Block, b: Block)
    requires Mul3(a) == Mul3(b)
    ensures a == b
  {
    var d := Xor(a, b);
    Mul2Xor(a, b);
    XorRearrange(Mul2(a), a, Mul2(b), b);
    Mul2FixedIsZero(d);
    XorZeroIff(a, b);
  }
}
