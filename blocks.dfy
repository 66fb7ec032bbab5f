/** 128-bit blocks as the NEON code holds them in a `uint8x16_t`: sixteen byte
    lanes, lane 0 the most significant byte of the field element. */
module Blocks {

  const BlockSize := 16

  /** The modulus of the C code's `uint64_t` lengths and counters. */
  const U64: nat := 0x1_0000_0000_0000_0000

  type Block = s: seq<bv8> | |s| == 16 witness seq(16, _ => 0)

  /** The all-zero block (`zero_vector`, and every `{0,...,0}` initialiser). */
  const Zero: Block := [0, 0, 0, 0, 0, 0, 0, 0, 0, 0, 0, 0, 0, 0, 0, 0]

  /** `veorq_u8`: lane-wise exclusive or. */
  function Xor(a: Block, b: Block): Block
  {
    XorAfter(a, b, 1)
  }

  /** The lanes of a ^ b, reached through k calls, so that the verifier
      looks into the lanes only where a proof asks for them (`XorLanes`). */
  function XorAfter(a: Block, b: Block, k: nat): Block
    decreases k
  {
    if k == 0 then seq(16, i requires 0 <= i < 16 => a[i] ^ b[i]) else XorAfter(a, b, k - 1)
  }

  lemma XorLanes(a: Block, b: Block)
    ensures forall i | 0 <= i < 16 :: Xor(a, b)[i] == a[i] ^ b[i]
  {
    assert Xor(a, b) == XorAfter(a, b, 0);
  }

  lemma XorComm(a: Block, b: Block)
    ensures Xor(a, b) == Xor(b, a)
  {
    XorLanes(a, b);
    XorLanes(b, a);
    assert forall i | 0 <= i < 16 :: Xor(a, b)[i] == Xor(b, a)[i];
  }

  lemma XorAssoc(a: Block, b: Block, c: Block)
    ensures Xor(Xor(a, b), c) == Xor(a, Xor(b, c))
  {
    XorLanes(a, b);
    XorLanes(Xor(a, b), c);
    XorLanes(b, c);
    XorLanes(a, Xor(b, c));
    assert forall i | 0 <= i < 16 :: Xor(Xor(a, b), c)[i] == Xor(a, Xor(b, c))[i];
  }

  lemma XorZero(a: Block)
    ensures Xor(a, Zero) == a && Xor(Zero, a) == a
  {
    XorLanes(a, Zero);
    XorLanes(Zero, a);
    assert forall i | 0 <= i < 16 :: Xor(a, Zero)[i] == a[i];
    assert forall i | 0 <= i < 16 :: Xor(Zero, a)[i] == a[i];
  }

  /** The last two terms of a sum of three can be swapped. */
  lemma XorSwapLast(a: Block, b: Block, c: Block)
    ensures Xor(Xor(a, b), c) == Xor(Xor(a, c), b)
  {
    XorAssoc(a, b, c);
    XorComm(b, c);
    XorAssoc(a, c, b);
  }

  /** p + q = r + s moves across to p + r = q + s. */
  lemma XorRearrange(p: Block, q: Block, r: Block, s: Block)
    requires Xor(p, q) == Xor(r, s)
    ensures Xor(p, r) == Xor(q, s)
  {
    XorLanes(p, q);
    XorLanes(r, s);
    XorLanes(p, r);
    XorLanes(q, s);
    assert forall i | 0 <= i < 16 :: Xor(p, r)[i] == Xor(q, s)[i] by {
      forall i | 0 <= i < 16 ensures Xor(p, r)[i] == Xor(q, s)[i] {
        assert Xor(p, q)[i] == Xor(r, s)[i];
      }
    }
  }

  /** XOR-ing the same block twice undoes it, from either side. */
  lemma XorCancel(a: Block, b: Block)
    ensures Xor(Xor(a, b), b) == a
    ensures Xor(b, Xor(b, a)) == a
  {
    XorLanes(a, b);
    XorLanes(Xor(a, b), b);
    XorLanes(b, a);
    XorLanes(b, Xor(b, a));
    assert forall i | 0 <= i < 16 :: Xor(Xor(a, b), b)[i] == a[i];
    assert forall i | 0 <= i < 16 :: Xor(b, Xor(b, a))[i] == a[i];
  }

  /** Two blocks XOR to zero exactly when they are equal. */
  lemma XorZeroIff(a: Block, b: Block)
    ensures Xor(a, b) == Zero <==> a == b
  {
    XorLanes(a, a);
    XorLanes(a, b);
    assert Xor(a, a) == Zero by {
      assert forall i | 0 <= i < 16 :: Xor(a, a)[i] == Zero[i];
    }
    if Xor(a, b) == Zero {
      forall i | 0 <= i < 16 ensures a[i] == b[i] {
        assert Xor(a, b)[i] == 0;
      }
    }
  }

  /** The bytes of s in the opposite order. */
  function Reversed(s: seq<bv8>): (r: seq<bv8>)
    ensures |r| == |s|
  {
    if |s| == 0 then [] else Reversed(s[1..]) + [s[0]]
  }

  lemma {:induction false} ReversedIndex(s: seq<bv8>)
    ensures forall i | 0 <= i < |s| :: Reversed(s)[i] == s[|s| - 1 - i]
  {
    if |s| > 0 {
      ReversedIndex(s[1..]);
      assert Reversed(s) == Reversed(s[1..]) + [s[0]];
    }
  }

  /** `vrev64q_u8`: reverses the bytes inside each 64-bit half of the block
      (not the whole 16 bytes). */
  function Rev64(b: Block): Block
  {
    Reversed(b[..8]) + Reversed(b[8..])
  }

  /** Lane i of `vrev64q_u8` comes from lane i ^ 7: its half is kept, its
      place in the half mirrored. */
  lemma Rev64Lanes(b: Block)
    ensures forall i | 0 <= i < 8 :: Rev64(b)[i] == b[7 - i]
    ensures forall i | 8 <= i < 16 :: Rev64(b)[i] == b[23 - i]
  {
    ReversedIndex(b[..8]);
    ReversedIndex(b[8..]);
  }

  /** `LOAD_BLOCK`: sixteen bytes of memory to a block. */
  function Load(bytes: Block): Block
  {
    Rev64(bytes)
  }

  /** `STORE_BLOCK`: a block to sixteen bytes of memory. */
  function Store(b: Block): Block
  {
    Rev64(b)
  }

  /** Byte i of memory lands in lane i ^ 7; and storing a loaded block gives
      back the same bytes, loading a stored block the same lanes. */
  lemma LoadStore(bytes: Block, b: Block)
    ensures forall i | 0 <= i < 8 :: Load(bytes)[i] == bytes[7 - i]
    ensures forall i | 8 <= i < 16 :: Load(bytes)[i] == bytes[23 - i]
    ensures Store(Load(bytes)) == bytes
    ensures Load(Store(b)) == b
  {
    Rev64Lanes(bytes);
    Rev64Lanes(b);
    Rev64Lanes(Rev64(bytes));
    Rev64Lanes(Rev64(b));
    assert forall i | 0 <= i < 16 :: Store(Load(bytes))[i] == bytes[i];
    assert forall i | 0 <= i < 16 :: Load(Store(b))[i] == b[i];
  }

  /** `vaddlvq_u8`: the widening sum of the sixteen lanes (first n of them). */
  function LaneSum(b: Block, n: nat): (s: nat)
    requires n <= 16
    ensures s <= 255 * n
  {
    if n == 0 then 0 else LaneSum(b, n - 1) + b[n - 1] as nat
  }

  /** `EQUALS(a, b)` (src/colm.c:11): the lane sum of a ^ b is zero. */
  predicate Equals(a: Block, b: Block)
  {
    EqualsAfter(a, b, 1)
  }

  /** The lane-sum test, reached through k calls, so that the verifier
      looks at the lane sum only where a proof asks for it (`EqualsIff`). */
  predicate EqualsAfter(a: Block, b: Block, k: nat)
    decreases k
  {
    if k == 0 then LaneSum(Xor(a, b), 16) == 0 else EqualsAfter(a, b, k - 1)
  }

  lemma {:induction false} LaneSumZero(b: Block, n: nat)
    requires n <= 16
    ensures LaneSum(b, n) == 0 <==> forall i | 0 <= i < n :: b[i] == 0
  {
    if n > 0 {
      LaneSumZero(b, n - 1);
    }
  }

  /** The lane sum cannot wrap (at most 16 * 255 < 2^16), so `EQUALS` is exact equality. */
  lemma EqualsIff(a: Block, b: Block)
    ensures LaneSum(Xor(a, b), 16) < 0x1_0000
    ensures Equals(a, b) <==> a == b
  {
    assert Equals(a, b) == EqualsAfter(a, b, 0);
    LaneSumZero(Xor(a, b), 16);
    XorZeroIff(a, b);
    if forall i | 0 <= i < 16 :: Xor(a, b)[i] == 0 {
      assert Xor(a, b) == Zero;
    }
  }

  /** The buffer the final (possibly partial) block is built in: `buf`
      zero-filled, the r leftover bytes copied in, and 0x80 written at offset r
      when r < 16. */
  function Pad(rest: seq<bv8>): (buf: Block)
    requires |rest| <= 16
    ensures buf[..|rest|] == rest
    ensures |rest| < 16 ==> buf[|rest|] == 0x80
    ensures forall i | |rest| < i < 16 :: buf[i] == 0
  {
    if |rest| == 16 then rest else rest + [0x80] + seq(15 - |rest|, _ => 0)
  }

  /** A block that is its own prefix of length r followed by well-formed
      padding is the padding of that prefix. */
  lemma {:induction false} PadUnique(buf: Block, r: nat)
    requires r <= 16
    requires r < 16 ==> buf[r] == 0x80
    requires forall i | r < i < 16 :: buf[i] == 0
    ensures Pad(buf[..r]) == buf
  {
    var p := Pad(buf[..r]);
    forall i | 0 <= i < 16 ensures p[i] == buf[i] {
      if i < r {
        assert p[i] == p[..r][i];
      }
    }
  }

  /** `vcreate_u64(x)` on a little-endian host: the word's bytes, least
      significant first. */
  function LittleEndian(x: bv64): (s: seq<bv8>)
  {
    [ (x & 0xFF) as bv8, ((x >> 8) & 0xFF) as bv8, ((x >> 16) & 0xFF) as bv8, ((x >> 24) & 0xFF) as bv8,
      ((x >> 32) & 0xFF) as bv8, ((x >> 40) & 0xFF) as bv8, ((x >> 48) & 0xFF) as bv8, ((x >> 56) & 0xFF) as bv8 ]
  }

  /** The word's bytes, most significant first. */
  function BigEndian(x: bv64): (s: seq<bv8>)
  {
    [ ((x >> 56) & 0xFF) as bv8, ((x >> 48) & 0xFF) as bv8, ((x >> 40) & 0xFF) as bv8, ((x >> 32) & 0xFF) as bv8,
      ((x >> 24) & 0xFF) as bv8, ((x >> 16) & 0xFF) as bv8, ((x >> 8) & 0xFF) as bv8, (x & 0xFF) as bv8 ]
  }

  /** `vreinterpretq_u8_u64(vcombine_u64(vcreate_u64(npub), {constant}))`. */
  function NonceParam(npub: bv64, constant: bv64): Block
  {
    LittleEndian(npub) + LittleEndian(constant)
  }

  /** A word's bytes reversed are its bytes in the other order. */
  lemma ReversedWord(x: bv64)
    ensures Reversed(LittleEndian(x)) == BigEndian(x)
  {
    var l := LittleEndian(x);
    ReversedIndex(l);
    assert Reversed(l) == [l[7], l[6], l[5], l[4], l[3], l[2], l[1], l[0]];
  }

  /** After `vrev64q_u8` the MAC seed holds npub big-endian in lanes 0..7 and
      the mode constant big-endian in lanes 8..15. */
  lemma SeedIsBigEndian(npub: bv64, constant: bv64)
    ensures Rev64(NonceParam(npub, constant)) == BigEndian(npub) + BigEndian(constant)
  {
    var p := NonceParam(npub, constant);
    assert p[..8] == LittleEndian(npub) && p[8..] == LittleEndian(constant);
    ReversedWord(npub);
    ReversedWord(constant);
  }
}
