/** The associated-data MAC that seeds the COLM state (`mac` in src/colm.c
    and its 3-wide version in src/colm_parallel.c). */
module AdMac {
  import opened Blocks
  import opened GaloisField
  import opened Cipher

  /** Full block i of the associated data, loaded into lane order. */
  function AdBlock(ad: seq<bv8>, i: nat): Block
    requires 16 * (i + 1) <= |ad|
  {
    Load(ad[16 * i .. 16 * (i + 1)])
  }

  /** E(A_i + 2^i * delta) for the full block with index i - 1. */
  function AdTerm(c: BlockCipher, ad: seq<bv8>, delta: Block, i: nat): Block
    requires 1 <= i && 16 * i <= |ad|
  {
    c.encrypt(Xor(AdBlock(ad, i - 1), Doublings(delta, i)))
  }

  /** The terms of the full blocks, indexed from 1; Zero outside 1 .. |ad| / 16. */
  function AdTerms(c: BlockCipher, ad: seq<bv8>, delta: Block): nat -> Block
  {
    i => if 1 <= i && 16 * i <= |ad| then AdTerm(c, ad, delta, i) else Zero
  }

  /** The XOR of f(1), ..., f(k). */
  function Fold(f: nat -> Block, k: nat): Block
  {
    if k == 0 then Zero else Xor(Fold(f, k - 1), f(k))
  }

  /** The XOR of f(1), ..., f(3g), three terms per step. */
  function Fold3(f: nat -> Block, g: nat): Block
  {
    if g == 0 then Zero else Xor(Xor(Xor(Fold3(f, g - 1), f(3 * g - 2)), f(3 * g - 1)), f(3 * g))
  }

  lemma {:induction false} Fold3IsFold(f: nat -> Block, g: nat)
    ensures Fold3(f, g) == Fold(f, 3 * g)
  {
    if g > 0 {
      Fold3IsFold(f, g - 1);
      var k := 3 * g;
      assert Fold(f, k) == Xor(Fold(f, k - 1), f(k));
      assert Fold(f, k - 1) == Xor(Fold(f, k - 2), f(k - 1));
    }
  }

  /** The XOR of f(lo + 1), ..., f(hi). */
  function FoldRange(f: nat -> Block, lo: nat, hi: nat): Block
    requires lo <= hi
    decreases hi - lo
  {
    if lo == hi then Zero else Xor(FoldRange(f, lo, hi - 1), f(hi))
  }

  /** A fold splits at any point into a prefix and a range. */
  lemma {:induction false} FoldSplits(f: nat -> Block, lo: nat, hi: nat)
    requires lo <= hi
    ensures Fold(f, hi) == Xor(Fold(f, lo), FoldRange(f, lo, hi))
    decreases hi - lo
  {
    if lo == hi {
      XorZero(Fold(f, lo));
    } else {
      FoldSplits(f, lo, hi - 1);
      XorAssoc(Fold(f, lo), FoldRange(f, lo, hi - 1), f(hi));
    }
  }

  /** The term j of the fold is that of the full block with index i = j - 1. */
  lemma AdTermAt(c: BlockCipher, ad: seq<bv8>, delta: Block, i: nat, j: nat)
    requires j == i + 1 && 16 * j <= |ad|
    ensures AdTerms(c, ad, delta)(j) == c.encrypt(Xor(AdBlock(ad, i), Doublings(delta, j)))
  {
  }

  /** Adding the next term to a seed plus the fold of k terms gives the seed
      plus the fold of k + 1 terms. */
  lemma FoldStep(seed: Block, f: nat -> Block, k: nat, x: Block)
    requires f(k + 1) == x
    ensures Xor(Xor(seed, Fold(f, k)), x) == Xor(seed, Fold(f, k + 1))
  {
    XorAssoc(seed, Fold(f, k), x);
  }

  /** The XOR of the encrypted terms of the first k full blocks. */
  function MacSum(c: BlockCipher, ad: seq<bv8>, delta: Block, k: nat): Block
  {
    Fold(AdTerms(c, ad, delta), k)
  }

  /** E(seed + 3L): the value `v` starts from. The seed is the nonce parameter
      after `vrev64q_u8`. */
  function MacSeed(c: BlockCipher, param: Block, l: Block): Block
  {
    c.encrypt(Xor(Rev64(param), Mul3(l)))
  }

  /** The padded final fragment of the associated data under 7 times the last
      offset (used only when the length is not a multiple of 16). */
  function PartialInput(ad: seq<bv8>, delta: Block): Block
    requires |ad| % 16 != 0
  {
    var k := |ad| / 16;
    Xor(Mul7(Doublings(delta, k)), Load(Pad(ad[16 * k..])))
  }

  /** `mac` of src/colm.c: E(seed + 3L), plus E(A_i + 2^i * 3L) for every full
      block, plus E(pad(A*) + 7 * 2^k * 3L) when a fragment is left. */
  function Mac(c: BlockCipher, param: Block, ad: seq<bv8>, l: Block): Block
  {
    var delta := Mul3(l);
    var v := Xor(MacSeed(c, param, l), MacSum(c, ad, delta, |ad| / 16));
    if |ad| % 16 == 0 then v else Xor(v, c.encrypt(PartialInput(ad, delta)))
  }

  /** With no associated data the MAC is E(seed + 3L). */
  lemma MacEmpty(c: BlockCipher, param: Block, l: Block)
    ensures Mac(c, param, [], l) == c.encrypt(Xor(Rev64(param), Mul3(l)))
  {
    XorZero(MacSeed(c, param, l));
  }

  /** For a fixed key and associated data, distinct nonce parameters give
      distinct MACs: the seed term is the only one the nonce enters, and
      encryption is injective. */
  lemma MacSeparatesNonces(c: BlockCipher, p1: Block, p2: Block, ad: seq<bv8>, l: Block)
    requires Inverse(c)
    requires p1 != p2
    ensures Mac(c, p1, ad, l) != Mac(c, p2, ad, l)
  {
    var delta := Mul3(l);
    var s := MacSum(c, ad, delta, |ad| / 16);
    var s1, s2 := MacSeed(c, p1, l), MacSeed(c, p2, l);
    if Mac(c, p1, ad, l) == Mac(c, p2, ad, l) {
      if |ad| % 16 == 0 {
        XorCancel(s1, s);
        XorCancel(s2, s);
      } else {
        var e := c.encrypt(PartialInput(ad, delta));
        XorCancel(Xor(s1, s), e);
        XorCancel(Xor(s2, s), e);
        XorCancel(s1, s);
        XorCancel(s2, s);
      }
      assert s1 == s2;
      assert Xor(Rev64(p1), delta) == Xor(Rev64(p2), delta);
      XorCancel(Rev64(p1), delta);
      XorCancel(Rev64(p2), delta);
      LoadStore(p1, p1);
      LoadStore(p2, p2);
      assert false;
    }
  }

  /** The seeds of COLM0 and COLM127 never coincide, whatever the two nonces:
      their lanes 8..15 hold different mode constants. */
  lemma ModeSeedsDiffer(n1: bv64, n2: bv64)
    ensures NonceParam(n1, 0x0000800000000000) != NonceParam(n2, 0x007F800000000000)
  {
    assert NonceParam(n1, 0x0000800000000000)[14] == LittleEndian(0x0000800000000000)[6] == 0;
    assert NonceParam(n2, 0x007F800000000000)[14] == LittleEndian(0x007F800000000000)[6] == 0x7F;
  }

  // ---------------------------------------------------------------------
  // The 3-wide `mac` of src/colm_parallel.c.

  /** Three full blocks per step, offsets doubled in sequence and the three
      encrypted blocks XOR-ed into `v` in block order. */
  function MacGroups(c: BlockCipher, ad: seq<bv8>, delta: Block, g: nat): Block
  {
    Fold3(AdTerms(c, ad, delta), g)
  }

  lemma MacGroupsAreBlocks(c: BlockCipher, ad: seq<bv8>, delta: Block, g: nat)
    ensures MacGroups(c, ad, delta, g) == MacSum(c, ad, delta, 3 * g)
  {
    Fold3IsFold(AdTerms(c, ad, delta), g);
  }

  /** E(x) + x: what the leftover-block code of the 3-wide `mac` assigns to `v`. */
  function Folded(c: BlockCipher, x: Block): Block
  {
    Xor(c.encrypt(x), x)
  }

  /** `mac` of src/colm_parallel.c as written: after the 3-wide loop, each
      leftover full block and the padded fragment overwrite `v` with
      E(x) + x, so only the last of them survives. */
  function MacParallel(c: BlockCipher, param: Block, ad: seq<bv8>, l: Block): Block
  {
    var delta := Mul3(l);
    var g := |ad| / 48;
    var k := |ad| / 16;
    if |ad| % 16 != 0 then Folded(c, PartialInput(ad, delta))
    else if k > 3 * g then Folded(c, Xor(AdBlock(ad, k - 1), Doublings(delta, k)))
    else Xor(MacSeed(c, param, l), MacGroups(c, ad, delta, g))
  }

  /** The 3-wide `mac` agrees with the sequential one when the associated data
      is a whole number of 3-block groups (including none). */
  lemma MacParallelAgrees(c: BlockCipher, param: Block, ad: seq<bv8>, l: Block)
    requires |ad| % 48 == 0
    ensures MacParallel(c, param, ad, l) == Mac(c, param, ad, l)
  {
    var g := |ad| / 48;
    assert |ad| == 48 * g;
    assert |ad| / 16 == 3 * g && |ad| % 16 == 0;
    MacGroupsAreBlocks(c, ad, Mul3(l), g);
  }

  /** Otherwise its result does not depend on the nonce at all. */
  lemma MacParallelIgnoresNonce(c: BlockCipher, p1: Block, p2: Block, ad: seq<bv8>, l: Block)
    requires |ad| % 48 != 0
    ensures MacParallel(c, p1, ad, l) == MacParallel(c, p2, ad, l)
  {
  }

  /** The evidently intended 3-wide `mac`: leftover blocks accumulated into `v`
      as in the 3-wide loop. */
  function MacParallelIntended(c: BlockCipher, param: Block, ad: seq<bv8>, l: Block): Block
  {
    var delta := Mul3(l);
    var g := |ad| / 48;
    var v := Xor(MacSeed(c, param, l), MacGroups(c, ad, delta, g));
    var v2 := Xor(v, MacTail(c, ad, delta, 3 * g, |ad| / 16));
    if |ad| % 16 == 0 then v2 else Xor(v2, c.encrypt(PartialInput(ad, delta)))
  }

  /** The terms of the full blocks with indices lo + 1 .. hi. */
  function MacTail(c: BlockCipher, ad: seq<bv8>, delta: Block, lo: nat, hi: nat): Block
    requires lo <= hi
  {
    FoldRange(AdTerms(c, ad, delta), lo, hi)
  }

  /** The corrected 3-wide `mac` equals the sequential one for every length. */
  lemma MacParallelIntendedAgrees(c: BlockCipher, param: Block, ad: seq<bv8>, l: Block)
    ensures MacParallelIntended(c, param, ad, l) == Mac(c, param, ad, l)
  {
    var delta := Mul3(l);
    var g := |ad| / 48;
    var k := |ad| / 16;
    MacGroupsAreBlocks(c, ad, delta, g);
    FoldSplits(AdTerms(c, ad, delta), 3 * g, k);
    XorAssoc(MacSeed(c, param, l), MacSum(c, ad, delta, 3 * g), MacTail(c, ad, delta, 3 * g, k));
  }
}
