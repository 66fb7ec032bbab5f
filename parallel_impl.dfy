/** The loops of src/colm_parallel.c as methods over byte arrays: the 3-wide
    associated-data loop of `mac` and its leftover blocks, the 3-wide block
    loops of encryption and decryption, the single-block loops after them,
    and the four entry points. Each is proved to compute what the functions
    of the 3-wide modules specify, as written or corrected as `b` says. */
module ParallelImpl {
  import opened Blocks
  import opened GaloisField
  import opened Cipher
  import opened AdMac
  import opened ColmSpec
  import opened ColmGroups
  import opened ColmMessage
  import opened ParallelMessage
  import opened ColmImpl
  import ColmModes
  import ParallelModes

  // ---------------------------------------------------------------------
  // The associated data.

  /** `mac` of src/colm_parallel.c: three full blocks per step while 48
      bytes are left, then single full blocks and the padded fragment. As
      written each of the last two overwrites `v` with E(x) + x; corrected
      they add E(x) to it. */
  method ComputeMacParallel(c: BlockCipher, param: Block, ad: seq<bv8>, l: Block, b: ParallelModes.Build)
    returns (v: Block)
    ensures b == ParallelModes.AsWritten ==> v == MacParallel(c, param, ad, l)
    ensures b == ParallelModes.Corrected ==> v == MacParallelIntended(c, param, ad, l)
  {
    var g, delta3, v0 := MacGroupLoop(c, param, ad, l);
    var k, delta;
    k, delta, v := MacBlocksLoop(c, ad, l, g, delta3, v0, b);
    MacWrittenEnds(c, param, ad, l, g, k);
    MacIntendedEnds(c, param, ad, l, g, k, v0, v, b);
    if 16 * k < |ad| {
      v := MacFragment(c, ad, l, k, delta, v, b);
    }
  }

  /** The single-block loop of `mac`, after the g groups: as written `v`
      ends as E(x) + x of the last block it takes (or unchanged when it
      takes none); corrected it takes the terms of those blocks. */
  method MacBlocksLoop(c: BlockCipher, ad: seq<bv8>, l: Block, g: nat, delta3: Block, v0: Block, b: ParallelModes.Build)
    returns (k: nat, delta: Block, v: Block)
    requires 48 * g <= |ad|
    requires delta3 == Doublings(Mul3(l), 3 * g)
    ensures 3 * g <= k && 16 * k <= |ad| < 16 * (k + 1)
    ensures delta == Doublings(Mul3(l), k)
    ensures b == ParallelModes.AsWritten && k == 3 * g ==> v == v0
    ensures b == ParallelModes.AsWritten && k != 3 * g ==> v == Folded(c, LastBlockInput(ad, l, k))
    ensures b == ParallelModes.Corrected ==> v == Xor(v0, MacTail(c, ad, Mul3(l), 3 * g, k))
  {
    XorZero(v0);
    v, delta := v0, delta3;
    k := 3 * g;
    ghost var lo := k;
    while 16 * (k + 1) <= |ad|
      invariant lo <= k && 16 * k <= |ad|
      invariant delta == Doublings(Mul3(l), k)
      invariant b == ParallelModes.AsWritten && k == lo ==> v == v0
      invariant b == ParallelModes.AsWritten && k != lo ==> v == Folded(c, LastBlockInput(ad, l, k))
      invariant b == ParallelModes.Corrected ==> v == Xor(v0, MacTail(c, ad, Mul3(l), lo, k))
    {
      delta, v := MacBlock(c, ad, l, lo, k, delta, v0, v, b);
      k := k + 1;
    }
  }

  /** One iteration of the single-block loop of `mac`: the offset doubles;
      as written `v` becomes E(x) + x of the block's input x, corrected it
      takes the block's term. */
  method MacBlock(c: BlockCipher, ad: seq<bv8>, l: Block, ghost lo: nat, k: nat, delta: Block, ghost v0: Block, v: Block,
                  b: ParallelModes.Build)
    returns (delta': Block, w: Block)
    requires lo <= k && 16 * (k + 1) <= |ad|
    requires delta == Doublings(Mul3(l), k)
    requires b == ParallelModes.Corrected ==> v == Xor(v0, MacTail(c, ad, Mul3(l), lo, k))
    ensures delta' == Doublings(Mul3(l), k + 1)
    ensures b == ParallelModes.AsWritten ==> w == Folded(c, LastBlockInput(ad, l, k + 1))
    ensures b == ParallelModes.Corrected ==> w == Xor(v0, MacTail(c, ad, Mul3(l), lo, k + 1))
  {
    MacTailStep(c, v0, ad, Mul3(l), lo, k);
    delta' := Mul2(delta);
    var block := Xor(AdBlock(ad, k), delta');
    var tmp := c.encrypt(block);
    if b == ParallelModes.AsWritten {
      w := Xor(tmp, block);
    } else {
      w := Xor(v, tmp);
    }
  }

  /** The input x = A_k + 2^k * 3L of the full block with index k - 1, whose
      E(x) + x the single-block loop of `mac` as written leaves in `v`. */
  function LastBlockInput(ad: seq<bv8>, l: Block, k: nat): Block
    requires 1 <= k && 16 * k <= |ad|
  {
    Xor(AdBlock(ad, k - 1), Doublings(Mul3(l), k))
  }

  /** The fragment step of `mac`: as written `v` becomes E(x) + x of the
      padded fragment's input x, corrected it takes E(x). */
  method MacFragment(c: BlockCipher, ad: seq<bv8>, l: Block, k: nat, delta: Block, v: Block, b: ParallelModes.Build)
    returns (w: Block)
    requires 16 * k < |ad| < 16 * (k + 1) && |ad| % 16 != 0
    requires delta == Doublings(Mul3(l), k)
    ensures b == ParallelModes.AsWritten ==> w == Folded(c, PartialInput(ad, Mul3(l)))
    ensures b == ParallelModes.Corrected ==> w == Xor(v, c.encrypt(PartialInput(ad, Mul3(l))))
  {
    PartialInputAt(ad, Mul3(l), k);
    var delta7 := Mul7(delta);
    var buf := Pad(ad[16 * k..]);
    var block := Xor(delta7, Load(buf));
    var tmp := c.encrypt(block);
    if b == ParallelModes.AsWritten {
      w := Xor(tmp, block);
    } else {
      w := Xor(v, tmp);
    }
  }

  /** The 3-wide loop of `mac`: it takes the |ad| / 48 groups of three full
      blocks, leaving the offset at 2^(3g) * 3L and `v` at the seed's
      encryption plus the terms of the groups' blocks. */
  method MacGroupLoop(c: BlockCipher, param: Block, ad: seq<bv8>, l: Block) returns (g: nat, delta3: Block, v: Block)
    ensures 48 * g <= |ad| < 48 * (g + 1)
    ensures delta3 == Doublings(Mul3(l), 3 * g)
    ensures v == Xor(MacSeed(c, param, l), MacGroups(c, ad, Mul3(l), g))
  {
    delta3 := Mul3(l);
    v := c.encrypt(Xor(Rev64(param), delta3));
    MacGroupsStart(c, param, ad, l);
    g := 0;
    ghost var k3 := 0;
    while 48 * (g + 1) <= |ad|
      invariant 48 * g <= |ad| && k3 == 3 * g
      invariant delta3 == Doublings(Mul3(l), k3)
      invariant v == Xor(MacSeed(c, param, l), MacGroups(c, ad, Mul3(l), g))
    {
      delta3, v := MacGroup(c, param, ad, l, g, k3, delta3, v);
      g, k3 := g + 1, k3 + 3;
    }
  }

  /** One iteration of the 3-wide loop of `mac`: three offsets, three
      encrypted blocks XOR-ed into `v` in block order. */
  method MacGroup(c: BlockCipher, param: Block, ad: seq<bv8>, l: Block, g: nat, ghost k: nat, delta: Block, v: Block)
    returns (delta3: Block, w: Block)
    requires k == 3 * g && 48 * (g + 1) <= |ad|
    requires delta == Doublings(Mul3(l), k)
    requires v == Xor(MacSeed(c, param, l), MacGroups(c, ad, Mul3(l), g))
    ensures delta3 == Doublings(Mul3(l), k + 3)
    ensures w == Xor(MacSeed(c, param, l), MacGroups(c, ad, Mul3(l), g + 1))
  {
    MacGroupStep(c, param, ad, l, g, k);
    GroupOffsetsStep(Mul3(l), k);
    var delta1 := Mul2(delta);
    var delta2 := Mul2(delta1);
    delta3 := Mul2(delta2);
    var block1 := c.encrypt(Xor(AdBlock(ad, 3 * g), delta1));
    var block2 := c.encrypt(Xor(AdBlock(ad, 3 * g + 1), delta2));
    var block3 := c.encrypt(Xor(AdBlock(ad, 3 * g + 2), delta3));
    w := Xor(v, block1);
    w := Xor(w, block2);
    w := Xor(w, block3);
  }

  lemma MacGroupsStart(c: BlockCipher, param: Block, ad: seq<bv8>, l: Block)
    ensures c.encrypt(Xor(Rev64(param), Mul3(l))) == Xor(MacSeed(c, param, l), MacGroups(c, ad, Mul3(l), 0))
  {
    XorZero(MacSeed(c, param, l));
  }

  /** One step of the 3-wide loop of `mac` (group g, its first block
      k = 3g): the sum takes the terms of the group's three blocks, in order,
      each under its offset 2^i * 3L. */
  lemma MacGroupStep(c: BlockCipher, param: Block, ad: seq<bv8>, l: Block, g: nat, k: nat)
    requires k == 3 * g && 16 * (k + 3) <= |ad|
    ensures Xor(Xor(Xor(Xor(MacSeed(c, param, l), MacGroups(c, ad, Mul3(l), g)),
                        c.encrypt(Xor(AdBlock(ad, 3 * g), Doublings(Mul3(l), k + 1)))),
                    c.encrypt(Xor(AdBlock(ad, 3 * g + 1), Doublings(Mul3(l), k + 2)))),
                c.encrypt(Xor(AdBlock(ad, 3 * g + 2), Doublings(Mul3(l), k + 3))))
         == Xor(MacSeed(c, param, l), MacGroups(c, ad, Mul3(l), g + 1))
  {
    AdTermAt(c, ad, Mul3(l), 3 * g, k + 1);
    AdTermAt(c, ad, Mul3(l), 3 * g + 1, k + 2);
    AdTermAt(c, ad, Mul3(l), 3 * g + 2, k + 3);
    Fold3Step(MacSeed(c, param, l), AdTerms(c, ad, Mul3(l)), g, k,
              c.encrypt(Xor(AdBlock(ad, 3 * g), Doublings(Mul3(l), k + 1))),
              c.encrypt(Xor(AdBlock(ad, 3 * g + 1), Doublings(Mul3(l), k + 2))),
              c.encrypt(Xor(AdBlock(ad, 3 * g + 2), Doublings(Mul3(l), k + 3))));
  }

  /** Adding the next three terms, one at a time, to a seed plus the fold
      of g groups gives the seed plus the fold of g + 1 groups. */
  lemma Fold3Step(seed: Block, f: nat -> Block, g: nat, k: nat, x1: Block, x2: Block, x3: Block)
    requires k == 3 * g && f(k + 1) == x1 && f(k + 2) == x2 && f(k + 3) == x3
    ensures Xor(Xor(Xor(Xor(seed, Fold3(f, g)), x1), x2), x3) == Xor(seed, Fold3(f, g + 1))
  {
    var sum := Fold3(f, g);
    Fold3More(f, g, k);
    XorAssoc(seed, sum, x1);
    XorAssoc(seed, Xor(sum, x1), x2);
    XorAssoc(seed, Xor(Xor(sum, x1), x2), x3);
  }

  /** The three offsets of a group whose first block is k: 2^(k+1),
      2^(k+2) and 2^(k+3) times the offset the loop starts from, each the
      double of the one before. */
  lemma GroupOffsetsStep(delta: Block, k: nat)
    ensures Doublings(delta, k + 1) == Mul2(Doublings(delta, k))
    ensures Doublings(delta, k + 2) == Mul2(Doublings(delta, k + 1))
    ensures Doublings(delta, k + 3) == Mul2(Doublings(delta, k + 2))
  {
    DoublingsMore(delta, k);
    DoublingsMore(delta, k + 1);
    DoublingsMore(delta, k + 2);
  }

  /** After both loops of `mac` as written, by the case the length falls
      in: no block after the groups, a last full block, or a fragment. */
  lemma MacWrittenEnds(c: BlockCipher, param: Block, ad: seq<bv8>, l: Block, g: nat, k: nat)
    requires 48 * g <= |ad| < 48 * (g + 1) && 16 * k <= |ad| < 16 * (k + 1) && 3 * g <= k
    ensures 16 * k == |ad| && k == 3 * g ==>
              MacParallel(c, param, ad, l) == Xor(MacSeed(c, param, l), MacGroups(c, ad, Mul3(l), g))
    ensures 16 * k == |ad| && k != 3 * g ==>
              MacParallel(c, param, ad, l) == Folded(c, LastBlockInput(ad, l, k))
    ensures 16 * k < |ad| ==> |ad| % 16 != 0 && MacParallel(c, param, ad, l) == Folded(c, PartialInput(ad, Mul3(l)))
  {
    GroupsTaken(|ad|, g);
    BlocksTaken(|ad|, k);
  }

  /** After both loops of the corrected `mac`: `v` is the sum of the groups
      plus the terms of the blocks after them; a fragment adds its term. */
  lemma MacIntendedEnds(c: BlockCipher, param: Block, ad: seq<bv8>, l: Block, g: nat, k: nat, v0: Block, v: Block,
                        b: ParallelModes.Build)
    requires 48 * g <= |ad| < 48 * (g + 1) && 16 * k <= |ad| < 16 * (k + 1) && 3 * g <= k
    requires v0 == Xor(MacSeed(c, param, l), MacGroups(c, ad, Mul3(l), g))
    requires b == ParallelModes.Corrected ==> v == Xor(v0, MacTail(c, ad, Mul3(l), 3 * g, k))
    ensures b == ParallelModes.Corrected && 16 * k == |ad| ==> MacParallelIntended(c, param, ad, l) == v
    ensures b == ParallelModes.Corrected && 16 * k < |ad| ==>
              |ad| % 16 != 0 && MacParallelIntended(c, param, ad, l) == Xor(v, c.encrypt(PartialInput(ad, Mul3(l))))
  {
    GroupsTaken(|ad|, g);
    BlocksTaken(|ad|, k);
  }

  /** One more group of the 3-wide fold takes the next three terms. */
  lemma Fold3More(f: nat -> Block, g: nat, k: nat)
    requires k == 3 * g
    ensures Fold3(f, g + 1) == Xor(Xor(Xor(Fold3(f, g), f(k + 1)), f(k + 2)), f(k + 3))
  {
    assert 3 * (g + 1) - 2 == k + 1 && 3 * (g + 1) - 1 == k + 2 && 3 * (g + 1) == k + 3;
  }

  /** One leftover full block: the offset doubles and the range of terms
      takes the block's term. */
  lemma MacTailStep(c: BlockCipher, v0: Block, ad: seq<bv8>, delta: Block, lo: nat, k: nat)
    requires lo <= k && 16 * (k + 1) <= |ad|
    ensures Doublings(delta, k + 1) == Mul2(Doublings(delta, k))
    ensures Xor(v0, MacTail(c, ad, delta, lo, k + 1))
         == Xor(Xor(v0, MacTail(c, ad, delta, lo, k)), c.encrypt(Xor(AdBlock(ad, k), Doublings(delta, k + 1))))
  {
    DoublingsMore(delta, k);
    XorAssoc(v0, MacTail(c, ad, delta, lo, k), AdTerms(c, ad, delta)(k + 1));
  }

  /** A loop that stops with fewer than 48 bytes left has taken len / 48
      groups. */
  lemma GroupsTaken(len: nat, g: nat)
    requires 48 * g <= len < 48 * (g + 1)
    ensures len / 48 == g
  {
  }

  // ---------------------------------------------------------------------
  // The 3-wide loops.

  /** Every group a 3-wide loop body encrypts is three blocks long. */
  ghost predicate FullGroups(genc: GroupEncryptor)
  {
    forall ch, p1, p2, p3, j :: |genc(ch, p1, p2, p3, j).ct| == 48
  }

  lemma ParallelGroupsFull(c: BlockCipher, sch: Schedule)
    ensures FullGroups(ParallelEncryptor(c, sch))
    ensures FullDecryptedGroups(ParallelDecryptor(c, sch))
  {
  }

  /** The `while (remaining > 3 * BLOCKSIZE)` loop of `colm0_encrypt` and
      `colm127_encrypt` with loop body `genc`, over the first g groups: each
      group's 48 ciphertext bytes follow those before them, its tag (if any)
      follows the tags before it, and nothing else changes. */
  method EncryptGroups(genc: GroupEncryptor, s0: Chain, m: seq<bv8>, g: nat, ct: array<bv8>, tags: array<bv8>)
    returns (s: Chain, u: nat)
    requires FullGroups(genc) && ct != tags
    requires 48 * g <= |m| && 48 * g <= ct.Length && |GroupRun(genc, s0, m, g).tags| <= tags.Length
    modifies ct, tags
    ensures s == GroupRun(genc, s0, m, g).chain && u == |GroupRun(genc, s0, m, g).tags|
    ensures |GroupRun(genc, s0, m, g).ct| == 48 * g
    ensures Overwritten(ct[..], GroupRun(genc, s0, m, g).ct, old(ct[..]))
    ensures Overwritten(tags[..], GroupRun(genc, s0, m, g).tags, old(tags[..]))
  {
    ghost var ct0, tags0 := ct[..], tags[..];
    assert Overwritten(ct0, [], ct0) && Overwritten(tags0, [], tags0);
    s, u := s0, 0;
    var j := 0;
    while j < g
      invariant j <= g
      invariant s == GroupRun(genc, s0, m, j).chain && |GroupRun(genc, s0, m, j).ct| == 48 * j
      invariant u == |GroupRun(genc, s0, m, j).tags| <= |GroupRun(genc, s0, m, g).tags|
      invariant Overwritten(ct[..], GroupRun(genc, s0, m, j).ct, ct0)
      invariant Overwritten(tags[..], GroupRun(genc, s0, m, j).tags, tags0)
    {
      s, u := EncryptGroup(genc, s0, m, j, g, ct, tags, s, u, ct0, tags0);
      j := j + 1;
    }
  }

  /** One pass of the loop body of `EncryptGroups`: group j is encrypted
      and its ciphertext and tag are stored right after those of the groups
      before it. */
  method EncryptGroup(genc: GroupEncryptor, s0: Chain, m: seq<bv8>, j: nat, g: nat, ct: array<bv8>, tags: array<bv8>,
                      s: Chain, u: nat, ghost ct0: seq<bv8>, ghost tags0: seq<bv8>)
    returns (s': Chain, u': nat)
    requires FullGroups(genc) && ct != tags
    requires j < g && 48 * g <= |m| && 48 * g <= |ct0| && |GroupRun(genc, s0, m, g).tags| <= |tags0|
    requires s == GroupRun(genc, s0, m, j).chain && |GroupRun(genc, s0, m, j).ct| == 48 * j
    requires u == |GroupRun(genc, s0, m, j).tags|
    requires Overwritten(ct[..], GroupRun(genc, s0, m, j).ct, ct0)
    requires Overwritten(tags[..], GroupRun(genc, s0, m, j).tags, tags0)
    modifies ct, tags
    ensures s' == GroupRun(genc, s0, m, j + 1).chain && |GroupRun(genc, s0, m, j + 1).ct| == 48 * (j + 1)
    ensures u' == |GroupRun(genc, s0, m, j + 1).tags| <= |GroupRun(genc, s0, m, g).tags|
    ensures Overwritten(ct[..], GroupRun(genc, s0, m, j + 1).ct, ct0)
    ensures Overwritten(tags[..], GroupRun(genc, s0, m, j + 1).tags, tags0)
  {
    var e := genc(s, BlockAt(m, 3 * j), BlockAt(m, 3 * j + 1), BlockAt(m, 3 * j + 2), j);
    ghost var prev := GroupRun(genc, s0, m, j);
    GroupRunTagsGrow(genc, s0, m, j + 1, g);
    WriteStep(ct, 48 * j, e.ct, tags, u, e.tags, prev.ct, ct0, prev.tags, tags0);
    s', u' := e.chain, u + |e.tags|;
  }

  /** The `while (remaining > 3 * BLOCKSIZE)` loop of `colm0_decrypt` and
      `colm127_decrypt` with loop body `gdec`, over the first g groups: it
      stops with `ok` false at the first group whose intermediate tag does
      not verify, before that group is stored; otherwise the plaintext array
      holds the groups' plaintext. The bytes after the groups never change. */
  method DecryptGroups(gdec: GroupDecryptor, s0: Chain, ct: seq<bv8>, tags: seq<bv8>, g: nat, pt: array<bv8>)
    returns (ok: bool, s: Chain, u: nat)
    requires FullDecryptedGroups(gdec)
    requires 48 * g <= |ct| && 48 * g <= pt.Length
    modifies pt
    ensures ok <==> GroupDecryptRun(gdec, s0, ct, tags, 0, g).Running?
    ensures ok ==> s == GroupDecryptRun(gdec, s0, ct, tags, 0, g).chain
    ensures ok ==> u == GroupDecryptRun(gdec, s0, ct, tags, 0, g).used
    ensures ok ==> |GroupDecryptRun(gdec, s0, ct, tags, 0, g).pt| == 48 * g
    ensures ok ==> Overwritten(pt[..], GroupDecryptRun(gdec, s0, ct, tags, 0, g).pt, old(pt[..]))
    ensures pt[48 * g..] == old(pt[..])[48 * g..]
  {
    ghost var pt0 := pt[..];
    assert Overwritten(pt0, [], pt0);
    s, u := s0, 0;
    var j := 0;
    while j < g
      invariant j <= g
      invariant GroupDecryptRun(gdec, s0, ct, tags, 0, j).Running?
      invariant s == GroupDecryptRun(gdec, s0, ct, tags, 0, j).chain
      invariant u == GroupDecryptRun(gdec, s0, ct, tags, 0, j).used
      invariant |GroupDecryptRun(gdec, s0, ct, tags, 0, j).pt| == 48 * j
      invariant Overwritten(pt[..], GroupDecryptRun(gdec, s0, ct, tags, 0, j).pt, pt0)
    {
      ghost var prev := GroupDecryptRun(gdec, s0, ct, tags, 0, j).pt;
      ok, s, u := DecryptGroup(gdec, s0, ct, tags, j, g, pt, s, u, pt0);
      if !ok {
        OverwrittenBeyond(pt[..], prev, pt0, 48 * g);
        return;
      }
      j := j + 1;
    }
    OverwrittenBeyond(pt[..], GroupDecryptRun(gdec, s0, ct, tags, 0, g).pt, pt0, 48 * g);
    ok := true;
  }

  /** One pass of the loop body of `DecryptGroups`: group j is decrypted;
      if its intermediate tag verifies its plaintext is stored right after
      that of the groups before it, otherwise nothing is stored and the
      whole run has failed. */
  method DecryptGroup(gdec: GroupDecryptor, s0: Chain, ct: seq<bv8>, tags: seq<bv8>, j: nat, g: nat, pt: array<bv8>,
                      s: Chain, u: nat, ghost pt0: seq<bv8>)
    returns (ok: bool, s': Chain, u': nat)
    requires FullDecryptedGroups(gdec)
    requires j < g && 48 * g <= |ct| && 48 * g <= |pt0|
    requires GroupDecryptRun(gdec, s0, ct, tags, 0, j).Running?
    requires s == GroupDecryptRun(gdec, s0, ct, tags, 0, j).chain && u == GroupDecryptRun(gdec, s0, ct, tags, 0, j).used
    requires |GroupDecryptRun(gdec, s0, ct, tags, 0, j).pt| == 48 * j
    requires Overwritten(pt[..], GroupDecryptRun(gdec, s0, ct, tags, 0, j).pt, pt0)
    modifies pt
    ensures ok <==> GroupDecryptRun(gdec, s0, ct, tags, 0, j + 1).Running?
    ensures ok ==> s' == GroupDecryptRun(gdec, s0, ct, tags, 0, j + 1).chain
    ensures ok ==> u' == GroupDecryptRun(gdec, s0, ct, tags, 0, j + 1).used
    ensures ok ==> |GroupDecryptRun(gdec, s0, ct, tags, 0, j + 1).pt| == 48 * (j + 1)
    ensures ok ==> Overwritten(pt[..], GroupDecryptRun(gdec, s0, ct, tags, 0, j + 1).pt, pt0)
    ensures !ok ==> GroupDecryptRun(gdec, s0, ct, tags, 0, g) == TagFailed && pt[..] == old(pt[..])
  {
    ghost var prev := GroupDecryptRun(gdec, s0, ct, tags, 0, j).pt;
    var d := gdec(s, BlockAt(ct, 3 * j), BlockAt(ct, 3 * j + 1), BlockAt(ct, 3 * j + 2), TagBlockAt(tags, u), j);
    if !d.tagOk {
      GroupDecryptRunStaysFailed(gdec, s0, ct, tags, 0, j + 1, g);
      return false, s, u;
    }
    WriteAfter(pt, d.pt, prev, pt0, 48 * j);
    ok, s', u' := true, d.chain, if d.tagged then u + 1 else u;
  }

  // ---------------------------------------------------------------------
  // Encryption.

  /** Encryption after the MAC in the order of src/colm_parallel.c: the
      groups, the single-block loop over the blocks left, then the final
      block and the checksum fragment. The ciphertext array holds the
      ciphertext in its first |m| + 16 bytes and the tag array the tags in
      its first `used` bytes; no other byte changes. */
  method SealParallel(c: BlockCipher, s0: Chain, m: seq<bv8>, sch: Schedule, ct: array<bv8>, tags: array<bv8>)
    returns (used: nat)
    requires ct != tags && GroupsFollow(sch, Groups(|m|))
    requires |m| + 16 <= ct.Length && 16 * TagTotal(sch, |m|) <= tags.Length
    modifies ct, tags
    ensures used == |EncryptParallel(c, s0, m, sch).tags|
    ensures Overwritten(ct[..], EncryptParallel(c, s0, m, sch).ct, old(ct[..]))
    ensures Overwritten(tags[..], EncryptParallel(c, s0, m, sch).tags, old(tags[..]))
  {
    ghost var body, end;
    used, body, end := SealParallelParts(c, s0, m, sch, ct, tags);
  }

  /** SealParallel, with what the loops and the final block wrote kept apart. */
  method SealParallelParts(c: BlockCipher, s0: Chain, m: seq<bv8>, sch: Schedule, ct: array<bv8>, tags: array<bv8>)
    returns (used: nat, ghost body: EncRun, ghost end: Sealed)
    requires ct != tags && GroupsFollow(sch, Groups(|m|))
    requires |m| + 16 <= ct.Length && 16 * TagTotal(sch, |m|) <= tags.Length
    modifies ct, tags
    ensures body == Joined(GroupRun(ParallelEncryptor(c, sch), s0, m, Groups(|m|)),
                           EncryptRun(LoopEncryptor(c, sch), GroupRun(ParallelEncryptor(c, sch), s0, m, Groups(|m|)).chain,
                                      m, 3 * Groups(|m|), LoopBlocks(|m|)))
    ensures end == EncryptEnd(c, body.chain, m[16 * LoopBlocks(|m|)..], TagPoint(sch, LoopBlocks(|m|)), TagEncrypted)
    ensures used == |body.tags + end.tags|
    ensures Overwritten(ct[..], body.ct + end.ct, old(ct[..]))
    ensures Overwritten(tags[..], body.tags + end.tags, old(tags[..]))
  {
    var n := LoopBlocks(|m|);
    ghost var ct0, tags0 := ct[..], tags[..];
    var s, u;
    s, u, body := SealLoops(c, s0, m, sch, ct, tags);
    var rest, tagPoint := m[16 * n..], TagPoint(sch, n);
    EncryptTail(c, s, rest, tagPoint, TagEncrypted, ct, 16 * n, tags, u, body.ct, ct0, body.tags, tags0);
    used := u + (if tagPoint then 16 else 0);
    end := EncryptEnd(c, s, rest, tagPoint, TagEncrypted);
  }

  /** The two loops of `colm0_encrypt` and `colm127_encrypt`: the groups,
      then the single blocks left before the final block, written in order;
      room is left for the final block's tag. */
  method SealLoops(c: BlockCipher, s0: Chain, m: seq<bv8>, sch: Schedule, ct: array<bv8>, tags: array<bv8>)
    returns (s: Chain, u: nat, ghost body: EncRun)
    requires ct != tags && GroupsFollow(sch, Groups(|m|))
    requires |m| + 16 <= ct.Length && 16 * TagTotal(sch, |m|) <= tags.Length
    modifies ct, tags
    ensures body == Joined(GroupRun(ParallelEncryptor(c, sch), s0, m, Groups(|m|)),
                           EncryptRun(LoopEncryptor(c, sch), GroupRun(ParallelEncryptor(c, sch), s0, m, Groups(|m|)).chain,
                                      m, 3 * Groups(|m|), LoopBlocks(|m|)))
    ensures s == body.chain && u == |body.tags| && |body.ct| == 16 * LoopBlocks(|m|)
    ensures u + (if TagPoint(sch, LoopBlocks(|m|)) then 16 else 0) <= tags.Length
    ensures Overwritten(ct[..], body.ct, old(ct[..]))
    ensures Overwritten(tags[..], body.tags, old(tags[..]))
  {
    var g, n := Groups(|m|), LoopBlocks(|m|);
    ParallelLoop(c, s0, m, sch);
    LoopTagCount(c, sch, s0, m, n);
    TagRoom(sch, |m|);
    LoopTags(c, sch);
    ParallelGroupsFull(c, sch);
    ghost var ct0, tags0 := ct[..], tags[..];
    s, u := EncryptGroups(ParallelEncryptor(c, sch), s0, m, g, ct, tags);
    ghost var groups := GroupRun(ParallelEncryptor(c, sch), s0, m, g);
    EncryptRunTags(LoopEncryptor(c, sch), Tags(sch), groups.chain, m, 3 * g, n);
    s, u := EncryptBlocks(LoopEncryptor(c, sch), Tags(sch), s, m, 3 * g, n, ct, tags, u, groups.ct, ct0, groups.tags, tags0);
    body := Joined(groups, EncryptRun(LoopEncryptor(c, sch), groups.chain, m, 3 * g, n));
  }

  // ---------------------------------------------------------------------
  // Decryption.

  /** Decryption after the MAC in the order of src/colm_parallel.c: the
      length check, the groups, the single-block loop with body `style`
      over the blocks left, then the final block. On success the plaintext
      array holds the message in its first |ct| - 16 bytes; the bytes after
      them never change. */
  method OpenParallel(c: BlockCipher, s0: Chain, ct: seq<bv8>, tags: seq<bv8>, sch: Schedule, style: TailStyle,
                      pt: array<bv8>) returns (st: Status)
    requires |ct| >= 16 ==> |ct| - 16 <= pt.Length
    modifies pt
    ensures st == DecryptParallel(c, s0, ct, tags, sch, style).status
    ensures st == Ok ==> Overwritten(pt[..], DecryptParallel(c, s0, ct, tags, sch, style).message, old(pt[..]))
    ensures |ct| >= 16 ==> pt[|ct| - 16..] == old(pt[..])[|ct| - 16..]
    ensures |ct| < 16 ==> pt[..] == old(pt[..])
  {
    if |ct| < 16 {
      return InvalidLength;
    }
    ghost var pt0 := pt[..];
    var n := LoopBlocks(|ct| - 16);
    var ok, s, u := OpenLoops(c, s0, ct, tags, sch, TailDecryptor(c, sch, style), pt);
    ghost var r := LoopsRun(c, s0, ct, tags, sch, TailDecryptor(c, sch, style));
    assert DecryptParallel(c, s0, ct, tags, sch, style) == OpenedAfter(c, r, ct, tags, n, sch);
    if !ok {
      return IntermediateTagMismatch;
    }
    st := DecryptTail(c, s, ct, n, TagBlockAt(tags, u), TagPoint(sch, n), pt, r.pt, pt0);
  }

  /** The two loops of `colm0_decrypt` and `colm127_decrypt`, the
      single-block loop with body `dec`: `ok` tells
      whether every intermediate tag verified; if so the plaintext array
      holds the blocks before the final block. The bytes from |ct| - 16 on
      never change. */
  method OpenLoops(c: BlockCipher, s0: Chain, ct: seq<bv8>, tags: seq<bv8>, sch: Schedule, dec: Decryptor, pt: array<bv8>)
    returns (ok: bool, s: Chain, u: nat)
    requires |ct| >= 16 && |ct| - 16 <= pt.Length
    modifies pt
    ensures ok <==> LoopsRun(c, s0, ct, tags, sch, dec).Running?
    ensures ok ==> s == LoopsRun(c, s0, ct, tags, sch, dec).chain && u == LoopsRun(c, s0, ct, tags, sch, dec).used
    ensures ok ==> Overwritten(pt[..], LoopsRun(c, s0, ct, tags, sch, dec).pt, old(pt[..]))
    ensures pt[|ct| - 16..] == old(pt[..])[|ct| - 16..]
  {
    ghost var pt0 := pt[..];
    var g, n := Groups(|ct| - 16), LoopBlocks(|ct| - 16);
    GroupsThenBlocks(|ct| - 16);
    ParallelGroupsFull(c, sch);
    ok, s, u := DecryptGroups(ParallelDecryptor(c, sch), s0, ct, tags, g, pt);
    if !ok {
      KeptBeyond(pt[..], pt0, 48 * g, |ct| - 16);
      return;
    }
    ok, s, u := LoopAfterGroups(c, s0, ct, tags, sch, dec, pt, s, u, pt0);
  }

  /** The single-block loop of `colm0_decrypt` and `colm127_decrypt` with
      body `dec`, after the groups have all verified. */
  method LoopAfterGroups(c: BlockCipher, s0: Chain, ct: seq<bv8>, tags: seq<bv8>, sch: Schedule, dec: Decryptor,
                         pt: array<bv8>, s1: Chain, u1: nat, ghost pt0: seq<bv8>)
    returns (ok: bool, s: Chain, u: nat)
    requires |ct| >= 16 && |ct| - 16 <= pt.Length == |pt0|
    requires GroupsRun(c, s0, ct, tags, sch).Running?
    requires s1 == GroupsRun(c, s0, ct, tags, sch).chain && u1 == GroupsRun(c, s0, ct, tags, sch).used
    requires Overwritten(pt[..], GroupsRun(c, s0, ct, tags, sch).pt, pt0)
    modifies pt
    ensures ok <==> LoopsRun(c, s0, ct, tags, sch, dec).Running?
    ensures ok ==> s == LoopsRun(c, s0, ct, tags, sch, dec).chain && u == LoopsRun(c, s0, ct, tags, sch, dec).used
    ensures ok ==> Overwritten(pt[..], LoopsRun(c, s0, ct, tags, sch, dec).pt, pt0)
    ensures pt[|ct| - 16..] == pt0[|ct| - 16..]
  {
    var n := LoopBlocks(|ct| - 16);
    GroupsThenBlocks(|ct| - 16);
    ghost var groups := GroupsRun(c, s0, ct, tags, sch);
    ok, s, u := DecryptBlocks(dec, Tags(sch), s1, ct, tags, u1, 3 * Groups(|ct| - 16), n, pt, groups.pt, pt0);
    assert LoopsRun(c, s0, ct, tags, sch, dec) == After(groups.pt, DecryptRun(dec, Tags(sch), s1, ct, tags, u1, 3 * Groups(|ct| - 16), n));
    KeptBeyond(pt[..], pt0, 16 * n, |ct| - 16);
  }

  // ---------------------------------------------------------------------
  // The entry points.

  /** L = E(0), then W from the 3-wide `mac`. */
  method SetUpParallel(c: BlockCipher, constant: bv64, npub: bv64, ad: seq<bv8>, b: ParallelModes.Build)
    returns (s: Chain)
    ensures s == ParallelModes.ParallelSetup(c, constant, npub, ad, b)
  {
    var l := c.encrypt(Zero);
    var w := ComputeMacParallel(c, NonceParam(npub, constant), ad, l, b);
    s := Start(l, w);
  }

  /** `colm0_encrypt` of src/colm_parallel.c: returns 0 and `*c_len`; the
      ciphertext array holds the ciphertext in its first |m| + 16 bytes. */
  method Colm0EncryptParallel(c: BlockCipher, m: seq<bv8>, ad: seq<bv8>, npub: bv64, b: ParallelModes.Build,
                              ct: array<bv8>) returns (code: int, cLen: nat)
    requires |m| + 16 <= ct.Length
    modifies ct
    ensures code == 0 && cLen == ParallelModes.Colm0EncryptParallel(c, m, ad, npub, b).cLen
    ensures Overwritten(ct[..], ParallelModes.Colm0EncryptParallel(c, m, ad, npub, b).ct, old(ct[..]))
  {
    cLen := ColmModes.Wrap64(|m| + 16);
    var s0 := SetUpParallel(c, Colm0Constant, npub, ad, b);
    var tags := new bv8[0];
    NoTagsCount(LoopBlocks(|m|) + 1);
    var _ := SealParallel(c, s0, m, NoTags, ct, tags);
    code := 0;
  }

  /** `colm0_decrypt` of src/colm_parallel.c: `*m_len` is written first;
      then the length check, the MAC and decryption. */
  method Colm0DecryptParallel(c: BlockCipher, ct: seq<bv8>, ad: seq<bv8>, npub: bv64, b: ParallelModes.Build,
                              pt: array<bv8>) returns (code: int, mLen: nat)
    requires |ct| >= 16 ==> |ct| - 16 <= pt.Length
    modifies pt
    ensures code == ParallelModes.Colm0DecryptParallel(c, ct, ad, npub, b).code
    ensures mLen == ParallelModes.Colm0DecryptParallel(c, ct, ad, npub, b).mLen
    ensures code == 0 ==> Overwritten(pt[..], ParallelModes.Colm0DecryptParallel(c, ct, ad, npub, b).message, old(pt[..]))
    ensures |ct| >= 16 ==> pt[|ct| - 16..] == old(pt[..])[|ct| - 16..]
    ensures |ct| < 16 ==> pt[..] == old(pt[..])
  {
    mLen := ColmModes.MessageLength(|ct|);
    if |ct| < 16 {
      return -1, mLen;
    }
    var s0 := SetUpParallel(c, Colm0Constant, npub, ad, b);
    var st := OpenParallel(c, s0, ct, [], NoTags, TailAsLoop, pt);
    code := Code(st);
  }

  /** `colm127_encrypt` of src/colm_parallel.c: returns 0, `*c_len` and
      `*tag_len`, the caller's `tagLen0` plus 16 per tag written. */
  method Colm127EncryptParallel(c: BlockCipher, m: seq<bv8>, ad: seq<bv8>, npub: bv64, b: ParallelModes.Build,
                                ct: array<bv8>, tags: array<bv8>, tagLen0: nat) returns (code: int, cLen: nat, tagLen: nat)
    requires ct != tags
    requires |m| + 16 <= ct.Length && 16 * TagTotal(ParallelModes.Colm127Schedule(|m|, b), |m|) <= tags.Length
    modifies ct, tags
    ensures code == 0 && cLen == ParallelModes.Colm127EncryptParallel(c, m, ad, npub, tagLen0, b).cLen
    ensures tagLen == ParallelModes.Colm127EncryptParallel(c, m, ad, npub, tagLen0, b).tagLen
    ensures Overwritten(ct[..], ParallelModes.Colm127EncryptParallel(c, m, ad, npub, tagLen0, b).ct, old(ct[..]))
    ensures Overwritten(tags[..], ParallelModes.Colm127EncryptParallel(c, m, ad, npub, tagLen0, b).tags, old(tags[..]))
  {
    cLen := ColmModes.Wrap64(|m| + 16);
    var s0 := SetUpParallel(c, Colm127Constant, npub, ad, b);
    var sch := ParallelModes.Colm127Schedule(|m|, b);
    var used := SealParallel(c, s0, m, sch, ct, tags);
    ghost var e := EncryptParallel(c, s0, m, sch);
    assert tags[..used] == e.tags;
    tagLen := ColmModes.TagLength(tagLen0, tags[..used]);
    assert ParallelModes.Colm127EncryptParallel(c, m, ad, npub, tagLen0, b)
        == ColmModes.Encrypted(cLen, e.ct, ColmModes.TagLength(tagLen0, e.tags), e.tags);
    code := 0;
  }

  /** `colm127_decrypt` of src/colm_parallel.c. The tag array is not
      checked against the length: the caller provides every tag the length
      calls for. */
  method Colm127DecryptParallel(c: BlockCipher, ct: seq<bv8>, ad: seq<bv8>, npub: bv64, tags: seq<bv8>,
                                b: ParallelModes.Build, pt: array<bv8>) returns (code: int, mLen: nat)
    requires TagsCover(ParallelModes.Colm127Schedule(ParallelModes.Carried(|ct|), b), ct, tags)
    requires |ct| >= 16 ==> |ct| - 16 <= pt.Length
    modifies pt
    ensures code == ParallelModes.Colm127DecryptParallel(c, ct, ad, npub, tags, b).code
    ensures mLen == ParallelModes.Colm127DecryptParallel(c, ct, ad, npub, tags, b).mLen
    ensures code == 0 ==> Overwritten(pt[..], ParallelModes.Colm127DecryptParallel(c, ct, ad, npub, tags, b).message, old(pt[..]))
    ensures |ct| >= 16 ==> pt[|ct| - 16..] == old(pt[..])[|ct| - 16..]
    ensures |ct| < 16 ==> pt[..] == old(pt[..])
  {
    mLen := ColmModes.MessageLength(|ct|);
    if |ct| < 16 {
      return -1, mLen;
    }
    var s0 := SetUpParallel(c, Colm127Constant, npub, ad, b);
    var sch := ParallelModes.Colm127Schedule(|ct| - 16, b);
    var st := OpenParallel(c, s0, ct, tags, sch, ParallelModes.TailOf(b), pt);
    code := Code(st);
  }
}
