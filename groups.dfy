/** The three-block groups of src/colm_parallel.c: one iteration of its 3-wide
    loops, the `itag` switch that places an intermediate tag inside a group,
    and runs of groups, each shown equal to the single-block steps of
    src/colm.c in block order. */
module ColmGroups {
  import opened Blocks
  import opened GaloisField
  import opened Mixing
  import opened Cipher
  import opened ColmSpec

  // ---------------------------------------------------------------------
  // One group.

  /** delta_c1, delta_c2, delta_c3 of a group after the `itag` switch, and
      the tag mask delta_c (meaningful when itag <= 2). */
  datatype GroupOffsets = GroupOffsets(dc1: Block, dc2: Block, dc3: Block, mask: Block)

  /** From the delta_c before the group: three doublings, then one more
      doubling at the tagged block, which shifts the offsets after it. */
  function Offsets(dc: Block, itag: nat): GroupOffsets
  {
    var d1 := Mul2(dc);
    var d2 := Mul2(d1);
    var d3 := Mul2(d2);
    if itag == 2 then GroupOffsets(d2, d3, Mul2(d3), d2)
    else if itag == 1 then GroupOffsets(d1, d3, Mul2(d3), d3)
    else if itag == 0 then GroupOffsets(d1, d2, Mul2(d3), Mul2(d3))
    else GroupOffsets(d1, d2, d3, d3)
  }

  /** What belongs to the group's tagged block: block 1's for itag 2,
      block 2's for itag 1, block 3's otherwise (`w_tag`, and delta_c). */
  function AtTag(x1: Block, x2: Block, x3: Block, itag: nat): Block
  {
    if itag == 2 then x1 else if itag == 1 then x2 else x3
  }

  /** The switch leaves the offsets the single-block loop reaches, block by
      block, and masks the tag with the tagged block's offset. */
  lemma OffsetsAreSteps(dc: Block, itag: nat)
    ensures var o := Offsets(dc, itag);
            && o.dc1 == NextOffset(dc, itag == 2)
            && o.dc2 == NextOffset(o.dc1, itag == 1)
            && o.dc3 == NextOffset(o.dc2, itag == 0)
            && (itag <= 2 ==> o.mask == AtTag(o.dc1, o.dc2, o.dc3, itag))
  {
  }

  /** One iteration of the `while (remaining > 3 * BLOCKSIZE)` loop of
      `colm127_encrypt` (src/colm_parallel.c): the three blocks are masked by
      delta_m1..3, enciphered, mixed by rho against the one W in block order,
      enciphered again and masked by delta_c1..3; at itag <= 2 the tag is
      E(w_tag) + delta_c. `colm0_encrypt` has no switch: itag 3 stands for
      that. */
  function GroupEncrypt(c: BlockCipher, s: Chain, p1: Block, p2: Block, p3: Block, itag: nat): (e: EncRun)
    ensures |e.ct| == 48 && |e.tags| == if itag <= 2 then 16 else 0
  {
    var dm1 := Mul2(s.dm);
    var dm2 := Mul2(dm1);
    var dm3 := Mul2(dm2);
    var x1 := Load(p1);
    var x2 := Load(p2);
    var x3 := Load(p3);
    var r1 := Rho(c.encrypt(Xor(x1, dm1)), s.w);
    var r2 := Rho(c.encrypt(Xor(x2, dm2)), r1.state);
    var r3 := Rho(c.encrypt(Xor(x3, dm3)), r2.state);
    var o := Offsets(s.dc, itag);
    var tag := if itag <= 2 then Store(Xor(c.encrypt(AtTag(r1.state, r2.state, r3.state, itag)), o.mask)) else [];
    EncRun(Chain(r3.state, dm3, o.dc3, Xor(Xor(Xor(s.checksum, x1), x2), x3)),
           Store(Xor(c.encrypt(r1.block), o.dc1)) + Store(Xor(c.encrypt(r2.block), o.dc2))
             + Store(Xor(c.encrypt(r3.block), o.dc3)),
           tag)
  }

  /** Three single-block steps, block k a tag point when tk holds. */
  function ThreeSteps(c: BlockCipher, s: Chain, p1: Block, p2: Block, p3: Block, t1: bool, t2: bool, t3: bool): EncRun
  {
    var e1 := EncryptStep(c, s, p1, t1);
    var e2 := EncryptStep(c, e1.chain, p2, t2);
    var e3 := EncryptStep(c, e2.chain, p3, t3);
    EncRun(e3.chain, e1.ct + e2.ct + e3.ct, e1.tag + e2.tag + e3.tag)
  }

  /** Of the three blocks' tags only the tagged block's is there. */
  lemma GroupTags(c: BlockCipher, w1: Block, w2: Block, w3: Block, d1: Block, d2: Block, d3: Block, itag: nat)
    ensures StepTag(c, w1, d1, itag == 2) + StepTag(c, w2, d2, itag == 1) + StepTag(c, w3, d3, itag == 0)
         == if itag <= 2 then Store(Xor(c.encrypt(AtTag(w1, w2, w3, itag)), AtTag(d1, d2, d3, itag))) else []
  {
    var t1, t2, t3 := StepTag(c, w1, d1, itag == 2), StepTag(c, w2, d2, itag == 1), StepTag(c, w3, d3, itag == 0);
    if itag == 2 {
      assert t1 + t2 + t3 == t1;
    } else if itag == 1 {
      assert t1 + t2 + t3 == t2;
    } else if itag == 0 {
      assert t1 + t2 + t3 == t3;
    } else {
      assert t1 + t2 + t3 == [];
    }
  }

  /** A 3-wide encryption iteration is three single-block iterations, the
      block itag picks (2, 1, 0 for block 1, 2, 3) a tag point: the same
      ciphertext, tag and state. */
  lemma GroupIsThreeSteps(c: BlockCipher, s: Chain, p1: Block, p2: Block, p3: Block, itag: nat, t1: bool, t2: bool, t3: bool)
    requires t1 == (itag == 2) && t2 == (itag == 1) && t3 == (itag == 0)
    ensures GroupEncrypt(c, s, p1, p2, p3, itag) == ThreeSteps(c, s, p1, p2, p3, t1, t2, t3)
  {
    OffsetsAreSteps(s.dc, itag);
    var o := Offsets(s.dc, itag);
    var r1 := Rho(c.encrypt(Xor(Load(p1), Mul2(s.dm))), s.w);
    var r2 := Rho(c.encrypt(Xor(Load(p2), Mul2(Mul2(s.dm)))), r1.state);
    var r3 := Rho(c.encrypt(Xor(Load(p3), Mul2(Mul2(Mul2(s.dm))))), r2.state);
    GroupTags(c, r1.state, r2.state, r3.state, o.dc1, o.dc2, o.dc3, itag);
  }

  /** The state, the 48 plaintext bytes, whether the tag verified, and
      whether the group read a tag. */
  datatype GroupOut = GroupOut(chain: Chain, pt: seq<bv8>, tagOk: bool, tagged: bool)

  /** One iteration of the 3-wide loop of `colm127_decrypt` (and, with itag 3,
      of `colm0_decrypt`): the offsets after the switch mask the ciphertext
      blocks, rho^-1 runs in block order, and at itag <= 2 the tag is checked
      against the state after the tagged block. */
  function GroupDecrypt(c: BlockCipher, s: Chain, c1: Block, c2: Block, c3: Block, tag: Block, itag: nat): (d: GroupOut)
    ensures |d.pt| == 48 && (d.tagged <==> itag <= 2)
  {
    var o := Offsets(s.dc, itag);
    var ri1 := RhoInverse(c.decrypt(Xor(Load(c1), o.dc1)), s.w);
    var ri2 := RhoInverse(c.decrypt(Xor(Load(c2), o.dc2)), ri1.state);
    var ri3 := RhoInverse(c.decrypt(Xor(Load(c3), o.dc3)), ri2.state);
    var ok := itag > 2 || Equals(c.decrypt(Xor(Load(tag), o.mask)), AtTag(ri1.state, ri2.state, ri3.state, itag));
    var dm1 := Mul2(s.dm);
    var dm2 := Mul2(dm1);
    var dm3 := Mul2(dm2);
    var x1 := Xor(c.decrypt(ri1.block), dm1);
    var x2 := Xor(c.decrypt(ri2.block), dm2);
    var x3 := Xor(c.decrypt(ri3.block), dm3);
    GroupOut(Chain(ri3.state, dm3, o.dc3, Xor(Xor(Xor(s.checksum, x1), x2), x3)), Store(x1) + Store(x2) + Store(x3),
             ok, itag <= 2)
  }

  /** Three single-block decryption steps, each given the group's tag, block
      k a tag point when tk holds. */
  function ThreeDecryptSteps(c: BlockCipher, s: Chain, c1: Block, c2: Block, c3: Block, tag: Block,
                             t1: bool, t2: bool, t3: bool): GroupOut
  {
    var d1 := DecryptStep(c, s, c1, tag, t1);
    var d2 := DecryptStep(c, d1.chain, c2, tag, t2);
    var d3 := DecryptStep(c, d2.chain, c3, tag, t3);
    GroupOut(d3.chain, d1.pt + d2.pt + d3.pt, d1.tagOk && d2.tagOk && d3.tagOk, t1 || t2 || t3)
  }

  /** A 3-wide decryption iteration is three single-block iterations: the
      same plaintext and state, and the tag verifies exactly when the
      single-block steps verify it. */
  lemma GroupDecryptIsThreeSteps(c: BlockCipher, s: Chain, c1: Block, c2: Block, c3: Block, tag: Block, itag: nat,
                                 t1: bool, t2: bool, t3: bool)
    requires t1 == (itag == 2) && t2 == (itag == 1) && t3 == (itag == 0)
    ensures GroupDecrypt(c, s, c1, c2, c3, tag, itag) == ThreeDecryptSteps(c, s, c1, c2, c3, tag, t1, t2, t3)
  {
    OffsetsAreSteps(s.dc, itag);
  }

  // ---------------------------------------------------------------------
  // Where the `itag` switch puts the tags.

  /** The `itag` of group j (from 0): `iteration_counter % 127`, the counter
      starting at 3 and stepping by 3, so that it is the number of the group's
      third block counted from 1. COLM0 has no switch, which itag 3 stands
      for. */
  function GroupTag(sch: Schedule, j: nat): nat
  {
    if sch == NoTags then 3 else Mod127(3 * j + 3)
  }

  /** k % 127, by repeated subtraction, so that the verifier unfolds it only
      where a proof needs it. */
  function Mod127(k: nat): (r: nat)
    ensures r < 127
    decreases k
  {
    if k < 127 then k else Mod127(k - 127)
  }

  lemma {:induction false} Mod127Is(k: nat)
    ensures Mod127(k) == k % 127
    decreases k
  {
    if k >= 127 {
      Mod127Is(k - 127);
    }
  }

  /** With the counter at k + 3, the counter's remainder is 2, 1 or 0 exactly
      when block k, k + 1 or k + 2 (from 0) is a multiple of 127 counted from 1. */
  lemma {:induction false} CounterRemainder(k: nat)
    ensures MultipleOf127(k + 1) <==> Mod127(k + 3) == 2
    ensures MultipleOf127(k + 2) <==> Mod127(k + 3) == 1
    ensures MultipleOf127(k + 3) <==> Mod127(k + 3) == 0
    decreases k
  {
    if k >= 127 {
      CounterRemainder(k - 127);
      assert Mod127(k + 3) == Mod127(k - 127 + 3);
      assert MultipleOf127(k + 1) == MultipleOf127(k - 127 + 1);
      assert MultipleOf127(k + 2) == MultipleOf127(k - 127 + 2);
      assert MultipleOf127(k + 3) == MultipleOf127(k - 127 + 3);
    } else if k >= 124 {
      assert Mod127(k + 3) == k - 124;
      assert MultipleOf127(k + 3) == MultipleOf127(k - 124);
      if k == 126 {
        assert MultipleOf127(k + 1) == MultipleOf127(0);
      }
      if k >= 125 {
        assert MultipleOf127(k + 2) == MultipleOf127(k - 125);
      }
    }
  }

  /** The schedules the 3-wide loops follow for their first g groups. */
  predicate GroupsFollow(sch: Schedule, g: nat)
  {
    sch.Parallel127? ==> g <= sch.groups
  }

  /** The `itag` switch tags block k of group j exactly when block 3j + k is
      a tag point. */
  lemma GroupTagPoints(sch: Schedule, j: nat)
    requires GroupsFollow(sch, j + 1)
    ensures TagPoint(sch, 3 * j) <==> GroupTag(sch, j) == 2
    ensures TagPoint(sch, 3 * j + 1) <==> GroupTag(sch, j) == 1
    ensures TagPoint(sch, 3 * j + 2) <==> GroupTag(sch, j) == 0
  {
    CounterRemainder(3 * j);
  }

  // ---------------------------------------------------------------------
  // Runs of groups.

  /** A 3-wide loop body: from the state, three plaintext blocks and the
      group's number to the group's ciphertext, tags and new state; and its
      decrypting counterpart, given the tag it would read. */
  type GroupEncryptor = (Chain, Block, Block, Block, nat) -> EncRun
  type GroupDecryptor = (Chain, Block, Block, Block, Block, nat) -> GroupOut

  /** Three steps of a single-block loop body from block k. */
  function Three(enc: Encryptor, s: Chain, p1: Block, p2: Block, p3: Block, k: nat): EncRun
  {
    var e1 := enc(s, p1, k);
    var e2 := enc(e1.chain, p2, k + 1);
    var e3 := enc(e2.chain, p3, k + 2);
    EncRun(e3.chain, e1.ct + e2.ct + e3.ct, e1.tag + e2.tag + e3.tag)
  }

  /** The first g groups of a 3-wide loop from state s. */
  function GroupRun(genc: GroupEncryptor, s: Chain, m: seq<bv8>, g: nat): EncRun
    requires 48 * g <= |m|
  {
    if g == 0 then EncRun(s, [], [])
    else
      var prev := GroupRun(genc, s, m, g - 1);
      var e := genc(prev.chain, BlockAt(m, 3 * (g - 1)), BlockAt(m, 3 * (g - 1) + 1), BlockAt(m, 3 * (g - 1) + 2), g - 1);
      EncRun(e.chain, prev.ct + e.ct, prev.tags + e.tags)
  }

  /** Each of the first g groups of genc is three steps of enc. */
  ghost predicate GroupsAre(genc: GroupEncryptor, enc: Encryptor, g: nat)
  {
    forall ch, p1, p2, p3, j: nat {:trigger genc(ch, p1, p2, p3, j)} | j < g :: genc(ch, p1, p2, p3, j) == Three(enc, ch, p1, p2, p3, 3 * j)
  }

  /** Three more blocks of a run are three more steps. */
  lemma RunThreeMore(enc: Encryptor, s: Chain, m: seq<bv8>, k: nat)
    requires 16 * (k + 3) <= |m|
    ensures var prev := EncryptRun(enc, s, m, 0, k);
            var t := Three(enc, prev.chain, BlockAt(m, k), BlockAt(m, k + 1), BlockAt(m, k + 2), k);
            EncryptRun(enc, s, m, 0, k + 3) == EncRun(t.chain, prev.ct + t.ct, prev.tags + t.tags)
  {
    var r0 := EncryptRun(enc, s, m, 0, k);
    var e1 := enc(r0.chain, BlockAt(m, k), k);
    var e2 := enc(e1.chain, BlockAt(m, k + 1), k + 1);
    var e3 := enc(e2.chain, BlockAt(m, k + 2), k + 2);
    assert EncryptRun(enc, s, m, 0, k + 1) == EncRun(e1.chain, r0.ct + e1.ct, r0.tags + e1.tag);
    assert EncryptRun(enc, s, m, 0, k + 2) == EncRun(e2.chain, r0.ct + e1.ct + e2.ct, r0.tags + e1.tag + e2.tag);
    assert r0.ct + e1.ct + e2.ct + e3.ct == r0.ct + (e1.ct + e2.ct + e3.ct);
    assert r0.tags + e1.tag + e2.tag + e3.tag == r0.tags + (e1.tag + e2.tag + e3.tag);
  }

  lemma GroupIsThree(genc: GroupEncryptor, enc: Encryptor, h: nat, ch: Chain, p1: Block, p2: Block, p3: Block)
    requires GroupsAre(genc, enc, h + 1)
    ensures GroupsAre(genc, enc, h)
    ensures genc(ch, p1, p2, p3, h) == Three(enc, ch, p1, p2, p3, 3 * h)
  {
  }

  /** Group h, when it is three steps, extends a run of 3h blocks to one of
      3h + 3 blocks. */
  lemma GroupRunStep(genc: GroupEncryptor, enc: Encryptor, s: Chain, m: seq<bv8>, h: nat)
    requires 48 * (h + 1) <= |m|
    requires GroupRun(genc, s, m, h) == EncryptRun(enc, s, m, 0, 3 * h)
    requires var ch := GroupRun(genc, s, m, h).chain;
             var p1, p2, p3 := BlockAt(m, 3 * h), BlockAt(m, 3 * h + 1), BlockAt(m, 3 * h + 2);
             genc(ch, p1, p2, p3, h) == Three(enc, ch, p1, p2, p3, 3 * h)
    ensures GroupRun(genc, s, m, h + 1) == EncryptRun(enc, s, m, 0, 3 * h + 3)
  {
    RunThreeMore(enc, s, m, 3 * h);
  }

  /** g groups of a 3-wide loop whose groups are three steps of enc encrypt
      as enc does the first 3g blocks: the same ciphertext, tags and state. */
  lemma {:induction false} GroupRunIsRun(genc: GroupEncryptor, enc: Encryptor, s: Chain, m: seq<bv8>, g: nat)
    requires 48 * g <= |m| && GroupsAre(genc, enc, g)
    ensures GroupRun(genc, s, m, g) == EncryptRun(enc, s, m, 0, 3 * g)
    decreases g, 1
  {
    if g > 0 {
      GroupRunIsRunAfter(genc, enc, s, m, g - 1);
    }
  }

  lemma {:induction false} GroupRunIsRunAfter(genc: GroupEncryptor, enc: Encryptor, s: Chain, m: seq<bv8>, h: nat)
    requires 48 * (h + 1) <= |m| && GroupsAre(genc, enc, h + 1)
    ensures GroupRun(genc, s, m, h + 1) == EncryptRun(enc, s, m, 0, 3 * h + 3)
    decreases h + 1, 0
  {
    GroupIsThree(genc, enc, h, GroupRun(genc, s, m, h).chain, BlockAt(m, 3 * h), BlockAt(m, 3 * h + 1), BlockAt(m, 3 * h + 2));
    GroupRunIsRun(genc, enc, s, m, h);
    GroupRunStep(genc, enc, s, m, h);
  }

  /** The tagged decryption outcome of a group that started with u tags read. */
  function Outcome(d: GroupOut, u: nat): DecRun
  {
    if !d.tagOk then TagFailed else Running(d.chain, d.pt, if d.tagged then u + 1 else u)
  }

  /** The plaintext before a run, prepended to the run's. */
  function After(pt: seq<bv8>, r: DecRun): DecRun
  {
    match r
    case TagFailed => TagFailed
    case Running(chain, more, used) => Running(chain, pt + more, used)
  }

  /** Three steps of a single-block decryption loop body from block k, u tags
      read before them, each reading the next tag at a tag point. */
  function ThreeDec(dec: Decryptor, isTag: nat -> bool, s: Chain, c1: Block, c2: Block, c3: Block,
                    tags: seq<bv8>, u: nat, k: nat): DecRun
  {
    var d1 := dec(s, c1, TagBlockAt(tags, u), k);
    var u1 := if isTag(k) then u + 1 else u;
    var d2 := dec(d1.chain, c2, TagBlockAt(tags, u1), k + 1);
    var u2 := if isTag(k + 1) then u1 + 1 else u1;
    var d3 := dec(d2.chain, c3, TagBlockAt(tags, u2), k + 2);
    if !(d1.tagOk && d2.tagOk && d3.tagOk) then TagFailed
    else Running(d3.chain, d1.pt + d2.pt + d3.pt, if isTag(k + 2) then u2 + 1 else u2)
  }

  /** The first g groups of a 3-wide decryption loop from state s, u tags read
      before them; a tag that does not verify stops the loop. */
  function GroupDecryptRun(gdec: GroupDecryptor, s: Chain, ct: seq<bv8>, tags: seq<bv8>, u: nat, g: nat): DecRun
    requires 48 * g <= |ct|
  {
    if g == 0 then Running(s, [], u)
    else
      match GroupDecryptRun(gdec, s, ct, tags, u, g - 1)
      case TagFailed => TagFailed
      case Running(chain, pt, used) =>
        After(pt, Outcome(gdec(chain, BlockAt(ct, 3 * (g - 1)), BlockAt(ct, 3 * (g - 1) + 1),
                               BlockAt(ct, 3 * (g - 1) + 2), TagBlockAt(tags, used), g - 1), used))
  }

  /** Every group a 3-wide loop body decrypts is three blocks long. */
  ghost predicate FullDecryptedGroups(gdec: GroupDecryptor)
  {
    forall ch, c1, c2, c3, tag, j :: |gdec(ch, c1, c2, c3, tag, j).pt| == 48
  }

  /** A run of g groups, each decrypting 48 bytes, decrypts 48 * g bytes. */
  lemma {:induction false} GroupRunLength(gdec: GroupDecryptor, s: Chain, ct: seq<bv8>, tags: seq<bv8>, u: nat, g: nat)
    requires 48 * g <= |ct| && FullDecryptedGroups(gdec)
    ensures GroupDecryptRun(gdec, s, ct, tags, u, g).Running? ==> |GroupDecryptRun(gdec, s, ct, tags, u, g).pt| == 48 * g
  {
    if g > 0 {
      GroupRunLength(gdec, s, ct, tags, u, g - 1);
    }
  }

  /** Each of the first g groups of gdec, given the next tag, decrypts as
      three steps of dec. */
  ghost predicate DecryptGroupsAre(gdec: GroupDecryptor, dec: Decryptor, isTag: nat -> bool, g: nat)
  {
    forall ch, c1, c2, c3, tags, u: nat, j: nat | j < g ::
      Outcome(gdec(ch, c1, c2, c3, TagBlockAt(tags, u), j), u) == ThreeDec(dec, isTag, ch, c1, c2, c3, tags, u, 3 * j)
  }

  /** Three more blocks of a decryption run are three more steps. */
  lemma DecryptRunThreeMore(dec: Decryptor, isTag: nat -> bool, s: Chain, ct: seq<bv8>, tags: seq<bv8>, u: nat, k: nat)
    requires 16 * (k + 3) <= |ct|
    ensures DecryptRun(dec, isTag, s, ct, tags, u, 0, k + 3)
         == match DecryptRun(dec, isTag, s, ct, tags, u, 0, k)
            case TagFailed => TagFailed
            case Running(chain, pt, used) =>
              After(pt, ThreeDec(dec, isTag, chain, BlockAt(ct, k), BlockAt(ct, k + 1), BlockAt(ct, k + 2), tags, used, k))
  {
    var r := DecryptRun(dec, isTag, s, ct, tags, u, 0, k);
    if r.Running? {
      var d1 := dec(r.chain, BlockAt(ct, k), TagBlockAt(tags, r.used), k);
      var u1 := if isTag(k) then r.used + 1 else r.used;
      var d2 := dec(d1.chain, BlockAt(ct, k + 1), TagBlockAt(tags, u1), k + 1);
      var u2 := if isTag(k + 1) then u1 + 1 else u1;
      var d3 := dec(d2.chain, BlockAt(ct, k + 2), TagBlockAt(tags, u2), k + 2);
      if d1.tagOk && d2.tagOk {
        assert DecryptRun(dec, isTag, s, ct, tags, u, 0, k + 2) == Running(d2.chain, r.pt + d1.pt + d2.pt, u2);
        assert r.pt + d1.pt + d2.pt + d3.pt == r.pt + (d1.pt + d2.pt + d3.pt);
      } else if d1.tagOk {
        assert DecryptRun(dec, isTag, s, ct, tags, u, 0, k + 1) == Running(d1.chain, r.pt + d1.pt, u1);
        assert DecryptRun(dec, isTag, s, ct, tags, u, 0, k + 2) == TagFailed;
      } else {
        assert DecryptRun(dec, isTag, s, ct, tags, u, 0, k + 1) == TagFailed;
        assert DecryptRun(dec, isTag, s, ct, tags, u, 0, k + 2) == TagFailed;
      }
    }
  }

  /** The quantified hypothesis at group h, for the next tag. */
  lemma DecryptGroupIsThree(gdec: GroupDecryptor, dec: Decryptor, isTag: nat -> bool, h: nat,
                            ch: Chain, c1: Block, c2: Block, c3: Block, tags: seq<bv8>, u: nat)
    requires DecryptGroupsAre(gdec, dec, isTag, h + 1)
    ensures DecryptGroupsAre(gdec, dec, isTag, h)
    ensures Outcome(gdec(ch, c1, c2, c3, TagBlockAt(tags, u), h), u) == ThreeDec(dec, isTag, ch, c1, c2, c3, tags, u, 3 * h)
  {
  }

  lemma GroupDecryptRunStep(gdec: GroupDecryptor, dec: Decryptor, isTag: nat -> bool, s: Chain,
                            ct: seq<bv8>, tags: seq<bv8>, u: nat, h: nat)
    requires 48 * (h + 1) <= |ct|
    requires GroupDecryptRun(gdec, s, ct, tags, u, h) == DecryptRun(dec, isTag, s, ct, tags, u, 0, 3 * h)
    requires GroupDecryptRun(gdec, s, ct, tags, u, h).Running? ==>
      var r := GroupDecryptRun(gdec, s, ct, tags, u, h);
      Outcome(gdec(r.chain, BlockAt(ct, 3 * h), BlockAt(ct, 3 * h + 1), BlockAt(ct, 3 * h + 2), TagBlockAt(tags, r.used), h), r.used)
      == ThreeDec(dec, isTag, r.chain, BlockAt(ct, 3 * h), BlockAt(ct, 3 * h + 1), BlockAt(ct, 3 * h + 2), tags, r.used, 3 * h)
    ensures GroupDecryptRun(gdec, s, ct, tags, u, h + 1) == DecryptRun(dec, isTag, s, ct, tags, u, 0, 3 * h + 3)
  {
    DecryptRunThreeMore(dec, isTag, s, ct, tags, u, 3 * h);
  }

  /** g groups of a 3-wide decryption loop whose groups decrypt as three
      steps of dec run as dec does over the first 3g blocks: both stop at a
      tag that fails, or give the same plaintext, state and tag count. */
  lemma {:induction false} GroupDecryptRunIsRun(gdec: GroupDecryptor, dec: Decryptor, isTag: nat -> bool, s: Chain,
                                                ct: seq<bv8>, tags: seq<bv8>, u: nat, g: nat)
    requires 48 * g <= |ct| && DecryptGroupsAre(gdec, dec, isTag, g)
    ensures GroupDecryptRun(gdec, s, ct, tags, u, g) == DecryptRun(dec, isTag, s, ct, tags, u, 0, 3 * g)
    decreases g, 1
  {
    if g > 0 {
      GroupDecryptRunIsRunAfter(gdec, dec, isTag, s, ct, tags, u, g - 1);
    }
  }

  lemma {:induction false} GroupDecryptRunIsRunAfter(gdec: GroupDecryptor, dec: Decryptor, isTag: nat -> bool, s: Chain,
                                                     ct: seq<bv8>, tags: seq<bv8>, u: nat, h: nat)
    requires 48 * (h + 1) <= |ct| && DecryptGroupsAre(gdec, dec, isTag, h + 1)
    ensures GroupDecryptRun(gdec, s, ct, tags, u, h + 1) == DecryptRun(dec, isTag, s, ct, tags, u, 0, 3 * h + 3)
    decreases h + 1, 0
  {
    var r := GroupDecryptRun(gdec, s, ct, tags, u, h);
    if r.Running? {
      DecryptGroupIsThree(gdec, dec, isTag, h, r.chain, BlockAt(ct, 3 * h), BlockAt(ct, 3 * h + 1), BlockAt(ct, 3 * h + 2),
                          tags, r.used);
    } else {
      DecryptGroupIsThree(gdec, dec, isTag, h, s, Zero, Zero, Zero, tags, u);
    }
    GroupDecryptRunIsRun(gdec, dec, isTag, s, ct, tags, u, h);
    GroupDecryptRunStep(gdec, dec, isTag, s, ct, tags, u, h);
  }

  // ---------------------------------------------------------------------
  // The 3-wide loops of src/colm_parallel.c.

  /** The 3-wide encryption loop body, group j's itag as sch says. */
  function ParallelEncryptor(c: BlockCipher, sch: Schedule): GroupEncryptor
  {
    (ch: Chain, p1: Block, p2: Block, p3: Block, j: nat) => GroupEncrypt(c, ch, p1, p2, p3, GroupTag(sch, j))
  }

  /** The 3-wide decryption loop body, group j's itag as sch says. */
  function ParallelDecryptor(c: BlockCipher, sch: Schedule): GroupDecryptor
  {
    (ch: Chain, c1: Block, c2: Block, c3: Block, tag: Block, j: nat) => GroupDecrypt(c, ch, c1, c2, c3, tag, GroupTag(sch, j))
  }

  /** Three single-block steps from block k are three steps of the loop body. */
  lemma StepsAreThree(c: BlockCipher, sch: Schedule, s: Chain, p1: Block, p2: Block, p3: Block, k: nat)
    ensures ThreeSteps(c, s, p1, p2, p3, TagPoint(sch, k), TagPoint(sch, k + 1), TagPoint(sch, k + 2))
         == Three(LoopEncryptor(c, sch), s, p1, p2, p3, k)
  {
  }

  /** A group whose itag picks the block of blocks k .. k + 2 that sch makes a
      tag point is three steps of the single-block loop from block k. */
  lemma GroupAsLoop(c: BlockCipher, sch: Schedule, s: Chain, p1: Block, p2: Block, p3: Block, itag: nat, k: nat)
    requires TagPoint(sch, k) == (itag == 2) && TagPoint(sch, k + 1) == (itag == 1) && TagPoint(sch, k + 2) == (itag == 0)
    ensures GroupEncrypt(c, s, p1, p2, p3, itag) == Three(LoopEncryptor(c, sch), s, p1, p2, p3, k)
  {
    GroupIsThreeSteps(c, s, p1, p2, p3, itag, TagPoint(sch, k), TagPoint(sch, k + 1), TagPoint(sch, k + 2));
    StepsAreThree(c, sch, s, p1, p2, p3, k);
  }

  /** Group j of the 3-wide encryption loop is three steps of the single-block
      loop at blocks 3j, 3j + 1 and 3j + 2. */
  lemma ParallelGroup(c: BlockCipher, sch: Schedule, s: Chain, p1: Block, p2: Block, p3: Block, j: nat)
    requires GroupsFollow(sch, j + 1)
    ensures GroupEncrypt(c, s, p1, p2, p3, GroupTag(sch, j)) == Three(LoopEncryptor(c, sch), s, p1, p2, p3, 3 * j)
  {
    GroupTagPoints(sch, j);
    GroupAsLoop(c, sch, s, p1, p2, p3, GroupTag(sch, j), 3 * j);
  }

  lemma ParallelGroups(c: BlockCipher, sch: Schedule, g: nat)
    requires GroupsFollow(sch, g)
    ensures GroupsAre(ParallelEncryptor(c, sch), LoopEncryptor(c, sch), g)
  {
    forall ch: Chain, p1: Block, p2: Block, p3: Block, j: nat | j < g
      ensures GroupEncrypt(c, ch, p1, p2, p3, GroupTag(sch, j)) == Three(LoopEncryptor(c, sch), ch, p1, p2, p3, 3 * j)
    {
      ParallelGroup(c, sch, ch, p1, p2, p3, j);
    }
  }

  /** Off a tag point the decryption step does not look at the tag. */
  lemma UntaggedStepIgnoresTag(c: BlockCipher, s: Chain, ct: Block, tag1: Block, tag2: Block)
    ensures DecryptStep(c, s, ct, tag1, false) == DecryptStep(c, s, ct, tag2, false)
  {
  }

  /** dec reads the tag it is given only at the blocks isTag marks. */
  ghost predicate IgnoresTagOff(dec: Decryptor, isTag: nat -> bool)
  {
    forall ch, cb, tag1, tag2, i: nat {:trigger dec(ch, cb, tag1, i), dec(ch, cb, tag2, i)} | !isTag(i) ::
      dec(ch, cb, tag1, i) == dec(ch, cb, tag2, i)
  }

  lemma LoopIgnoresTag(c: BlockCipher, sch: Schedule)
    ensures IgnoresTagOff(LoopDecryptor(c, sch), Tags(sch))
  {
    forall ch: Chain, cb: Block, tag1: Block, tag2: Block, i: nat | !TagPoint(sch, i)
      ensures DecryptStep(c, ch, cb, tag1, TagPoint(sch, i)) == DecryptStep(c, ch, cb, tag2, TagPoint(sch, i))
    {
      UntaggedStepIgnoresTag(c, ch, cb, tag1, tag2);
    }
  }

  /** Three steps of dec from block k, all given the same tag. */
  function ThreeGiven(dec: Decryptor, isTag: nat -> bool, s: Chain, c1: Block, c2: Block, c3: Block,
                      tag: Block, k: nat): GroupOut
  {
    var d1 := dec(s, c1, tag, k);
    var d2 := dec(d1.chain, c2, tag, k + 1);
    var d3 := dec(d2.chain, c3, tag, k + 2);
    GroupOut(d3.chain, d1.pt + d2.pt + d3.pt, d1.tagOk && d2.tagOk && d3.tagOk, isTag(k) || isTag(k + 1) || isTag(k + 2))
  }

  /** With at most one tag point among three steps, every step may be given
      the first unread tag, as long as the others do not look at it. */
  lemma OneTagSuffices(dec: Decryptor, isTag: nat -> bool, s: Chain, c1: Block, c2: Block, c3: Block,
                       tags: seq<bv8>, u: nat, k: nat)
    requires IgnoresTagOff(dec, isTag)
    requires !(isTag(k) && isTag(k + 1)) && !(isTag(k) && isTag(k + 2)) && !(isTag(k + 1) && isTag(k + 2))
    ensures Outcome(ThreeGiven(dec, isTag, s, c1, c2, c3, TagBlockAt(tags, u), k), u)
         == ThreeDec(dec, isTag, s, c1, c2, c3, tags, u, k)
  {
    var tag := TagBlockAt(tags, u);
    var next := TagBlockAt(tags, u + 1);
    var d1 := dec(s, c1, tag, k);
    var d2 := dec(d1.chain, c2, tag, k + 1);
    if isTag(k) {
      assert dec(d1.chain, c2, tag, k + 1) == dec(d1.chain, c2, next, k + 1);
      assert dec(d2.chain, c3, tag, k + 2) == dec(d2.chain, c3, next, k + 2);
    } else if isTag(k + 1) {
      assert dec(d2.chain, c3, tag, k + 2) == dec(d2.chain, c3, next, k + 2);
    }
  }

  lemma DecryptStepsAreThree(c: BlockCipher, sch: Schedule, s: Chain, c1: Block, c2: Block, c3: Block, tag: Block, k: nat)
    ensures ThreeDecryptSteps(c, s, c1, c2, c3, tag, TagPoint(sch, k), TagPoint(sch, k + 1), TagPoint(sch, k + 2))
         == ThreeGiven(LoopDecryptor(c, sch), Tags(sch), s, c1, c2, c3, tag, k)
  {
  }

  /** A decryption group whose itag picks the block of blocks k .. k + 2 that
      sch makes a tag point is three steps of the loop body from k, given
      the group's tag. */
  lemma GroupDecryptIsGiven(c: BlockCipher, sch: Schedule, s: Chain, c1: Block, c2: Block, c3: Block,
                            tag: Block, itag: nat, k: nat)
    requires TagPoint(sch, k) == (itag == 2) && TagPoint(sch, k + 1) == (itag == 1) && TagPoint(sch, k + 2) == (itag == 0)
    ensures GroupDecrypt(c, s, c1, c2, c3, tag, itag) == ThreeGiven(LoopDecryptor(c, sch), Tags(sch), s, c1, c2, c3, tag, k)
  {
    GroupDecryptIsThreeSteps(c, s, c1, c2, c3, tag, itag, TagPoint(sch, k), TagPoint(sch, k + 1), TagPoint(sch, k + 2));
    DecryptStepsAreThree(c, sch, s, c1, c2, c3, tag, k);
  }

  /** ... and, reading the next unread tag, decrypts as the loop does. */
  lemma DecryptGroupAsLoop(c: BlockCipher, sch: Schedule, s: Chain, c1: Block, c2: Block, c3: Block,
                           tags: seq<bv8>, u: nat, itag: nat, k: nat)
    requires TagPoint(sch, k) == (itag == 2) && TagPoint(sch, k + 1) == (itag == 1) && TagPoint(sch, k + 2) == (itag == 0)
    ensures Outcome(GroupDecrypt(c, s, c1, c2, c3, TagBlockAt(tags, u), itag), u)
         == ThreeDec(LoopDecryptor(c, sch), Tags(sch), s, c1, c2, c3, tags, u, k)
  {
    GroupDecryptIsGiven(c, sch, s, c1, c2, c3, TagBlockAt(tags, u), itag, k);
    LoopIgnoresTag(c, sch);
    OneTagSuffices(LoopDecryptor(c, sch), Tags(sch), s, c1, c2, c3, tags, u, k);
  }

  /** Group j of the 3-wide decryption loop, given the next tag, decrypts as
      three steps of the single-block loop at blocks 3j, 3j + 1 and 3j + 2. */
  lemma ParallelDecryptGroup(c: BlockCipher, sch: Schedule, s: Chain, c1: Block, c2: Block, c3: Block,
                             tags: seq<bv8>, u: nat, j: nat)
    requires GroupsFollow(sch, j + 1)
    ensures Outcome(GroupDecrypt(c, s, c1, c2, c3, TagBlockAt(tags, u), GroupTag(sch, j)), u)
         == ThreeDec(LoopDecryptor(c, sch), Tags(sch), s, c1, c2, c3, tags, u, 3 * j)
  {
    GroupTagPoints(sch, j);
    DecryptGroupAsLoop(c, sch, s, c1, c2, c3, tags, u, GroupTag(sch, j), 3 * j);
  }

  lemma ParallelDecryptGroups(c: BlockCipher, sch: Schedule, g: nat)
    requires GroupsFollow(sch, g)
    ensures DecryptGroupsAre(ParallelDecryptor(c, sch), LoopDecryptor(c, sch), Tags(sch), g)
  {
    forall ch: Chain, c1: Block, c2: Block, c3: Block, tags: seq<bv8>, u: nat, j: nat | j < g
      ensures Outcome(GroupDecrypt(c, ch, c1, c2, c3, TagBlockAt(tags, u), GroupTag(sch, j)), u)
           == ThreeDec(LoopDecryptor(c, sch), Tags(sch), ch, c1, c2, c3, tags, u, 3 * j)
    {
      ParallelDecryptGroup(c, sch, ch, c1, c2, c3, tags, u, j);
    }
  }

  // ---------------------------------------------------------------------
  // Properties of the 3-wide runs.

  /** Each group adds to the tags written before it: the tags of a run of g
      groups are at least those of its first j groups. */
  lemma {:induction false} GroupRunTagsGrow(genc: GroupEncryptor, s: Chain, m: seq<bv8>, j: nat, g: nat)
    requires j <= g && 48 * g <= |m|
    ensures |GroupRun(genc, s, m, j).tags| <= |GroupRun(genc, s, m, g).tags|
    decreases g
  {
    if j < g {
      GroupRunTagsGrow(genc, s, m, j, g - 1);
    }
  }

  /** A 3-wide decryption that has stopped at a tag stays stopped. */
  lemma {:induction false} GroupDecryptRunStaysFailed(gdec: GroupDecryptor, s: Chain, ct: seq<bv8>, tags: seq<bv8>,
                                                      u: nat, k: nat, g: nat)
    requires k <= g && 48 * g <= |ct|
    requires GroupDecryptRun(gdec, s, ct, tags, u, k) == TagFailed
    ensures GroupDecryptRun(gdec, s, ct, tags, u, g) == TagFailed
    decreases g
  {
    if k < g {
      GroupDecryptRunStaysFailed(gdec, s, ct, tags, u, k, g - 1);
    }
  }
}
