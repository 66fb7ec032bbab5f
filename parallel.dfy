/** Whole messages in src/colm_parallel.c: the 3-wide loop over groups of
    three blocks, the single-block loop over the (at most two) blocks left,
    and the final block and checksum fragment shared with src/colm.c. Each is
    shown equal to the single-block message code of src/colm.c under the
    same tag schedule. */
module ParallelMessage {
  import opened Blocks
  import opened GaloisField
  import opened Mixing
  import opened Cipher
  import opened ColmSpec
  import opened ColmGroups
  import opened ColmMessage

  // ---------------------------------------------------------------------
  // Loop counts.

  /** How many times `while (remaining > 3 * BLOCKSIZE)` runs on len bytes. */
  function Groups(len: nat): (g: nat)
    ensures 48 * g <= len <= 48 * g + 48
    ensures g > 0 ==> 48 * g < len
    decreases len
  {
    if len <= 48 then 0 else Groups(len - 48) + 1
  }

  /** The 3-wide loop leaves 0 to 2 blocks to the single-block loop, which
      leaves 0 to 16 bytes to the final block: together they take exactly the
      blocks of the single-block loop of src/colm.c. */
  lemma GroupsThenBlocks(len: nat)
    ensures 3 * Groups(len) <= LoopBlocks(len) <= 3 * Groups(len) + 2
  {
  }

  // ---------------------------------------------------------------------
  // Encryption.

  /** Encryption of a message from the state s0 in the order of
      src/colm_parallel.c: Groups(|m|) 3-wide iterations, the single-block
      loop over the blocks left, then the final block and the checksum
      fragment (with the intermediate tag E(W') of src/colm_parallel.c:680-684
      at a final tag point). */
  function EncryptParallel(c: BlockCipher, s0: Chain, m: seq<bv8>, sch: Schedule): (r: Sealed)
  {
    var g := Groups(|m|);
    var n := LoopBlocks(|m|);
    GroupsThenBlocks(|m|);
    var groups := GroupRun(ParallelEncryptor(c, sch), s0, m, g);
    var body := Joined(groups, EncryptRun(LoopEncryptor(c, sch), groups.chain, m, 3 * g, n));
    SealedAfter(c, body, m[16 * n..], TagPoint(sch, n))
  }

  /** The loop's blocks and tags, then the final block, its tag, and the
      checksum fragment. */
  function SealedAfter(c: BlockCipher, body: EncRun, rest: seq<bv8>, tagPoint: bool): Sealed
    requires |rest| <= 16
  {
    var end := EncryptEnd(c, body.chain, rest, tagPoint, TagEncrypted);
    Sealed(body.ct + end.ct, body.tags + end.tags)
  }

  /** The single-block encryption is the loop's run sealed by the end. */
  lemma MessageIsSealedAfter(c: BlockCipher, s0: Chain, m: seq<bv8>, sch: Schedule)
    ensures EncryptMessage(c, s0, m, sch, TagEncrypted)
         == SealedAfter(c, EncryptRun(LoopEncryptor(c, sch), s0, m, 0, LoopBlocks(|m|)), m[16 * LoopBlocks(|m|)..],
                        TagPoint(sch, LoopBlocks(|m|)))
  {
  }

  /** A run joined to the run that continues it. */
  function Joined(a: EncRun, b: EncRun): EncRun
  {
    EncRun(b.chain, a.ct + b.ct, a.tags + b.tags)
  }

  /** A run of blocks 0 .. n - 1 is the run of blocks 0 .. k - 1 followed by
      the run of blocks k .. n - 1 from the state it reached. */
  lemma {:induction false} EncryptRunSplit(enc: Encryptor, s: Chain, m: seq<bv8>, k: nat, n: nat)
    requires k <= n && 16 * n <= |m|
    ensures EncryptRun(enc, s, m, 0, n)
         == Joined(EncryptRun(enc, s, m, 0, k), EncryptRun(enc, EncryptRun(enc, s, m, 0, k).chain, m, k, n))
    decreases n
  {
    if k < n {
      EncryptRunSplit(enc, s, m, k, n - 1);
      var a := EncryptRun(enc, s, m, 0, k);
      var b := EncryptRun(enc, a.chain, m, k, n - 1);
      var e := enc(b.chain, BlockAt(m, n - 1), n - 1);
      assert a.ct + b.ct + e.ct == a.ct + (b.ct + e.ct);
      assert a.tags + b.tags + e.tag == a.tags + (b.tags + e.tag);
    }
  }

  /** When the groups follow the schedule, the 3-wide loop and the
      single-block loop after it run as the single-block loop of src/colm.c
      over the same blocks. */
  lemma ParallelLoop(c: BlockCipher, s0: Chain, m: seq<bv8>, sch: Schedule)
    requires GroupsFollow(sch, Groups(|m|))
    ensures 3 * Groups(|m|) <= LoopBlocks(|m|)
    ensures Joined(GroupRun(ParallelEncryptor(c, sch), s0, m, Groups(|m|)),
                   EncryptRun(LoopEncryptor(c, sch), GroupRun(ParallelEncryptor(c, sch), s0, m, Groups(|m|)).chain, m,
                              3 * Groups(|m|), LoopBlocks(|m|)))
         == EncryptRun(LoopEncryptor(c, sch), s0, m, 0, LoopBlocks(|m|))
  {
    var g := Groups(|m|);
    GroupsThenBlocks(|m|);
    ParallelGroups(c, sch, g);
    GroupRunIsRun(ParallelEncryptor(c, sch), LoopEncryptor(c, sch), s0, m, g);
    EncryptRunSplit(LoopEncryptor(c, sch), s0, m, 3 * g, LoopBlocks(|m|));
  }

  /** Under a schedule its groups follow, the 3-wide encryption writes the
      ciphertext and tags of the single-block encryption, byte for byte. */
  lemma EncryptParallelIsSequential(c: BlockCipher, s0: Chain, m: seq<bv8>, sch: Schedule)
    requires GroupsFollow(sch, Groups(|m|))
    ensures EncryptParallel(c, s0, m, sch) == EncryptMessage(c, s0, m, sch, TagEncrypted)
  {
    ParallelLoop(c, s0, m, sch);
    MessageIsSealedAfter(c, s0, m, sch);
  }

  // ---------------------------------------------------------------------
  // Decryption.

  /** The body of the single-block loop of `colm127_decrypt` in
      src/colm_parallel.c as written: the ciphertext block is masked with
      delta_c before the extra doubling of a tag point, and the tag is checked
      against W before the inverse rho. Off tag points it is the loop body of
      src/colm.c. */
  function TailDecryptStep(c: BlockCipher, s: Chain, ct: Block, tag: Block, tagPoint: bool): DecOut
  {
    var dc := Mul2(s.dc);
    var dm := Mul2(s.dm);
    var y := c.decrypt(Xor(Load(ct), dc));
    var dcTag := if tagPoint then Mul2(dc) else dc;
    var ok := !tagPoint || Equals(c.decrypt(Xor(Load(tag), dcTag)), s.w);
    var ri := RhoInverse(y, s.w);
    var x := Xor(c.decrypt(ri.block), dm);
    DecOut(Chain(ri.state, dm, dcTag, Xor(s.checksum, x)), Store(x), ok)
  }

  /** Which body the single-block loop after the groups runs: the one of
      src/colm.c, or the one src/colm_parallel.c has. */
  datatype TailStyle = TailAsLoop | TailAsWritten

  function TailDecryptor(c: BlockCipher, sch: Schedule, style: TailStyle): Decryptor
  {
    match style
    case TailAsLoop => LoopDecryptor(c, sch)
    case TailAsWritten => (ch: Chain, cb: Block, tag: Block, i: nat) => TailDecryptStep(c, ch, cb, tag, TagPoint(sch, i))
  }

  /** A decryption run continued over blocks lo .. hi - 1 from where it
      stopped, unless a tag failed. */
  function Continued(r: DecRun, dec: Decryptor, isTag: nat -> bool, ct: seq<bv8>, tags: seq<bv8>, lo: nat, hi: nat): DecRun
    requires lo <= hi && 16 * hi <= |ct|
  {
    match r
    case TagFailed => TagFailed
    case Running(chain, pt, used) => After(pt, DecryptRun(dec, isTag, chain, ct, tags, used, lo, hi))
  }

  /** After the loops have decrypted n blocks: -5 if a tag failed, otherwise
      the final block, its tag and the checksum fragment. */
  function OpenedAfter(c: BlockCipher, r: DecRun, ct: seq<bv8>, tags: seq<bv8>, n: nat, sch: Schedule): Opened
    requires 16 * (n + 1) <= |ct| <= 16 * (n + 2)
  {
    match r
    case TagFailed => Opened(IntermediateTagMismatch, [])
    case Running(chain, pt, used) => DecryptEnd(c, chain, pt, ct, n, TagBlockAt(tags, used), TagPoint(sch, n))
  }

  /** Decryption of a ciphertext from the state s0 in the order of
      src/colm_parallel.c: the length check (-1), Groups(|ct| - 16) 3-wide
      iterations (-5 at the first intermediate tag that fails), the
      single-block loop over the blocks left, and the end, which is that of
      src/colm.c. */
  function DecryptParallel(c: BlockCipher, s0: Chain, ct: seq<bv8>, tags: seq<bv8>, sch: Schedule, style: TailStyle): (o: Opened)
    ensures o.status == InvalidLength <==> |ct| < 16
  {
    if |ct| < 16 then Opened(InvalidLength, [])
    else
      var n := LoopBlocks(|ct| - 16);
      GroupsThenBlocks(|ct| - 16);
      OpenedAfter(c, LoopsRun(c, s0, ct, tags, sch, TailDecryptor(c, sch, style)), ct, tags, n, sch)
  }

  /** Where the two decryption loops leave the run: the groups, then the
      single-block loop with body `dec` continued over the blocks left
      before the final block. */
  function LoopsRun(c: BlockCipher, s0: Chain, ct: seq<bv8>, tags: seq<bv8>, sch: Schedule, dec: Decryptor): (r: DecRun)
    requires |ct| >= 16
    ensures r.Running? ==> |r.pt| == 16 * LoopBlocks(|ct| - 16)
  {
    GroupsThenBlocks(|ct| - 16);
    Continued(GroupsRun(c, s0, ct, tags, sch), dec, Tags(sch), ct, tags, 3 * Groups(|ct| - 16), LoopBlocks(|ct| - 16))
  }

  /** Where the 3-wide loop leaves the run. */
  function GroupsRun(c: BlockCipher, s0: Chain, ct: seq<bv8>, tags: seq<bv8>, sch: Schedule): (r: DecRun)
    requires |ct| >= 16
    ensures r.Running? ==> |r.pt| == 48 * Groups(|ct| - 16)
  {
    var g := Groups(|ct| - 16);
    assert FullDecryptedGroups(ParallelDecryptor(c, sch));
    GroupRunLength(ParallelDecryptor(c, sch), s0, ct, tags, 0, g);
    GroupDecryptRun(ParallelDecryptor(c, sch), s0, ct, tags, 0, g)
  }

  /** A decryption run of blocks 0 .. n - 1 is the run of blocks 0 .. k - 1
      continued over blocks k .. n - 1. */
  lemma {:induction false} DecryptRunSplit(dec: Decryptor, isTag: nat -> bool, s: Chain, ct: seq<bv8>, tags: seq<bv8>,
                                           u: nat, k: nat, n: nat)
    requires k <= n && 16 * n <= |ct|
    ensures DecryptRun(dec, isTag, s, ct, tags, u, 0, n)
         == Continued(DecryptRun(dec, isTag, s, ct, tags, u, 0, k), dec, isTag, ct, tags, k, n)
    decreases n
  {
    var r := DecryptRun(dec, isTag, s, ct, tags, u, 0, k);
    if k == n {
      if r.Running? {
        assert r.pt + [] == r.pt;
      }
    } else {
      DecryptRunSplit(dec, isTag, s, ct, tags, u, k, n - 1);
      if r.Running? {
        var rest := DecryptRun(dec, isTag, r.chain, ct, tags, r.used, k, n - 1);
        if rest.Running? {
          var d := dec(rest.chain, BlockAt(ct, n - 1), TagBlockAt(tags, rest.used), n - 1);
          assert r.pt + rest.pt + d.pt == r.pt + (rest.pt + d.pt);
        }
      }
    }
  }

  /** When the groups follow the schedule, the 3-wide loop and the
      single-block loop of src/colm.c after it decrypt as the single-block
      loop alone: the same failure or the same plaintext, state and tag count. */
  lemma ParallelDecryptLoop(c: BlockCipher, s0: Chain, ct: seq<bv8>, tags: seq<bv8>, sch: Schedule)
    requires |ct| >= 16 && GroupsFollow(sch, Groups(|ct| - 16))
    ensures 3 * Groups(|ct| - 16) <= LoopBlocks(|ct| - 16)
    ensures Continued(GroupsRun(c, s0, ct, tags, sch),
                      LoopDecryptor(c, sch), Tags(sch), ct, tags, 3 * Groups(|ct| - 16), LoopBlocks(|ct| - 16))
         == DecryptRun(LoopDecryptor(c, sch), Tags(sch), s0, ct, tags, 0, 0, LoopBlocks(|ct| - 16))
  {
    var g := Groups(|ct| - 16);
    GroupsThenBlocks(|ct| - 16);
    ParallelDecryptGroups(c, sch, g);
    GroupDecryptRunIsRun(ParallelDecryptor(c, sch), LoopDecryptor(c, sch), Tags(sch), s0, ct, tags, 0, g);
    DecryptRunSplit(LoopDecryptor(c, sch), Tags(sch), s0, ct, tags, 0, 3 * g, LoopBlocks(|ct| - 16));
  }

  /** The single-block decryption is the loop's run opened by the end. */
  lemma MessageIsOpenedAfter(c: BlockCipher, s0: Chain, ct: seq<bv8>, tags: seq<bv8>, sch: Schedule)
    requires |ct| >= 16 && TagsCover(sch, ct, tags)
    ensures DecryptMessage(c, s0, ct, tags, sch)
         == OpenedAfter(c, DecryptRun(LoopDecryptor(c, sch), Tags(sch), s0, ct, tags, 0, 0, LoopBlocks(|ct| - 16)),
                        ct, tags, LoopBlocks(|ct| - 16), sch)
  {
  }

  /** Under a schedule its groups follow, the 3-wide decryption with the
      loop body of src/colm.c after the groups returns what the single-block
      decryption returns: the same status, and the same message. */
  lemma DecryptParallelIsSequential(c: BlockCipher, s0: Chain, ct: seq<bv8>, tags: seq<bv8>, sch: Schedule)
    requires TagsCover(sch, ct, tags)
    requires |ct| >= 16 ==> GroupsFollow(sch, Groups(|ct| - 16))
    ensures DecryptParallel(c, s0, ct, tags, sch, TailAsLoop) == DecryptMessage(c, s0, ct, tags, sch)
  {
    if |ct| >= 16 {
      ParallelDecryptLoop(c, s0, ct, tags, sch);
      MessageIsOpenedAfter(c, s0, ct, tags, sch);
    }
  }

  // ---------------------------------------------------------------------
  // The single-block decryption loop as written.

  /** Off a tag point the body as written is the loop body of src/colm.c. */
  lemma TailStepAgrees(c: BlockCipher, s: Chain, ct: Block, tag: Block)
    ensures TailDecryptStep(c, s, ct, tag, false) == DecryptStep(c, s, ct, tag, false)
  {
  }

  /** Two decryptors give the same result on blocks lo .. hi - 1. */
  ghost predicate AgreeOn(dec1: Decryptor, dec2: Decryptor, lo: nat, hi: nat)
  {
    forall ch, cb, tag, i: nat {:trigger dec1(ch, cb, tag, i)} | lo <= i < hi :: dec1(ch, cb, tag, i) == dec2(ch, cb, tag, i)
  }

  /** Decryptors that agree on the blocks of a run give the same run. */
  lemma {:induction false} DecryptRunAgrees(dec1: Decryptor, dec2: Decryptor, isTag: nat -> bool, s: Chain,
                                            ct: seq<bv8>, tags: seq<bv8>, u: nat, lo: nat, hi: nat)
    requires lo <= hi && 16 * hi <= |ct| && AgreeOn(dec1, dec2, lo, hi)
    ensures DecryptRun(dec1, isTag, s, ct, tags, u, lo, hi) == DecryptRun(dec2, isTag, s, ct, tags, u, lo, hi)
    decreases hi - lo
  {
    if lo < hi {
      assert AgreeOn(dec1, dec2, lo, hi - 1);
      DecryptRunAgrees(dec1, dec2, isTag, s, ct, tags, u, lo, hi - 1);
    }
  }

  /** No block of the single-block loop after the groups is a tag point. */
  predicate NoTailTags(sch: Schedule, len: nat)
  {
    forall i: nat | 3 * Groups(len) <= i < LoopBlocks(len) :: !TagPoint(sch, i)
  }

  lemma TailBodiesAgree(c: BlockCipher, sch: Schedule, len: nat)
    requires NoTailTags(sch, len)
    ensures AgreeOn(TailDecryptor(c, sch, TailAsWritten), TailDecryptor(c, sch, TailAsLoop), 3 * Groups(len), LoopBlocks(len))
  {
    forall ch: Chain, cb: Block, tag: Block, i: nat | 3 * Groups(len) <= i < LoopBlocks(len)
      ensures TailDecryptStep(c, ch, cb, tag, TagPoint(sch, i)) == DecryptStep(c, ch, cb, tag, TagPoint(sch, i))
    {
      TailStepAgrees(c, ch, cb, tag);
    }
  }

  /** As written, the 3-wide decryption returns what it would with the loop
      body of src/colm.c whenever no block of its single-block loop is a
      tag point. */
  lemma TailAsWrittenAgrees(c: BlockCipher, s0: Chain, ct: seq<bv8>, tags: seq<bv8>, sch: Schedule)
    requires |ct| >= 16 ==> NoTailTags(sch, |ct| - 16)
    ensures DecryptParallel(c, s0, ct, tags, sch, TailAsWritten) == DecryptParallel(c, s0, ct, tags, sch, TailAsLoop)
  {
    if |ct| >= 16 {
      TailRunsAgree(c, s0, ct, tags, sch);
    }
  }

  /** With no tag point after the groups, both bodies leave the same run. */
  lemma TailRunsAgree(c: BlockCipher, s0: Chain, ct: seq<bv8>, tags: seq<bv8>, sch: Schedule)
    requires |ct| >= 16 && NoTailTags(sch, |ct| - 16)
    ensures LoopsRun(c, s0, ct, tags, sch, TailDecryptor(c, sch, TailAsWritten))
         == LoopsRun(c, s0, ct, tags, sch, TailDecryptor(c, sch, TailAsLoop))
  {
    TailBodiesAgree(c, sch, |ct| - 16);
    LoopsRunsAgree(c, s0, ct, tags, sch, TailDecryptor(c, sch, TailAsWritten), TailDecryptor(c, sch, TailAsLoop));
  }

  /** Loop bodies that agree on the blocks of the single-block loop leave
      the same run after both loops. */
  lemma LoopsRunsAgree(c: BlockCipher, s0: Chain, ct: seq<bv8>, tags: seq<bv8>, sch: Schedule, dec1: Decryptor, dec2: Decryptor)
    requires |ct| >= 16 && AgreeOn(dec1, dec2, 3 * Groups(|ct| - 16), LoopBlocks(|ct| - 16))
    ensures LoopsRun(c, s0, ct, tags, sch, dec1) == LoopsRun(c, s0, ct, tags, sch, dec2)
  {
    var groups := GroupsRun(c, s0, ct, tags, sch);
    GroupsThenBlocks(|ct| - 16);
    if groups.Running? {
      DecryptRunAgrees(dec1, dec2, Tags(sch), groups.chain, ct, tags, groups.used, 3 * Groups(|ct| - 16), LoopBlocks(|ct| - 16));
    }
  }

  /** At a tag point the body as written checks the tag against W before the
      inverse rho: the tag encryption wrote for a block passes only if rho
      left W unchanged, that is, only if the encrypted masked block is 3W. */
  lemma TailTagAsWritten(c: BlockCipher, s: Chain, p: Block)
    requires Inverse(c)
    ensures var e := EncryptStep(c, s, p, true);
            TailDecryptStep(c, s, e.ct, e.tag, true).tagOk <==> e.chain.w == s.w
  {
    var e := EncryptStep(c, s, p, true);
    var dc := e.chain.dc;
    var r := Rho(c.encrypt(Xor(Load(p), Mul2(s.dm))), s.w);
    LoadStore(e.tag, Xor(c.encrypt(r.state), dc));
    XorCancel(c.encrypt(r.state), dc);
    EqualsIff(r.state, s.w);
  }

  /** The 3-wide loop leaves the run the single-block loop leaves after the
      same blocks. */
  lemma GroupsRunIsLoop(c: BlockCipher, s0: Chain, ct: seq<bv8>, tags: seq<bv8>, sch: Schedule)
    requires |ct| >= 16 && GroupsFollow(sch, Groups(|ct| - 16))
    ensures 48 * Groups(|ct| - 16) <= |ct|
    ensures GroupsRun(c, s0, ct, tags, sch)
         == DecryptRun(LoopDecryptor(c, sch), Tags(sch), s0, ct, tags, 0, 0, 3 * Groups(|ct| - 16))
  {
    var g := Groups(|ct| - 16);
    GroupsThenBlocks(|ct| - 16);
    ParallelDecryptGroups(c, sch, g);
    GroupDecryptRunIsRun(ParallelDecryptor(c, sch), LoopDecryptor(c, sch), Tags(sch), s0, ct, tags, 0, g);
  }

  /** Off tag points the body as written and the loop body agree. */
  lemma TailAgreesOffTags(c: BlockCipher, sch: Schedule, lo: nat, hi: nat)
    requires forall i: nat | lo <= i < hi :: !TagPoint(sch, i)
    ensures AgreeOn(TailDecryptor(c, sch, TailAsWritten), LoopDecryptor(c, sch), lo, hi)
  {
    forall ch: Chain, cb: Block, tag: Block, i: nat | lo <= i < hi
      ensures TailDecryptStep(c, ch, cb, tag, TagPoint(sch, i)) == DecryptStep(c, ch, cb, tag, TagPoint(sch, i))
    {
      TailStepAgrees(c, ch, cb, tag);
    }
  }

  /** A run of `loop` over blocks 0 .. lo - 1, continued with a body that
      agrees with `loop` up to block n - 2 and fails the tag check of block
      n - 1, has failed. */
  lemma ContinuedFails(loop: Decryptor, tail: Decryptor, isTag: nat -> bool, s0: Chain, ct: seq<bv8>, tags: seq<bv8>,
                       lo: nat, n: nat)
    requires lo < n && 16 * n <= |ct| && AgreeOn(tail, loop, lo, n - 1)
    requires DecryptRun(loop, isTag, s0, ct, tags, 0, 0, n - 1).Running?
    requires var d := DecryptRun(loop, isTag, s0, ct, tags, 0, 0, n - 1);
             !tail(d.chain, BlockAt(ct, n - 1), TagBlockAt(tags, d.used), n - 1).tagOk
    ensures Continued(DecryptRun(loop, isTag, s0, ct, tags, 0, 0, lo), tail, isTag, ct, tags, lo, n) == TagFailed
  {
    DecryptRunSplit(loop, isTag, s0, ct, tags, 0, lo, n - 1);
    var r := DecryptRun(loop, isTag, s0, ct, tags, 0, 0, lo);
    DecryptRunAgrees(tail, loop, isTag, r.chain, ct, tags, r.used, lo, n - 1);
  }

  /** At a tag point the body as written is the tag-checking step. */
  lemma TailAtTagPoint(c: BlockCipher, sch: Schedule, ch: Chain, cb: Block, tag: Block, i: nat)
    requires TagPoint(sch, i)
    ensures TailDecryptor(c, sch, TailAsWritten)(ch, cb, tag, i) == TailDecryptStep(c, ch, cb, tag, true)
  {
  }

  /** When the last block of the single-block loop after the groups is its
      only tag point, and the blocks before it decrypt, the body as written
      stops the loops there if its tag check fails. */
  lemma TailRunFails(c: BlockCipher, s0: Chain, ct: seq<bv8>, tags: seq<bv8>, sch: Schedule, lo: nat, n: nat)
    requires lo < n && 16 * n <= |ct|
    requires forall i: nat | lo <= i < n - 1 :: !TagPoint(sch, i)
    requires TagPoint(sch, n - 1)
    requires DecryptRun(LoopDecryptor(c, sch), Tags(sch), s0, ct, tags, 0, 0, n - 1).Running?
    requires var d := DecryptRun(LoopDecryptor(c, sch), Tags(sch), s0, ct, tags, 0, 0, n - 1);
             !TailDecryptStep(c, d.chain, BlockAt(ct, n - 1), TagBlockAt(tags, d.used), true).tagOk
    ensures Continued(DecryptRun(LoopDecryptor(c, sch), Tags(sch), s0, ct, tags, 0, 0, lo),
                      TailDecryptor(c, sch, TailAsWritten), Tags(sch), ct, tags, lo, n) == TagFailed
  {
    var d := DecryptRun(LoopDecryptor(c, sch), Tags(sch), s0, ct, tags, 0, 0, n - 1);
    TailAgreesOffTags(c, sch, lo, n - 1);
    TailAtTagPoint(c, sch, d.chain, BlockAt(ct, n - 1), TagBlockAt(tags, d.used), n - 1);
    ContinuedFails(LoopDecryptor(c, sch), TailDecryptor(c, sch, TailAsWritten), Tags(sch), s0, ct, tags, lo, n);
  }

  /** Loops stopped by the single-block loop after the groups make the
      decryption return -5. */
  lemma LoopsFailed(c: BlockCipher, s0: Chain, ct: seq<bv8>, tags: seq<bv8>, sch: Schedule, style: TailStyle, len: nat)
    requires |ct| == len + 16 && GroupsFollow(sch, Groups(len))
    requires 3 * Groups(len) <= LoopBlocks(len)
    requires Continued(DecryptRun(LoopDecryptor(c, sch), Tags(sch), s0, ct, tags, 0, 0, 3 * Groups(len)),
                       TailDecryptor(c, sch, style), Tags(sch), ct, tags, 3 * Groups(len), LoopBlocks(len))
          == TagFailed
    ensures DecryptParallel(c, s0, ct, tags, sch, style).status == IntermediateTagMismatch
  {
    assert |ct| - 16 == len;
    GroupsRunIsLoop(c, s0, ct, tags, sch);
  }

  /** As written, when the last block of the single-block loop after the
      groups is its only tag point, the 3-wide decryption of what the 3-wide
      encryption sealed reports an intermediate tag mismatch (-5) whenever
      rho changed W at that block. */
  lemma TailTagRejects(c: BlockCipher, s0: Chain, m: seq<bv8>, sch: Schedule)
    requires Inverse(c) && GroupsFollow(sch, Groups(|m|))
    requires 3 * Groups(|m|) < LoopBlocks(|m|)
    requires forall i: nat | 3 * Groups(|m|) <= i < LoopBlocks(|m|) - 1 :: !TagPoint(sch, i)
    requires TagPoint(sch, LoopBlocks(|m|) - 1)
    requires var k := LoopBlocks(|m|) - 1;
             var s := EncryptRun(LoopEncryptor(c, sch), s0, m, 0, k).chain;
             EncryptStep(c, s, BlockAt(m, k), true).chain.w != s.w
    ensures var e := EncryptParallel(c, s0, m, sch);
            DecryptParallel(c, s0, e.ct, e.tags, sch, TailAsWritten).status == IntermediateTagMismatch
  {
    var n := LoopBlocks(|m|);
    var e := EncryptParallel(c, s0, m, sch);
    assert Carries(LoopEncryptor(c, sch), Tags(sch), s0, m, n, e.ct, e.tags) && |e.ct| == |m| + 16 by {
      EncryptParallelIsSequential(c, s0, m, sch);
      MessageLaid(c, s0, m, sch, TagEncrypted);
    }
    CarriedTailRejects(c, s0, m, sch, e.ct, e.tags);
  }

  /** The same for any ciphertext and tags that carry the loop blocks of m's
      encryption. */
  lemma CarriedTailRejects(c: BlockCipher, s0: Chain, m: seq<bv8>, sch: Schedule, ct: seq<bv8>, tags: seq<bv8>)
    requires Inverse(c) && GroupsFollow(sch, Groups(|m|)) && |ct| == |m| + 16
    requires 3 * Groups(|m|) < LoopBlocks(|m|)
    requires Carries(LoopEncryptor(c, sch), Tags(sch), s0, m, LoopBlocks(|m|), ct, tags)
    requires forall i: nat | 3 * Groups(|m|) <= i < LoopBlocks(|m|) - 1 :: !TagPoint(sch, i)
    requires TagPoint(sch, LoopBlocks(|m|) - 1)
    requires var k := LoopBlocks(|m|) - 1;
             var s := EncryptRun(LoopEncryptor(c, sch), s0, m, 0, k).chain;
             EncryptStep(c, s, BlockAt(m, k), true).chain.w != s.w
    ensures DecryptParallel(c, s0, ct, tags, sch, TailAsWritten).status == IntermediateTagMismatch
  {
    assert |ct| - 16 == |m|;
    GroupsThenBlocks(|m|);
    CarriedTailFails(c, s0, m, sch, 3 * Groups(|m|), ct, tags);
    LoopsFailed(c, s0, ct, tags, sch, TailAsWritten, |m|);
  }

  /** Decrypting the loop blocks of an encryption up to its last loop block
      reaches the state encryption had there, and that block's ciphertext and
      tag are where decryption reads them. */
  lemma LastLoopBlock(c: BlockCipher, s0: Chain, m: seq<bv8>, sch: Schedule, n: nat, ct: seq<bv8>, tags: seq<bv8>)
    requires Inverse(c) && n > 0 && TagPoint(sch, n - 1)
    requires Carries(LoopEncryptor(c, sch), Tags(sch), s0, m, n, ct, tags)
    ensures var s := EncryptRun(LoopEncryptor(c, sch), s0, m, 0, n - 1).chain;
            var e := EncryptStep(c, s, BlockAt(m, n - 1), true);
            var d := DecryptRun(LoopDecryptor(c, sch), Tags(sch), s0, ct, tags, 0, 0, n - 1);
            d.Running? && d.chain == s && BlockAt(ct, n - 1) == e.ct && TagBlockAt(tags, d.used) == e.tag
  {
    var s := EncryptRun(LoopEncryptor(c, sch), s0, m, 0, n - 1).chain;
    LoopTags(c, sch);
    CarriesFewer(LoopEncryptor(c, sch), Tags(sch), s0, m, n, ct, tags);
    LoopRoundTrip(c, sch, s0, m, n - 1, ct, tags);
    assert LoopEncryptor(c, sch)(s, BlockAt(m, n - 1), n - 1) == EncryptStep(c, s, BlockAt(m, n - 1), true);
    assert Tags(sch)(n - 1);
  }

  /** The loop blocks of an encryption, decrypted with the body as written
      after block lo, stop at the last loop block if it is the only tag point
      after lo and rho changed W there. */
  lemma CarriedTailFails(c: BlockCipher, s0: Chain, m: seq<bv8>, sch: Schedule, lo: nat, ct: seq<bv8>, tags: seq<bv8>)
    requires Inverse(c) && lo < LoopBlocks(|m|) && |ct| == |m| + 16
    requires Carries(LoopEncryptor(c, sch), Tags(sch), s0, m, LoopBlocks(|m|), ct, tags)
    requires forall i: nat | lo <= i < LoopBlocks(|m|) - 1 :: !TagPoint(sch, i)
    requires TagPoint(sch, LoopBlocks(|m|) - 1)
    requires var k := LoopBlocks(|m|) - 1;
             var s := EncryptRun(LoopEncryptor(c, sch), s0, m, 0, k).chain;
             EncryptStep(c, s, BlockAt(m, k), true).chain.w != s.w
    ensures Continued(DecryptRun(LoopDecryptor(c, sch), Tags(sch), s0, ct, tags, 0, 0, lo),
                      TailDecryptor(c, sch, TailAsWritten), Tags(sch), ct, tags, lo, LoopBlocks(|m|)) == TagFailed
  {
    LastTagFails(c, s0, m, sch, LoopBlocks(|m|), ct, tags);
    TailRunFails(c, s0, ct, tags, sch, lo, LoopBlocks(|m|));
  }

  /** The body as written rejects the tag encryption wrote for the last loop
      block, a tag point, when rho changed W there. */
  lemma LastTagFails(c: BlockCipher, s0: Chain, m: seq<bv8>, sch: Schedule, n: nat, ct: seq<bv8>, tags: seq<bv8>)
    requires Inverse(c) && n > 0 && TagPoint(sch, n - 1)
    requires Carries(LoopEncryptor(c, sch), Tags(sch), s0, m, n, ct, tags)
    requires var s := EncryptRun(LoopEncryptor(c, sch), s0, m, 0, n - 1).chain;
             EncryptStep(c, s, BlockAt(m, n - 1), true).chain.w != s.w
    ensures var d := DecryptRun(LoopDecryptor(c, sch), Tags(sch), s0, ct, tags, 0, 0, n - 1);
            d.Running? && !TailDecryptStep(c, d.chain, BlockAt(ct, n - 1), TagBlockAt(tags, d.used), true).tagOk
  {
    var s := EncryptRun(LoopEncryptor(c, sch), s0, m, 0, n - 1).chain;
    LastLoopBlock(c, s0, m, sch, n, ct, tags);
    TailTagAsWritten(c, s, BlockAt(m, n - 1));
  }

  // ---------------------------------------------------------------------
  // Round trips.

  /** What the single-block decryption opens, the 3-wide decryption (with the
      loop body of src/colm.c after the groups) opens. */
  lemma SealedOpens(c: BlockCipher, s0: Chain, m: seq<bv8>, sch: Schedule, e: Sealed)
    requires GroupsFollow(sch, Groups(|m|)) && |e.ct| == |m| + 16 && TagsCover(sch, e.ct, e.tags)
    requires DecryptMessage(c, s0, e.ct, e.tags, sch) == Opened(Ok, m)
    ensures DecryptParallel(c, s0, e.ct, e.tags, sch, TailAsLoop) == Opened(Ok, m)
  {
    assert |e.ct| - 16 == |m|;
    DecryptParallelIsSequential(c, s0, e.ct, e.tags, sch);
  }

  /** The single-block decryption opens what the single-block encryption
      sealed. */
  lemma SequentialOpens(c: BlockCipher, s0: Chain, m: seq<bv8>, sch: Schedule, e: Sealed)
    requires Inverse(c) && e == EncryptMessage(c, s0, m, sch, TagEncrypted)
    ensures |e.ct| == |m| + 16 && TagsCover(sch, e.ct, e.tags) && DecryptMessage(c, s0, e.ct, e.tags, sch) == Opened(Ok, m)
  {
    MessageRoundTrip(c, s0, m, sch, TagEncrypted);
  }

  /** Under a schedule its groups follow, the 3-wide decryption (with the
      loop body of src/colm.c after the groups) opens what the 3-wide
      encryption sealed, with the tags it wrote. */
  lemma ParallelRoundTrip(c: BlockCipher, s0: Chain, m: seq<bv8>, sch: Schedule)
    requires Inverse(c) && GroupsFollow(sch, Groups(|m|))
    ensures var e := EncryptParallel(c, s0, m, sch);
            && TagsCover(sch, e.ct, e.tags)
            && DecryptParallel(c, s0, e.ct, e.tags, sch, TailAsLoop) == Opened(Ok, m)
  {
    var e := EncryptParallel(c, s0, m, sch);
    EncryptParallelIsSequential(c, s0, m, sch);
    SequentialOpens(c, s0, m, sch, e);
    SealedOpens(c, s0, m, sch, e);
  }

  /** As written, the 3-wide decryption opens what the 3-wide encryption
      sealed when no block of the single-block loop after the groups is a
      tag point. */
  lemma ParallelAsWrittenRoundTrip(c: BlockCipher, s0: Chain, m: seq<bv8>, sch: Schedule)
    requires Inverse(c) && GroupsFollow(sch, Groups(|m|)) && NoTailTags(sch, |m|)
    ensures var e := EncryptParallel(c, s0, m, sch);
            && TagsCover(sch, e.ct, e.tags)
            && DecryptParallel(c, s0, e.ct, e.tags, sch, TailAsWritten) == Opened(Ok, m)
  {
    var e := EncryptParallel(c, s0, m, sch);
    EncryptParallelIsSequential(c, s0, m, sch);
    SequentialOpens(c, s0, m, sch, e);
    SealedOpens(c, s0, m, sch, e);
    AsWrittenOpens(c, s0, m, sch, e);
  }

  /** COLM0's 3-wide decryption, given no tag array, opens what its 3-wide
      encryption sealed, which has no intermediate tags. */
  lemma NoTagsRoundTrip(c: BlockCipher, s0: Chain, m: seq<bv8>)
    requires Inverse(c)
    ensures var e := EncryptParallel(c, s0, m, NoTags);
            && e.tags == []
            && DecryptParallel(c, s0, e.ct, [], NoTags, TailAsLoop) == Opened(Ok, m)
  {
    NoTagsSealed(c, s0, m);
    ParallelRoundTrip(c, s0, m, NoTags);
  }

  lemma NoTagsSealed(c: BlockCipher, s0: Chain, m: seq<bv8>)
    ensures EncryptParallel(c, s0, m, NoTags).tags == []
  {
    EncryptParallelIsSequential(c, s0, m, NoTags);
    NoTagsCount(LoopBlocks(|m|) + 1);
  }

  /** What the round trip needs: a cipher with its inverse, groups that
      follow the schedule and, for the body as written, no tag point in the
      single-block loop after the groups. */
  ghost predicate RoundTripSafe(c: BlockCipher, sch: Schedule, len: nat, tail: TailStyle)
  {
    Inverse(c) && GroupsFollow(sch, Groups(len)) && (tail == TailAsWritten ==> NoTailTags(sch, len))
  }

  /** The round trip with either body of the single-block decryption loop,
      the one as written needing no tag point in that loop. */
  lemma StyledRoundTrip(c: BlockCipher, s0: Chain, m: seq<bv8>, sch: Schedule, tail: TailStyle)
    requires RoundTripSafe(c, sch, |m|, tail)
    ensures var e := EncryptParallel(c, s0, m, sch);
            && TagsCover(sch, e.ct, e.tags)
            && DecryptParallel(c, s0, e.ct, e.tags, sch, tail) == Opened(Ok, m)
  {
    if tail == TailAsWritten {
      ParallelAsWrittenRoundTrip(c, s0, m, sch);
    } else {
      ParallelRoundTrip(c, s0, m, sch);
    }
  }

  lemma AsWrittenOpens(c: BlockCipher, s0: Chain, m: seq<bv8>, sch: Schedule, e: Sealed)
    requires |e.ct| == |m| + 16 && NoTailTags(sch, |m|)
    requires DecryptParallel(c, s0, e.ct, e.tags, sch, TailAsLoop) == Opened(Ok, m)
    ensures DecryptParallel(c, s0, e.ct, e.tags, sch, TailAsWritten) == Opened(Ok, m)
  {
    assert |e.ct| - 16 == |m|;
    TailAsWrittenAgrees(c, s0, e.ct, e.tags, sch);
  }
}
