/** COLM0 and COLM127 as the single-block code of src/colm.c computes them:
    the offsets and the chaining state carried from block to block, one
    function per loop body, the final (possibly partial) block and the
    checksum tag block. */
module ColmSpec {
  import opened Blocks
  import opened GaloisField
  import opened Mixing
  import opened Cipher

  /** Lanes 8..15 of the nonce parameter of COLM0 and of COLM127. */
  const Colm0Constant: bv64 := 0x0000800000000000
  const Colm127Constant: bv64 := 0x007F800000000000

  /** What the block loops carry: the rho state `w`, the offsets `delta_m` and
      `delta_c`, and the XOR of the message blocks seen so far. */
  datatype Chain = Chain(w: Block, dm: Block, dc: Block, checksum: Block)

  /** The state before the first block: delta_m = L, delta_c = 3(3L), W the MAC. */
  function Start(l: Block, w0: Block): (s: Chain)
    ensures s.checksum == Zero && s.dm == l && s.w == w0
  {
    Chain(w0, l, Mul3(Mul3(l)), Zero)
  }

  /** Where intermediate tags go. COLM0 has none. The single-block COLM127
      loop counts blocks from 1 and tags block i (from 0) when i + 1 is a
      multiple of 127. The 3-wide COLM127 code does so for the blocks of its
      `groups` 3-block iterations, but its counter runs two ahead in the
      single-block loop after them and at the final block: there block i is
      tagged when i + 3 is a multiple of 127. */
  datatype Schedule = NoTags | Every127 | Parallel127(groups: nat)

  predicate TagPoint(sch: Schedule, i: nat)
  {
    match sch
    case NoTags => false
    case Every127 => MultipleOf127(i + 1)
    case Parallel127(g) => MultipleOf127(if i < 3 * g then i + 1 else i + 3)
  }

  /** k % 127 == 0, by repeated subtraction, so that the verifier unfolds it
      only where a proof needs it. */
  predicate MultipleOf127(k: nat)
    decreases k
  {
    if k < 127 then k == 0 else MultipleOf127(k - 127)
  }

  lemma {:induction false} MultipleOf127Mod(k: nat)
    ensures MultipleOf127(k) <==> k % 127 == 0
    decreases k
  {
    if k >= 127 {
      MultipleOf127Mod(k - 127);
    }
  }

  /** delta_c for the next block: doubled, and at a tag point doubled once more. */
  function NextOffset(dc: Block, tagPoint: bool): Block
  {
    if tagPoint then Mul2(Mul2(dc)) else Mul2(dc)
  }

  /** The intermediate tag after a block: E(W') masked by delta_c at a tag
      point, nothing elsewhere. */
  function StepTag(c: BlockCipher, w: Block, dc: Block, tagPoint: bool): (t: seq<bv8>)
    ensures |t| == if tagPoint then 16 else 0
  {
    if tagPoint then Store(Xor(c.encrypt(w), dc)) else []
  }

  /** One block of the encryption loop: the ciphertext block, the intermediate
      tag when the block is a tag point (16 bytes, or none), and the new state. */
  datatype EncOut = EncOut(chain: Chain, ct: Block, tag: seq<bv8>)

  /** The body of the `while (remaining > BLOCKSIZE)` loop of `colm127_encrypt`
      (and, with no tag point, of `colm0_encrypt`). At a tag point delta_c is
      doubled once more before it masks both the tag E(W') and the block. */
  function EncryptStep(c: BlockCipher, s: Chain, p: Block, tagPoint: bool): (e: EncOut)
    ensures |e.tag| == if tagPoint then 16 else 0
  {
    var dm := Mul2(s.dm);
    var x := Load(p);
    var r := Rho(c.encrypt(Xor(x, dm)), s.w);
    var dc := NextOffset(s.dc, tagPoint);
    EncOut(Chain(r.state, dm, dc, Xor(s.checksum, x)), Store(Xor(c.encrypt(r.block), dc)), StepTag(c, r.state, dc, tagPoint))
  }

  /** One block of the decryption loop: the plaintext block, whether the
      intermediate tag (read only at a tag point) verified, and the new state. */
  datatype DecOut = DecOut(chain: Chain, pt: Block, tagOk: bool)

  /** The body of the `while (remaining > BLOCKSIZE)` loop of `colm127_decrypt`
      (and of `colm0_decrypt`): the tag is checked against the state after the
      inverse rho, with the `EQUALS` lane sum. */
  function DecryptStep(c: BlockCipher, s: Chain, ct: Block, tag: Block, tagPoint: bool): DecOut
  {
    var dc := NextOffset(s.dc, tagPoint);
    var dm := Mul2(s.dm);
    var ri := RhoInverse(c.decrypt(Xor(Load(ct), dc)), s.w);
    var ok := !tagPoint || Equals(c.decrypt(Xor(Load(tag), dc)), ri.state);
    var x := Xor(c.decrypt(ri.block), dm);
    DecOut(Chain(ri.state, dm, dc, Xor(s.checksum, x)), Store(x), ok)
  }

  /** Decrypting an encrypted block gives back the block and its tag verifies,
      and both sides end in the same state. */
  lemma StepRoundTrip(c: BlockCipher, s: Chain, p: Block, tag: Block, tagPoint: bool)
    requires Inverse(c)
    requires tagPoint ==> tag == EncryptStep(c, s, p, tagPoint).tag
    ensures DecryptStep(c, s, EncryptStep(c, s, p, tagPoint).ct, tag, tagPoint)
         == DecOut(EncryptStep(c, s, p, tagPoint).chain, p, true)
  {
    var e := EncryptStep(c, s, p, tagPoint);
    var dm := Mul2(s.dm);
    var x := Load(p);
    var r := Rho(c.encrypt(Xor(x, dm)), s.w);
    var dc := e.chain.dc;
    LoadStore(p, Xor(c.encrypt(r.block), dc));
    XorCancel(c.encrypt(r.block), dc);
    RhoInverseUndoesRho(c.encrypt(Xor(x, dm)), s.w);
    XorCancel(x, dm);
    LoadStore(p, x);
    if tagPoint {
      LoadStore(p, Xor(c.encrypt(r.state), dc));
      XorCancel(c.encrypt(r.state), dc);
      EqualsIff(r.state, r.state);
    }
  }

  /** Conversely, the block a decryption step produces encrypts back to the
      ciphertext block it came from, through the same state; and where the
      tag verified it is the tag encryption emits. */
  lemma StepInverse(c: BlockCipher, s: Chain, ct: Block, tag: Block, tagPoint: bool)
    requires Inverse(c)
    ensures EncryptStep(c, s, DecryptStep(c, s, ct, tag, tagPoint).pt, tagPoint).ct == ct
    ensures EncryptStep(c, s, DecryptStep(c, s, ct, tag, tagPoint).pt, tagPoint).chain
         == DecryptStep(c, s, ct, tag, tagPoint).chain
    ensures tagPoint && DecryptStep(c, s, ct, tag, tagPoint).tagOk ==>
              EncryptStep(c, s, DecryptStep(c, s, ct, tag, tagPoint).pt, tagPoint).tag == tag
  {
    var d := DecryptStep(c, s, ct, tag, tagPoint);
    var dc := d.chain.dc;
    var dm := Mul2(s.dm);
    var ri := RhoInverse(c.decrypt(Xor(Load(ct), dc)), s.w);
    var x := Xor(c.decrypt(ri.block), dm);
    LoadStore(ct, x);
    XorCancel(c.decrypt(ri.block), dm);
    RhoUndoesRhoInverse(c.decrypt(Xor(Load(ct), dc)), s.w);
    XorCancel(Load(ct), dc);
    LoadStore(ct, ct);
    if tagPoint && d.tagOk {
      EqualsIff(c.decrypt(Xor(Load(tag), dc)), ri.state);
      XorCancel(Load(tag), dc);
      LoadStore(tag, tag);
    }
  }

  // ---------------------------------------------------------------------
  // The block loops.

  /** Block i (from 0) of a byte string. */
  function BlockAt(m: seq<bv8>, i: nat): Block
    requires 16 * (i + 1) <= |m|
  {
    m[16 * i .. 16 * (i + 1)]
  }

  /** A loop body: from the state, the plaintext block and its index to the
      step's output; and a tag-checking loop body: from the state, the
      ciphertext block, the tag read for it and its index. */
  type Encryptor = (Chain, Block, nat) -> EncOut
  type Decryptor = (Chain, Block, Block, nat) -> DecOut

  /** The ciphertext blocks and intermediate tags of a run of blocks, and the
      state after them. */
  datatype EncRun = EncRun(chain: Chain, ct: seq<bv8>, tags: seq<bv8>)

  /** Running enc over the full blocks lo .. hi - 1 of m, from state s. */
  function EncryptRun(enc: Encryptor, s: Chain, m: seq<bv8>, lo: nat, hi: nat): (r: EncRun)
    requires lo <= hi && 16 * hi <= |m|
    ensures |r.ct| == 16 * (hi - lo)
    decreases hi - lo
  {
    if lo == hi then EncRun(s, [], [])
    else
      var prev := EncryptRun(enc, s, m, lo, hi - 1);
      var e := enc(prev.chain, BlockAt(m, hi - 1), hi - 1);
      EncRun(e.chain, prev.ct + e.ct, prev.tags + e.tag)
  }

  /** How many of the indices lo .. hi - 1 satisfy isTag. */
  function Count(isTag: nat -> bool, lo: nat, hi: nat): nat
    requires lo <= hi
    decreases hi - lo
  {
    if lo == hi then 0 else Count(isTag, lo, hi - 1) + (if isTag(hi - 1) then 1 else 0)
  }

  /** Counting over more indices never counts fewer. */
  lemma {:induction false} CountGrows(isTag: nat -> bool, lo: nat, mid: nat, hi: nat)
    requires lo <= mid <= hi
    ensures Count(isTag, lo, mid) <= Count(isTag, lo, hi)
    decreases hi
  {
    if mid < hi {
      CountGrows(isTag, lo, mid, hi - 1);
    }
  }

  /** An encryptor emits a 16-byte tag exactly at the indices isTag picks. */
  ghost predicate TagsAt(enc: Encryptor, isTag: nat -> bool)
  {
    forall ch, p, i :: |enc(ch, p, i).tag| == if isTag(i) then 16 else 0
  }

  lemma {:induction false} EncryptRunTags(enc: Encryptor, isTag: nat -> bool, s: Chain, m: seq<bv8>, lo: nat, hi: nat)
    requires TagsAt(enc, isTag)
    requires lo <= hi && 16 * hi <= |m|
    ensures |EncryptRun(enc, s, m, lo, hi).tags| == 16 * Count(isTag, lo, hi)
    decreases hi - lo
  {
    if lo < hi {
      EncryptRunTags(enc, isTag, s, m, lo, hi - 1);
    }
  }

  /** Intermediate tag number u of the tag array, or zero past its end. */
  function TagBlockAt(tags: seq<bv8>, u: nat): Block
  {
    if 16 * (u + 1) <= |tags| then tags[16 * u .. 16 * (u + 1)] else Zero
  }

  /** The decryption loop either runs to the end, with the plaintext blocks,
      the state, and the number of tags read so far, or stops at a tag that
      did not verify (status -5). */
  datatype DecRun = Running(chain: Chain, pt: seq<bv8>, used: nat) | TagFailed

  /** Running dec over the ciphertext blocks lo .. hi - 1, from state s, with
      u tags already read; the next tag is read at each index isTag picks. */
  function DecryptRun(dec: Decryptor, isTag: nat -> bool, s: Chain, ct: seq<bv8>, tags: seq<bv8>, u: nat,
                      lo: nat, hi: nat): (r: DecRun)
    requires lo <= hi && 16 * hi <= |ct|
    ensures r.Running? ==> |r.pt| == 16 * (hi - lo) && r.used == u + Count(isTag, lo, hi)
    decreases hi - lo
  {
    if lo == hi then Running(s, [], u)
    else
      match DecryptRun(dec, isTag, s, ct, tags, u, lo, hi - 1)
      case TagFailed => TagFailed
      case Running(chain, pt, used) =>
        var d := dec(chain, BlockAt(ct, hi - 1), TagBlockAt(tags, used), hi - 1);
        if !d.tagOk then TagFailed
        else Running(d.chain, pt + d.pt, if isTag(hi - 1) then used + 1 else used)
  }

  /** Once a tag has failed, decrypting more blocks does not resume the run. */
  lemma {:induction false} DecryptRunStaysFailed(dec: Decryptor, isTag: nat -> bool, s: Chain, ct: seq<bv8>,
                                                 tags: seq<bv8>, u: nat, lo: nat, k: nat, n: nat)
    requires lo <= k <= n && 16 * n <= |ct|
    requires DecryptRun(dec, isTag, s, ct, tags, u, lo, k) == TagFailed
    ensures DecryptRun(dec, isTag, s, ct, tags, u, lo, n) == TagFailed
    decreases n
  {
    if k < n {
      DecryptRunStaysFailed(dec, isTag, s, ct, tags, u, lo, k, n - 1);
    }
  }

  /** dec undoes enc at every index, given the tag enc emitted where isTag holds. */
  ghost predicate Undoes(dec: Decryptor, enc: Encryptor, isTag: nat -> bool)
  {
    forall ch, p, i, tag {:trigger dec(ch, enc(ch, p, i).ct, tag, i)} ::
      (isTag(i) ==> tag == enc(ch, p, i).tag) ==>
        dec(ch, enc(ch, p, i).ct, tag, i) == DecOut(enc(ch, p, i).chain, p, true)
  }

  /** Splitting a slice at an inner point. */
  lemma SliceSplit(s: seq<bv8>, a: nat, b: nat, e: nat)
    requires a <= b <= e <= |s|
    ensures s[a..e] == s[a..b] + s[b..e]
  {
  }

  /** A slice equal to x + y splits into x and y. */
  lemma SliceOfConcat(s: seq<bv8>, a: nat, e: nat, x: seq<bv8>, y: seq<bv8>)
    requires a <= e <= |s| && s[a..e] == x + y
    ensures s[a..a + |x|] == x && s[a + |x|..e] == y
  {
    assert s[a..a + |x|] == (x + y)[..|x|];
    assert s[a + |x|..e] == (x + y)[|x|..];
  }

  /** Where the bytes after x in a slice equal to x + y are a 16-byte block. */
  lemma BlockOfConcat(s: seq<bv8>, a: nat, k: nat, x: seq<bv8>, y: seq<bv8>)
    requires |x| == 16 * k && |y| == 16
    requires 16 * a + 16 * k + 16 <= |s| && s[16 * a .. 16 * a + 16 * k + 16] == x + y
    ensures s[16 * a .. 16 * (a + k)] == x
    ensures BlockAt(s, a + k) == y && TagBlockAt(s, a + k) == y
  {
    SliceOfConcat(s, 16 * a, 16 * a + 16 * k + 16, x, y);
  }

  /** One more block of a decryption run whose tag verifies. */
  lemma DecryptRunStep(dec: Decryptor, isTag: nat -> bool, s: Chain, ct: seq<bv8>, tags: seq<bv8>, u: nat,
                       lo: nat, hi: nat, chain: Chain, pt: seq<bv8>, used: nat)
    requires lo < hi && 16 * hi <= |ct|
    requires DecryptRun(dec, isTag, s, ct, tags, u, lo, hi - 1) == Running(chain, pt, used)
    requires dec(chain, BlockAt(ct, hi - 1), TagBlockAt(tags, used), hi - 1).tagOk
    ensures DecryptRun(dec, isTag, s, ct, tags, u, lo, hi)
         == Running(dec(chain, BlockAt(ct, hi - 1), TagBlockAt(tags, used), hi - 1).chain,
                    pt + dec(chain, BlockAt(ct, hi - 1), TagBlockAt(tags, used), hi - 1).pt,
                    if isTag(hi - 1) then used + 1 else used)
  {
  }

  /** The ciphertext and tags of the first n blocks of a run are where a
      decryption of blocks 0 .. n - 1 reads them. */
  ghost predicate Carries(enc: Encryptor, isTag: nat -> bool, s: Chain, m: seq<bv8>, n: nat, ct: seq<bv8>, tags: seq<bv8>)
  {
    && 16 * n <= |m| && 16 * n <= |ct| && ct[..16 * n] == EncryptRun(enc, s, m, 0, n).ct
    && 16 * Count(isTag, 0, n) <= |tags| && tags[..16 * Count(isTag, 0, n)] == EncryptRun(enc, s, m, 0, n).tags
  }

  /** What carries n blocks carries the first n - 1, and holds block n - 1's
      ciphertext and tag where decryption reads them. */
  lemma CarriesFewer(enc: Encryptor, isTag: nat -> bool, s: Chain, m: seq<bv8>, n: nat, ct: seq<bv8>, tags: seq<bv8>)
    requires TagsAt(enc, isTag) && n > 0 && Carries(enc, isTag, s, m, n, ct, tags)
    ensures Carries(enc, isTag, s, m, n - 1, ct, tags)
    ensures BlockAt(ct, n - 1) == enc(EncryptRun(enc, s, m, 0, n - 1).chain, BlockAt(m, n - 1), n - 1).ct
    ensures isTag(n - 1) ==> TagBlockAt(tags, Count(isTag, 0, n - 1))
                             == enc(EncryptRun(enc, s, m, 0, n - 1).chain, BlockAt(m, n - 1), n - 1).tag
  {
    var prev := EncryptRun(enc, s, m, 0, n - 1);
    var e := enc(prev.chain, BlockAt(m, n - 1), n - 1);
    var k := Count(isTag, 0, n - 1);
    EncryptRunTags(enc, isTag, s, m, 0, n - 1);
    BlockOfConcat(ct, 0, n - 1, prev.ct, e.ct);
    if isTag(n - 1) {
      BlockOfConcat(tags, 0, k, prev.tags, e.tag);
    } else {
      assert prev.tags == EncryptRun(enc, s, m, 0, n).tags;
    }
  }

  /** Decrypting block n - 1 of a run, after the first n - 1 round-tripped. */
  lemma RunRoundTripStep(enc: Encryptor, dec: Decryptor, isTag: nat -> bool, s: Chain, m: seq<bv8>,
                         n: nat, ct: seq<bv8>, tags: seq<bv8>)
    requires Undoes(dec, enc, isTag) && TagsAt(enc, isTag)
    requires n > 0 && Carries(enc, isTag, s, m, n, ct, tags)
    requires DecryptRun(dec, isTag, s, ct, tags, 0, 0, n - 1)
          == Running(EncryptRun(enc, s, m, 0, n - 1).chain, m[..16 * (n - 1)], Count(isTag, 0, n - 1))
    ensures DecryptRun(dec, isTag, s, ct, tags, 0, 0, n)
         == Running(EncryptRun(enc, s, m, 0, n).chain, m[..16 * n], Count(isTag, 0, n))
  {
    var prev := EncryptRun(enc, s, m, 0, n - 1);
    var p := BlockAt(m, n - 1);
    var e := enc(prev.chain, p, n - 1);
    var k := Count(isTag, 0, n - 1);
    CarriesFewer(enc, isTag, s, m, n, ct, tags);
    var tag := TagBlockAt(tags, k);
    assert dec(prev.chain, e.ct, tag, n - 1) == DecOut(e.chain, p, true);
    DecryptRunStep(dec, isTag, s, ct, tags, 0, 0, n, prev.chain, m[..16 * (n - 1)], k);
    assert m[..16 * n] == m[..16 * (n - 1)] + p;
  }

  /** Decrypting the blocks a run of enc produced, with the tags it produced,
      runs to the end, gives back the message blocks and reaches the same state. */
  lemma {:induction false} RunRoundTrip(enc: Encryptor, dec: Decryptor, isTag: nat -> bool, s: Chain, m: seq<bv8>,
                                        n: nat, ct: seq<bv8>, tags: seq<bv8>)
    requires Undoes(dec, enc, isTag) && TagsAt(enc, isTag)
    requires Carries(enc, isTag, s, m, n, ct, tags)
    ensures DecryptRun(dec, isTag, s, ct, tags, 0, 0, n)
         == Running(EncryptRun(enc, s, m, 0, n).chain, m[..16 * n], Count(isTag, 0, n))
  {
    if n > 0 {
      CarriesFewer(enc, isTag, s, m, n, ct, tags);
      RunRoundTrip(enc, dec, isTag, s, m, n - 1, ct, tags);
      RunRoundTripStep(enc, dec, isTag, s, m, n, ct, tags);
    }
  }

  /** enc re-creates, from what dec produced, the ciphertext block dec read,
      the state dec reached, and, where isTag holds, the tag dec accepted. */
  ghost predicate Redoes(enc: Encryptor, dec: Decryptor, isTag: nat -> bool)
  {
    forall ch, cb, tag, i {:trigger dec(ch, cb, tag, i)} ::
      dec(ch, cb, tag, i).tagOk ==>
        enc(ch, dec(ch, cb, tag, i).pt, i) == EncOut(dec(ch, cb, tag, i).chain, cb, if isTag(i) then tag else [])
  }

  /** A decryption run that reaches block n ran through block n - 1, whose
      tag verified. */
  lemma DecryptRunFewer(dec: Decryptor, isTag: nat -> bool, s: Chain, ct: seq<bv8>, tags: seq<bv8>, n: nat)
    requires n > 0 && 16 * n <= |ct|
    requires DecryptRun(dec, isTag, s, ct, tags, 0, 0, n).Running?
    ensures DecryptRun(dec, isTag, s, ct, tags, 0, 0, n - 1).Running?
    ensures var d := DecryptRun(dec, isTag, s, ct, tags, 0, 0, n - 1);
            var o := dec(d.chain, BlockAt(ct, n - 1), TagBlockAt(tags, d.used), n - 1);
            o.tagOk && DecryptRun(dec, isTag, s, ct, tags, 0, 0, n)
                       == Running(o.chain, d.pt + o.pt, if isTag(n - 1) then d.used + 1 else d.used)
  {
  }

  /** The ciphertext and tags of the first n blocks are what a run of enc over
      m produces, ending in state ch. */
  ghost predicate Produces(enc: Encryptor, isTag: nat -> bool, s: Chain, m: seq<bv8>, n: nat,
                           ct: seq<bv8>, tags: seq<bv8>, ch: Chain)
    requires 16 * n <= |m| && 16 * n <= |ct| && 16 * Count(isTag, 0, n) <= |tags|
  {
    EncryptRun(enc, s, m, 0, n) == EncRun(ch, ct[..16 * n], tags[..16 * Count(isTag, 0, n)])
  }

  /** Re-encrypting block n - 1 of what a decryption run produced. */
  lemma RunInverseStep(enc: Encryptor, dec: Decryptor, isTag: nat -> bool, s: Chain, ct: seq<bv8>, tags: seq<bv8>,
                       n: nat, m: seq<bv8>)
    requires Redoes(enc, dec, isTag)
    requires n > 0 && 16 * n <= |ct| && 16 * Count(isTag, 0, n) <= |tags| && 16 * n <= |m|
    requires DecryptRun(dec, isTag, s, ct, tags, 0, 0, n).Running?
    requires m[..16 * n] == DecryptRun(dec, isTag, s, ct, tags, 0, 0, n).pt
    requires DecryptRun(dec, isTag, s, ct, tags, 0, 0, n - 1).Running?
    requires Produces(enc, isTag, s, m, n - 1, ct, tags, DecryptRun(dec, isTag, s, ct, tags, 0, 0, n - 1).chain)
    ensures Produces(enc, isTag, s, m, n, ct, tags, DecryptRun(dec, isTag, s, ct, tags, 0, 0, n).chain)
  {
    DecryptRunFewer(dec, isTag, s, ct, tags, n);
    var d := DecryptRun(dec, isTag, s, ct, tags, 0, 0, n - 1);
    var k := Count(isTag, 0, n - 1);
    var tag := TagBlockAt(tags, d.used);
    var o := dec(d.chain, BlockAt(ct, n - 1), tag, n - 1);
    assert m[..16 * n][16 * (n - 1)..] == o.pt;
    assert BlockAt(m, n - 1) == o.pt;
    assert ct[..16 * n] == ct[..16 * (n - 1)] + BlockAt(ct, n - 1);
    if isTag(n - 1) {
      assert tags[..16 * (k + 1)] == tags[..16 * k] + tag;
    }
  }

  /** Re-encrypting what a decryption run produced gives back the ciphertext
      blocks it read and the tags it accepted, and ends in the same state. */
  lemma {:induction false} RunInverse(enc: Encryptor, dec: Decryptor, isTag: nat -> bool, s: Chain,
                                      ct: seq<bv8>, tags: seq<bv8>, n: nat, m: seq<bv8>)
    requires Redoes(enc, dec, isTag)
    requires 16 * n <= |ct| && 16 * Count(isTag, 0, n) <= |tags| && 16 * n <= |m|
    requires DecryptRun(dec, isTag, s, ct, tags, 0, 0, n).Running?
    requires m[..16 * n] == DecryptRun(dec, isTag, s, ct, tags, 0, 0, n).pt
    ensures Produces(enc, isTag, s, m, n, ct, tags, DecryptRun(dec, isTag, s, ct, tags, 0, 0, n).chain)
  {
    if n > 0 {
      DecryptRunFewer(dec, isTag, s, ct, tags, n);
      var d := DecryptRun(dec, isTag, s, ct, tags, 0, 0, n - 1);
      assert m[..16 * (n - 1)] == m[..16 * n][..16 * (n - 1)];
      RunInverse(enc, dec, isTag, s, ct, tags, n - 1, m);
      RunInverseStep(enc, dec, isTag, s, ct, tags, n, m);
    }
  }

  // ---------------------------------------------------------------------
  // The loop bodies of src/colm.c as encryptor and decryptor.

  /** The tag points of a schedule, as a predicate on block indices. */
  function Tags(sch: Schedule): nat -> bool
  {
    (i: nat) => TagPoint(sch, i)
  }

  /** The body of the encryption loop, block i a tag point as sch says. */
  function LoopEncryptor(c: BlockCipher, sch: Schedule): Encryptor
  {
    (ch: Chain, p: Block, i: nat) => EncryptStep(c, ch, p, TagPoint(sch, i))
  }

  /** The body of the decryption loop, block i a tag point as sch says. */
  function LoopDecryptor(c: BlockCipher, sch: Schedule): Decryptor
  {
    (ch: Chain, cb: Block, tag: Block, i: nat) => DecryptStep(c, ch, cb, tag, TagPoint(sch, i))
  }

  lemma LoopTags(c: BlockCipher, sch: Schedule)
    ensures TagsAt(LoopEncryptor(c, sch), Tags(sch))
  {
  }

  /** Under a block cipher the two loop bodies undo each other. */
  lemma LoopStepsInvert(c: BlockCipher, sch: Schedule)
    requires Inverse(c)
    ensures Undoes(LoopDecryptor(c, sch), LoopEncryptor(c, sch), Tags(sch))
    ensures Redoes(LoopEncryptor(c, sch), LoopDecryptor(c, sch), Tags(sch))
  {
    forall ch: Chain, p: Block, i: nat, tag: Block | TagPoint(sch, i) ==> tag == EncryptStep(c, ch, p, TagPoint(sch, i)).tag
      ensures DecryptStep(c, ch, EncryptStep(c, ch, p, TagPoint(sch, i)).ct, tag, TagPoint(sch, i))
           == DecOut(EncryptStep(c, ch, p, TagPoint(sch, i)).chain, p, true)
    {
      StepRoundTrip(c, ch, p, tag, TagPoint(sch, i));
    }
    forall ch: Chain, cb: Block, tag: Block, i: nat | DecryptStep(c, ch, cb, tag, TagPoint(sch, i)).tagOk
      ensures EncryptStep(c, ch, DecryptStep(c, ch, cb, tag, TagPoint(sch, i)).pt, TagPoint(sch, i))
           == EncOut(DecryptStep(c, ch, cb, tag, TagPoint(sch, i)).chain, cb, if TagPoint(sch, i) then tag else [])
    {
      StepInverse(c, ch, cb, tag, TagPoint(sch, i));
    }
  }
}
